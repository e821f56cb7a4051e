/** The formatting half of `fechaYHoraActual`: a local date and time written
    as `%d-%02d-%02dT%02d:%02d:%02d`. Reading the clock is not modelled; the
    broken-down time is a parameter. */
module Clock {
  import opened Lexical

  /** The fields `time.Time` hands to the format: year, month, day, hour,
      minute, second. */
  datatype DateTime = DateTime(year: int, month: nat, day: nat, hour: nat, minute: nat, second: nat)

  function DigitChar(d: nat): (c: char)
    requires d < 10
    ensures '0' <= c <= '9'
  {
    ('0' as int + d) as char
  }

  predicate IsDigits(s: string)
  {
    forall i :: 0 <= i < |s| ==> '0' <= s[i] <= '9'
  }

  /** Decimal digits of `n` without padding (`%d` on a non-negative value). */
  function Digits(n: nat): (r: string)
    ensures |r| >= 1 && IsDigits(r)
  {
    if n < 10 then [DigitChar(n)] else Digits(n / 10) + [DigitChar(n % 10)]
  }

  /** The number a string of decimal digits denotes. */
  function Value(s: string): nat
    requires IsDigits(s)
  {
    if s == [] then 0 else 10 * Value(s[..|s| - 1]) + (s[|s| - 1] as int - '0' as int)
  }

  /** `%d` on the year, which may be negative: a minus sign for negative
      years, then the digits of the magnitude. */
  function YearText(y: int): (r: string)
    ensures y >= 0 ==> IsDigits(r) && Value(r) == y
    ensures y < 0 ==> |r| >= 2 && r[0] == '-' && IsDigits(r[1..]) && Value(r[1..]) == -y
  {
    if y < 0 then
      DigitsValue(-y);
      assert ("-" + Digits(-y))[1..] == Digits(-y);
      "-" + Digits(-y)
    else
      DigitsValue(y);
      Digits(y)
  }

  /** `%02d`: at least two digits, a leading zero below ten. */
  function Pad2(n: nat): (r: string)
    ensures |r| >= 2 && IsDigits(r)
  {
    if n < 10 then "0" + Digits(n) else Digits(n)
  }

  /** One separator followed by a zero-padded field. */
  function Field(sep: char, n: nat): string
  {
    [sep] + Pad2(n)
  }

  /** The timestamp `fechaYHoraActual` returns for the time `t`. */
  function Timestamp(t: DateTime): string
  {
    YearText(t.year) + Field('-', t.month) + Field('-', t.day)
      + Field('T', t.hour) + Field(':', t.minute) + Field(':', t.second)
  }

  /** Times whose every field prints at a fixed width: a four-digit year and
      the other five fields below 100 (as every real clock reading is). */
  predicate FixedWidth(t: DateTime)
  {
    1000 <= t.year <= 9999 && t.month < 100 && t.day < 100
      && t.hour < 100 && t.minute < 100 && t.second < 100
  }

  /** Chronological order: field by field, the year first. */
  predicate Before(a: DateTime, b: DateTime)
  {
    if a.year != b.year then a.year < b.year
    else if a.month != b.month then a.month < b.month
    else if a.day != b.day then a.day < b.day
    else if a.hour != b.hour then a.hour < b.hour
    else if a.minute != b.minute then a.minute < b.minute
    else a.second < b.second
  }

  /** Printing a number and reading it back gives the number. */
  lemma {:induction false} DigitsValue(n: nat)
    ensures Value(Digits(n)) == n
  {
    if n >= 10 {
      var d := Digits(n);
      assert d[..|d| - 1] == Digits(n / 10);
      DigitsValue(n / 10);
    }
  }

  /** A four-digit number prints as exactly four digits. */
  lemma FourDigits(n: nat)
    requires 1000 <= n <= 9999
    ensures |Digits(n)| == 4
  {
    assert 100 <= n / 10 <= 999 && 10 <= n / 10 / 10 <= 99 && 1 <= n / 10 / 10 / 10 <= 9;
    assert |Digits(n / 10 / 10)| == 2;
  }

  /** `%02d` zero-pads every value below 100 to two digits that read back as
      the value, and leaves wider values unpadded. */
  lemma Pad2Shape(n: nat)
    ensures n < 100 ==> |Pad2(n)| == 2 && IsDigits(Pad2(n)) && Value(Pad2(n)) == n
    ensures n >= 100 ==> Pad2(n) == Digits(n) && |Pad2(n)| > 2
  {
    DigitsValue(n);
    if n < 10 {
      var p := Pad2(n);
      assert p[..1] == "0";
    } else if n >= 100 {
      assert |Digits(n / 10)| >= 2;
    }
  }

  /** For digit strings of the same width, the string order is the numeric
      order. */
  lemma {:induction false} DigitsOrder(a: string, b: string)
    requires |a| == |b| && IsDigits(a) && IsDigits(b)
    ensures LexLess(a, b) <==> Value(a) < Value(b)
    decreases |a|
  {
    if |a| > 0 {
      var n := |a| - 1;
      var a', b' := a[..n], b[..n];
      assert a == a' + [a[n]] && b == b' + [b[n]];
      LexLessConcat(a', [a[n]], b', [b[n]]);
      DigitsOrder(a', b');
      DigitsOrder(b', a');
      LexTotal(a', b');
      LexAsymmetric(a', b');
      LexIrreflexive(a');
      assert LexLess([a[n]], [b[n]]) <==> a[n] < b[n] by {
        assert [a[n]][1..] == [] && [b[n]][1..] == [];
      }
    } else {
      assert a == b;
      LexIrreflexive(a);
    }
  }

  /** Equal-width digit strings are equal exactly when their values are. */
  lemma DigitsEqual(a: string, b: string)
    requires |a| == |b| && IsDigits(a) && IsDigits(b)
    ensures a == b <==> Value(a) == Value(b)
  {
    DigitsOrder(a, b);
    DigitsOrder(b, a);
    LexTotal(a, b);
  }

  /** Appending one more fixed-width field compares the prefixes first and
      the fields only on a tie. */
  lemma FieldStep(p: string, q: string, sep: char, m: nat, n: nat)
    requires |p| == |q| && m < 100 && n < 100
    ensures LexLess(p + Field(sep, m), q + Field(sep, n)) <==> LexLess(p, q) || (p == q && m < n)
    ensures p + Field(sep, m) == q + Field(sep, n) <==> p == q && m == n
  {
    Pad2Shape(m);
    Pad2Shape(n);
    LexLessConcat(p, Field(sep, m), q, Field(sep, n));
    assert Field(sep, m)[1..] == Pad2(m) && Field(sep, n)[1..] == Pad2(n);
    DigitsOrder(Pad2(m), Pad2(n));
    DigitsEqual(Pad2(m), Pad2(n));
    if p + Field(sep, m) == q + Field(sep, n) {
      assert p == (p + Field(sep, m))[..|p|];
      assert Pad2(m) == (p + Field(sep, m))[|p| + 1..];
    }
  }

  /** For fixed-width times the timestamp is nineteen characters long with its
      separators at positions 4, 7, 10, 13 and 16. */
  lemma TimestampShape(t: DateTime)
    requires FixedWidth(t)
    ensures var s := Timestamp(t);
      |s| == 19 && s[4] == '-' && s[7] == '-' && s[10] == 'T' && s[13] == ':' && s[16] == ':'
  {
    FourDigits(t.year);
    Pad2Shape(t.month);
    Pad2Shape(t.day);
    Pad2Shape(t.hour);
    Pad2Shape(t.minute);
    Pad2Shape(t.second);
  }

  /** For fixed-width times, comparing timestamps as strings (what the tick
      does) agrees with chronological order. */
  lemma TimestampOrder(a: DateTime, b: DateTime)
    requires FixedWidth(a) && FixedWidth(b)
    ensures LexLess(Timestamp(a), Timestamp(b)) <==> Before(a, b)
    ensures Timestamp(a) == Timestamp(b) <==> a == b
  {
    var ya, yb := YearText(a.year), YearText(b.year);
    FourDigits(a.year);
    FourDigits(b.year);
    DigitsValue(a.year);
    DigitsValue(b.year);
    DigitsOrder(ya, yb);
    DigitsEqual(ya, yb);
    Pad2Shape(a.month); Pad2Shape(a.day); Pad2Shape(a.hour); Pad2Shape(a.minute);
    Pad2Shape(b.month); Pad2Shape(b.day); Pad2Shape(b.hour); Pad2Shape(b.minute);
    var p1, q1 := ya + Field('-', a.month), yb + Field('-', b.month);
    FieldStep(ya, yb, '-', a.month, b.month);
    var p2, q2 := p1 + Field('-', a.day), q1 + Field('-', b.day);
    FieldStep(p1, q1, '-', a.day, b.day);
    var p3, q3 := p2 + Field('T', a.hour), q2 + Field('T', b.hour);
    FieldStep(p2, q2, 'T', a.hour, b.hour);
    var p4, q4 := p3 + Field(':', a.minute), q3 + Field(':', b.minute);
    FieldStep(p3, q3, ':', a.minute, b.minute);
    FieldStep(p4, q4, ':', a.second, b.second);
  }

  /** The string order stops matching time once the year leaves four digits:
      the year 10000 sorts before the year 9999. */
  lemma FiveDigitYearSortsFirst()
    ensures var later, earlier := DateTime(10000, 1, 1, 0, 0, 0), DateTime(9999, 1, 1, 0, 0, 0);
      Before(earlier, later) && LexLess(Timestamp(later), Timestamp(earlier))
  {
    assert Digits(10000) == "10000";
    assert Digits(9999) == "9999";
  }
}
