/** The `cambios_imagen` table: an append-only log of applied changes. Each
    row carries the id `INTEGER PRIMARY KEY AUTOINCREMENT` assigns it, and the
    latest change is the row with the largest id. */
module History {
  import opened Failures
  import opened Clock

  /** The two text columns of a row: the image url and the time stamp. */
  datatype Change = Change(imageUrl: string, stamp: string)

  /** A stored row: its id and its columns. */
  datatype Row = Row(id: nat, change: Change)

  /** The zero value of the Go record: what a read of an empty table yields. */
  const Zero: Change := Change("", "")

  /** Ids are positive and grow strictly with insertion order. */
  ghost predicate IdsIncreasing(rows: seq<Row>)
  {
    (forall i :: 0 <= i < |rows| ==> rows[i].id >= 1) &&
    (forall i, j :: 0 <= i < j < |rows| ==> rows[i].id < rows[j].id)
  }

  /** The id AUTOINCREMENT gives the next row: one more than the largest id
      ever used, which in a table nobody deletes from is the last row's id. */
  function NextId(rows: seq<Row>): nat
  {
    if rows == [] then 1 else rows[|rows| - 1].id + 1
  }

  /** The row "ORDER BY id DESC LIMIT 1" selects from a non-empty table. */
  function MaxIdRow(rows: seq<Row>): (r: Row)
    requires rows != []
    ensures r in rows
    ensures forall i :: 0 <= i < |rows| ==> rows[i].id <= r.id
  {
    if |rows| == 1 then rows[0]
    else
      var m := MaxIdRow(rows[1..]);
      if rows[0].id > m.id then rows[0] else m
  }

  /** What `obtenerUltimoCambioDeImagen` reads: the columns of the row with
      the largest id, or the zero record when the table is empty. */
  function LatestOf(rows: seq<Row>): Change
  {
    if rows == [] then Zero else MaxIdRow(rows).change
  }

  /** With increasing ids the row with the largest id is the last one
      inserted. */
  lemma {:induction false} MaxIdRowIsLast(rows: seq<Row>)
    requires rows != [] && IdsIncreasing(rows)
    ensures MaxIdRow(rows) == rows[|rows| - 1]
  {
    if |rows| > 1 {
      assert IdsIncreasing(rows[1..]);
      MaxIdRowIsLast(rows[1..]);
    }
  }

  /** Appending with the next id keeps the ids increasing, and the next read
      returns the appended change. */
  lemma LatestAfterAppend(rows: seq<Row>, c: Change)
    requires IdsIncreasing(rows)
    ensures IdsIncreasing(rows + [Row(NextId(rows), c)])
    ensures LatestOf(rows + [Row(NextId(rows), c)]) == c
  {
    var rows' := rows + [Row(NextId(rows), c)];
    assert IdsIncreasing(rows') by {
      forall i, j | 0 <= i < j < |rows'| ensures rows'[i].id < rows'[j].id {
        if j == |rows| && j - 1 != i {
          assert rows[i].id < rows[j - 1].id;
        }
      }
    }
    MaxIdRowIsLast(rows');
  }

  class ChangeLog {
    var rows: seq<Row>

    ghost predicate Valid()
      reads this
    {
      IdsIncreasing(rows)
    }

    /** A freshly created table. */
    constructor ()
      ensures Valid() && rows == []
    {
      rows := [];
    }

    /** `obtenerUltimoCambioDeImagen`. When the database cannot be read the
        zero record comes back with a storage error; an empty table is not an
        error. The query is answered by reading the last row. */
    method Latest(readFails: bool) returns (c: Change, err: Option<Error>)
      requires Valid()
      ensures readFails ==> c == Zero && err == Some(Storage)
      ensures !readFails ==> c == LatestOf(rows) && err == None
    {
      if readFails {
        return Zero, Some(Storage);
      }
      if |rows| == 0 {
        return Zero, None;
      }
      MaxIdRowIsLast(rows);
      c, err := rows[|rows| - 1].change, None;
    }

    /** `registrarCambioDeImagen`: inserts the url with the local clock's
        timestamp under the next id, or fails with a storage error and leaves
        the table as it was. */
    method Register(imageUrl: string, now: DateTime, writeFails: bool) returns (err: Option<Error>)
      requires Valid()
      modifies this
      ensures Valid()
      ensures writeFails ==> err == Some(Storage) && rows == old(rows)
      ensures !writeFails ==>
        err == None && rows == old(rows) + [Row(NextId(old(rows)), Change(imageUrl, Timestamp(now)))]
    {
      if writeFails {
        return Some(Storage);
      }
      LatestAfterAppend(rows, Change(imageUrl, Timestamp(now)));
      rows := rows + [Row(NextId(rows), Change(imageUrl, Timestamp(now)))];
      err := None;
    }
  }
}
