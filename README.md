# wallpaper-change: a verified model of the reconcile tick

The program polls a remote text resource once an hour. The resource publishes
`<image url>,<timestamp>`. The program compares that pair with the last change
recorded in its SQLite table `cambios_imagen`. When they differ, it downloads
the image to a temporary file, asks an external executable to set it as the
desktop wallpaper, deletes the file and records the change.

This project models that tick from `main.go` in Dafny:

- `Failures`, `Http`: error kinds, `Option`/`Result`, and an HTTP reply as data.
- `Lexical`: Go's byte-wise `<` on strings as `LexLess`. It is proved to be a
  strict total order. The module also proves how it behaves on strings built
  from fixed-width blocks. Dafny characters are Unicode scalar values, and
  UTF-8 keeps code-point order. So for valid UTF-8 text, comparing characters
  gives the same answer as Go comparing bytes.
- `Strings`: `strings.Split` on one separator character, with its field count
  and its inverse `Join`.
- `Gist`: the body handling of `obtenerDetallesGist`. The status is checked
  first, then the body must split into exactly two fields.
- `Clock`: the `%d-%02d-%02dT%02d:%02d:%02d` formatting of
  `fechaYHoraActual`. The clock reading is a parameter.
- `Download`: `extensionImagenSegunContentType`, the temporary file name, and a
  `WorkingDirectory` class whose set of file names the download and the removal
  update.
- `History`: the `cambios_imagen` table as a `ChangeLog` class holding an
  append-only `seq` of rows. Each row carries the id `AUTOINCREMENT` gives it.
  The class invariant keeps ids positive and strictly increasing. Reading the
  latest change means taking the row with the largest id, and this is proved
  to be the last row.
- `Reconcile`: the decision at line 64 (`ShouldAct`); the whole tick as a
  function of the state before it (`TickSpec`); and the imperative `Tick` and
  `DownloadAndApply` methods, proved to produce exactly that state.

External outcomes are fields of `Reconcile.Env`:

- whether each database, file or subprocess step fails;
- the two HTTP replies;
- the generated unique id;
- the clock.

Behaviour of `main.go` worth knowing:

- The recorded timestamp is the local clock at the moment of recording
  (main.go:199), not the remote timestamp. A first tick therefore stores
  `(url, local time)`, not `(url, remote timestamp)`.
- Only status 200 is accepted (main.go:122). Other 2xx codes are errors too.
- A failed read of the last change does not stop the tick (main.go:59-60): its
  error is overwritten, and the tick compares against the zero record.
- The image download never looks at the reply's status (main.go:143-155).
  Whatever body arrives is saved and applied.
- When copying the body fails, the created file stays on disk (main.go:154-155,
  main.go:43-45). The same happens when applying or removing it fails.
- With status 200, a body with no comma has one field and fails with
  `Format(1)`. A body with two or more commas fails with `Format(commas + 1)`.
- The endpoint constant `GistControlador` is empty in the published source, so
  every real fetch fails at `Client.Do`. The model keeps the reply abstract.

## Model

| member | source | states |
|---|---|---|
| Lexical.LexIrreflexive | main.go:64 | no timestamp sorts before itself under Go's string `<` |
| Lexical.LexAsymmetric | main.go:64 | if `a < b` then not `b < a` |
| Lexical.LexTransitive | main.go:64 | the string order is transitive |
| Lexical.LexTotal | main.go:64 | any two different strings are ordered one way or the other |
| Lexical.ProperPrefixIsLess | main.go:64 | a proper prefix sorts first, as in Go |
| Lexical.LexLessConcat | main.go:64 | with equal-width leading blocks, the blocks are compared first and the tails only on a tie |
| Lexical.LexLess | main.go:64 | defines Go's byte-wise string `<`: the first differing character decides, and a proper prefix sorts first |
| Strings.Split | main.go:125 | `k` commas give `k + 1` fields (one empty field for an empty body), none containing the separator |
| Strings.JoinSplit | main.go:125 | joining the fields of a split with the separator gives the body back |
| Strings.SplitWithoutSeparator | main.go:125 | a string without the separator splits into itself alone |
| Strings.SplitAtFirstSeparator | main.go:125 | `a,rest` with a comma-free `a` splits into `a` followed by the fields of `rest` |
| Gist.FetchDetails | main.go:106-131 | no response is a transport error; a non-200 status is a status error whatever the body; with 200, success iff the body holds exactly one comma, otherwise a format error carrying the field count; on success url + "," + timestamp is the body and neither part holds a comma |
| Gist.PublishRoundTrip | main.go:125-130 | any comma-free url and timestamp published with status 200 are read back unchanged |
| Clock.Digits | main.go:101 | `%d` of a non-negative number: at least one character, all decimal digits |
| Clock.YearText | main.go:101-102 | `%d` of the year: for a year of 0 or more, digits that read back as the year; for a negative year, a minus sign and then digits that read back as its magnitude |
| Clock.Pad2 | main.go:101-103 | `%02d`: always at least two characters, all decimal digits |
| Clock.Timestamp | main.go:99-104 | defines the clock string: year, `-` month, `-` day, `T` hour, `:` minute, `:` second, each field after the year formatted with `%02d` |
| Clock.DigitsValue | main.go:101 | `%d` of a non-negative number reads back as that number |
| Clock.FourDigits | main.go:101 | a year from 1000 to 9999 prints as four digits |
| Clock.Pad2Shape | main.go:101-103 | `%02d` pads every value below 100 to two digits that read back as the value; values of 100 or more print unpadded |
| Clock.DigitsOrder | main.go:64 | for equal-width digit strings, string order is numeric order |
| Clock.DigitsEqual | main.go:64 | equal-width digit strings are equal iff their values are |
| Clock.FieldStep | main.go:101-103 | appending one separator and one padded field compares the prefixes first and the field values on a tie |
| Clock.TimestampShape | main.go:99-104 | with a four-digit year the timestamp has 19 characters, with `-`, `-`, `T`, `:`, `:` at positions 4, 7, 10, 13, 16 |
| Clock.TimestampOrder | main.go:99-104 | for fixed-width times, string order of timestamps is chronological order, and equal timestamps mean equal times |
| Clock.FiveDigitYearSortsFirst | main.go:101 | past year 9999 the string order disagrees with time: 10000 sorts before 9999 |
| Download.Extension | main.go:133-140 | `image/jpeg` and `image/jpg` map to `jpg`, `image/png` to `png`, and every other content type to the empty extension (both directions) |
| Download.FileName | main.go:148 | defines the temporary file name `<id>.<extension>` |
| Download.FileNameShape | main.go:148 | the name is the id, a dot and the extension; it ends in a bare dot iff the content type is not one of the three image types |
| Download.WorkingDirectory.Fetch | main.go:142-156 | no reply: transport error, no file; create failure: error, no file; otherwise the file `<id>.<ext>` exists afterwards, with an error iff copying failed |
| Download.WorkingDirectory.Remove | main.go:51-54 | success removes the file; failure returns an error and changes nothing |
| History.NextId | main.go:170 | defines the id `AUTOINCREMENT` assigns: 1 in an empty table, otherwise one more than the last row's id |
| History.MaxIdRow | main.go:185 | `ORDER BY id DESC LIMIT 1` on a non-empty table: a row of the table whose id is at least every row's id |
| History.LatestOf | main.go:185-189 | defines what the read returns: the columns of the row with the largest id, or the zero record for an empty table |
| History.MaxIdRowIsLast | main.go:185 | with strictly increasing ids, the row with the largest id is the last one inserted |
| History.LatestAfterAppend | main.go:193-200 | appending under the next id keeps ids strictly increasing, and the next read returns the appended change |
| History.ChangeLog.constructor | main.go:169-173 | a freshly created table is empty |
| History.ChangeLog.Latest | main.go:177-191 | a read failure gives the zero record and a storage error; otherwise the change of the largest-id row (zero for an empty table) and no error, computed by reading the last row |
| History.ChangeLog.Register | main.go:193-201 | on success exactly one row `(next id, url, local timestamp)` is appended and ids stay increasing; on failure a storage error and the log unchanged |
| Reconcile.ShouldAct | main.go:64 | defines the decision: act iff the recorded timestamp sorts before the remote one or the urls differ |
| Reconcile.LastSeen | main.go:59-60 | defines the record the comparison sees: the zero record when the read fails (its error is dropped), otherwise the latest change |
| Reconcile.ApplySpec | main.go:42-56 | download, apply, remove, record, stopping at the first failure; an error leaves the rows unchanged, and success appends exactly `(next id, url, clock timestamp)` |
| Reconcile.TickSpec | main.go:58-68 | the whole tick; an error leaves the rows unchanged, and otherwise the rows are unchanged or gain exactly one row under the next id |
| Reconcile.DownloadAndApply | main.go:42-56 | download, apply, remove, record, stopping at the first failure; the resulting error, log and files are those of `ApplySpec` |
| Reconcile.Tick | main.go:58-68 | read last, fetch, compare, then act or return nil; the resulting error, log and files are those of `TickSpec` |
| Reconcile.NoActionIffUpToDate | main.go:64-67 | nothing happens iff the url is the same and the recorded timestamp is equal to or later than the remote one |
| Reconcile.EmptyLogActs | main.go:64 | against an empty log the tick acts iff the remote url or timestamp is non-empty |
| Reconcile.LogGrowsOnlyOnCompleteRun | main.go:42-56 | the log grows by exactly `(next id, remote url, clock timestamp)` iff fetch, decision and all four steps succeed; otherwise, and whenever an error is returned, it is unchanged |
| Reconcile.FailedFetchChangesNothing | main.go:60-63 | a failed fetch is returned as is, with no change to the log or the files |
| Reconcile.ReadFailureActsAsEmptyLog | main.go:59-60 | with a failing history read, the tick behaves exactly as against an empty log |
| Reconcile.TemporaryFileLeak | main.go:43-54 | the temporary file remains iff it was created and copying, applying or removing failed; an error-free tick adds no file |
| Reconcile.SecondTickActsIffClockBeforeRemote | main.go:199 | after a complete run the latest record holds the clock timestamp, so the same remote state triggers again iff that clock string sorts before the remote timestamp |
| Reconcile.FirstImageScenario | main.go:58-68 | empty log, comma-free remote pair, all steps succeed: one row `(1, url, clock timestamp)` and the temporary file removed |
| Reconcile.AlreadyAppliedScenario | main.go:64-67 | when the latest record equals the published pair, the tick returns nil and changes nothing |
| Reconcile.ServerErrorScenario | main.go:122-124 | a 500 reply yields a status error and no change |

## Left out

- HTTP (`http.NewRequest`, `Client.Do`, `http.Get`, `ioutil.ReadAll`) is network I/O. Each exchange is an input `Http.Reply`.
- File contents and `io.Copy` are not modelled. Only which file names exist is modelled, and each file-system call is a success or failure input.
- `cambiarWallpaper` runs an external executable. `os.Getwd` (whose error is ignored), `path.Join` and the executable's effect on the desktop are outside the model. Its exit status is a success or failure input.
- The SQLite driver and the SQL text belong to a foreign library. Only the observable semantics are kept: an append-only sequence of rows with increasing ids, and a read of the row with the largest id. `NextId` assumes, as this program guarantees, that no row is ever deleted.
- Bodies, urls and timestamps that are not valid UTF-8 are not modelled. Go keeps the response body as raw bytes (main.go:121) and compares and splits bytes, while a Dafny `string` holds Unicode scalar values only.
- `xid.New()` and `time.Now()` are nondeterministic. The unique id and the broken-down clock reading are inputs.
- `main`, `cron` scheduling and `select {}` are scheduling and process lifetime, with no logic of their own.
- `crearTablas` is reduced to the `ChangeLog` constructor: the startup step and the idempotence of `CREATE TABLE IF NOT EXISTS` are not modelled.
- `log.Printf` calls only write to the log output and are left out.
- `cambiarescritorio.cs` is not part of this model. It is a thin wrapper over the Windows `SystemParametersInfo` call.
- Negative months, days, hours, minutes and seconds are not modelled: `%02d` is written for non-negative values only, and Go's `time.Time` never yields negative values there. The year's sign is modelled.
