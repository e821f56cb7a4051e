/** One scheduled tick: `revisarGistYCambiarImagenSiEsNecesario` and the
    step sequence of `descargarImagenYPonerlaComoFondo`. */
module Reconcile {
  import opened Failures
  import opened Lexical
  import opened Clock
  import opened Gist
  import opened History
  import opened Download
  import Http

  /** Everything outside the process that one tick consults, fixed in
      advance: whether each database, file-system and subprocess step fails,
      the two HTTP replies, the unique name the id generator yields and the
      local clock at the moment the change is recorded. */
  datatype Env = Env(
    historyReadFails: bool,
    gist: Http.Reply,
    image: Http.Reply,
    uniqueId: string,
    createFails: bool,
    copyFails: bool,
    wallpaperFails: bool,
    removeFails: bool,
    recordFails: bool,
    clock: DateTime)

  /** The observable result of a tick: the error it returns, the table's
      rows and the working directory afterwards. */
  datatype TickState = TickState(err: Option<Error>, rows: seq<Row>, files: set<string>)

  /** The condition of the tick: act when the last recorded timestamp sorts
      before the remote one or the image url differs. */
  predicate ShouldAct(last: Change, d: Desired)
  {
    LexLess(last.stamp, d.stamp) || last.imageUrl != d.imageUrl
  }

  /** The record the comparison sees. A failed read yields the zero record
      and its error is overwritten by the fetch, so the tick goes on. */
  function LastSeen(rows: seq<Row>, readFails: bool): Change
  {
    if readFails then Zero else LatestOf(rows)
  }

  /** Download, apply, remove, record, stopping at the first failure. */
  function ApplySpec(imageUrl: string, rows: seq<Row>, files: set<string>, env: Env): (s: TickState)
    ensures s.err.Some? ==> s.rows == rows
    ensures s.err.None? ==> s.rows == rows + [Row(NextId(rows), Change(imageUrl, Timestamp(env.clock)))]
  {
    match env.image
    case Unreachable => TickState(Some(Transport), rows, files)
    case Response(_, contentType, _) =>
      var name := FileName(env.uniqueId, contentType);
      if env.createFails then TickState(Some(FileSystem), rows, files)
      else if env.copyFails then TickState(Some(FileSystem), rows, files + {name})
      else if env.wallpaperFails then TickState(Some(Subprocess), rows, files + {name})
      else if env.removeFails then TickState(Some(FileSystem), rows, files + {name})
      else if env.recordFails then TickState(Some(Storage), rows, files - {name})
      else TickState(None, rows + [Row(NextId(rows), Change(imageUrl, Timestamp(env.clock)))], files - {name})
  }

  /** The whole tick as a function of the state before it. */
  function TickSpec(rows: seq<Row>, files: set<string>, env: Env): (s: TickState)
    ensures s.err.Some? ==> s.rows == rows
    ensures s.rows == rows || (s.err.None? && |s.rows| == |rows| + 1
      && s.rows == rows + [Row(NextId(rows), s.rows[|rows|].change)])
  {
    var last := LastSeen(rows, env.historyReadFails);
    match FetchDetails(env.gist)
    case Err(e) => TickState(Some(e), rows, files)
    case Ok(d) =>
      if ShouldAct(last, d) then ApplySpec(d.imageUrl, rows, files, env)
      else TickState(None, rows, files)
  }

  /** Every step of a tick that decides to act succeeds. */
  predicate AllStepsSucceed(env: Env)
  {
    env.image.Response? && !env.createFails && !env.copyFails
      && !env.wallpaperFails && !env.removeFails && !env.recordFails
  }

  /** `descargarImagenYPonerlaComoFondo`. */
  method DownloadAndApply(log: ChangeLog, dir: WorkingDirectory, imageUrl: string, env: Env)
    returns (err: Option<Error>)
    modifies log, dir
    requires log.Valid()
    ensures log.Valid()
    ensures TickState(err, log.rows, dir.files) == ApplySpec(imageUrl, old(log.rows), old(dir.files), env)
  {
    var name;
    name, err := dir.Fetch(env.image, env.uniqueId, env.createFails, env.copyFails);
    if err.Some? {
      return;
    }
    // `cambiarWallpaper`: the executable's exit status is the only outcome.
    if env.wallpaperFails {
      return Some(Subprocess);
    }
    err := dir.Remove(name, env.removeFails);
    if err.Some? {
      return;
    }
    err := log.Register(imageUrl, env.clock, env.recordFails);
  }

  /** `revisarGistYCambiarImagenSiEsNecesario`. */
  method Tick(log: ChangeLog, dir: WorkingDirectory, env: Env) returns (err: Option<Error>)
    modifies log, dir
    requires log.Valid()
    ensures log.Valid()
    ensures TickState(err, log.rows, dir.files) == TickSpec(old(log.rows), old(dir.files), env)
  {
    var last, readErr := log.Latest(env.historyReadFails);
    // The read error is discarded: Go reassigns `err` with the fetch result.
    var details := FetchDetails(env.gist);
    if details.Err? {
      return Some(details.error);
    }
    if !ShouldAct(last, details.value) {
      return None;
    }
    err := DownloadAndApply(log, dir, details.value.imageUrl, env);
  }

  /** Nothing happens exactly when the url is the same and the recorded
      timestamp is equal to or later than the remote one. */
  lemma NoActionIffUpToDate(last: Change, d: Desired)
    ensures !ShouldAct(last, d) <==>
      last.imageUrl == d.imageUrl && (last.stamp == d.stamp || LexLess(d.stamp, last.stamp))
  {
    LexTotal(last.stamp, d.stamp);
    LexAsymmetric(last.stamp, d.stamp);
    LexIrreflexive(d.stamp);
  }

  /** Against an empty log the tick acts unless both remote fields are empty. */
  lemma EmptyLogActs(d: Desired)
    ensures ShouldAct(LastSeen([], false), d) <==> d.imageUrl != "" || d.stamp != ""
  {
  }

  /** The log grows by exactly one row, carrying the next id, the remote url
      and the local clock's timestamp, when the fetch succeeds, the comparison
      says act and every following step succeeds; in every other case the log
      is unchanged. An error never comes with a new row. */
  lemma LogGrowsOnlyOnCompleteRun(rows: seq<Row>, files: set<string>, env: Env)
    ensures var s := TickSpec(rows, files, env);
      var r := FetchDetails(env.gist);
      var complete := r.Ok? && ShouldAct(LastSeen(rows, env.historyReadFails), r.value)
        && AllStepsSucceed(env);
      (complete ==>
         s.err == None && s.rows == rows + [Row(NextId(rows), Change(r.value.imageUrl, Timestamp(env.clock)))])
      && (!complete ==> s.rows == rows)
      && (s.err.Some? ==> s.rows == rows)
  {
  }

  /** A failed fetch (transport, non-200 status, wrong field count) is
      returned as is and changes nothing. */
  lemma FailedFetchChangesNothing(rows: seq<Row>, files: set<string>, env: Env)
    requires FetchDetails(env.gist).Err?
    ensures TickSpec(rows, files, env) == TickState(Some(FetchDetails(env.gist).error), rows, files)
  {
  }

  /** A tick whose history read fails behaves as a tick against an empty log:
      same error, same files, and the same change (if any) appended. */
  lemma ReadFailureActsAsEmptyLog(rows: seq<Row>, files: set<string>, env: Env)
    requires env.historyReadFails
    ensures var s, e := TickSpec(rows, files, env), TickSpec([], files, env);
      s.err == e.err && s.files == e.files
      && (e.rows == [] ==> s.rows == rows)
      && (e.rows != [] ==> s.rows == rows + [Row(NextId(rows), e.rows[0].change)])
  {
  }

  /** The temporary file is left behind exactly when it was created and then
      writing it, applying it or removing it failed; a tick that returns no
      error never adds a file. */
  lemma TemporaryFileLeak(rows: seq<Row>, files: set<string>, env: Env)
    ensures var s := TickSpec(rows, files, env);
      var r := FetchDetails(env.gist);
      var created := r.Ok? && ShouldAct(LastSeen(rows, env.historyReadFails), r.value)
        && env.image.Response? && !env.createFails;
      var name := if env.image.Response? then FileName(env.uniqueId, env.image.contentType) else "";
      (s.err == None ==> s.files <= files)
      && (created && (env.copyFails || env.wallpaperFails || env.removeFails) ==> s.files == files + {name})
      && (created && !env.copyFails && !env.wallpaperFails && !env.removeFails ==> s.files == files - {name})
      && (!created ==> s.files == files)
  {
  }

  /** After a complete run the recorded timestamp is the local clock, not the
      remote timestamp; so a second tick that sees the same remote state acts
      again exactly when the clock string sorts before the remote timestamp. */
  lemma SecondTickActsIffClockBeforeRemote(rows: seq<Row>, files: set<string>, env: Env)
    requires IdsIncreasing(rows)
    requires FetchDetails(env.gist).Ok?
    requires ShouldAct(LastSeen(rows, env.historyReadFails), FetchDetails(env.gist).value)
    requires AllStepsSucceed(env)
    ensures var s := TickSpec(rows, files, env);
      var d := FetchDetails(env.gist).value;
      LatestOf(s.rows) == Change(d.imageUrl, Timestamp(env.clock))
      && (ShouldAct(LatestOf(s.rows), d) <==> LexLess(Timestamp(env.clock), d.stamp))
  {
    var d := FetchDetails(env.gist).value;
    LatestAfterAppend(rows, Change(d.imageUrl, Timestamp(env.clock)));
  }

  /** First run against an empty log, the remote publishing a url and a
      timestamp (say "http://x/a.png,2024-01-01T00:00:00") and every step
      succeeding: one row with id 1 is added, carrying the remote url and the
      local clock's timestamp, and the temporary file is gone again. */
  lemma FirstImageScenario(d: Desired, files: set<string>, env: Env)
    requires ',' !in d.imageUrl && ',' !in d.stamp && (d.imageUrl != "" || d.stamp != "")
    requires env.gist.Response? && env.gist.status == Http.StatusOK && env.gist.body == Publish(d)
    requires !env.historyReadFails && AllStepsSucceed(env)
    ensures TickSpec([], files, env)
      == TickState(None, [Row(1, Change(d.imageUrl, Timestamp(env.clock)))],
                   files - {FileName(env.uniqueId, env.image.contentType)})
  {
    PublishRoundTrip(d, env.gist.contentType);
    assert env.gist == Http.Response(Http.StatusOK, env.gist.contentType, Publish(d));
  }

  /** The log's latest row already equals the published state: nothing is
      downloaded, applied or recorded, and no error is returned. */
  lemma AlreadyAppliedScenario(rows: seq<Row>, files: set<string>, env: Env, d: Desired)
    requires ',' !in d.imageUrl && ',' !in d.stamp
    requires IdsIncreasing(rows) && rows != [] && rows[|rows| - 1].change == Change(d.imageUrl, d.stamp)
    requires env.gist.Response? && env.gist.status == Http.StatusOK && env.gist.body == Publish(d)
    requires !env.historyReadFails
    ensures TickSpec(rows, files, env) == TickState(None, rows, files)
  {
    PublishRoundTrip(d, env.gist.contentType);
    assert env.gist == Http.Response(Http.StatusOK, env.gist.contentType, Publish(d));
    MaxIdRowIsLast(rows);
    LexIrreflexive(d.stamp);
  }

  /** The remote answers 500: a status error, and no state change, whatever
      the body. */
  lemma ServerErrorScenario(rows: seq<Row>, files: set<string>, env: Env)
    requires env.gist.Response? && env.gist.status == 500
    ensures TickSpec(rows, files, env) == TickState(Some(Status(500)), rows, files)
  {
  }
}
