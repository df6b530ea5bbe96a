/**
 * enqueue_capture and capture_worker: a pending captures row, then up to
 * max_capture_retries + 1 attempts, each logged in events, the first one that
 * reaches the database replacing the capture's artifacts and finishing the row.
 */
module Capturing {
  import opened Wrappers
  import opened Text
  import opened Urls
  import opened Settings
  import opened Schema
  import opened Artifacts

  /** The arguments enqueue_capture hands to the worker thread. */
  datatype Job = Job(captureId: int, url: string, includePdf: bool, headersJson: string, cookiesJson: string)

  /**
   * What BeautifulSoup extracts from snapshot.html: the <title> text (None when
   * there is none), the description meta content, every <a href>, the page text.
   */
  datatype Metadata = Metadata(title: Option<string>, description: string, links: seq<string>, text: string)

  /**
   * What one attempt's browser and WARC writer did. Either the rendering block
   * raised, or it finished (with the HTTP status, if there was a response) and
   * the WARC writer possibly failed. Both carry the files written to the
   * capture's folder, which stay on disk whatever happens next.
   */
  datatype AttemptOutcome =
    | RenderFailed(writes: map<Kind, Bytes>, error: string)
    | Rendered(writes: map<Kind, Bytes>, httpStatus: Option<int>, archiveError: Option<string>, meta: Metadata)

  const LinksLimit: nat := 500
  const BlockedError := "Domínio bloqueado"
  const BlockedMessage := "Captura bloqueada por política de domínio"
  const RenderedMessage := "Artefatos visuais gerados"
  const FinishedMessage := "Captura finalizada"
  const UntitledTitle := "(sem título)"

  function StartedMessage(attempt: nat): string {
    "Tentativa " + NatToString(attempt + 1) + " iniciada"
  }

  function AttemptErrorMessage(attempt: nat, error: string): string {
    "Erro na tentativa " + NatToString(attempt + 1) + ": " + error
  }

  /** The partial failures of an attempt: only the WARC writer's. */
  function Notes(archiveError: Option<string>): seq<string> {
    if archiveError.Some? then ["Falha WARC: " + archiveError.value] else []
  }

  /** A finished capture is partial exactly when some artifact step failed. */
  function Classify(notes: seq<string>): (s: Status)
    ensures s == Partial <==> notes != []
    ensures s == Success || s == Partial
  {
    if notes != [] then Partial else Success
  }

  function TitleOf(meta: Metadata): string {
    if meta.title.Some? then Strip(meta.title.value) else UntitledTitle
  }

  /** links[:500]: the first 500 links, or all of them when there are fewer. */
  function Truncate(links: seq<string>): (r: seq<string>)
    ensures |r| <= LinksLimit && r <= links
    ensures |links| <= LinksLimit ==> r == links
    ensures |links| > LinksLimit ==> |r| == LinksLimit
  {
    if |links| <= LinksLimit then links else links[..LinksLimit]
  }

  function NewCapture(id: int, url: string, domain: string, includePdf: bool, headers: string, cookies: string, scheduleId: Option<int>, now: int): Capture {
    Capture(id, url, domain, None, None, Pending, None, 0, now, None, 0, includePdf, headers, cookies, None, None, None, scheduleId, Unknown)
  }

  /**
   * enqueue_capture: the netloc is computed first (urlparse may raise), then a
   * pending row is inserted with the next id, which is returned.
   */
  function Enqueue(db: Db, url: string, includePdf: bool, headers: string, cookies: string, scheduleId: Option<int>, now: int): (r: Try<(Db, int)>)
    ensures r.Raised? <==> Netloc(url).Raised?
    ensures r.Returned? ==>
      var (db', id) := r.value;
      && id == db.sequences.captures + 1
      && db' == db.(captures := db.captures + [NewCapture(id, url, Netloc(url).value, includePdf, headers, cookies, scheduleId, now)],
                    sequences := db.sequences.(captures := id))
  {
    match Netloc(url)
    case Raised(e) => Raised(e)
    case Returned(domain) =>
      var id := db.sequences.captures + 1;
      Returned((db.(captures := db.captures + [NewCapture(id, url, domain, includePdf, headers, cookies, scheduleId, now)],
                    sequences := db.sequences.(captures := id)), id))
  }

  /** The UPDATE of a blocked capture, then its error event. */
  function Block(db: Db, captureId: int, now: int): Db {
    var failed := UpdateCaptures(db.captures, captureId,
      (c: Capture) => c.(status := Failed, errorMessage := Some(BlockedError), finishedAt := Some(now)));
    AppendEvent(db.(captures := failed), captureId, Error, BlockedMessage, now)
  }

  /** The persist transaction's commit and the closing event of a successful attempt. */
  function Finish(db: Db, job: Job, attempt: nat, rows: seq<Artifact>, o: AttemptOutcome, now: int): Db
    requires o.Rendered?
  {
    var cid := job.captureId;
    var notes := Notes(o.archiveError);
    var arts := DeleteArtifactsOf(db.artifacts, cid) + rows;
    var total := SumSizes(ArtifactsOf(arts, cid));
    var finished := UpdateCaptures(db.captures, cid,
      (c: Capture) => c.(status := Classify(notes), httpStatus := o.httpStatus, totalSize := total,
                         title := Some(TitleOf(o.meta)), description := Some(o.meta.description),
                         finishedAt := Some(now), retries := attempt, textContent := Some(o.meta.text),
                         links := Some(Truncate(o.meta.links)), errorMessage := Some(Join(notes, "\n"))));
    var committed := db.(artifacts := arts, captures := finished,
                         sequences := db.sequences.(artifacts := db.sequences.artifacts + |rows|));
    AppendEvent(committed, cid, Info, FinishedMessage, now)
  }

  /** How an attempt ends: it finished the capture, or it raised with the state reached so far. */
  datatype AttemptResult = Completed(db: Db) | Aborted(db: Db, error: string)

  /** The start of an attempt: its event, then whatever the browser wrote. */
  function Started(db: Db, job: Job, attempt: nat, o: AttemptOutcome, now: int): (r: Db) {
    var started := AppendEvent(db, job.captureId, Info, StartedMessage(attempt), now);
    started.(files := WriteFiles(started.files, job.captureId, o.writes))
  }

  /** The body of the try block of one attempt. */
  function RunAttempt(db: Db, job: Job, attempt: nat, o: AttemptOutcome, now: int, hash: Bytes -> string): AttemptResult {
    var cid := job.captureId;
    var written := Started(db, job, attempt, o, now);
    match o
    case RenderFailed(_, e) => Aborted(written, e)
    case Rendered(_, _, _, _) =>
      var rendered := AppendEvent(written, cid, Info, RenderedMessage, now);
      var html := SnapshotPath(cid, Html);
      if html !in rendered.files then Aborted(rendered, MissingFile(html))
      else
        match PersistRows(rendered.files, cid, job.includePdf, rendered.sequences.artifacts, now, hash)
        case Raised(e) => Aborted(rendered, e)
        case Returned(rows) => Completed(Finish(rendered, job, attempt, rows, o, now))
  }

  /** The UPDATE after the last attempt raised. */
  function GiveUp(db: Db, captureId: int, error: string, attempt: nat, now: int): Db {
    db.(captures := UpdateCaptures(db.captures, captureId,
      (c: Capture) => c.(status := Failed, errorMessage := Some(error), finishedAt := Some(now), retries := attempt)))
  }

  /** Giving up marks exactly the rows with that id failed, with the error and retries given. */
  lemma GiveUpSpec(db: Db, captureId: int, error: string, attempt: nat, now: int)
    ensures var r := GiveUp(db, captureId, error, attempt, now);
      && r == db.(captures := r.captures)
      && |r.captures| == |db.captures|
      && forall i :: 0 <= i < |db.captures| ==>
           r.captures[i] == if db.captures[i].id == captureId
             then db.captures[i].(status := Failed, errorMessage := Some(error), finishedAt := Some(now), retries := attempt)
             else db.captures[i]
  {
  }

  /** Attempts `attempt`, `attempt + 1`, ... up to `maxRetries`, stopping at the first that completes. */
  function Attempts(db: Db, job: Job, maxRetries: int, attempt: nat, outcomes: nat -> AttemptOutcome, now: int, hash: Bytes -> string): Db
    requires attempt <= maxRetries
    decreases maxRetries - attempt
  {
    match RunAttempt(db, job, attempt, outcomes(attempt), now, hash)
    case Completed(done) => done
    case Aborted(failed, e) =>
      var logged := AppendEvent(failed, job.captureId, Error, AttemptErrorMessage(attempt, e), now);
      if attempt == maxRetries then GiveUp(logged, job.captureId, e, attempt, now)
      else Attempts(logged, job, maxRetries, attempt + 1, outcomes, now, hash)
  }

  /**
   * capture_worker. A config value int() cannot parse, or a URL urlparse
   * rejects, raises before anything is written and ends the thread.
   */
  function Worker(db: Db, job: Job, outcomes: nat -> AttemptOutcome, now: int, hash: Bytes -> string): Db {
    var maxRetries := ParseInt(ConfigValue(db.config, MaxRetriesKey));
    var timeout := ParseInt(ConfigValue(db.config, TimeoutKey));
    if maxRetries.None? || timeout.None? then db
    else
      match Netloc(job.url)
      case Raised(_) => db
      case Returned(domain) =>
        if domain in Blocklist(ConfigValue(db.config, BlockedDomainsKey)) then Block(db, job.captureId, now)
        else if maxRetries.value < 0 then db
        else Attempts(db, job, maxRetries.value, 0, outcomes, now, hash)
  }

  // ---------------------------------------------------------------------
  // Properties of the worker

  /** The state after attempts i .. k-1, each of which raised, with their error events. */
  function AfterFailures(db: Db, job: Job, outcomes: nat -> AttemptOutcome, i: nat, k: nat, now: int, hash: Bytes -> string): Db
    decreases k - i
  {
    if i >= k then db
    else
      match RunAttempt(db, job, i, outcomes(i), now, hash)
      case Completed(done) => done
      case Aborted(failed, e) =>
        AfterFailures(AppendEvent(failed, job.captureId, Error, AttemptErrorMessage(i, e), now), job, outcomes, i + 1, k, now, hash)
  }

  /** The files on disk after the attempts i .. k-1 wrote theirs, in order. */
  function FilesAfter(files: map<RelPath, Bytes>, captureId: int, outcomes: nat -> AttemptOutcome, i: nat, k: nat): map<RelPath, Bytes>
    decreases k - i
  {
    if i >= k then files else FilesAfter(WriteFiles(files, captureId, outcomes(i).writes), captureId, outcomes, i + 1, k)
  }

  /** `after` differs from `db` only by appended events and by the files. */
  predicate OnlyLogged(db: Db, after: Db) {
    && after == db.(events := after.events, files := after.files, sequences := after.sequences)
    && after.sequences == db.sequences.(events := after.sequences.events)
    && |db.events| <= |after.events| && after.events[..|db.events|] == db.events
  }

  lemma OnlyLoggedTransitive(a: Db, b: Db, c: Db)
    requires OnlyLogged(a, b) && OnlyLogged(b, c)
    ensures OnlyLogged(a, c)
  {
    assert c.events[..|a.events|] == c.events[..|b.events|][..|a.events|];
  }

  /** An attempt that raised only logged events and wrote files; a render failure logs one event. */
  lemma AbortedOnlyLogged(db: Db, job: Job, attempt: nat, o: AttemptOutcome, now: int, hash: Bytes -> string)
    requires RunAttempt(db, job, attempt, o, now, hash).Aborted?
    ensures var failed := RunAttempt(db, job, attempt, o, now, hash).db;
      && OnlyLogged(db, failed)
      && failed.files == WriteFiles(db.files, job.captureId, o.writes)
      && (o.RenderFailed? ==> |failed.events| == |db.events| + 1 && RunAttempt(db, job, attempt, o, now, hash).error == o.error)
  {
    var cid := job.captureId;
    var written := Started(db, job, attempt, o, now);
    assert OnlyLogged(db, written);
    if o.Rendered? {
      var rendered := AppendEvent(written, cid, Info, RenderedMessage, now);
      assert OnlyLogged(written, rendered);
      OnlyLoggedTransitive(db, written, rendered);
    }
  }

  /**
   * Attempts that raise before attempt k <= maxRetries leave the loop where
   * attempt k starts: nothing but their events and files has changed.
   */
  lemma {:induction false} SkipFailures(db: Db, job: Job, maxRetries: int, i: nat, k: nat, outcomes: nat -> AttemptOutcome, now: int, hash: Bytes -> string)
    requires i <= k <= maxRetries
    requires forall j :: i <= j < k ==> outcomes(j).RenderFailed?
    ensures var after := AfterFailures(db, job, outcomes, i, k, now, hash);
      && Attempts(db, job, maxRetries, i, outcomes, now, hash) == Attempts(after, job, maxRetries, k, outcomes, now, hash)
      && OnlyLogged(db, after)
      && |after.events| == |db.events| + 2 * (k - i)
      && after.files == FilesAfter(db.files, job.captureId, outcomes, i, k)
    decreases k - i
  {
    if i < k {
      var r := RunAttempt(db, job, i, outcomes(i), now, hash);
      AbortedOnlyLogged(db, job, i, outcomes(i), now, hash);
      var logged := AppendEvent(r.db, job.captureId, Error, AttemptErrorMessage(i, r.error), now);
      assert OnlyLogged(r.db, logged);
      OnlyLoggedTransitive(db, r.db, logged);
      SkipFailures(logged, job, maxRetries, i + 1, k, outcomes, now, hash);
      OnlyLoggedTransitive(db, logged, AfterFailures(logged, job, outcomes, i + 1, k, now, hash));
    }
  }

  lemma {:induction false} FilesAfterLast(files: map<RelPath, Bytes>, captureId: int, outcomes: nat -> AttemptOutcome, i: nat, k: nat)
    requires i <= k
    ensures FilesAfter(files, captureId, outcomes, i, k + 1) == WriteFiles(FilesAfter(files, captureId, outcomes, i, k), captureId, outcomes(k).writes)
    decreases k - i
  {
    if i < k {
      FilesAfterLast(WriteFiles(files, captureId, outcomes(i).writes), captureId, outcomes, i + 1, k);
    }
  }

  /** The worker gets past its checks and runs attempts 0 .. maxRetries. */
  predicate RunsAttempts(db: Db, job: Job, maxRetries: int) {
    && ParseInt(ConfigValue(db.config, MaxRetriesKey)) == Some(maxRetries)
    && ParseInt(ConfigValue(db.config, TimeoutKey)).Some?
    && Netloc(job.url).Returned?
    && Netloc(job.url).value !in Blocklist(ConfigValue(db.config, BlockedDomainsKey))
    && maxRetries >= 0
  }

  /**
   * When every attempt raises, each logs a start and an error event, and only
   * the last one marks the capture failed, with its own exception text and
   * retries = max_capture_retries. Artifacts are untouched.
   */
  lemma AllAttemptsFail(db: Db, job: Job, maxRetries: int, outcomes: nat -> AttemptOutcome, now: int, hash: Bytes -> string)
    requires RunsAttempts(db, job, maxRetries)
    requires forall j :: 0 <= j <= maxRetries ==> outcomes(j).RenderFailed?
    ensures var r := Worker(db, job, outcomes, now, hash);
      && r.artifacts == db.artifacts
      && |r.events| == |db.events| + 2 * (maxRetries + 1)
      && r.files == FilesAfter(db.files, job.captureId, outcomes, 0, maxRetries + 1)
      && |r.captures| == |db.captures|
      && forall i :: 0 <= i < |db.captures| ==>
           r.captures[i] == if db.captures[i].id == job.captureId
             then db.captures[i].(status := Failed, errorMessage := Some(outcomes(maxRetries).error), finishedAt := Some(now), retries := maxRetries)
             else db.captures[i]
  {
    var cid := job.captureId;
    var o := outcomes(maxRetries);
    var r := Worker(db, job, outcomes, now, hash);
    var after := AfterFailures(db, job, outcomes, 0, maxRetries, now, hash);
    assert r == Attempts(after, job, maxRetries, maxRetries, outcomes, now, hash)
        && OnlyLogged(db, after)
        && |after.events| == |db.events| + 2 * maxRetries
        && after.files == FilesAfter(db.files, cid, outcomes, 0, maxRetries)
        && after.captures == db.captures && after.artifacts == db.artifacts by {
      assert r == Attempts(db, job, maxRetries, 0, outcomes, now, hash);
      SkipFailures(db, job, maxRetries, 0, maxRetries, outcomes, now, hash);
    }
    var failed := RunAttempt(after, job, maxRetries, o, now, hash).db;
    var logged := AppendEvent(failed, cid, Error, AttemptErrorMessage(maxRetries, o.error), now);
    assert r == GiveUp(logged, cid, o.error, maxRetries, now)
        && OnlyLogged(after, failed) && |failed.events| == |after.events| + 1
        && failed.files == WriteFiles(after.files, cid, o.writes)
        && failed.captures == db.captures && failed.artifacts == db.artifacts by {
      AbortedOnlyLogged(after, job, maxRetries, o, now, hash);
    }
    assert r.captures == GiveUp(db, cid, o.error, maxRetries, now).captures;
    GiveUpSpec(db, cid, o.error, maxRetries, now);
    FilesAfterLast(db.files, cid, outcomes, 0, maxRetries);
  }

  /** Every row in `rows` belongs to capture `captureId`. */
  predicate AllOf(rows: seq<Artifact>, captureId: int) {
    forall i :: 0 <= i < |rows| ==> rows[i].captureId == captureId
  }

  /** After the persist commit the capture's artifacts are exactly the new rows; other captures keep theirs. */
  lemma {:induction false} ReplacedArtifacts(arts: seq<Artifact>, captureId: int, rows: seq<Artifact>, c: int)
    requires AllOf(rows, captureId)
    ensures ArtifactsOf(DeleteArtifactsOf(arts, captureId) + rows, c) == if c == captureId then rows else ArtifactsOf(arts, c)
  {
    var keep := (a: Artifact) => a.captureId == c;
    FilterAppend(DeleteArtifactsOf(arts, captureId), rows, keep);
    ArtifactsOfAfterDelete(arts, captureId, c);
    if c == captureId {
      FilterKeepsAll(rows, keep);
    } else {
      FilterNone(rows, keep);
    }
  }

  lemma {:induction false} FilterNone<T>(s: seq<T>, keep: T -> bool)
    requires forall i :: 0 <= i < |s| ==> !keep(s[i])
    ensures Filter(s, keep) == []
  {
    if s != [] {
      FilterNone(s[1..], keep);
    }
  }

  /**
   * The persist UPDATE on one captures row: exactly the columns it names are
   * written (status, http_status, total_size, title, description, finished_at,
   * retries, text_content, links_json, error_message), and every other column
   * keeps its value. The status is partial exactly when the WARC writer failed.
   */
  predicate FinishedRow(before: Capture, c: Capture, attempt: nat, o: AttemptOutcome, rows: seq<Artifact>, now: int)
    requires o.Rendered?
  {
    var notes := Notes(o.archiveError);
    && c == before.(status := Classify(notes), httpStatus := o.httpStatus, totalSize := SumSizes(rows),
                    title := Some(TitleOf(o.meta)), description := Some(o.meta.description),
                    finishedAt := Some(now), retries := attempt, textContent := Some(o.meta.text),
                    links := Some(Truncate(o.meta.links)), errorMessage := Some(Join(notes, "\n")))
    && (c.status == Partial <==> o.archiveError.Some?)
    && (o.archiveError.None? ==> c.errorMessage == Some(""))
  }

  /**
   * What the persist commit and its event do to the tables: the capture's row
   * is updated as FinishedRow says, its artifacts become the new rows, one
   * "Captura finalizada" event is appended with the next id, and nothing else
   * changes.
   */
  lemma FinishSpec(db: Db, job: Job, attempt: nat, rows: seq<Artifact>, o: AttemptOutcome, now: int)
    requires o.Rendered? && AllOf(rows, job.captureId)
    ensures var r := Finish(db, job, attempt, rows, o, now);
      && r == db.(captures := r.captures, artifacts := r.artifacts, events := r.events, sequences := r.sequences)
      && r.sequences == db.sequences.(artifacts := db.sequences.artifacts + |rows|, events := db.sequences.events + 1)
      && r.events == db.events + [Event(db.sequences.events + 1, job.captureId, now, Info, FinishedMessage)]
      && (forall c :: ArtifactsOf(r.artifacts, c) == if c == job.captureId then rows else ArtifactsOf(db.artifacts, c))
      && |r.captures| == |db.captures|
      && (forall i :: 0 <= i < |db.captures| ==> r.captures[i].id == db.captures[i].id)
      && forall i :: 0 <= i < |db.captures| ==>
           if db.captures[i].id == job.captureId then FinishedRow(db.captures[i], r.captures[i], attempt, o, rows, now)
           else r.captures[i] == db.captures[i]
  {
    var r := Finish(db, job, attempt, rows, o, now);
    forall c ensures ArtifactsOf(r.artifacts, c) == if c == job.captureId then rows else ArtifactsOf(db.artifacts, c) {
      ReplacedArtifacts(db.artifacts, job.captureId, rows, c);
    }
  }

  /** The state in which attempt k reaches the persist step. */
  function PersistState(db: Db, job: Job, k: nat, outcomes: nat -> AttemptOutcome, now: int, hash: Bytes -> string): Db {
    var after := AfterFailures(db, job, outcomes, 0, k, now, hash);
    AppendEvent(Started(after, job, k, outcomes(k), now), job.captureId, Info, RenderedMessage, now)
  }

  /** An attempt that renders logs its start and its render, and writes its files. */
  lemma StartedRenderedLogged(db: Db, job: Job, attempt: nat, o: AttemptOutcome, now: int)
    ensures var s := AppendEvent(Started(db, job, attempt, o, now), job.captureId, Info, RenderedMessage, now);
      && OnlyLogged(db, s)
      && |s.events| == |db.events| + 2
      && s.files == WriteFiles(db.files, job.captureId, o.writes)
  {
    var written := Started(db, job, attempt, o, now);
    var s := AppendEvent(written, job.captureId, Info, RenderedMessage, now);
    assert OnlyLogged(db, written);
    assert OnlyLogged(written, s);
    OnlyLoggedTransitive(db, written, s);
  }

  /** A worker that passes its checks is its attempt loop from attempt 0. */
  lemma WorkerRunsAttempts(db: Db, job: Job, maxRetries: int, outcomes: nat -> AttemptOutcome, now: int, hash: Bytes -> string)
    requires RunsAttempts(db, job, maxRetries)
    ensures Worker(db, job, outcomes, now, hash) == Attempts(db, job, maxRetries, 0, outcomes, now, hash)
  { }

  lemma ReachesPersist(db: Db, job: Job, maxRetries: int, k: nat, outcomes: nat -> AttemptOutcome, now: int, hash: Bytes -> string)
    requires RunsAttempts(db, job, maxRetries) && k <= maxRetries
    requires forall j :: 0 <= j < k ==> outcomes(j).RenderFailed?
    requires outcomes(k).Rendered?
    ensures var s := PersistState(db, job, k, outcomes, now, hash);
      && OnlyLogged(db, s)
      && |s.events| == |db.events| + 2 * k + 2
      && s.files == FilesAfter(db.files, job.captureId, outcomes, 0, k + 1)
      && Worker(db, job, outcomes, now, hash) == Attempts(AfterFailures(db, job, outcomes, 0, k, now, hash), job, maxRetries, k, outcomes, now, hash)
  {
    SkipFailures(db, job, maxRetries, 0, k, outcomes, now, hash);
    FilesAfterLast(db.files, job.captureId, outcomes, 0, k);
    var after := AfterFailures(db, job, outcomes, 0, k, now, hash);
    StartedRenderedLogged(after, job, k, outcomes(k), now);
    OnlyLoggedTransitive(db, after, PersistState(db, job, k, outcomes, now, hash));
    WorkerRunsAttempts(db, job, maxRetries, outcomes, now, hash);
  }

  /**
   * The first attempt that reaches the persist step with html and screenshot
   * on disk finishes the capture: success, or partial when the WARC writer
   * failed, with retries = that attempt and total_size the sum of its rows;
   * those rows replace the capture's artifacts, other captures keep theirs,
   * and no later attempt runs (two events per earlier attempt, three for it).
   */
  lemma FirstPersistingAttempt(db: Db, job: Job, maxRetries: int, k: nat, outcomes: nat -> AttemptOutcome, now: int, hash: Bytes -> string)
    requires RunsAttempts(db, job, maxRetries) && k <= maxRetries
    requires forall j :: 0 <= j < k ==> outcomes(j).RenderFailed?
    requires outcomes(k).Rendered?
    requires var files := FilesAfter(db.files, job.captureId, outcomes, 0, k + 1);
      SnapshotPath(job.captureId, Html) in files && SnapshotPath(job.captureId, Screenshot) in files
    ensures var r := Worker(db, job, outcomes, now, hash);
      var cid := job.captureId;
      var files := FilesAfter(db.files, cid, outcomes, 0, k + 1);
      var rows := PersistRows(files, cid, job.includePdf, db.sequences.artifacts, now, hash).value;
      && r.files == files
      && ArtifactsOf(r.artifacts, cid) == rows
      && (forall c :: c != cid ==> ArtifactsOf(r.artifacts, c) == ArtifactsOf(db.artifacts, c))
      && |r.events| == |db.events| + 2 * k + 3
      && |r.captures| == |db.captures|
      && (forall i :: 0 <= i < |db.captures| ==> r.captures[i].id == db.captures[i].id)
      && forall i :: 0 <= i < |db.captures| ==>
           if db.captures[i].id == cid then FinishedRow(db.captures[i], r.captures[i], k, outcomes(k), rows, now)
           else r.captures[i] == db.captures[i]
  {
    var cid := job.captureId;
    ReachesPersist(db, job, maxRetries, k, outcomes, now, hash);
    var s := PersistState(db, job, k, outcomes, now, hash);
    var files := FilesAfter(db.files, cid, outcomes, 0, k + 1);
    PersistRowsRecords(files, cid, job.includePdf, db.sequences.artifacts, now, hash);
    var rows := PersistRows(files, cid, job.includePdf, db.sequences.artifacts, now, hash).value;
    var after := AfterFailures(db, job, outcomes, 0, k, now, hash);
    assert RunAttempt(after, job, k, outcomes(k), now, hash) == Completed(Finish(s, job, k, rows, outcomes(k), now));
    FinishSpec(s, job, k, rows, outcomes(k), now);
  }

  /** Tables the worker never writes. */
  predicate OtherTablesKept(db: Db, r: Db) {
    r.schedules == db.schedules && r.integrityLogs == db.integrityLogs && r.tags == db.tags
    && r.captureTags == db.captureTags && r.config == db.config
  }

  /**
   * However the attempts go, the loop ends with the capture settled: not
   * pending, finished now, with attempt <= retries <= max_capture_retries, and
   * retries = max_capture_retries when it failed. No other row changes.
   */
  lemma {:induction false} AttemptsSettle(db: Db, job: Job, maxRetries: int, attempt: nat, outcomes: nat -> AttemptOutcome, now: int, hash: Bytes -> string)
    requires attempt <= maxRetries
    ensures var r := Attempts(db, job, maxRetries, attempt, outcomes, now, hash);
      && OtherTablesKept(db, r)
      && |r.captures| == |db.captures|
      && forall i :: 0 <= i < |db.captures| ==>
           if db.captures[i].id == job.captureId then
             && r.captures[i].status != Pending && r.captures[i].finishedAt == Some(now)
             && attempt <= r.captures[i].retries <= maxRetries
             && (r.captures[i].status == Failed ==> r.captures[i].retries == maxRetries)
           else r.captures[i] == db.captures[i]
    decreases maxRetries - attempt
  {
    var cid := job.captureId;
    var o := outcomes(attempt);
    match RunAttempt(db, job, attempt, o, now, hash)
    case Completed(done) =>
      var s := AppendEvent(Started(db, job, attempt, o, now), cid, Info, RenderedMessage, now);
      var rows := PersistRows(s.files, cid, job.includePdf, s.sequences.artifacts, now, hash).value;
      PersistRowsRecords(s.files, cid, job.includePdf, s.sequences.artifacts, now, hash);
      assert done == Finish(s, job, attempt, rows, o, now);
      FinishSpec(s, job, attempt, rows, o, now);
    case Aborted(failed, e) =>
      AbortedOnlyLogged(db, job, attempt, o, now, hash);
      var logged := AppendEvent(failed, cid, Error, AttemptErrorMessage(attempt, e), now);
      if attempt < maxRetries {
        AttemptsSettle(logged, job, maxRetries, attempt + 1, outcomes, now, hash);
      }
  }

  /** What the blocked path writes: the capture fails with "Domínio bloqueado", one error event, retries untouched. */
  lemma BlockSpec(db: Db, captureId: int, now: int)
    ensures var r := Block(db, captureId, now);
      && r.artifacts == db.artifacts && r.files == db.files && OtherTablesKept(db, r)
      && r.events == db.events + [Event(db.sequences.events + 1, captureId, now, Error, BlockedMessage)]
      && |r.captures| == |db.captures|
      && forall i :: 0 <= i < |db.captures| ==>
           r.captures[i] == if db.captures[i].id == captureId
             then db.captures[i].(status := Failed, errorMessage := Some(BlockedError), finishedAt := Some(now))
             else db.captures[i]
  {
  }

  /** The blocklist is consulted before max_capture_retries is, and no attempt runs for a blocked domain. */
  lemma BlockedDomain(db: Db, job: Job, outcomes: nat -> AttemptOutcome, now: int, hash: Bytes -> string)
    requires ParseInt(ConfigValue(db.config, MaxRetriesKey)).Some? && ParseInt(ConfigValue(db.config, TimeoutKey)).Some?
    requires Netloc(job.url).Returned? && Netloc(job.url).value in Blocklist(ConfigValue(db.config, BlockedDomainsKey))
    ensures Worker(db, job, outcomes, now, hash) == Block(db, job.captureId, now)
  {
  }

  /**
   * A URL whose host is written, padded with spaces, as one comma-separated
   * entry of blocked_domains is blocked.
   */
  lemma ListedHostBlocked(db: Db, job: Job, outcomes: nat -> AttemptOutcome, now: int, hash: Bytes -> string,
                          scheme: string, host: string, rest: string, entries: seq<string>, i: nat, pre: string, post: string)
    requires ParseInt(ConfigValue(db.config, MaxRetriesKey)).Some? && ParseInt(ConfigValue(db.config, TimeoutKey)).Some?
    requires |scheme| > 0 && IsAsciiLetter(scheme[0]) && forall j :: 0 <= j < |scheme| ==> IsSchemeChar(scheme[j])
    requires (forall j :: 0 <= j < |host| ==> !IsNetlocDelimiter(host[j])) && Safe(host) && Safe(rest)
    requires '[' !in host && ']' !in host && host != "" && Trimmed(host)
    requires rest == [] || IsNetlocDelimiter(rest[0])
    requires job.url == scheme + "://" + host + rest
    requires (forall j :: 0 <= j < |entries| ==> ',' !in entries[j]) && i < |entries|
    requires entries[i] == pre + host + post && AllSpace(pre) && AllSpace(post)
    requires BlockedDomainsKey in db.config && db.config[BlockedDomainsKey] == Join(entries, ",")
    ensures Worker(db, job, outcomes, now, hash) == Block(db, job.captureId, now)
  {
    assert Netloc(job.url) == Returned(host) by {
      NetlocOfUrl(scheme, host, rest);
    }
    assert host in Blocklist(ConfigValue(db.config, BlockedDomainsKey)) by {
      ListedDomainBlocked(entries, i, pre, host, post);
    }
    BlockedDomain(db, job, outcomes, now, hash);
  }

  /**
   * `r` settles capture `captureId` of `db`: the capture is no longer pending
   * and finished now; a blocked capture failed and kept its retries, any other
   * ends with 0 <= retries <= maxRetries. No other capture and no table but
   * captures, events, artifacts and files changes.
   */
  predicate Settles(db: Db, r: Db, captureId: int, now: int, blocked: bool, maxRetries: int) {
    && OtherTablesKept(db, r)
    && |r.captures| == |db.captures|
    && forall i :: 0 <= i < |db.captures| ==>
         if db.captures[i].id == captureId then
           && r.captures[i].status != Pending && r.captures[i].finishedAt == Some(now)
           && (blocked ==> r.captures[i].status == Failed && r.captures[i].retries == db.captures[i].retries)
           && (!blocked ==> 0 <= r.captures[i].retries <= maxRetries)
         else r.captures[i] == db.captures[i]
  }

  /**
   * The worker settles its capture unless it cannot read its settings, cannot
   * parse the URL, or max_capture_retries is negative.
   */
  lemma WorkerSettles(db: Db, job: Job, outcomes: nat -> AttemptOutcome, now: int, hash: Bytes -> string)
    requires ParseInt(ConfigValue(db.config, MaxRetriesKey)).Some? && ParseInt(ConfigValue(db.config, TimeoutKey)).Some?
    requires Netloc(job.url).Returned?
    requires ParseInt(ConfigValue(db.config, MaxRetriesKey)).value >= 0
    ensures Settles(db, Worker(db, job, outcomes, now, hash), job.captureId, now,
                    Netloc(job.url).value in Blocklist(ConfigValue(db.config, BlockedDomainsKey)),
                    ParseInt(ConfigValue(db.config, MaxRetriesKey)).value)
  {
    var maxRetries := ParseInt(ConfigValue(db.config, MaxRetriesKey)).value;
    if Netloc(job.url).value in Blocklist(ConfigValue(db.config, BlockedDomainsKey)) {
      BlockedDomain(db, job, outcomes, now, hash);
      BlockSettles(db, job.captureId, now, maxRetries);
    } else {
      assert Worker(db, job, outcomes, now, hash) == Attempts(db, job, maxRetries, 0, outcomes, now, hash);
      AttemptsSettles(db, job, maxRetries, outcomes, now, hash);
    }
  }

  lemma BlockSettles(db: Db, captureId: int, now: int, maxRetries: int)
    ensures Settles(db, Block(db, captureId, now), captureId, now, true, maxRetries)
  {
    BlockSpec(db, captureId, now);
  }

  lemma AttemptsSettles(db: Db, job: Job, maxRetries: int, outcomes: nat -> AttemptOutcome, now: int, hash: Bytes -> string)
    requires 0 <= maxRetries
    ensures Settles(db, Attempts(db, job, maxRetries, 0, outcomes, now, hash), job.captureId, now, false, maxRetries)
  {
    AttemptsSettle(db, job, maxRetries, 0, outcomes, now, hash);
  }

  /** A negative max_capture_retries makes range(0, max_retries + 1) empty: the capture stays as it is. */
  lemma NegativeRetriesLeavePending(db: Db, job: Job, outcomes: nat -> AttemptOutcome, now: int, hash: Bytes -> string)
    requires ParseInt(ConfigValue(db.config, MaxRetriesKey)).Some? && ParseInt(ConfigValue(db.config, TimeoutKey)).Some?
    requires ParseInt(ConfigValue(db.config, MaxRetriesKey)).value < 0
    requires Netloc(job.url).Returned? && Netloc(job.url).value !in Blocklist(ConfigValue(db.config, BlockedDomainsKey))
    ensures Worker(db, job, outcomes, now, hash) == db
  {
  }

  /** Enqueue then a blocked worker: the new capture ends failed with retries 0 and no artifacts. */
  lemma EnqueueThenBlocked(db: Db, url: string, includePdf: bool, headers: string, cookies: string, scheduleId: Option<int>,
                           now: int, outcomes: nat -> AttemptOutcome, hash: Bytes -> string)
    requires ArtifactOwnersIssued(db.artifacts, db.sequences.captures) && Netloc(url).Returned?
    requires ParseInt(ConfigValue(db.config, MaxRetriesKey)).Some? && ParseInt(ConfigValue(db.config, TimeoutKey)).Some?
    requires Netloc(url).value in Blocklist(ConfigValue(db.config, BlockedDomainsKey))
    ensures var (queued, id) := Enqueue(db, url, includePdf, headers, cookies, scheduleId, now).value;
      var r := Worker(queued, Job(id, url, includePdf, headers, cookies), outcomes, now, hash);
      && |r.captures| == |db.captures| + 1
      && var c := r.captures[|db.captures|];
      && c.id == id && c.status == Failed && c.retries == 0 && c.errorMessage == Some(BlockedError) && c.finishedAt == Some(now)
      && ArtifactsOf(r.artifacts, id) == []
      && r.files == db.files
  {
    var (queued, id) := Enqueue(db, url, includePdf, headers, cookies, scheduleId, now).value;
    BlockSpec(queued, id, now);
    var r := Worker(queued, Job(id, url, includePdf, headers, cookies), outcomes, now, hash);
    assert queued.captures[|db.captures|].id == id;
    assert queued.config == db.config;
    BlockedDomain(queued, Job(id, url, includePdf, headers, cookies), outcomes, now, hash);
    FilterNone(db.artifacts, (a: Artifact) => a.captureId == id);
  }

  /** Dropping a capture's rows keeps the other captures' kinds distinct. */
  lemma {:induction false} DeleteKeepsKindsUnique(arts: seq<Artifact>, captureId: int)
    requires KindsUnique(arts)
    ensures KindsUnique(DeleteArtifactsOf(arts, captureId))
  {
    if arts != [] {
      assert KindsUnique(arts[1..]);
      DeleteKeepsKindsUnique(arts[1..], captureId);
      var rest := DeleteArtifactsOf(arts[1..], captureId);
      var r := DeleteArtifactsOf(arts, captureId);
      if arts[0].captureId != captureId {
        assert r == [arts[0]] + rest;
        forall j | 0 < j < |r| && r[0].captureId == r[j].captureId ensures r[0].kind != r[j].kind {
          assert r[j] == rest[j - 1];
          var m :| 0 <= m < |arts[1..]| && arts[1..][m] == rest[j - 1];
          assert arts[m + 1] == r[j];
        }
      } else {
        assert r == rest;
      }
    }
  }

  /** The persist commit keeps the tables well formed. */
  lemma FinishWellFormed(db: Db, job: Job, attempt: nat, rows: seq<Artifact>, o: AttemptOutcome, now: int)
    requires WellFormed(db) && o.Rendered? && job.captureId <= db.sequences.captures
    requires AllOf(rows, job.captureId) && KindsUnique(rows) && PathsInFolder(rows)
    ensures WellFormed(Finish(db, job, attempt, rows, o, now))
  {
    var cid := job.captureId;
    var kept := DeleteArtifactsOf(db.artifacts, cid);
    DeleteKeepsKindsUnique(db.artifacts, cid);
    var arts := kept + rows;
    forall i, j | 0 <= i < j < |arts| && arts[i].captureId == arts[j].captureId ensures arts[i].kind != arts[j].kind {
      if j < |kept| {
      } else if i >= |kept| {
        assert arts[i] == rows[i - |kept|] && arts[j] == rows[j - |kept|];
      }
    }
    forall i | 0 <= i < |arts| ensures arts[i].path == SnapshotPath(arts[i].captureId, arts[i].kind) && arts[i].captureId <= db.sequences.captures {
      if i >= |kept| {
        assert arts[i] == rows[i - |kept|];
      }
    }
  }

  /** Every attempt sequence keeps the tables well formed. */
  lemma {:induction false} AttemptsWellFormed(db: Db, job: Job, maxRetries: int, attempt: nat, outcomes: nat -> AttemptOutcome, now: int, hash: Bytes -> string)
    requires attempt <= maxRetries && WellFormed(db) && job.captureId <= db.sequences.captures
    ensures WellFormed(Attempts(db, job, maxRetries, attempt, outcomes, now, hash))
    decreases maxRetries - attempt
  {
    var o := outcomes(attempt);
    match RunAttempt(db, job, attempt, o, now, hash)
    case Completed(done) =>
      CompletedWellFormed(db, job, attempt, o, now, hash);
    case Aborted(failed, e) =>
      var logged := AppendEvent(failed, job.captureId, Error, AttemptErrorMessage(attempt, e), now);
      assert WellFormed(logged) && logged.sequences.captures == db.sequences.captures by {
        AbortedWellFormed(db, job, attempt, o, now, hash);
      }
      if attempt < maxRetries {
        AttemptsWellFormed(logged, job, maxRetries, attempt + 1, outcomes, now, hash);
      }
  }

  /** An attempt that persists its artifacts leaves the tables well formed. */
  lemma CompletedWellFormed(db: Db, job: Job, attempt: nat, o: AttemptOutcome, now: int, hash: Bytes -> string)
    requires WellFormed(db) && job.captureId <= db.sequences.captures
    requires RunAttempt(db, job, attempt, o, now, hash).Completed?
    ensures WellFormed(RunAttempt(db, job, attempt, o, now, hash).db)
  {
    var cid := job.captureId;
    var w := Started(db, job, attempt, o, now);
    var s := AppendEvent(w, cid, Info, RenderedMessage, now);
    assert WellFormed(s) by {
      AppendEventIdsFresh(db, cid, Info, StartedMessage(attempt), now);
      AppendEventIdsFresh(w, cid, Info, RenderedMessage, now);
    }
    var rows := PersistRows(s.files, cid, job.includePdf, s.sequences.artifacts, now, hash).value;
    PersistRowsRecords(s.files, cid, job.includePdf, s.sequences.artifacts, now, hash);
    PersistRowsKinds(s.files, cid, job.includePdf, s.sequences.artifacts, now, hash);
    assert RunAttempt(db, job, attempt, o, now, hash).db == Finish(s, job, attempt, rows, o, now);
    FinishWellFormed(s, job, attempt, rows, o, now);
  }

  /** An attempt that raises, with its error event logged, leaves the tables well formed. */
  lemma AbortedWellFormed(db: Db, job: Job, attempt: nat, o: AttemptOutcome, now: int, hash: Bytes -> string)
    requires WellFormed(db)
    requires RunAttempt(db, job, attempt, o, now, hash).Aborted?
    ensures var r := RunAttempt(db, job, attempt, o, now, hash);
      var logged := AppendEvent(r.db, job.captureId, Error, AttemptErrorMessage(attempt, r.error), now);
      WellFormed(logged) && logged.sequences.captures == db.sequences.captures
  {
    AbortedOnlyLogged(db, job, attempt, o, now, hash);
    var cid := job.captureId;
    var r := RunAttempt(db, job, attempt, o, now, hash);
    var written := Started(db, job, attempt, o, now);
    AppendEventIdsFresh(db, cid, Info, StartedMessage(attempt), now);
    assert EventIdsFresh(r.db.events, r.db.sequences.events) by {
      if o.Rendered? {
        AppendEventIdsFresh(written, cid, Info, RenderedMessage, now);
      }
    }
    AppendEventIdsFresh(r.db, cid, Error, AttemptErrorMessage(attempt, r.error), now);
  }

  /** The worker, run for an id enqueue_capture handed out, keeps the tables well formed. */
  lemma WorkerWellFormed(db: Db, job: Job, outcomes: nat -> AttemptOutcome, now: int, hash: Bytes -> string)
    requires WellFormed(db) && job.captureId <= db.sequences.captures
    ensures WellFormed(Worker(db, job, outcomes, now, hash))
  {
    var maxRetries := ParseInt(ConfigValue(db.config, MaxRetriesKey));
    var timeout := ParseInt(ConfigValue(db.config, TimeoutKey));
    var r := Worker(db, job, outcomes, now, hash);
    if maxRetries.None? || timeout.None? || Netloc(job.url).Raised? {
      assert r == db;
    } else if Netloc(job.url).value in Blocklist(ConfigValue(db.config, BlockedDomainsKey)) {
      assert WellFormed(r) by {
        BlockedDomain(db, job, outcomes, now, hash);
        BlockWellFormed(db, job.captureId, now);
      }
    } else if maxRetries.value < 0 {
      assert r == db;
    } else {
      assert WellFormed(r) by {
        assert r == Attempts(db, job, maxRetries.value, 0, outcomes, now, hash);
        AttemptsWellFormed(db, job, maxRetries.value, 0, outcomes, now, hash);
      }
    }
  }

  /** The blocked branch keeps the tables well formed. */
  lemma BlockWellFormed(db: Db, captureId: int, now: int)
    requires WellFormed(db)
    ensures WellFormed(Block(db, captureId, now))
  {
    BlockSpec(db, captureId, now);
    var r := Block(db, captureId, now);
    assert forall i :: 0 <= i < |r.captures| ==> r.captures[i].id == db.captures[i].id;
  }

  /** enqueue_capture keeps the tables well formed; the new id was never used. */
  lemma EnqueueWellFormed(db: Db, url: string, includePdf: bool, headers: string, cookies: string, scheduleId: Option<int>, now: int)
    requires WellFormed(db) && Netloc(url).Returned?
    ensures var (queued, id) := Enqueue(db, url, includePdf, headers, cookies, scheduleId, now).value;
      && WellFormed(queued) && id <= queued.sequences.captures
      && forall i :: 0 <= i < |db.captures| ==> db.captures[i].id != id
  {
  }
}

