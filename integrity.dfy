/**
 * integrity_check_once: every finished capture's artifacts are checked against
 * the files on disk, the verdict is written to the captures row and one
 * integrity_logs row is appended per capture.
 */
module Integrity {
  import opened Wrappers
  import opened Text
  import opened Schema
  import opened Artifacts
  import opened Capturing

  /** The file of the row still exists and hashes to the stored checksum. */
  predicate Intact(a: Artifact, files: map<RelPath, Bytes>, hash: Bytes -> string) {
    a.path in files && hash(files[a.path]) == a.checksum
  }

  predicate AllIntact(arts: seq<Artifact>, files: map<RelPath, Bytes>, hash: Bytes -> string) {
    forall i :: 0 <= i < |arts| ==> Intact(arts[i], files, hash)
  }

  /** The detail one row contributes: a missing file, or a checksum that differs. */
  function Detail(a: Artifact, files: map<RelPath, Bytes>, hash: Bytes -> string): (d: Option<string>)
    ensures d.None? <==> Intact(a, files, hash)
  {
    if a.path !in files then Some("Ausente: " + KindName(a.kind))
    else if hash(files[a.path]) != a.checksum then Some("Checksum inválido: " + KindName(a.kind))
    else None
  }

  /** The details of the rows, in row order. */
  function Details(arts: seq<Artifact>, files: map<RelPath, Bytes>, hash: Bytes -> string): seq<string> {
    if arts == [] then []
    else
      var last := Detail(arts[|arts| - 1], files, hash);
      Details(arts[..|arts| - 1], files, hash) + (if last.Some? then [last.value] else [])
  }

  /** A capture is reported without details exactly when every one of its files is intact. */
  lemma {:induction false} NoDetailsIffIntact(arts: seq<Artifact>, files: map<RelPath, Bytes>, hash: Bytes -> string)
    ensures Details(arts, files, hash) == [] <==> AllIntact(arts, files, hash)
  {
    if arts != [] {
      var init := arts[..|arts| - 1];
      NoDetailsIffIntact(init, files, hash);
      if AllIntact(arts, files, hash) {
        assert AllIntact(init, files, hash) by {
          forall i | 0 <= i < |init| ensures Intact(init[i], files, hash) {
            assert init[i] == arts[i];
          }
        }
      } else {
        var i :| 0 <= i < |arts| && !Intact(arts[i], files, hash);
        if i < |arts| - 1 {
          assert init[i] == arts[i];
        }
      }
    }
  }

  /** Every detail names a row whose file is missing or altered, and there is one per such row. */
  lemma {:induction false} DetailsCount(arts: seq<Artifact>, files: map<RelPath, Bytes>, hash: Bytes -> string)
    ensures |Details(arts, files, hash)| <= |arts|
    ensures |Details(arts, files, hash)| == |arts| <==> (forall i :: 0 <= i < |arts| ==> !Intact(arts[i], files, hash))
  {
    if arts != [] {
      var init := arts[..|arts| - 1];
      DetailsCount(init, files, hash);
      if forall i :: 0 <= i < |arts| ==> !Intact(arts[i], files, hash) {
        assert forall i :: 0 <= i < |init| ==> !Intact(init[i], files, hash) by {
          forall i | 0 <= i < |init| ensures !Intact(init[i], files, hash) {
            assert init[i] == arts[i];
          }
        }
      }
      if |Details(arts, files, hash)| == |arts| {
        forall i | 0 <= i < |arts| ensures !Intact(arts[i], files, hash) {
          if i < |arts| - 1 {
            assert init[i] == arts[i];
          }
        }
      }
    }
  }

  /** The inner loop of the sweep: ok and the details list of one capture. */
  method CheckArtifacts(arts: seq<Artifact>, files: map<RelPath, Bytes>, hash: Bytes -> string) returns (ok: bool, details: seq<string>)
    ensures ok <==> AllIntact(arts, files, hash)
    ensures details == Details(arts, files, hash)
  {
    ok := true;
    details := [];
    var i := 0;
    while i < |arts|
      invariant 0 <= i <= |arts|
      invariant ok <==> AllIntact(arts[..i], files, hash)
      invariant details == Details(arts[..i], files, hash)
    {
      var art := arts[i];
      assert arts[..i + 1][..i] == arts[..i];
      if art.path !in files {
        ok := false;
        details := details + ["Ausente: " + KindName(art.kind)];
        i := i + 1;
        continue;
      }
      var checksum := hash(files[art.path]);
      if checksum != art.checksum {
        ok := false;
        details := details + ["Checksum inválido: " + KindName(art.kind)];
      }
      i := i + 1;
    }
    assert arts[..i] == arts;
  }

  function Verdict(arts: seq<Artifact>, files: map<RelPath, Bytes>, hash: Bytes -> string): Integrity {
    if AllIntact(arts, files, hash) then Ok else Corrupted
  }

  /** The verdict and the joined details of one capture, as the sweep writes them. */
  method CheckOne(arts: seq<Artifact>, files: map<RelPath, Bytes>, hash: Bytes -> string) returns (result: Integrity, text: string)
    ensures result == Verdict(arts, files, hash)
    ensures text == Join(Details(arts, files, hash), "; ")
  {
    var ok, details := CheckArtifacts(arts, files, hash);
    result := if ok then Ok else Corrupted;
    text := Join(details, "; ");
  }

  /** UPDATE captures SET integrity_state=? WHERE id=? */
  function SetIntegrity(caps: seq<Capture>, captureId: int, result: Integrity): seq<Capture> {
    UpdateCaptures(caps, captureId, (c: Capture) => c.(integrityState := result))
  }

  /** The log row the sweep writes for a capture. */
  function LogFor(artifacts: seq<Artifact>, files: map<RelPath, Bytes>, captureId: int, id: int, now: int, hash: Bytes -> string): IntegrityLog {
    var arts := ArtifactsOf(artifacts, captureId);
    IntegrityLog(id, captureId, now, Verdict(arts, files, hash), Join(Details(arts, files, hash), "; "))
  }

  /** The transaction for one capture: its integrity_state, then its log row. */
  function SweepOne(db: Db, captureId: int, now: int, hash: Bytes -> string): Db {
    var id := db.sequences.integrityLogs + 1;
    db.(captures := SetIntegrity(db.captures, captureId, Verdict(ArtifactsOf(db.artifacts, captureId), db.files, hash)),
        integrityLogs := db.integrityLogs + [LogFor(db.artifacts, db.files, captureId, id, now, hash)],
        sequences := db.sequences.(integrityLogs := id))
  }

  /** SELECT id FROM captures WHERE status in ('success','partial') */
  function CheckedIds(caps: seq<Capture>): seq<int> {
    if caps == [] then []
    else (if caps[0].status in {Success, Partial} then [caps[0].id] else []) + CheckedIds(caps[1..])
  }

  /** Rows appended with neither success nor partial status add nothing to the integrity SELECT. */
  lemma {:induction false} CheckedIdsAppend(caps: seq<Capture>, more: seq<Capture>)
    requires forall k :: 0 <= k < |more| ==> !Finished(more[k])
    ensures CheckedIds(caps + more) == CheckedIds(caps)
    decreases |caps| + |more|
  {
    if caps == [] {
      if more != [] {
        assert !Finished(more[0]);
        CheckedIdsAppend([], more[1..]);
        assert [] + more == more && [] + more[1..] == more[1..];
        assert CheckedIds(more) == CheckedIds(more[1..]);
      }
    } else {
      assert (caps + more)[1..] == caps[1..] + more;
      CheckedIdsAppend(caps[1..], more);
    }
  }

  function SweepIds(db: Db, ids: seq<int>, now: int, hash: Bytes -> string): Db
    decreases |ids|
  {
    if ids == [] then db else SweepIds(SweepOne(db, ids[0], now, hash), ids[1..], now, hash)
  }

  lemma SweepIdsStep(db: Db, ids: seq<int>, now: int, hash: Bytes -> string)
    requires ids != []
    ensures SweepIds(db, ids, now, hash) == SweepIds(SweepOne(db, ids[0], now, hash), ids[1..], now, hash)
  {
  }

  function Sweep(db: Db, now: int, hash: Bytes -> string): Db {
    SweepIds(db, CheckedIds(db.captures), now, hash)
  }

  predicate Finished(c: Capture) {
    c.status == Success || c.status == Partial
  }

  /** Exactly the finished captures are selected, in rowid order. */
  lemma {:induction false} CheckedIdsSpec(caps: seq<Capture>, x: int)
    ensures x in CheckedIds(caps) <==> exists i :: 0 <= i < |caps| && caps[i].id == x && Finished(caps[i])
  {
    if caps != [] {
      CheckedIdsSpec(caps[1..], x);
      if x in CheckedIds(caps[1..]) {
        var i :| 0 <= i < |caps[1..]| && caps[1..][i].id == x && Finished(caps[1..][i]);
        assert caps[i + 1] == caps[1..][i];
      }
      if exists i :: 0 <= i < |caps| && caps[i].id == x && Finished(caps[i]) {
        var i :| 0 <= i < |caps| && caps[i].id == x && Finished(caps[i]);
        if i > 0 {
          assert caps[1..][i - 1] == caps[i];
        }
      }
    }
  }

  /** The log rows the sweep writes for `ids`, numbered on from `last`. */
  function SweepLogs(artifacts: seq<Artifact>, files: map<RelPath, Bytes>, ids: seq<int>, last: int, now: int, hash: Bytes -> string): seq<IntegrityLog>
    decreases |ids|
  {
    if ids == [] then []
    else [LogFor(artifacts, files, ids[0], last + 1, now, hash)] + SweepLogs(artifacts, files, ids[1..], last + 1, now, hash)
  }

  /** One log row per id, in order, with consecutive ids. */
  lemma {:induction false} SweepLogsAt(artifacts: seq<Artifact>, files: map<RelPath, Bytes>, ids: seq<int>, last: int, now: int, hash: Bytes -> string)
    ensures var logs := SweepLogs(artifacts, files, ids, last, now, hash);
      && |logs| == |ids|
      && forall k :: 0 <= k < |ids| ==> logs[k] == LogFor(artifacts, files, ids[k], last + 1 + k, now, hash)
    decreases |ids|
  {
    if ids != [] {
      SweepLogsAt(artifacts, files, ids[1..], last + 1, now, hash);
      var logs := SweepLogs(artifacts, files, ids, last, now, hash);
      forall k | 0 < k < |ids| ensures logs[k] == LogFor(artifacts, files, ids[k], last + 1 + k, now, hash) {
        assert ids[k] == ids[1..][k - 1] && last + 1 + 1 + (k - 1) == last + 1 + k;
      }
    }
  }

  /** Sweeping a list of ids gives each listed capture the verdict of its artifacts and changes no other table but the logs. */
  lemma {:induction false} SweepIdsRows(db: Db, ids: seq<int>, now: int, hash: Bytes -> string)
    ensures var r := SweepIds(db, ids, now, hash);
      && r == db.(captures := r.captures, integrityLogs := r.integrityLogs, sequences := r.sequences)
      && r.sequences == db.sequences.(integrityLogs := db.sequences.integrityLogs + |ids|)
      && |r.captures| == |db.captures|
      && (forall i :: 0 <= i < |db.captures| ==>
            r.captures[i] == if db.captures[i].id in ids
              then db.captures[i].(integrityState := Verdict(ArtifactsOf(db.artifacts, db.captures[i].id), db.files, hash))
              else db.captures[i])
    decreases |ids|
  {
    if ids != [] {
      var one := SweepOne(db, ids[0], now, hash);
      SweepIdsRows(one, ids[1..], now, hash);
      var r := SweepIds(db, ids, now, hash);
      assert r == SweepIds(one, ids[1..], now, hash);
      forall i | 0 <= i < |db.captures|
        ensures r.captures[i] == if db.captures[i].id in ids
              then db.captures[i].(integrityState := Verdict(ArtifactsOf(db.artifacts, db.captures[i].id), db.files, hash))
              else db.captures[i]
      {
        assert db.captures[i].id in ids <==> db.captures[i].id == ids[0] || db.captures[i].id in ids[1..];
      }
    }
  }

  /** Sweeping a list of ids appends its log rows to the table. */
  lemma {:induction false} SweepIdsLogs(db: Db, ids: seq<int>, now: int, hash: Bytes -> string)
    ensures SweepIds(db, ids, now, hash).integrityLogs
            == db.integrityLogs + SweepLogs(db.artifacts, db.files, ids, db.sequences.integrityLogs, now, hash)
    decreases |ids|
  {
    if ids != [] {
      var c, rest := ids[0], ids[1..];
      assert ids == [c] + rest;
      SweepIdsLogs(SweepOne(db, c, now, hash), rest, now, hash);
      SweepIdsLogsCons(db, c, rest, now, hash);
    } else {
      assert db.integrityLogs + [] == db.integrityLogs;
    }
  }

  /** The step of SweepIdsLogs for a first id `c`, given its conclusion for the ids after it. */
  lemma SweepIdsLogsCons(db: Db, c: int, rest: seq<int>, now: int, hash: Bytes -> string)
    requires var one := SweepOne(db, c, now, hash);
      SweepIds(one, rest, now, hash).integrityLogs
      == one.integrityLogs + SweepLogs(one.artifacts, one.files, rest, one.sequences.integrityLogs, now, hash)
    ensures SweepIds(db, [c] + rest, now, hash).integrityLogs
            == db.integrityLogs + SweepLogs(db.artifacts, db.files, [c] + rest, db.sequences.integrityLogs, now, hash)
  {
    var n := db.sequences.integrityLogs;
    var one := SweepOne(db, c, now, hash);
    SweepIdsCons(db, c, rest, now, hash);
    SweepLogsCons(db.artifacts, db.files, c, rest, n, now, hash);
    SweepOneLogs(db, c, now, hash);
    ChainLogs(db.integrityLogs, LogFor(db.artifacts, db.files, c, n + 1, now, hash), one.integrityLogs,
      SweepLogs(db.artifacts, db.files, rest, n + 1, now, hash), SweepIds(db, [c] + rest, now, hash).integrityLogs,
      SweepLogs(db.artifacts, db.files, [c] + rest, n, now, hash));
  }

  lemma SweepIdsCons(db: Db, c: int, rest: seq<int>, now: int, hash: Bytes -> string)
    ensures SweepIds(db, [c] + rest, now, hash) == SweepIds(SweepOne(db, c, now, hash), rest, now, hash)
  {
    assert ([c] + rest)[0] == c && ([c] + rest)[1..] == rest;
  }

  lemma SweepLogsCons(artifacts: seq<Artifact>, files: map<RelPath, Bytes>, c: int, rest: seq<int>, last: int, now: int, hash: Bytes -> string)
    ensures SweepLogs(artifacts, files, [c] + rest, last, now, hash)
            == [LogFor(artifacts, files, c, last + 1, now, hash)] + SweepLogs(artifacts, files, rest, last + 1, now, hash)
  {
    assert ([c] + rest)[0] == c && ([c] + rest)[1..] == rest;
  }

  /** Appending the first row and then the rest is appending them all. */
  lemma ChainLogs(logs: seq<IntegrityLog>, x: IntegrityLog, mid: seq<IntegrityLog>, rest: seq<IntegrityLog>, r: seq<IntegrityLog>, all: seq<IntegrityLog>)
    requires mid == logs + [x] && r == mid + rest && all == [x] + rest
    ensures r == logs + all
  {
  }

  /** One capture's transaction appends its log row and keeps the artifacts and files. */
  lemma SweepOneLogs(db: Db, captureId: int, now: int, hash: Bytes -> string)
    ensures var one := SweepOne(db, captureId, now, hash);
      && one.artifacts == db.artifacts && one.files == db.files
      && one.sequences.integrityLogs == db.sequences.integrityLogs + 1
      && one.integrityLogs == db.integrityLogs + [LogFor(db.artifacts, db.files, captureId, db.sequences.integrityLogs + 1, now, hash)]
  {
  }

  /**
   * Sweeping a list of ids: each listed capture gets the verdict of its
   * artifacts, each listed id gets one log row, in order, and nothing else changes.
   */
  lemma SweepIdsSpec(db: Db, ids: seq<int>, now: int, hash: Bytes -> string)
    ensures var r := SweepIds(db, ids, now, hash);
      && r == db.(captures := r.captures, integrityLogs := r.integrityLogs, sequences := r.sequences)
      && r.sequences == db.sequences.(integrityLogs := db.sequences.integrityLogs + |ids|)
      && |r.captures| == |db.captures|
      && (forall i :: 0 <= i < |db.captures| ==>
            r.captures[i] == if db.captures[i].id in ids
              then db.captures[i].(integrityState := Verdict(ArtifactsOf(db.artifacts, db.captures[i].id), db.files, hash))
              else db.captures[i])
      && |r.integrityLogs| == |db.integrityLogs| + |ids|
      && r.integrityLogs[..|db.integrityLogs|] == db.integrityLogs
      && (forall k :: 0 <= k < |ids| ==>
            r.integrityLogs[|db.integrityLogs| + k] == LogFor(db.artifacts, db.files, ids[k], db.sequences.integrityLogs + 1 + k, now, hash))
  {
    SweepIdsRows(db, ids, now, hash);
    SweepIdsLogs(db, ids, now, hash);
    SweepLogsAt(db.artifacts, db.files, ids, db.sequences.integrityLogs, now, hash);
  }

  /**
   * One sweep over well-formed tables: finished captures get 'ok' exactly when
   * every artifact file is intact, 'corrupted' otherwise; pending and failed
   * captures are untouched; one log row is appended per finished capture.
   */
  lemma SweepSpec(db: Db, now: int, hash: Bytes -> string)
    requires WellFormed(db)
    ensures var r := Sweep(db, now, hash);
      && r.artifacts == db.artifacts && r.files == db.files && r.events == db.events && r.schedules == db.schedules
      && r.tags == db.tags && r.captureTags == db.captureTags && r.config == db.config
      && |r.captures| == |db.captures|
      && (forall i :: 0 <= i < |db.captures| ==>
            if Finished(db.captures[i]) then
              && r.captures[i] == db.captures[i].(integrityState := r.captures[i].integrityState)
              && (r.captures[i].integrityState == Ok <==> AllIntact(ArtifactsOf(db.artifacts, db.captures[i].id), db.files, hash))
              && (r.captures[i].integrityState == Corrupted <==> !AllIntact(ArtifactsOf(db.artifacts, db.captures[i].id), db.files, hash))
            else r.captures[i] == db.captures[i])
      && |r.integrityLogs| == |db.integrityLogs| + |CheckedIds(db.captures)|
      && r.integrityLogs[..|db.integrityLogs|] == db.integrityLogs
  {
    var ids := CheckedIds(db.captures);
    SweepIdsSpec(db, ids, now, hash);
    forall i | 0 <= i < |db.captures| ensures db.captures[i].id in ids <==> Finished(db.captures[i]) {
      CheckedIdsSpec(db.captures, db.captures[i].id);
    }
  }

  /** Rows that record their files, checked against those same files, are all intact. */
  lemma RecordedRowsIntact(rows: seq<Artifact>, files: map<RelPath, Bytes>, hash: Bytes -> string)
    requires forall i :: 0 <= i < |rows| ==> Records(rows[i], files, hash)
    ensures AllIntact(rows, files, hash)
    ensures Details(rows, files, hash) == []
  {
    NoDetailsIffIntact(rows, files, hash);
  }

  /** A finished capture whose artifacts are all intact is found 'ok'. */
  lemma SweepFindsIntact(db: Db, captureId: int, now: int, hash: Bytes -> string)
    requires WellFormed(db)
    requires forall i :: 0 <= i < |db.captures| && db.captures[i].id == captureId ==> Finished(db.captures[i])
    requires AllIntact(ArtifactsOf(db.artifacts, captureId), db.files, hash)
    ensures var r := Sweep(db, now, hash);
      && |r.captures| == |db.captures|
      && forall i :: 0 <= i < |db.captures| && db.captures[i].id == captureId ==> r.captures[i].integrityState == Ok
  {
    SweepSpec(db, now, hash);
  }

  /** Right after the persist commit the capture is finished and its rows match the files. */
  lemma PersistLeavesIntact(db: Db, job: Job, maxRetries: int, k: nat, outcomes: nat -> AttemptOutcome, now: int, hash: Bytes -> string)
    requires RunsAttempts(db, job, maxRetries) && k <= maxRetries
    requires forall j :: 0 <= j < k ==> outcomes(j).RenderFailed?
    requires outcomes(k).Rendered?
    requires var files := FilesAfter(db.files, job.captureId, outcomes, 0, k + 1);
      SnapshotPath(job.captureId, Html) in files && SnapshotPath(job.captureId, Screenshot) in files
    ensures var w := Worker(db, job, outcomes, now, hash);
      && |w.captures| == |db.captures|
      && (forall i :: 0 <= i < |db.captures| ==> w.captures[i].id == db.captures[i].id)
      && (forall i :: 0 <= i < |w.captures| && w.captures[i].id == job.captureId ==> Finished(w.captures[i]))
      && AllIntact(ArtifactsOf(w.artifacts, job.captureId), w.files, hash)
  {
    var cid := job.captureId;
    var w := Worker(db, job, outcomes, now, hash);
    FirstPersistingAttempt(db, job, maxRetries, k, outcomes, now, hash);
    var files := FilesAfter(db.files, cid, outcomes, 0, k + 1);
    PersistRowsRecords(files, cid, job.includePdf, db.sequences.artifacts, now, hash);
    RecordedRowsIntact(ArtifactsOf(w.artifacts, cid), w.files, hash);
    forall i | 0 <= i < |w.captures| && w.captures[i].id == cid ensures Finished(w.captures[i]) {
      assert db.captures[i].id == cid;
      assert FinishedRow(db.captures[i], w.captures[i], k, outcomes(k), ArtifactsOf(w.artifacts, cid), now);
    }
  }

  /**
   * A sweep run right after an attempt persisted the capture, with the files
   * unchanged, finds every artifact intact: the capture becomes 'ok'.
   */
  lemma SweepAfterPersistIsOk(db: Db, job: Job, maxRetries: int, k: nat, outcomes: nat -> AttemptOutcome, now: int, later: int, hash: Bytes -> string)
    requires WellFormed(db) && job.captureId <= db.sequences.captures
    requires RunsAttempts(db, job, maxRetries) && k <= maxRetries
    requires forall j :: 0 <= j < k ==> outcomes(j).RenderFailed?
    requires outcomes(k).Rendered?
    requires var files := FilesAfter(db.files, job.captureId, outcomes, 0, k + 1);
      SnapshotPath(job.captureId, Html) in files && SnapshotPath(job.captureId, Screenshot) in files
    ensures var r := Sweep(Worker(db, job, outcomes, now, hash), later, hash);
      && |r.captures| == |db.captures|
      && forall i :: 0 <= i < |db.captures| && db.captures[i].id == job.captureId ==> r.captures[i].integrityState == Ok
  {
    var w := Worker(db, job, outcomes, now, hash);
    PersistLeavesIntact(db, job, maxRetries, k, outcomes, now, hash);
    WorkerWellFormed(db, job, outcomes, now, hash);
    SweepFindsIntact(w, job.captureId, later, hash);
    var r := Sweep(w, later, hash);
    forall i | 0 <= i < |db.captures| && db.captures[i].id == job.captureId ensures r.captures[i].integrityState == Ok {
      assert w.captures[i].id == job.captureId;
    }
  }

  /** A row whose file is gone is reported as "Ausente: <kind>". */
  lemma {:induction false} MissingFileReported(arts: seq<Artifact>, files: map<RelPath, Bytes>, hash: Bytes -> string, j: int)
    requires 0 <= j < |arts| && arts[j].path !in files
    ensures "Ausente: " + KindName(arts[j].kind) in Details(arts, files, hash)
    decreases |arts|
  {
    var n := |arts| - 1;
    if j < n {
      assert arts[..n][j] == arts[j];
      MissingFileReported(arts[..n], files, hash, j);
    }
  }

  /**
   * Removing one of a finished capture's artifact files makes the next sweep
   * mark it 'corrupted' and log a detail naming that artifact's kind.
   */
  lemma RemovedFileCorrupts(db: Db, now: int, hash: Bytes -> string, i: int, j: int)
    requires WellFormed(db) && 0 <= i < |db.captures| && Finished(db.captures[i])
    requires 0 <= j < |ArtifactsOf(db.artifacts, db.captures[i].id)|
    ensures var arts := ArtifactsOf(db.artifacts, db.captures[i].id);
      var damaged := db.(files := db.files - {arts[j].path});
      var r := Sweep(damaged, now, hash);
      && |r.captures| == |db.captures|
      && r.captures[i].integrityState == Corrupted
      && "Ausente: " + KindName(arts[j].kind) in Details(arts, damaged.files, hash)
  {
    var arts := ArtifactsOf(db.artifacts, db.captures[i].id);
    var damaged := db.(files := db.files - {arts[j].path});
    SweepSpec(damaged, now, hash);
    MissingFileReported(arts, damaged.files, hash, j);
    assert !Intact(arts[j], damaged.files, hash);
  }
}
