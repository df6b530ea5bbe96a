/**
 * The SQLite tables created by init_db (captures, artifacts, tags, capture_tags,
 * events, schedules, integrity_logs, app_config), the AUTOINCREMENT counters,
 * and the storage directory, as one value `Db`; plus the row-level helpers the
 * SQL statements of the core amount to.
 */
module Schema {
  import opened Wrappers

  newtype byte = x: int | 0 <= x < 256
  type Bytes = seq<byte>

  /** captures.status. The code never writes 'running'. */
  datatype Status = Pending | Success | Partial | Failed

  /** captures.integrity_state and integrity_logs.result ('unknown', 'ok', 'corrupted'). */
  datatype Integrity = Unknown | Ok | Corrupted

  /** events.level. */
  datatype Level = Info | Error

  /** artifacts.kind. */
  datatype Kind = Html | Screenshot | Warc | Pdf

  function KindName(k: Kind): string {
    match k
    case Html => "html"
    case Screenshot => "screenshot"
    case Warc => "warc"
    case Pdf => "pdf"
  }

  /** The file each kind is written to inside a capture's folder. */
  function FileName(k: Kind): string {
    match k
    case Html => "snapshot.html"
    case Screenshot => "snapshot.png"
    case Warc => "snapshot.warc"
    case Pdf => "snapshot.pdf"
  }

  /** A path relative to the project root: data/storage/capture_<captureId>/<fileName>. */
  datatype RelPath = StoragePath(captureId: int, fileName: string)

  function SnapshotPath(captureId: int, k: Kind): RelPath {
    StoragePath(captureId, FileName(k))
  }

  lemma SnapshotPathInjective(c1: int, k1: Kind, c2: int, k2: Kind)
    ensures SnapshotPath(c1, k1) == SnapshotPath(c2, k2) <==> c1 == c2 && k1 == k2
  {
    if SnapshotPath(c1, k1) == SnapshotPath(c2, k2) {
      assert FileName(k1) == FileName(k2);
      assert FileName(k1)[9] == FileName(k2)[9];
    }
  }

  /** A captures row; NULL columns are None. Timestamps are integers (seconds). */
  datatype Capture = Capture(
    id: int,
    url: string,
    domain: string,
    title: Option<string>,
    description: Option<string>,
    status: Status,
    httpStatus: Option<int>,
    totalSize: int,
    createdAt: int,
    finishedAt: Option<int>,
    retries: int,
    includePdf: bool,
    headersJson: string,
    cookiesJson: string,
    errorMessage: Option<string>,
    textContent: Option<string>,
    links: Option<seq<string>>,
    scheduleId: Option<int>,
    integrityState: Integrity)

  datatype Artifact = Artifact(id: int, captureId: int, kind: Kind, path: RelPath, size: int, checksum: string, createdAt: int)

  datatype Event = Event(id: int, captureId: int, createdAt: int, level: Level, message: string)

  /** A schedules row; `active` is the INTEGER column (1 when created). */
  datatype Schedule = Schedule(id: int, url: string, intervalHours: int, lastRunAt: Option<int>, active: int)

  datatype IntegrityLog = IntegrityLog(id: int, captureId: int, checkedAt: int, result: Integrity, details: string)

  datatype Tag = Tag(id: int, name: string)

  datatype CaptureTag = CaptureTag(captureId: int, tagId: int)

  /** sqlite_sequence: the largest id each AUTOINCREMENT table has handed out. */
  datatype Sequences = Sequences(captures: int, artifacts: int, events: int, schedules: int, integrityLogs: int, tags: int)

  /** The whole persistent state: tables in rowid order, app_config, counters and the files on disk. */
  datatype Db = Db(
    captures: seq<Capture>,
    artifacts: seq<Artifact>,
    events: seq<Event>,
    schedules: seq<Schedule>,
    integrityLogs: seq<IntegrityLog>,
    tags: seq<Tag>,
    captureTags: seq<CaptureTag>,
    config: map<string, string>,
    sequences: Sequences,
    files: map<RelPath, Bytes>)

  /** The rows of `s` that satisfy `keep`, in order (a WHERE clause). */
  function Filter<T>(s: seq<T>, keep: T -> bool): (r: seq<T>)
    ensures |r| <= |s|
    ensures forall i :: 0 <= i < |r| ==> r[i] in s && keep(r[i])
    ensures forall i :: 0 <= i < |s| && keep(s[i]) ==> s[i] in r
  {
    if s == [] then [] else (if keep(s[0]) then [s[0]] else []) + Filter(s[1..], keep)
  }

  lemma {:induction false} FilterAppend<T>(a: seq<T>, b: seq<T>, keep: T -> bool)
    ensures Filter(a + b, keep) == Filter(a, keep) + Filter(b, keep)
  {
    if a != [] {
      assert (a + b)[1..] == a[1..] + b;
      FilterAppend(a[1..], b, keep);
    } else {
      assert a + b == b;
    }
  }

  lemma {:induction false} FilterKeepsAll<T>(s: seq<T>, keep: T -> bool)
    requires forall i :: 0 <= i < |s| ==> keep(s[i])
    ensures Filter(s, keep) == s
  {
    if s != [] {
      FilterKeepsAll(s[1..], keep);
    }
  }

  /** SELECT * FROM artifacts WHERE capture_id=? */
  function ArtifactsOf(arts: seq<Artifact>, captureId: int): seq<Artifact> {
    Filter(arts, (a: Artifact) => a.captureId == captureId)
  }

  /** DELETE FROM artifacts WHERE capture_id=? */
  function DeleteArtifactsOf(arts: seq<Artifact>, captureId: int): seq<Artifact> {
    Filter(arts, (a: Artifact) => a.captureId != captureId)
  }

  /** After the delete, the capture has no rows left and every other capture keeps exactly its own. */
  lemma {:induction false} ArtifactsOfAfterDelete(arts: seq<Artifact>, deleted: int, c: int)
    ensures ArtifactsOf(DeleteArtifactsOf(arts, deleted), c) == if c == deleted then [] else ArtifactsOf(arts, c)
  {
    if arts != [] {
      ArtifactsOfAfterDelete(arts[1..], deleted, c);
      var rest := DeleteArtifactsOf(arts[1..], deleted);
      var head := if arts[0].captureId != deleted then [arts[0]] else [];
      assert DeleteArtifactsOf(arts, deleted) == head + rest;
      FilterAppend(head, rest, (a: Artifact) => a.captureId == c);
    }
  }

  /** COALESCE(SUM(size), 0) */
  function SumSizes(arts: seq<Artifact>): int {
    if arts == [] then 0 else arts[0].size + SumSizes(arts[1..])
  }

  /** UPDATE captures SET ... WHERE id=?: every row with that id is rewritten by `f`. */
  function UpdateCaptures(caps: seq<Capture>, id: int, f: Capture -> Capture): (r: seq<Capture>)
    ensures |r| == |caps|
    ensures forall i :: 0 <= i < |caps| ==> r[i] == if caps[i].id == id then f(caps[i]) else caps[i]
  {
    seq(|caps|, i requires 0 <= i < |caps| => if caps[i].id == id then f(caps[i]) else caps[i])
  }

  /** UPDATE schedules SET ... WHERE id=? */
  function UpdateSchedules(rows: seq<Schedule>, id: int, f: Schedule -> Schedule): (r: seq<Schedule>)
    ensures |r| == |rows|
    ensures forall i :: 0 <= i < |rows| ==> r[i] == if rows[i].id == id then f(rows[i]) else rows[i]
  {
    seq(|rows|, i requires 0 <= i < |rows| => if rows[i].id == id then f(rows[i]) else rows[i])
  }

  /** set_event: one events row, with the next id. */
  function AppendEvent(db: Db, captureId: int, level: Level, message: string, now: int): (r: Db)
    ensures r == db.(events := r.events, sequences := r.sequences)
    ensures r.events == db.events + [Event(db.sequences.events + 1, captureId, now, level, message)]
    ensures r.sequences == db.sequences.(events := db.sequences.events + 1)
  {
    var id := db.sequences.events + 1;
    db.(events := db.events + [Event(id, captureId, now, level, message)],
        sequences := db.sequences.(events := id))
  }

  // Table invariants that every operation of the core keeps.

  predicate CaptureIdsFresh(caps: seq<Capture>, last: int) {
    && (forall i, j :: 0 <= i < j < |caps| ==> caps[i].id != caps[j].id)
    && (forall i :: 0 <= i < |caps| ==> caps[i].id <= last)
  }

  /** No capture has two artifacts of the same kind. */
  predicate KindsUnique(arts: seq<Artifact>) {
    forall i, j :: 0 <= i < j < |arts| && arts[i].captureId == arts[j].captureId ==> arts[i].kind != arts[j].kind
  }

  /** Every artifact's file is its kind's file in its capture's folder. */
  predicate PathsInFolder(arts: seq<Artifact>) {
    forall i :: 0 <= i < |arts| ==> arts[i].path == SnapshotPath(arts[i].captureId, arts[i].kind)
  }

  /** Artifacts only belong to captures whose id has been handed out. */
  predicate ArtifactOwnersIssued(arts: seq<Artifact>, last: int) {
    forall i :: 0 <= i < |arts| ==> arts[i].captureId <= last
  }

  predicate TagsUnique(tags: seq<Tag>, last: int) {
    && (forall i, j :: 0 <= i < j < |tags| ==> tags[i].name != tags[j].name && tags[i].id != tags[j].id)
    && (forall i :: 0 <= i < |tags| ==> tags[i].id <= last)
  }

  /** PRIMARY KEY(capture_id, tag_id). */
  predicate PairsUnique(pairs: seq<CaptureTag>) {
    forall i, j :: 0 <= i < j < |pairs| ==> pairs[i] != pairs[j]
  }

  predicate ScheduleIdsFresh(rows: seq<Schedule>, last: int) {
    && (forall i, j :: 0 <= i < j < |rows| ==> rows[i].id != rows[j].id)
    && (forall i :: 0 <= i < |rows| ==> rows[i].id <= last)
  }

  /** events.id is AUTOINCREMENT: ids grow along the table and none exceeds the last one handed out. */
  predicate EventIdsFresh(events: seq<Event>, last: int) {
    && (forall i, j :: 0 <= i < j < |events| ==> events[i].id < events[j].id)
    && (forall i :: 0 <= i < |events| ==> events[i].id <= last)
  }

  /** Appending an event keeps its table's ids fresh. */
  lemma AppendEventIdsFresh(db: Db, captureId: int, level: Level, message: string, now: int)
    requires EventIdsFresh(db.events, db.sequences.events)
    ensures var r := AppendEvent(db, captureId, level, message, now);
      EventIdsFresh(r.events, r.sequences.events)
  {
  }

  predicate WellFormed(db: Db) {
    && CaptureIdsFresh(db.captures, db.sequences.captures)
    && EventIdsFresh(db.events, db.sequences.events)
    && KindsUnique(db.artifacts)
    && PathsInFolder(db.artifacts)
    && ArtifactOwnersIssued(db.artifacts, db.sequences.captures)
    && TagsUnique(db.tags, db.sequences.tags)
    && PairsUnique(db.captureTags)
    && ScheduleIdsFresh(db.schedules, db.sequences.schedules)
  }
}
