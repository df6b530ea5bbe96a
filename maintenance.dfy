/**
 * The table-maintenance handlers: add_tag and remove_tag (INSERT OR IGNORE set
 * semantics on tags and capture_tags), delete_capture (rows of every table keyed
 * by the capture, then its files and folder), create_schedule and
 * toggle_schedule. Each handler runs in one db_conn transaction, so one that
 * raises leaves the tables as they were.
 */
module Maintenance {
  import opened Wrappers
  import opened Schema
  import opened Scheduling

  // ---------------------------------------------------------------- tags

  /** SELECT id FROM tags WHERE name=?: the first row with that name. */
  function TagNamed(tags: seq<Tag>, name: string): (r: Option<Tag>)
    ensures r.Some? ==> r.value in tags && r.value.name == name
    ensures r.None? ==> forall i :: 0 <= i < |tags| ==> tags[i].name != name
  {
    if tags == [] then None
    else if tags[0].name == name then Some(tags[0])
    else TagNamed(tags[1..], name)
  }

  lemma {:induction false} TagNamedAppend(tags: seq<Tag>, t: Tag, name: string)
    requires TagNamed(tags, name).None? && t.name == name
    ensures TagNamed(tags + [t], name) == Some(t)
  {
    if tags != [] {
      assert (tags + [t])[1..] == tags[1..] + [t];
      TagNamedAppend(tags[1..], t, name);
    }
  }

  /**
   * INSERT OR IGNORE INTO tags(name): the tables with a row of that name, and
   * that row. The AUTOINCREMENT counter of tags is drawn before the UNIQUE
   * check, so it advances even when the insert is ignored.
   */
  function EnsureTag(db: Db, name: string): (Db, Tag) {
    match TagNamed(db.tags, name)
    case Some(t) => (db.(sequences := db.sequences.(tags := db.sequences.tags + 1)), t)
    case None =>
      var t := Tag(db.sequences.tags + 1, name);
      (db.(tags := db.tags + [t], sequences := db.sequences.(tags := t.id)), t)
  }

  /** add_tag: make sure the tag exists, then INSERT OR IGNORE the (capture, tag) pair. */
  function AddTag(db: Db, captureId: int, name: string): Db {
    var (tagged, t) := EnsureTag(db, name);
    var pair := CaptureTag(captureId, t.id);
    if pair in tagged.captureTags then tagged
    else tagged.(captureTags := tagged.captureTags + [pair])
  }

  /**
   * After add_tag there is a tag of that name (the old row, or a new one with
   * the next id), the tags counter has moved on by one either way, the capture
   * carries the tag, the pairs are the old ones plus that one, and nothing else
   * changes.
   */
  lemma AddTagSpec(db: Db, captureId: int, name: string)
    ensures var r := AddTag(db, captureId, name);
      && TagNamed(r.tags, name).Some?
      && (TagNamed(db.tags, name).Some? ==>
            r.tags == db.tags && TagNamed(r.tags, name) == TagNamed(db.tags, name))
      && (TagNamed(db.tags, name).None? ==> r.tags == db.tags + [Tag(db.sequences.tags + 1, name)])
      && r.sequences == db.sequences.(tags := db.sequences.tags + 1)
      && CaptureTag(captureId, TagNamed(r.tags, name).value.id) in r.captureTags
      && (forall p :: p in r.captureTags <==> p in db.captureTags || p == CaptureTag(captureId, TagNamed(r.tags, name).value.id))
      && r == db.(tags := r.tags, sequences := r.sequences, captureTags := r.captureTags)
  {
    if TagNamed(db.tags, name).None? {
      TagNamedAppend(db.tags, Tag(db.sequences.tags + 1, name), name);
    }
  }

  /**
   * Adding the same tag twice leaves the tags and capture_tags tables as adding
   * it once; the second call only moves the tags counter on by one.
   */
  lemma AddTagIdempotent(db: Db, captureId: int, name: string)
    ensures var once := AddTag(db, captureId, name);
      var twice := AddTag(once, captureId, name);
      && twice.tags == once.tags && twice.captureTags == once.captureTags
      && twice == once.(sequences := once.sequences.(tags := once.sequences.tags + 1))
  {
    var r := AddTag(db, captureId, name);
    AddTagSpec(db, captureId, name);
    var (tagged, t) := EnsureTag(db, name);
    assert TagNamed(r.tags, name) == Some(t) by {
      if TagNamed(db.tags, name).None? {
        TagNamedAppend(db.tags, t, name);
      }
    }
    assert EnsureTag(r, name) == (r.(sequences := r.sequences.(tags := r.sequences.tags + 1)), t);
  }

  /**
   * The ignored insert spends an id: from no tags, tagging with "a", with "a"
   * again and then with "b" gives "b" the id 3, not 2.
   */
  lemma IgnoredInsertSpendsId(db: Db, captureId: int)
    requires db.tags == [] && db.sequences.tags == 0
    ensures var r := AddTag(AddTag(AddTag(db, captureId, "a"), captureId, "a"), captureId, "b");
      r.tags == [Tag(1, "a"), Tag(3, "b")] && r.sequences.tags == 3
  {
    var first := AddTag(db, captureId, "a");
    assert first.tags == [Tag(1, "a")] && first.sequences.tags == 1;
    var second := AddTag(first, captureId, "a");
    assert TagNamed(first.tags, "a") == Some(Tag(1, "a"));
    assert second.tags == [Tag(1, "a")] && second.sequences.tags == 2;
    assert TagNamed(second.tags, "b").None? by {
      assert "a" != "b" by { assert "a"[0] != "b"[0]; }
    }
  }

  lemma AddTagWellFormed(db: Db, captureId: int, name: string)
    requires WellFormed(db)
    ensures WellFormed(AddTag(db, captureId, name))
  {
    var (tagged, t) := EnsureTag(db, name);
    if TagNamed(db.tags, name).None? {
      AppendTagUnique(db.tags, db.sequences.tags, name);
    }
    assert WellFormed(tagged);
    var pair := CaptureTag(captureId, t.id);
    if pair !in tagged.captureTags {
      AppendPairUnique(tagged.captureTags, pair);
    }
  }

  /** A new tag row with the next id keeps names and ids unique. */
  lemma AppendTagUnique(tags: seq<Tag>, last: int, name: string)
    requires TagsUnique(tags, last) && TagNamed(tags, name).None?
    ensures TagsUnique(tags + [Tag(last + 1, name)], last + 1)
  {
  }

  /** INSERT of a pair that is not there keeps the primary key unique. */
  lemma AppendPairUnique(pairs: seq<CaptureTag>, pair: CaptureTag)
    requires PairsUnique(pairs) && pair !in pairs
    ensures PairsUnique(pairs + [pair])
  {
  }

  /** DELETE FROM capture_tags WHERE capture_id=? AND tag_id=? */
  function DeletePair(pairs: seq<CaptureTag>, pair: CaptureTag): seq<CaptureTag> {
    Filter(pairs, (p: CaptureTag) => p != pair)
  }

  /** remove_tag: DELETE the pair whose tag_id is the named tag's id; no such tag, no change. */
  function RemoveTag(db: Db, captureId: int, name: string): Db {
    match TagNamed(db.tags, name)
    case None => db
    case Some(t) => db.(captureTags := DeletePair(db.captureTags, CaptureTag(captureId, t.id)))
  }

  /** remove_tag removes that one pair and nothing else. */
  lemma RemoveTagSpec(db: Db, captureId: int, name: string)
    ensures var r := RemoveTag(db, captureId, name);
      && r == db.(captureTags := r.captureTags)
      && (TagNamed(db.tags, name).None? ==> r == db)
      && (TagNamed(db.tags, name).Some? ==>
            forall p :: p in r.captureTags <==> p in db.captureTags && p != CaptureTag(captureId, TagNamed(db.tags, name).value.id))
  {
  }

  /** Tagging a capture with a tag it does not carry and untagging it again restores the pairs. */
  lemma AddThenRemoveTag(db: Db, captureId: int, name: string)
    requires CaptureTag(captureId, EnsureTag(db, name).1.id) !in db.captureTags
    ensures RemoveTag(AddTag(db, captureId, name), captureId, name).captureTags == db.captureTags
  {
    var r := AddTag(db, captureId, name);
    var (tagged, t) := EnsureTag(db, name);
    var pair := CaptureTag(captureId, t.id);
    assert TagNamed(r.tags, name) == Some(t) by {
      if TagNamed(db.tags, name).None? {
        TagNamedAppend(db.tags, t, name);
      }
    }
    assert r.captureTags == db.captureTags + [pair];
    var keep := (p: CaptureTag) => p != pair;
    FilterAppend(db.captureTags, [pair], keep);
    FilterKeepsAll(db.captureTags, keep);
  }

  // ------------------------------------------------------------ delete

  /** The paths of a set of artifact rows. */
  function ArtifactPaths(arts: seq<Artifact>): set<RelPath> {
    set a | a in arts :: a.path
  }

  /** Path.unlink of each listed file that exists. */
  function Unlink(files: map<RelPath, Bytes>, paths: set<RelPath>): map<RelPath, Bytes> {
    map p | p in files && p !in paths :: files[p]
  }

  /** Unlinking one more artifact's file removes that path, if it is there. */
  lemma UnlinkOneMore(files: map<RelPath, Bytes>, doomed: seq<Artifact>, k: int)
    requires 0 <= k < |doomed|
    ensures Unlink(files, ArtifactPaths(doomed[..k + 1])) == Unlink(files, ArtifactPaths(doomed[..k])) - {doomed[k].path}
  {
    assert doomed[..k + 1] == doomed[..k] + [doomed[k]];
    assert ArtifactPaths(doomed[..k + 1]) == ArtifactPaths(doomed[..k]) + {doomed[k].path};
  }

  /** shutil.rmtree of data/storage/capture_<id>. */
  function RemoveFolder(files: map<RelPath, Bytes>, captureId: int): map<RelPath, Bytes> {
    map p | p in files && p.captureId != captureId :: files[p]
  }

  /** DELETE FROM captures WHERE id=? */
  function DeleteCaptureRow(caps: seq<Capture>, captureId: int): seq<Capture> {
    Filter(caps, (c: Capture) => c.id != captureId)
  }

  /** DELETE FROM events WHERE capture_id=? */
  function DeleteEventsOf(events: seq<Event>, captureId: int): seq<Event> {
    Filter(events, (e: Event) => e.captureId != captureId)
  }

  /** DELETE FROM integrity_logs WHERE capture_id=? */
  function DeleteLogsOf(logs: seq<IntegrityLog>, captureId: int): seq<IntegrityLog> {
    Filter(logs, (l: IntegrityLog) => l.captureId != captureId)
  }

  /** DELETE FROM capture_tags WHERE capture_id=? */
  function DeletePairsOf(pairs: seq<CaptureTag>, captureId: int): seq<CaptureTag> {
    Filter(pairs, (p: CaptureTag) => p.captureId != captureId)
  }

  /**
   * delete_capture: the artifact paths are read first, the capture's rows are
   * deleted from capture_tags, artifacts, events, integrity_logs and captures,
   * then the files are unlinked and the folder removed. A capture that does
   * not exist is no error.
   */
  function DeleteCapture(db: Db, captureId: int): Db {
    var doomed := ArtifactsOf(db.artifacts, captureId);
    db.(captures := DeleteCaptureRow(db.captures, captureId),
        artifacts := DeleteArtifactsOf(db.artifacts, captureId),
        events := DeleteEventsOf(db.events, captureId),
        integrityLogs := DeleteLogsOf(db.integrityLogs, captureId),
        captureTags := DeletePairsOf(db.captureTags, captureId),
        files := RemoveFolder(Unlink(db.files, ArtifactPaths(doomed)), captureId))
  }

  /**
   * Nothing keyed by the deleted id is left in any table, every row of every
   * other capture is kept, and the tables that are not keyed by a capture
   * (tags, schedules, app_config, the counters) are untouched.
   */
  lemma DeleteCaptureSpec(db: Db, captureId: int)
    ensures var r := DeleteCapture(db, captureId);
      && (forall c :: c in r.captures <==> c in db.captures && c.id != captureId)
      && (forall e :: e in r.events <==> e in db.events && e.captureId != captureId)
      && (forall l :: l in r.integrityLogs <==> l in db.integrityLogs && l.captureId != captureId)
      && (forall p :: p in r.captureTags <==> p in db.captureTags && p.captureId != captureId)
      && (forall a :: a in r.artifacts <==> a in db.artifacts && a.captureId != captureId)
      && r.tags == db.tags && r.schedules == db.schedules && r.config == db.config && r.sequences == db.sequences
      && (forall p :: p in r.files ==> p in db.files && p.captureId != captureId && r.files[p] == db.files[p])
  {
  }

  /** Per capture: the deleted one has no artifacts left, any other keeps exactly its own, in order. */
  lemma DeleteCaptureArtifacts(db: Db, captureId: int, c: int)
    ensures ArtifactsOf(DeleteCapture(db, captureId).artifacts, c) == if c == captureId then [] else ArtifactsOf(db.artifacts, c)
  {
    ArtifactsOfAfterDelete(db.artifacts, captureId, c);
  }

  /** When every artifact file lies in its capture's folder, only the deleted capture's folder goes. */
  lemma DeleteCaptureFiles(db: Db, captureId: int)
    requires PathsInFolder(db.artifacts)
    ensures var r := DeleteCapture(db, captureId);
      forall p :: p in r.files <==> p in db.files && p.captureId != captureId
  {
  }

  /** A rows-wide property of pairs survives a WHERE clause. */
  lemma {:induction false} FilterPairwise<T>(s: seq<T>, keep: T -> bool, rel: (T, T) -> bool)
    requires forall i, j :: 0 <= i < j < |s| ==> rel(s[i], s[j])
    ensures forall i, j :: 0 <= i < j < |Filter(s, keep)| ==> rel(Filter(s, keep)[i], Filter(s, keep)[j])
  {
    if s != [] {
      var rest := Filter(s[1..], keep);
      FilterPairwise(s[1..], keep, rel);
      if keep(s[0]) {
        var f := Filter(s, keep);
        assert f == [s[0]] + rest;
        forall i, j | 0 <= i < j < |f| ensures rel(f[i], f[j]) {
          if i == 0 {
            assert f[j] == rest[j - 1] && rest[j - 1] in s[1..];
          } else {
            assert f[i] == rest[i - 1] && f[j] == rest[j - 1];
          }
        }
      }
    }
  }

  lemma DeleteCaptureWellFormed(db: Db, captureId: int)
    requires WellFormed(db)
    ensures WellFormed(DeleteCapture(db, captureId))
  {
    var r := DeleteCapture(db, captureId);
    FilterPairwise(db.captures, (c: Capture) => c.id != captureId, (a: Capture, b: Capture) => a.id != b.id);
    FilterPairwise(db.artifacts, (a: Artifact) => a.captureId != captureId,
      (a: Artifact, b: Artifact) => a.captureId == b.captureId ==> a.kind != b.kind);
    FilterPairwise(db.captureTags, (p: CaptureTag) => p.captureId != captureId, (a: CaptureTag, b: CaptureTag) => a != b);
    FilterPairwise(db.events, (e: Event) => e.captureId != captureId, (a: Event, b: Event) => a.id < b.id);
  }

  /** Deleting twice is deleting once. */
  lemma DeleteCaptureIdempotent(db: Db, captureId: int)
    ensures DeleteCapture(DeleteCapture(db, captureId), captureId) == DeleteCapture(db, captureId)
  {
    var r := DeleteCapture(db, captureId);
    FilterKeepsAll(r.captures, (c: Capture) => c.id != captureId);
    FilterKeepsAll(r.artifacts, (a: Artifact) => a.captureId != captureId);
    FilterKeepsAll(r.events, (e: Event) => e.captureId != captureId);
    FilterKeepsAll(r.integrityLogs, (l: IntegrityLog) => l.captureId != captureId);
    FilterKeepsAll(r.captureTags, (p: CaptureTag) => p.captureId != captureId);
    ArtifactsOfAfterDelete(db.artifacts, captureId, captureId);
    assert ArtifactPaths(ArtifactsOf(r.artifacts, captureId)) == {};
    assert RemoveFolder(Unlink(r.files, {}), captureId) == r.files;
  }

  // --------------------------------------------------------- schedules

  /** The TypeError of subscripting the None that fetchone() returns for a missing row. */
  const MissingRowError := "'NoneType' object is not subscriptable"

  /** SELECT ... FROM schedules WHERE id=?: the first row with that id. */
  function ScheduleWithId(rows: seq<Schedule>, id: int): (r: Option<Schedule>)
    ensures r.Some? ==> r.value in rows && r.value.id == id
    ensures r.None? ==> forall i :: 0 <= i < |rows| ==> rows[i].id != id
  {
    if rows == [] then None
    else if rows[0].id == id then Some(rows[0])
    else ScheduleWithId(rows[1..], id)
  }

  /** create_schedule: a new active row with the next id, never run. */
  function CreateSchedule(db: Db, url: string, intervalHours: int): Db {
    var id := db.sequences.schedules + 1;
    db.(schedules := db.schedules + [Schedule(id, url, intervalHours, None, 1)],
        sequences := db.sequences.(schedules := id))
  }

  /** A new schedule keeps the ids distinct and is selected by the very next tick. */
  lemma CreateScheduleSpec(db: Db, url: string, intervalHours: int, now: int)
    requires WellFormed(db)
    ensures var r := CreateSchedule(db, url, intervalHours);
      && WellFormed(r)
      && r.sequences.schedules in Ids(Selected(r.schedules, now))
  {
    var r := CreateSchedule(db, url, intervalHours);
    SelectedIds(r.schedules, now, |db.schedules|);
  }

  /** When no due URL makes urlparse raise, the very next tick runs a new schedule. */
  lemma CreateScheduleRuns(db: Db, url: string, intervalHours: int, now: int, hash: Bytes -> string)
    requires WellFormed(db)
    requires UrlsParse(ActiveRows(CreateSchedule(db, url, intervalHours).schedules), now)
    ensures var r := CreateSchedule(db, url, intervalHours);
      var t := Tick(r, now, hash);
      && t.error.None?
      && exists k :: 0 <= k < |t.queued| && |r.captures| + k < |t.db.captures|
           && t.db.captures[|r.captures| + k].scheduleId == Some(r.sequences.schedules)
           && t.queued[k].captureId == t.db.captures[|r.captures| + k].id
  {
    var r := CreateSchedule(db, url, intervalHours);
    CreateScheduleSpec(db, url, intervalHours, now);
    SelectedRuns(r, now, hash, r.sequences.schedules);
  }

  /**
   * toggle_schedule: the row is read (a missing row raises), and every row
   * with that id gets active = 0 if the read value is non-zero, else 1.
   */
  function ToggleSchedule(db: Db, id: int): Try<Db> {
    match ScheduleWithId(db.schedules, id)
    case None => Raised(MissingRowError)
    case Some(s) =>
      var flipped := if s.active != 0 then 0 else 1;
      Returned(db.(schedules := UpdateSchedules(db.schedules, id, (row: Schedule) => row.(active := flipped))))
  }

  /**
   * The toggle raises exactly for an unknown id; otherwise, with distinct ids,
   * the one row flips between zero and non-zero and nothing else changes.
   */
  lemma ToggleScheduleSpec(db: Db, id: int)
    requires ScheduleIdsFresh(db.schedules, db.sequences.schedules)
    ensures ToggleSchedule(db, id).Raised? <==> forall i :: 0 <= i < |db.schedules| ==> db.schedules[i].id != id
    ensures ToggleSchedule(db, id).Returned? ==>
      var r := ToggleSchedule(db, id).value;
      && r == db.(schedules := r.schedules)
      && |r.schedules| == |db.schedules|
      && forall i :: 0 <= i < |db.schedules| ==>
           r.schedules[i] == if db.schedules[i].id == id
             then db.schedules[i].(active := if db.schedules[i].active != 0 then 0 else 1)
             else db.schedules[i]
  {
    var found := ScheduleWithId(db.schedules, id);
    if found.Some? {
      var j :| 0 <= j < |db.schedules| && db.schedules[j] == found.value;
      forall i | 0 <= i < |db.schedules| && db.schedules[i].id == id ensures db.schedules[i] == found.value {
      }
    }
  }

  /** Toggling a 0/1 schedule twice gives back the same tables. */
  lemma ToggleTwice(db: Db, id: int)
    requires WellFormed(db)
    requires forall i :: 0 <= i < |db.schedules| ==> db.schedules[i].active == 0 || db.schedules[i].active == 1
    requires ToggleSchedule(db, id).Returned?
    ensures ToggleSchedule(ToggleSchedule(db, id).value, id) == Returned(db)
  {
    var once := ToggleSchedule(db, id).value;
    ToggleScheduleSpec(db, id);
    assert ScheduleIdsFresh(once.schedules, once.sequences.schedules) by {
      assert forall i :: 0 <= i < |once.schedules| ==> once.schedules[i].id == db.schedules[i].id;
    }
    ToggleScheduleSpec(once, id);
    var twice := ToggleSchedule(once, id).value;
    assert twice.schedules == db.schedules;
  }

  /** A schedule switched off is not selected by the next tick; switched on and due, it is. */
  lemma ToggleAndTick(db: Db, id: int, i: int, now: int)
    requires WellFormed(db)
    requires 0 <= i < |db.schedules| && db.schedules[i].id == id
    ensures var r := ToggleSchedule(db, id).value;
      id in Ids(Selected(r.schedules, now)) <==> db.schedules[i].active == 0 && Due(db.schedules[i], now)
  {
    ToggleScheduleSpec(db, id);
    var r := ToggleSchedule(db, id).value;
    assert forall k :: 0 <= k < |r.schedules| ==> r.schedules[k].id == db.schedules[k].id;
    SelectedIds(r.schedules, now, i);
  }

  /**
   * When no due URL makes urlparse raise, switching on an inactive due schedule
   * makes the very next tick run it.
   */
  lemma ToggleOnRuns(db: Db, id: int, i: int, now: int, hash: Bytes -> string)
    requires WellFormed(db)
    requires 0 <= i < |db.schedules| && db.schedules[i].id == id
    requires db.schedules[i].active == 0 && Due(db.schedules[i], now)
    requires ToggleSchedule(db, id).Returned? && UrlsParse(ActiveRows(ToggleSchedule(db, id).value.schedules), now)
    ensures var r := ToggleSchedule(db, id).value;
      var t := Tick(r, now, hash);
      && t.error.None?
      && exists k :: 0 <= k < |t.queued| && |r.captures| + k < |t.db.captures|
           && t.db.captures[|r.captures| + k].scheduleId == Some(id)
           && t.queued[k].captureId == t.db.captures[|r.captures| + k].id
  {
    ToggleAndTick(db, id, i, now);
    ToggleScheduleSpec(db, id);
    var r := ToggleSchedule(db, id).value;
    assert forall k :: 0 <= k < |r.schedules| ==> r.schedules[k].id == db.schedules[k].id;
    assert WellFormed(r);
    SelectedRuns(r, now, hash, id);
  }
}
