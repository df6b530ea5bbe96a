/**
 * persist_artifact and the persist block of capture_worker: which artifact rows
 * an attempt that reaches the database inserts, with size and checksum read
 * from the files on disk.
 */
module Artifacts {
  import opened Wrappers
  import opened Schema

  /** The text of the FileNotFoundError raised when a file to be read is missing. */
  function MissingFile(p: RelPath): string {
    "[Errno 2] No such file or directory: '" + p.fileName + "'"
  }

  /** Files the renderer or the WARC writer wrote during an attempt, laid over the capture's folder. */
  function WriteFiles(files: map<RelPath, Bytes>, captureId: int, writes: map<Kind, Bytes>): (r: map<RelPath, Bytes>)
    ensures forall k :: k in writes ==> SnapshotPath(captureId, k) in r && r[SnapshotPath(captureId, k)] == writes[k]
    ensures forall p :: p in r <==> p in files || exists k :: k in writes && p == SnapshotPath(captureId, k)
    ensures forall p :: p in files && (forall k :: k in writes ==> p != SnapshotPath(captureId, k)) ==> r[p] == files[p]
  {
    forall k1, k2 | k1 in writes && k2 in writes && SnapshotPath(captureId, k1) == SnapshotPath(captureId, k2)
      ensures k1 == k2
    {
      SnapshotPathInjective(captureId, k1, captureId, k2);
    }
    files + map k | k in writes :: SnapshotPath(captureId, k) := writes[k]
  }

  /** The row persist_artifact inserts for an existing file: its size and the hash of its bytes. */
  function ArtifactRow(files: map<RelPath, Bytes>, captureId: int, kind: Kind, path: RelPath, id: int, now: int, hash: Bytes -> string): Artifact
    requires path in files
  {
    Artifact(id, captureId, kind, path, |files[path]|, hash(files[path]), now)
  }

  /** persist_artifact: stat() raises for a missing file, otherwise one row is inserted. */
  function PersistArtifact(files: map<RelPath, Bytes>, captureId: int, kind: Kind, path: RelPath, id: int, now: int, hash: Bytes -> string): (r: Try<Artifact>)
    ensures r.Returned? <==> path in files
    ensures r.Raised? ==> r.error == MissingFile(path)
    ensures r.Returned? ==> r.value.size == |files[path]| && r.value.checksum == hash(files[path])
                            && r.value.path == path && r.value.kind == kind && r.value.captureId == captureId
  {
    if path in files then Returned(ArtifactRow(files, captureId, kind, path, id, now, hash))
    else Raised(MissingFile(path))
  }

  /** A row records exactly the file at its path: it exists, and size and checksum match its bytes. */
  predicate Records(a: Artifact, files: map<RelPath, Bytes>, hash: Bytes -> string) {
    a.path in files && a.size == |files[a.path]| && a.checksum == hash(files[a.path])
  }

  predicate HasKind(rows: seq<Artifact>, k: Kind) {
    exists i :: 0 <= i < |rows| && rows[i].kind == k
  }

  /** The kinds the persist block stores, in insertion order. */
  function KindsPresent(files: map<RelPath, Bytes>, captureId: int, includePdf: bool): seq<Kind> {
    [Html, Screenshot]
    + (if SnapshotPath(captureId, Warc) in files then [Warc] else [])
    + (if includePdf && SnapshotPath(captureId, Pdf) in files then [Pdf] else [])
  }

  /** One row per kind, with consecutive ids after `lastId`. */
  function RowsFor(files: map<RelPath, Bytes>, captureId: int, kinds: seq<Kind>, lastId: int, now: int, hash: Bytes -> string): (rows: seq<Artifact>)
    requires forall i :: 0 <= i < |kinds| ==> SnapshotPath(captureId, kinds[i]) in files
    ensures |rows| == |kinds|
  {
    seq(|kinds|, i requires 0 <= i < |kinds| =>
      ArtifactRow(files, captureId, kinds[i], SnapshotPath(captureId, kinds[i]), lastId + 1 + i, now, hash))
  }

  /**
   * The rows the persist block inserts after deleting the old ones: html and
   * screenshot first (a missing one raises, and the transaction is discarded),
   * then warc when its file exists and pdf when requested and its file exists.
   */
  function PersistRows(files: map<RelPath, Bytes>, captureId: int, includePdf: bool, lastId: int, now: int, hash: Bytes -> string): (r: Try<seq<Artifact>>)
    ensures r.Returned? <==> SnapshotPath(captureId, Html) in files && SnapshotPath(captureId, Screenshot) in files
    ensures r.Raised? ==> r.error == MissingFile(SnapshotPath(captureId, if SnapshotPath(captureId, Html) !in files then Html else Screenshot))
  {
    match PersistArtifact(files, captureId, Html, SnapshotPath(captureId, Html), lastId + 1, now, hash)
    case Raised(e) => Raised(e)
    case Returned(_) =>
      match PersistArtifact(files, captureId, Screenshot, SnapshotPath(captureId, Screenshot), lastId + 2, now, hash)
      case Raised(e) => Raised(e)
      case Returned(_) =>
        Returned(RowsFor(files, captureId, KindsPresent(files, captureId, includePdf), lastId, now, hash))
  }

  /** Every inserted row belongs to the capture, sits in its folder, records its file, and ids are consecutive. */
  lemma PersistRowsRecords(files: map<RelPath, Bytes>, captureId: int, includePdf: bool, lastId: int, now: int, hash: Bytes -> string)
    requires PersistRows(files, captureId, includePdf, lastId, now, hash).Returned?
    ensures var rows := PersistRows(files, captureId, includePdf, lastId, now, hash).value;
      forall i :: 0 <= i < |rows| ==>
        && rows[i].captureId == captureId && rows[i].id == lastId + 1 + i && rows[i].createdAt == now
        && rows[i].path == SnapshotPath(captureId, rows[i].kind) && Records(rows[i], files, hash)
  {
  }

  /** Which kinds are stored: html and screenshot always, warc iff written, pdf iff requested and written; none twice. */
  lemma PersistRowsKinds(files: map<RelPath, Bytes>, captureId: int, includePdf: bool, lastId: int, now: int, hash: Bytes -> string)
    requires PersistRows(files, captureId, includePdf, lastId, now, hash).Returned?
    ensures var rows := PersistRows(files, captureId, includePdf, lastId, now, hash).value;
      && (forall k :: HasKind(rows, k) <==>
            || k == Html || k == Screenshot
            || (k == Warc && SnapshotPath(captureId, Warc) in files)
            || (k == Pdf && includePdf && SnapshotPath(captureId, Pdf) in files))
      && KindsUnique(rows)
  {
    var kinds := KindsPresent(files, captureId, includePdf);
    var rows := PersistRows(files, captureId, includePdf, lastId, now, hash).value;
    assert forall i :: 0 <= i < |rows| ==> rows[i].kind == kinds[i];
    forall k ensures HasKind(rows, k) <==> k in kinds {
      if k in kinds {
        var i :| 0 <= i < |kinds| && kinds[i] == k;
        assert rows[i].kind == k;
      }
    }
    assert forall i, j :: 0 <= i < j < |kinds| ==> kinds[i] != kinds[j];
  }
}
