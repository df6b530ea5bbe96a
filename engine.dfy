/**
 * The handlers as the program runs them: one `Store` object holds the tables,
 * the counters, app_config and the storage directory, and each handler updates
 * them statement by statement. Every method is proved to leave exactly the
 * state its specification function (modules Capturing, Integrity, Scheduling,
 * Maintenance) computes from the state before the call.
 */
module Engine {
  import opened Wrappers
  import opened Text
  import opened Urls
  import opened Settings
  import opened Schema
  import opened Artifacts
  import opened Capturing
  import opened Integrity
  import opened Scheduling
  import Maintenance

  class Store {
    var captures: seq<Capture>
    var artifacts: seq<Artifact>
    var events: seq<Event>
    var schedules: seq<Schedule>
    var integrityLogs: seq<IntegrityLog>
    var tags: seq<Tag>
    var captureTags: seq<CaptureTag>
    var config: map<string, string>
    var sequences: Sequences
    var files: map<RelPath, Bytes>
    /** sha256_file, as a function of the file's bytes. */
    const hash: Bytes -> string

    /** The tables and files as one value. */
    function State(): Db
      reads this
    {
      Db(captures, artifacts, events, schedules, integrityLogs, tags, captureTags, config, sequences, files)
    }

    constructor(db: Db, hash: Bytes -> string)
      ensures State() == db && this.hash == hash
    {
      captures, artifacts, events, schedules := db.captures, db.artifacts, db.events, db.schedules;
      integrityLogs, tags, captureTags := db.integrityLogs, db.tags, db.captureTags;
      config, sequences, files := db.config, db.sequences, db.files;
      this.hash := hash;
    }

    /** set_event: its own transaction, one row with the next id. */
    method SetEvent(captureId: int, level: Level, message: string, now: int)
      modifies this
      ensures State() == AppendEvent(old(State()), captureId, level, message, now)
    {
      var id := sequences.events + 1;
      events := events + [Event(id, captureId, now, level, message)];
      sequences := sequences.(events := id);
    }

    /** enqueue_capture, without starting the worker thread; returns the new id or the urlparse error. */
    method EnqueueCapture(url: string, includePdf: bool, headers: string, cookies: string, scheduleId: Option<int>, now: int)
      returns (r: Try<int>)
      modifies this
      ensures match Enqueue(old(State()), url, includePdf, headers, cookies, scheduleId, now)
        case Raised(e) => r == Raised(e) && State() == old(State())
        case Returned((db, id)) => r == Returned(id) && State() == db
    {
      var domain := Netloc(url);
      if domain.Raised? {
        return Raised(domain.error);
      }
      var id := sequences.captures + 1;
      captures := captures + [NewCapture(id, url, domain.value, includePdf, headers, cookies, scheduleId, now)];
      sequences := sequences.(captures := id);
      return Returned(id);
    }

    /** The persist transaction of a rendered attempt and the closing event. */
    method Persist(job: Job, attempt: nat, rows: seq<Artifact>, o: AttemptOutcome, now: int)
      requires o.Rendered?
      modifies this
      ensures State() == Finish(old(State()), job, attempt, rows, o, now)
    {
      var cid := job.captureId;
      var notes := Notes(o.archiveError);
      artifacts := DeleteArtifactsOf(artifacts, cid) + rows;
      var total := SumSizes(ArtifactsOf(artifacts, cid));
      captures := UpdateCaptures(captures, cid,
        (c: Capture) => c.(status := Classify(notes), httpStatus := o.httpStatus, totalSize := total,
                           title := Some(TitleOf(o.meta)), description := Some(o.meta.description),
                           finishedAt := Some(now), retries := attempt, textContent := Some(o.meta.text),
                           links := Some(Truncate(o.meta.links)), errorMessage := Some(Join(notes, "\n"))));
      sequences := sequences.(artifacts := sequences.artifacts + |rows|);
      SetEvent(cid, Info, FinishedMessage, now);
    }

    /** The try block of one attempt of capture_worker; `error` is the exception it raised, if any. */
    method Attempt(job: Job, attempt: nat, o: AttemptOutcome, now: int) returns (error: Option<string>)
      modifies this
      ensures RunAttempt(old(State()), job, attempt, o, now, hash)
              == if error.None? then Completed(State()) else Aborted(State(), error.value)
    {
      var cid := job.captureId;
      ghost var db := State();
      SetEvent(cid, Info, StartedMessage(attempt), now);
      files := WriteFiles(files, cid, o.writes);
      assert State() == Started(db, job, attempt, o, now);
      if o.RenderFailed? {
        return Some(o.error);
      }
      SetEvent(cid, Info, RenderedMessage, now);
      var html := SnapshotPath(cid, Html);
      if html !in files {
        return Some(MissingFile(html));
      }
      var persisted := PersistRows(files, cid, job.includePdf, sequences.artifacts, now, hash);
      if persisted.Raised? {
        return Some(persisted.error);
      }
      Persist(job, attempt, persisted.value, o, now);
      return None;
    }

    /**
     * capture_worker: read the settings, refuse a blocked domain, then run
     * attempts 0 .. max_capture_retries until one completes, logging each
     * failure and marking the capture failed after the last.
     */
    method CaptureWorker(job: Job, outcomes: nat -> AttemptOutcome, now: int)
      modifies this
      ensures State() == Worker(old(State()), job, outcomes, now, hash)
    {
      var maxRetries := ParseInt(ConfigValue(config, MaxRetriesKey));
      var timeout := ParseInt(ConfigValue(config, TimeoutKey));
      if maxRetries.None? || timeout.None? {
        return;
      }
      var domain := Netloc(job.url);
      if domain.Raised? {
        return;
      }
      if domain.value in Blocklist(ConfigValue(config, BlockedDomainsKey)) {
        BlockCapture(job.captureId, now);
        return;
      }
      RunAttempts(job, maxRetries.value, outcomes, now);
    }

    /** The blocked-domain branch of capture_worker: the UPDATE, then the error event. */
    method BlockCapture(captureId: int, now: int)
      modifies this
      ensures State() == Block(old(State()), captureId, now)
    {
      captures := UpdateCaptures(captures, captureId,
        (c: Capture) => c.(status := Failed, errorMessage := Some(BlockedError), finishedAt := Some(now)));
      SetEvent(captureId, Error, BlockedMessage, now);
    }

    /** The attempt loop of capture_worker: range(0, last + 1), empty when `last` is negative. */
    method RunAttempts(job: Job, last: int, outcomes: nat -> AttemptOutcome, now: int)
      modifies this
      ensures last < 0 ==> State() == old(State())
      ensures last >= 0 ==> State() == Attempts(old(State()), job, last, 0, outcomes, now, hash)
    {
      var attempt: nat := 0;
      while attempt <= last
        invariant attempt <= last || (last < 0 && State() == old(State()))
        invariant attempt <= last ==> Attempts(State(), job, last, attempt, outcomes, now, hash) == Attempts(old(State()), job, last, 0, outcomes, now, hash)
        decreases last - attempt
      {
        var error := Attempt(job, attempt, outcomes(attempt), now);
        if error.None? {
          return;
        }
        SetEvent(job.captureId, Error, AttemptErrorMessage(attempt, error.value), now);
        if attempt == last {
          captures := UpdateCaptures(captures, job.captureId,
            (c: Capture) => c.(status := Failed, errorMessage := Some(error.value), finishedAt := Some(now), retries := attempt));
          return;
        }
        attempt := attempt + 1;
      }
    }

    /** integrity_check_once: one transaction per finished capture, in rowid order. */
    method IntegrityCheckOnce(now: int)
      modifies this
      ensures State() == Sweep(old(State()), now, hash)
    {
      var ids := CheckedIds(captures);
      var k := 0;
      while k < |ids|
        invariant 0 <= k <= |ids|
        invariant SweepIds(State(), ids[k..], now, hash) == Sweep(old(State()), now, hash)
      {
        ghost var before := State();
        CheckCapture(ids[k], now);
        SweepIdsStep(before, ids[k..], now, hash);
        assert ids[k..][1..] == ids[k + 1..];
        k := k + 1;
      }
    }

    /** The transaction for one capture: its integrity_state, then its integrity_logs row. */
    method CheckCapture(cid: int, now: int)
      modifies this
      ensures State() == SweepOne(old(State()), cid, now, hash)
    {
      var result, text := CheckOne(ArtifactsOf(artifacts, cid), files, hash);
      var id := sequences.integrityLogs + 1;
      captures := SetIntegrity(captures, cid, result);
      integrityLogs := integrityLogs + [IntegrityLog(id, cid, now, result, text)];
      sequences := sequences.(integrityLogs := id);
    }

    /**
     * One iteration of scheduler_loop: enqueue and stamp each active due
     * schedule, then sweep; an exception from enqueue_capture ends the
     * iteration. Returns the jobs whose threads were started, and the error.
     */
    method SchedulerTick(now: int) returns (queued: seq<Job>, error: Option<string>)
      modifies this
      ensures Pass(State(), queued, error) == Tick(old(State()), now, hash)
    {
      var rows := ActiveRows(schedules);
      queued := [];
      var k := 0;
      while k < |rows|
        invariant 0 <= k <= |rows|
        invariant var rest := RunDue(State(), rows[k..], now);
          rest.(queued := queued + rest.queued) == RunDue(old(State()), rows, now)
      {
        var s := rows[k];
        assert rows[k..][1..] == rows[k + 1..];
        if Due(s, now) {
          var r := EnqueueCapture(s.url, false, "{}", "[]", Some(s.id), now);
          if r.Raised? {
            error := Some(r.error);
            return;
          }
          queued := queued + [ScheduledJob(s, r.value)];
          schedules := UpdateSchedules(schedules, s.id, (x: Schedule) => x.(lastRunAt := Some(now)));
        }
        k := k + 1;
      }
      error := None;
      IntegrityCheckOnce(now);
    }

    /** add_tag: the ignored insert of an existing name still draws the next tags id. */
    method AddTag(captureId: int, name: string)
      modifies this
      ensures State() == Maintenance.AddTag(old(State()), captureId, name)
    {
      var found := Maintenance.TagNamed(tags, name);
      var tag: Tag;
      if found.None? {
        tag := Tag(sequences.tags + 1, name);
        tags := tags + [tag];
        sequences := sequences.(tags := tag.id);
      } else {
        tag := found.value;
        sequences := sequences.(tags := sequences.tags + 1);
      }
      var pair := CaptureTag(captureId, tag.id);
      if pair !in captureTags {
        captureTags := captureTags + [pair];
      }
    }

    /** remove_tag. */
    method RemoveTag(captureId: int, name: string)
      modifies this
      ensures State() == Maintenance.RemoveTag(old(State()), captureId, name)
    {
      var found := Maintenance.TagNamed(tags, name);
      if found.Some? {
        captureTags := Maintenance.DeletePair(captureTags, CaptureTag(captureId, found.value.id));
      }
    }

    /** delete_capture: the DELETEs, then one unlink per artifact path that exists, then the folder. */
    method DeleteCapture(captureId: int)
      modifies this
      ensures State() == Maintenance.DeleteCapture(old(State()), captureId)
    {
      var doomed := ArtifactsOf(artifacts, captureId);
      DeleteRows(captureId);
      UnlinkArtifacts(doomed);
      files := Maintenance.RemoveFolder(files, captureId);
    }

    /** The DELETE statements of delete_capture, child tables first. */
    method DeleteRows(captureId: int)
      modifies this
      ensures captureTags == Maintenance.DeletePairsOf(old(captureTags), captureId)
      ensures artifacts == DeleteArtifactsOf(old(artifacts), captureId)
      ensures events == Maintenance.DeleteEventsOf(old(events), captureId)
      ensures integrityLogs == Maintenance.DeleteLogsOf(old(integrityLogs), captureId)
      ensures captures == Maintenance.DeleteCaptureRow(old(captures), captureId)
      ensures schedules == old(schedules) && tags == old(tags) && config == old(config)
      ensures sequences == old(sequences) && files == old(files)
    {
      captureTags := Maintenance.DeletePairsOf(captureTags, captureId);
      artifacts := DeleteArtifactsOf(artifacts, captureId);
      events := Maintenance.DeleteEventsOf(events, captureId);
      integrityLogs := Maintenance.DeleteLogsOf(integrityLogs, captureId);
      captures := Maintenance.DeleteCaptureRow(captures, captureId);
    }

    /** The unlink loop of delete_capture: each listed file that exists is removed. */
    method UnlinkArtifacts(doomed: seq<Artifact>)
      modifies this
      ensures State() == old(State()).(files := Maintenance.Unlink(old(files), Maintenance.ArtifactPaths(doomed)))
    {
      var k := 0;
      while k < |doomed|
        invariant 0 <= k <= |doomed|
        invariant State() == old(State()).(files := Maintenance.Unlink(old(files), Maintenance.ArtifactPaths(doomed[..k])))
      {
        var p := doomed[k].path;
        if p in files {
          files := files - {p};
        }
        Maintenance.UnlinkOneMore(old(files), doomed, k);
        k := k + 1;
      }
      assert doomed[..k] == doomed;
    }

    /** create_schedule. */
    method CreateSchedule(url: string, intervalHours: int)
      modifies this
      ensures State() == Maintenance.CreateSchedule(old(State()), url, intervalHours)
    {
      var id := sequences.schedules + 1;
      schedules := schedules + [Schedule(id, url, intervalHours, None, 1)];
      sequences := sequences.(schedules := id);
    }

    /** toggle_schedule; `error` is the TypeError raised for an unknown id. */
    method ToggleSchedule(id: int) returns (error: Option<string>)
      modifies this
      ensures match Maintenance.ToggleSchedule(old(State()), id)
        case Raised(e) => error == Some(e) && State() == old(State())
        case Returned(db) => error.None? && State() == db
    {
      var row := Maintenance.ScheduleWithId(schedules, id);
      if row.None? {
        return Some(Maintenance.MissingRowError);
      }
      var flipped := if row.value.active != 0 then 0 else 1;
      schedules := UpdateSchedules(schedules, id, (s: Schedule) => s.(active := flipped));
      return None;
    }
  }
}
