/**
 * One pass of scheduler_loop: every active schedule that is due enqueues a
 * capture and records the run, then the integrity sweep runs.
 */
module Scheduling {
  import opened Wrappers
  import opened Urls
  import opened Schema
  import opened Capturing
  import opened Integrity

  const SecondsPerHour := 3600

  /** Never run, or at least interval_hours have passed since the last run. */
  predicate Due(s: Schedule, now: int) {
    s.lastRunAt.None? || now - s.lastRunAt.value >= s.intervalHours * SecondsPerHour
  }

  /** Once due, a schedule stays due until it runs again. */
  lemma DueStaysDue(s: Schedule, now: int, later: int)
    requires Due(s, now) && now <= later
    ensures Due(s, later)
  {
  }

  /** A schedule that has just run is due again at once only when its interval is not positive. */
  lemma JustRunNotDue(s: Schedule, now: int)
    ensures Due(s.(lastRunAt := Some(now)), now) <==> s.intervalHours <= 0
  {
  }

  /** With a one-hour interval: last run 90 minutes ago is due, 30 minutes ago is not. */
  lemma OneHourExamples(s: Schedule, now: int)
    requires s.intervalHours == 1
    ensures Due(s.(lastRunAt := Some(now - 90 * 60)), now)
    ensures !Due(s.(lastRunAt := Some(now - 30 * 60)), now)
  {
  }

  /** SELECT * FROM schedules WHERE active=1 */
  function ActiveRows(rows: seq<Schedule>): seq<Schedule> {
    if rows == [] then []
    else (if rows[0].active == 1 then [rows[0]] else []) + ActiveRows(rows[1..])
  }

  lemma {:induction false} ActiveRowsMembers(rows: seq<Schedule>)
    ensures forall k :: 0 <= k < |ActiveRows(rows)| ==> ActiveRows(rows)[k] in rows && ActiveRows(rows)[k].active == 1
    ensures forall j :: 0 <= j < |rows| && rows[j].active == 1 ==> rows[j] in ActiveRows(rows)
  {
    if rows != [] {
      ActiveRowsMembers(rows[1..]);
      var head := if rows[0].active == 1 then [rows[0]] else [];
      assert ActiveRows(rows) == head + ActiveRows(rows[1..]);
      forall j | 0 < j < |rows| && rows[j].active == 1 ensures rows[j] in ActiveRows(rows) {
        assert rows[j] == rows[1..][j - 1];
      }
    }
  }

  /** The rows of a pass that are due. */
  function DueRows(rows: seq<Schedule>, now: int): seq<Schedule> {
    if rows == [] then []
    else (if Due(rows[0], now) then [rows[0]] else []) + DueRows(rows[1..], now)
  }

  /** Every due row is a row of the pass, and is due; every due row of the pass is kept. */
  lemma {:induction false} DueRowsMembers(rows: seq<Schedule>, now: int)
    ensures forall k :: 0 <= k < |DueRows(rows, now)| ==> DueRows(rows, now)[k] in rows && Due(DueRows(rows, now)[k], now)
    ensures forall j :: 0 <= j < |rows| && Due(rows[j], now) ==> rows[j] in DueRows(rows, now)
  {
    if rows != [] {
      DueRowsMembers(rows[1..], now);
      var head := if Due(rows[0], now) then [rows[0]] else [];
      var due := DueRows(rows, now);
      assert due == head + DueRows(rows[1..], now);
      forall j | 0 < j < |rows| && Due(rows[j], now) ensures rows[j] in due {
        assert rows[j] == rows[1..][j - 1];
      }
    }
  }

  function Ids(rows: seq<Schedule>): seq<int> {
    seq(|rows|, k requires 0 <= k < |rows| => rows[k].id)
  }

  /** The job a schedule enqueues: no PDF, no headers, no cookies. */
  function ScheduledJob(s: Schedule, id: int): Job {
    Job(id, s.url, false, "{}", "[]")
  }

  /** A pass over some schedule rows: the state reached, the jobs handed to worker threads, and the exception that ended it early. */
  datatype Pass = Pass(db: Db, queued: seq<Job>, error: Option<string>)

  /** UPDATE schedules SET last_run_at=? WHERE id=? */
  function Stamp(db: Db, id: int, now: int): Db {
    db.(schedules := UpdateSchedules(db.schedules, id, (r: Schedule) => r.(lastRunAt := Some(now))))
  }

  /** The for loop over the selected rows; an exception from enqueue_capture leaves the loop. */
  function RunDue(db: Db, rows: seq<Schedule>, now: int): Pass
    decreases |rows|
  {
    if rows == [] then Pass(db, [], None)
    else
      var s := rows[0];
      if !Due(s, now) then RunDue(db, rows[1..], now)
      else
        match Enqueue(db, s.url, false, "{}", "[]", Some(s.id), now)
        case Raised(e) => Pass(db, [], Some(e))
        case Returned((queued, id)) =>
          var rest := RunDue(Stamp(queued, s.id, now), rows[1..], now);
          rest.(queued := [ScheduledJob(s, id)] + rest.queued)
  }

  /** One iteration of scheduler_loop; the sweep is skipped when the loop raised. */
  function Tick(db: Db, now: int, hash: Bytes -> string): Pass {
    var pass := RunDue(db, ActiveRows(db.schedules), now);
    if pass.error.Some? then pass else pass.(db := Sweep(pass.db, now, hash))
  }

  /** The loop raises exactly when some due row's URL makes urlparse raise. */
  lemma {:induction false} RunDueRaises(db: Db, rows: seq<Schedule>, now: int)
    ensures RunDue(db, rows, now).error.Some? <==> exists i :: 0 <= i < |rows| && Due(rows[i], now) && Netloc(rows[i].url).Raised?
    decreases |rows|
  {
    if rows != [] {
      var s := rows[0];
      RaisingRowCons(rows, now);
      if !Due(s, now) {
        RunDueRaises(db, rows[1..], now);
        RunDueSkip(db, rows, now);
      } else if Netloc(s.url).Returned? {
        RunDueRaises(RunFirst(db, s, now), rows[1..], now);
        RunDueStep(db, rows, now);
      }
    }
  }

  /** Some due row of a non-empty sequence fails to parse iff its first row is due and fails, or some later one does. */
  lemma RaisingRowCons(rows: seq<Schedule>, now: int)
    requires rows != []
    ensures (exists i :: 0 <= i < |rows| && Due(rows[i], now) && Netloc(rows[i].url).Raised?)
        <==> (Due(rows[0], now) && Netloc(rows[0].url).Raised?)
             || exists i :: 0 <= i < |rows[1..]| && Due(rows[1..][i], now) && Netloc(rows[1..][i].url).Raised?
  {
    if exists i :: 0 <= i < |rows[1..]| && Due(rows[1..][i], now) && Netloc(rows[1..][i].url).Raised? {
      var i :| 0 <= i < |rows[1..]| && Due(rows[1..][i], now) && Netloc(rows[1..][i].url).Raised?;
      assert rows[i + 1] == rows[1..][i];
    }
    if exists i :: 0 <= i < |rows| && Due(rows[i], now) && Netloc(rows[i].url).Raised? {
      var i :| 0 <= i < |rows| && Due(rows[i], now) && Netloc(rows[i].url).Raised?;
      if i > 0 {
        assert rows[1..][i - 1] == rows[i];
      }
    }
  }

  predicate UrlsParse(rows: seq<Schedule>, now: int) {
    forall i :: 0 <= i < |rows| && Due(rows[i], now) ==> Netloc(rows[i].url).Returned?
  }

  /** The netloc enqueue_capture stores for a URL that parses. */
  function DomainOf(url: string): string {
    if Netloc(url).Returned? then Netloc(url).value else ""
  }

  /** The captures row enqueue_capture inserts for a schedule, with the given id. */
  function QueuedRow(s: Schedule, id: int, now: int): Capture {
    NewCapture(id, s.url, DomainOf(s.url), false, "{}", "[]", Some(s.id), now)
  }

  /** The pending rows enqueue_capture inserts for the due schedules, in order, with ids after `lastId`. */
  function QueuedRows(due: seq<Schedule>, lastId: int, now: int): (r: seq<Capture>)
    ensures |r| == |due|
  {
    if due == [] then []
    else [QueuedRow(due[0], lastId + 1, now)]
         + QueuedRows(due[1..], lastId + 1, now)
  }

  lemma IdsCons(rows: seq<Schedule>)
    requires rows != []
    ensures Ids(rows) == [rows[0].id] + Ids(rows[1..])
  {
  }

  /** Tables a pass never writes. */
  predicate PassKeeps(db: Db, r: Db) {
    r.artifacts == db.artifacts && r.events == db.events && r.integrityLogs == db.integrityLogs
    && r.tags == db.tags && r.captureTags == db.captureTags && r.config == db.config && r.files == db.files
  }

  lemma DueUrlsParse(rows: seq<Schedule>, now: int)
    requires UrlsParse(rows, now)
    ensures forall k :: 0 <= k < |DueRows(rows, now)| ==> Netloc(DueRows(rows, now)[k].url).Returned?
  {
    var due := DueRows(rows, now);
    DueRowsMembers(rows, now);
    forall k | 0 <= k < |due| ensures Netloc(due[k].url).Returned? {
      var j :| 0 <= j < |rows| && rows[j] == due[k];
    }
  }

  lemma UrlsParseTail(rows: seq<Schedule>, now: int)
    requires rows != [] && UrlsParse(rows, now)
    ensures UrlsParse(rows[1..], now)
  {
    var tail := rows[1..];
    forall i | 0 <= i < |tail| && Due(tail[i], now) ensures Netloc(tail[i].url).Returned? {
      assert tail[i] == rows[i + 1];
    }
  }

  /** The state after the first row of a pass, when it is due and its URL parses. */
  function RunFirst(db: Db, s: Schedule, now: int): Db
    requires Netloc(s.url).Returned?
  {
    Stamp(Enqueue(db, s.url, false, "{}", "[]", Some(s.id), now).value.0, s.id, now)
  }

  lemma RunDueStep(db: Db, rows: seq<Schedule>, now: int)
    requires rows != [] && Due(rows[0], now) && Netloc(rows[0].url).Returned?
    ensures var next := RunDue(RunFirst(db, rows[0], now), rows[1..], now);
      && RunDue(db, rows, now) == next.(queued := [ScheduledJob(rows[0], db.sequences.captures + 1)] + next.queued)
      && DueRows(rows, now) == [rows[0]] + DueRows(rows[1..], now)
  {
  }

  lemma RunDueSkip(db: Db, rows: seq<Schedule>, now: int)
    requires rows != [] && !Due(rows[0], now)
    ensures RunDue(db, rows, now) == RunDue(db, rows[1..], now)
    ensures DueRows(rows, now) == DueRows(rows[1..], now)
  {
  }

  lemma RunFirstSpec(db: Db, s: Schedule, now: int)
    requires Netloc(s.url).Returned?
    ensures var ran := RunFirst(db, s, now);
      && ran.captures == db.captures + [QueuedRow(s, db.sequences.captures + 1, now)]
      && ran.sequences == db.sequences.(captures := db.sequences.captures + 1)
      && PassKeeps(db, ran)
  {
    var e := Enqueue(db, s.url, false, "{}", "[]", Some(s.id), now);
    var queued := e.value.0;
    assert queued.captures == db.captures + [QueuedRow(s, db.sequences.captures + 1, now)];
    assert queued.sequences == db.sequences.(captures := db.sequences.captures + 1);
    assert PassKeeps(db, queued);
  }

  /** The UPDATE after the insert stamps the run time on exactly the rows with the schedule's id. */
  lemma RunFirstStamps(db: Db, s: Schedule, now: int)
    requires Netloc(s.url).Returned?
    ensures var ran := RunFirst(db, s, now);
      && |ran.schedules| == |db.schedules|
      && forall i :: 0 <= i < |db.schedules| ==>
           ran.schedules[i] == if db.schedules[i].id == s.id then db.schedules[i].(lastRunAt := Some(now)) else db.schedules[i]
  {
  }

  /** A pass whose due rows all have parsable URLs raises nothing and hands one job per due row to a worker, in order. */
  lemma {:induction false} RunDueJobs(db: Db, rows: seq<Schedule>, now: int)
    requires UrlsParse(rows, now)
    ensures var r := RunDue(db, rows, now);
      var due := DueRows(rows, now);
      && r.error.None?
      && |r.queued| == |due|
      && (forall k :: 0 <= k < |due| ==> r.queued[k] == ScheduledJob(due[k], db.sequences.captures + 1 + k))
      && r.db.sequences == db.sequences.(captures := db.sequences.captures + |due|)
    decreases |rows|
  {
    if rows != [] {
      UrlsParseTail(rows, now);
      if !Due(rows[0], now) {
        RunDueSkip(db, rows, now);
        RunDueJobs(db, rows[1..], now);
      } else {
        RunDueJobs(RunFirst(db, rows[0], now), rows[1..], now);
        RunDueJobsDue(db, rows, now);
      }
    }
  }

  /** The step of RunDueJobs for a due first row, given its conclusion for the rows after it. */
  lemma RunDueJobsDue(db: Db, rows: seq<Schedule>, now: int)
    requires rows != [] && Due(rows[0], now) && Netloc(rows[0].url).Returned?
    requires var ran := RunFirst(db, rows[0], now);
      var next := RunDue(ran, rows[1..], now);
      var due := DueRows(rows[1..], now);
      && next.error.None?
      && |next.queued| == |due|
      && (forall k :: 0 <= k < |due| ==> next.queued[k] == ScheduledJob(due[k], ran.sequences.captures + 1 + k))
      && next.db.sequences == ran.sequences.(captures := ran.sequences.captures + |due|)
    ensures var r := RunDue(db, rows, now);
      var due := DueRows(rows, now);
      && r.error.None?
      && |r.queued| == |due|
      && (forall k :: 0 <= k < |due| ==> r.queued[k] == ScheduledJob(due[k], db.sequences.captures + 1 + k))
      && r.db.sequences == db.sequences.(captures := db.sequences.captures + |due|)
  {
    var ran := RunFirst(db, rows[0], now);
    var next := RunDue(ran, rows[1..], now);
    RunDueStep(db, rows, now);
    assert ran.sequences == db.sequences.(captures := db.sequences.captures + 1) by {
      RunFirstSpec(db, rows[0], now);
    }
    JobsChain(rows[0], DueRows(rows[1..], now), DueRows(rows, now), RunDue(db, rows, now).queued, next.queued, db.sequences.captures);
  }

  /** The jobs of a pass are the first due row's job, then the jobs of the rest, numbered on. */
  lemma JobsChain(first: Schedule, tail: seq<Schedule>, due: seq<Schedule>, jobs: seq<Job>, rest: seq<Job>, lastId: int)
    requires due == [first] + tail && jobs == [ScheduledJob(first, lastId + 1)] + rest
    requires |rest| == |tail| && forall k :: 0 <= k < |tail| ==> rest[k] == ScheduledJob(tail[k], lastId + 1 + 1 + k)
    ensures |jobs| == |due| && forall k :: 0 <= k < |due| ==> jobs[k] == ScheduledJob(due[k], lastId + 1 + k)
  {
    forall k | 0 <= k < |due| ensures jobs[k] == ScheduledJob(due[k], lastId + 1 + k) {
      if k > 0 {
        assert due[k] == tail[k - 1] && jobs[k] == rest[k - 1];
      }
    }
  }

  /** The captures table gains one pending row per due row, in order, and no other table changes. */
  lemma {:induction false} RunDueInserts(db: Db, rows: seq<Schedule>, now: int)
    requires UrlsParse(rows, now)
    ensures var r := RunDue(db, rows, now);
      && r.db.captures == db.captures + QueuedRows(DueRows(rows, now), db.sequences.captures, now)
      && PassKeeps(db, r.db)
    decreases |rows|
  {
    if rows != [] {
      UrlsParseTail(rows, now);
      if !Due(rows[0], now) {
        RunDueSkip(db, rows, now);
        RunDueInserts(db, rows[1..], now);
      } else {
        RunDueInserts(RunFirst(db, rows[0], now), rows[1..], now);
        RunDueKeepsDue(db, rows, now);
        RunDueInsertsDue(db, rows, now);
      }
    }
  }

  /** The step of RunDueInserts for a due first row: the other tables are kept if the rest of the pass keeps them. */
  lemma RunDueKeepsDue(db: Db, rows: seq<Schedule>, now: int)
    requires rows != [] && Due(rows[0], now) && Netloc(rows[0].url).Returned?
    requires PassKeeps(RunFirst(db, rows[0], now), RunDue(RunFirst(db, rows[0], now), rows[1..], now).db)
    ensures PassKeeps(db, RunDue(db, rows, now).db)
  {
    RunDueStep(db, rows, now);
    RunFirstSpec(db, rows[0], now);
  }

  /** The step of RunDueInserts for a due first row, from the rows the rest of the pass inserts. */
  lemma RunDueInsertsDue(db: Db, rows: seq<Schedule>, now: int)
    requires rows != [] && Due(rows[0], now) && Netloc(rows[0].url).Returned?
    requires var ran := RunFirst(db, rows[0], now);
      RunDue(ran, rows[1..], now).db.captures == ran.captures + QueuedRows(DueRows(rows[1..], now), ran.sequences.captures, now)
    ensures RunDue(db, rows, now).db.captures == db.captures + QueuedRows(DueRows(rows, now), db.sequences.captures, now)
  {
    var ran := RunFirst(db, rows[0], now);
    var x := QueuedRow(rows[0], db.sequences.captures + 1, now);
    var q := QueuedRows(DueRows(rows[1..], now), db.sequences.captures + 1, now);
    RunDueStep(db, rows, now);
    RunFirstSpec(db, rows[0], now);
    QueuedDueRows(rows, db.sequences.captures, now);
    ChainCaptures(db.captures, x, q, ran.captures, RunDue(db, rows, now).db.captures, QueuedRows(DueRows(rows, now), db.sequences.captures, now));
  }

  /** Appending [x] and then q is appending [x] + q. */
  lemma ChainCaptures(a: seq<Capture>, x: Capture, q: seq<Capture>, ranCaps: seq<Capture>, rCaps: seq<Capture>, all: seq<Capture>)
    requires ranCaps == a + [x] && rCaps == ranCaps + q && all == [x] + q
    ensures rCaps == a + all
  {
  }

  /** A due first row is queued first, with the next id, before the rows queued for the rest. */
  lemma QueuedDueRows(rows: seq<Schedule>, lastId: int, now: int)
    requires rows != [] && Due(rows[0], now)
    ensures QueuedRows(DueRows(rows, now), lastId, now)
         == [QueuedRow(rows[0], lastId + 1, now)]
            + QueuedRows(DueRows(rows[1..], now), lastId + 1, now)
  {
    var due := DueRows(rows, now);
    assert due[0] == rows[0] && due[1..] == DueRows(rows[1..], now);
  }

  /** A pass whose due rows all have parsable URLs stamps exactly the due schedules with the run time. */
  lemma {:induction false} RunDueStamps(db: Db, rows: seq<Schedule>, now: int)
    requires UrlsParse(rows, now)
    ensures var r := RunDue(db, rows, now);
      var due := DueRows(rows, now);
      && |r.db.schedules| == |db.schedules|
      && forall i :: 0 <= i < |db.schedules| ==>
           r.db.schedules[i] == if db.schedules[i].id in Ids(due) then db.schedules[i].(lastRunAt := Some(now)) else db.schedules[i]
    decreases |rows|
  {
    if rows != [] {
      UrlsParseTail(rows, now);
      if !Due(rows[0], now) {
        RunDueSkip(db, rows, now);
        RunDueStamps(db, rows[1..], now);
      } else {
        RunDueStep(db, rows, now);
        var ran := RunFirst(db, rows[0], now);
        RunDueStamps(ran, rows[1..], now);
        var due := DueRows(rows, now);
        var rest := DueRows(rows[1..], now);
        assert Ids(due) == [rows[0].id] + Ids(rest) by {
          IdsCons(due);
        }
        var r := RunDue(db, rows, now);
        forall i | 0 <= i < |db.schedules|
          ensures r.db.schedules[i] == if db.schedules[i].id in Ids(due) then db.schedules[i].(lastRunAt := Some(now)) else db.schedules[i]
        {
          assert db.schedules[i].id in Ids(due) <==> db.schedules[i].id == rows[0].id || db.schedules[i].id in Ids(rest);
        }
      }
    }
  }

  /** The schedules a tick runs: the active ones that are due. */
  function Selected(rows: seq<Schedule>, now: int): seq<Schedule> {
    DueRows(ActiveRows(rows), now)
  }

  /** With distinct ids, a schedule's id is among the selected ones exactly when it is active and due. */
  lemma SelectedIds(rows: seq<Schedule>, now: int, i: int)
    requires forall a, b :: 0 <= a < b < |rows| ==> rows[a].id != rows[b].id
    requires 0 <= i < |rows|
    ensures rows[i].id in Ids(Selected(rows, now)) <==> rows[i].active == 1 && Due(rows[i], now)
  {
    var active := ActiveRows(rows);
    var due := Selected(rows, now);
    ActiveRowsMembers(rows);
    DueRowsMembers(active, now);
    if rows[i].active == 1 && Due(rows[i], now) {
      assert rows[i] in active;
      var m :| 0 <= m < |active| && active[m] == rows[i];
      assert rows[i] in due;
      var k :| 0 <= k < |due| && due[k] == rows[i];
      assert Ids(due)[k] == rows[i].id;
    }
    if rows[i].id in Ids(due) {
      var k :| 0 <= k < |due| && Ids(due)[k] == rows[i].id;
      assert due[k] in active && Due(due[k], now);
      var m :| 0 <= m < |active| && active[m] == due[k];
      assert active[m] in rows;
      var j :| 0 <= j < |rows| && rows[j] == active[m];
    }
  }

  /** The rows a pass inserts carry the next ids, in order, are pending and point at their schedule. */
  lemma QueuedRowsShape(due: seq<Schedule>, lastId: int, now: int)
    ensures forall k :: 0 <= k < |due| ==>
      && QueuedRows(due, lastId, now)[k].id == lastId + 1 + k
      && QueuedRows(due, lastId, now)[k].status == Pending
      && QueuedRows(due, lastId, now)[k].scheduleId == Some(due[k].id)
  {
    forall k | 0 <= k < |due|
      ensures && QueuedRows(due, lastId, now)[k].id == lastId + 1 + k
              && QueuedRows(due, lastId, now)[k].status == Pending
              && QueuedRows(due, lastId, now)[k].scheduleId == Some(due[k].id)
    {
      QueuedRowAt(due, lastId, now, k);
    }
  }

  /** The k-th inserted row is the capture enqueue_capture makes for the k-th due row, with id lastId + 1 + k. */
  lemma {:induction false} QueuedRowAt(due: seq<Schedule>, lastId: int, now: int, k: int)
    requires 0 <= k < |due|
    ensures QueuedRows(due, lastId, now)[k]
      == QueuedRow(due[k], lastId + 1 + k, now)
    decreases k
  {
    if k > 0 {
      QueuedRowAt(due[1..], lastId + 1, now, k - 1);
      assert QueuedRows(due, lastId, now)[k] == QueuedRows(due[1..], lastId + 1, now)[k - 1];
      assert due[1..][k - 1] == due[k];
    }
  }

  /** Appending rows numbered after the counter keeps the captures' ids fresh under the bumped counter. */
  lemma AppendIssued(caps: seq<Capture>, q: seq<Capture>, last: int)
    requires CaptureIdsFresh(caps, last)
    requires forall k :: 0 <= k < |q| ==> q[k].id == last + 1 + k
    ensures CaptureIdsFresh(caps + q, last + |q|)
  {
    var all := caps + q;
    forall a, b | 0 <= a < b < |all| ensures all[a].id != all[b].id {
      if b >= |caps| {
        assert all[b] == q[b - |caps|];
        if a >= |caps| {
          assert all[a] == q[a - |caps|];
        }
      }
    }
    forall a | 0 <= a < |all| ensures all[a].id <= last + |q| {
      if a >= |caps| {
        assert all[a] == q[a - |caps|];
      }
    }
  }

  /** A pass keeps the tables well formed. */
  lemma PassWellFormed(db: Db, rows: seq<Schedule>, now: int)
    requires WellFormed(db) && UrlsParse(rows, now)
    ensures WellFormed(RunDue(db, rows, now).db)
  {
    var r := RunDue(db, rows, now).db;
    var due := DueRows(rows, now);
    var L := db.sequences.captures;
    var q := QueuedRows(due, L, now);
    assert r.captures == db.captures + q && PassKeeps(db, r) by {
      RunDueInserts(db, rows, now);
    }
    assert r.sequences == db.sequences.(captures := L + |due|) by {
      RunDueJobs(db, rows, now);
    }
    assert CaptureIdsFresh(r.captures, r.sequences.captures) by {
      QueuedRowsShape(due, L, now);
      AppendIssued(db.captures, q, L);
    }
    assert ScheduleIdsFresh(r.schedules, r.sequences.schedules) by {
      RunDueStamps(db, rows, now);
      assert forall a :: 0 <= a < |r.schedules| ==> r.schedules[a].id == db.schedules[a].id;
    }
  }

  /**
   * One tick whose due schedules all have parsable URLs: one pending capture
   * (no PDF, headers "{}", cookies "[]", schedule_id set) per active due
   * schedule, in order, and exactly those schedules stamped with the run
   * time. What the sweep afterwards does to the captures is TickSweeps.
   */
  lemma TickSpec(db: Db, now: int, hash: Bytes -> string)
    requires WellFormed(db) && UrlsParse(ActiveRows(db.schedules), now)
    ensures var t := Tick(db, now, hash);
      var due := Selected(db.schedules, now);
      && t.error.None?
      && |t.queued| == |due|
      && (forall k :: 0 <= k < |due| ==> t.queued[k] == ScheduledJob(due[k], db.sequences.captures + 1 + k))
      && |t.db.schedules| == |db.schedules|
      && (forall i :: 0 <= i < |db.schedules| ==>
            t.db.schedules[i] == if db.schedules[i].active == 1 && Due(db.schedules[i], now)
              then db.schedules[i].(lastRunAt := Some(now)) else db.schedules[i])
      && |t.db.captures| == |db.captures| + |due|
      && (forall k :: 0 <= k < |due| ==>
            t.db.captures[|db.captures| + k] == QueuedRows(due, db.sequences.captures, now)[k]
            && t.db.captures[|db.captures| + k].scheduleId == Some(due[k].id))
  {
    var rows := ActiveRows(db.schedules);
    var pass := RunDue(db, rows, now);
    RunDueJobs(db, rows, now);
    RunDueInserts(db, rows, now);
    RunDueStamps(db, rows, now);
    PassWellFormed(db, rows, now);
    SweepSpec(pass.db, now, hash);
    var due := Selected(db.schedules, now);
    QueuedRowsShape(due, db.sequences.captures, now);
    var t := Tick(db, now, hash);
    assert t.db == Sweep(pass.db, now, hash);
    forall i | 0 <= i < |db.schedules|
      ensures t.db.schedules[i] == if db.schedules[i].active == 1 && Due(db.schedules[i], now)
              then db.schedules[i].(lastRunAt := Some(now)) else db.schedules[i]
    {
      SelectedIds(db.schedules, now, i);
    }
    forall k | 0 <= k < |due| ensures t.db.captures[|db.captures| + k] == QueuedRows(due, db.sequences.captures, now)[k] {
      assert pass.db.captures[|db.captures| + k] == QueuedRows(due, db.sequences.captures, now)[k];
    }
  }

  /**
   * The sweep at the end of a tick: every capture that was finished before the
   * tick gets integrity_state ok when all its artifacts are intact and
   * corrupted otherwise, every other earlier capture is left alone, the
   * artifacts and files are untouched, and one integrity log row is appended
   * per finished capture.
   */
  lemma TickSweeps(db: Db, now: int, hash: Bytes -> string)
    requires WellFormed(db) && UrlsParse(ActiveRows(db.schedules), now)
    ensures var t := Tick(db, now, hash).db;
      && t.artifacts == db.artifacts && t.files == db.files
      && |t.captures| >= |db.captures|
      && (forall i :: 0 <= i < |db.captures| ==>
            if Finished(db.captures[i]) then
              && t.captures[i] == db.captures[i].(integrityState := t.captures[i].integrityState)
              && (t.captures[i].integrityState == Ok <==> AllIntact(ArtifactsOf(db.artifacts, db.captures[i].id), db.files, hash))
              && (t.captures[i].integrityState == Corrupted <==> !AllIntact(ArtifactsOf(db.artifacts, db.captures[i].id), db.files, hash))
            else t.captures[i] == db.captures[i])
      && |t.integrityLogs| == |db.integrityLogs| + |CheckedIds(db.captures)|
      && t.integrityLogs[..|db.integrityLogs|] == db.integrityLogs
  {
    var rows := ActiveRows(db.schedules);
    var pass := RunDue(db, rows, now);
    var due := DueRows(rows, now);
    var q := QueuedRows(due, db.sequences.captures, now);
    RunDueJobs(db, rows, now);
    RunDueInserts(db, rows, now);
    PassWellFormed(db, rows, now);
    SweepSpec(pass.db, now, hash);
    QueuedRowsShape(due, db.sequences.captures, now);
    CheckedIdsAppend(db.captures, q);
    assert Tick(db, now, hash).db == Sweep(pass.db, now, hash);
    forall i | 0 <= i < |db.captures| ensures pass.db.captures[i] == db.captures[i] {
    }
  }

  /**
   * When no due URL makes urlparse raise, every selected schedule runs in the
   * tick: the tick ends without error, and one of its started jobs is for a new
   * pending capture that points at that schedule.
   */
  lemma SelectedRuns(db: Db, now: int, hash: Bytes -> string, id: int)
    requires WellFormed(db) && UrlsParse(ActiveRows(db.schedules), now)
    requires id in Ids(Selected(db.schedules, now))
    ensures var t := Tick(db, now, hash);
      && t.error.None?
      && exists k :: 0 <= k < |t.queued| && |db.captures| + k < |t.db.captures|
           && t.db.captures[|db.captures| + k].scheduleId == Some(id)
           && t.db.captures[|db.captures| + k].status == Pending
           && t.queued[k].captureId == t.db.captures[|db.captures| + k].id
  {
    var t := Tick(db, now, hash);
    var due := Selected(db.schedules, now);
    TickSpec(db, now, hash);
    QueuedRowsShape(due, db.sequences.captures, now);
    var k :| 0 <= k < |Ids(due)| && Ids(due)[k] == id;
    assert t.db.captures[|db.captures| + k] == QueuedRows(due, db.sequences.captures, now)[k];
    assert t.queued[k] == ScheduledJob(due[k], db.sequences.captures + 1 + k);
  }
}
