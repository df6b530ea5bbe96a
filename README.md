# Parker capture engine: a Dafny model

Parker is a self-hosted web archiver (a FastAPI application over SQLite). This
project models the capture-job lifecycle in `app/main.py`:

- the retrying capture worker (`capture_worker`): blocklist check, attempts
  `0 .. max_capture_retries`, the persist transaction that replaces a capture's
  artifact rows, and success / partial / failed classification;
- artifact persistence (`persist_artifact`): size, checksum and relative path
  of each file;
- the integrity sweep (`integrity_check_once`);
- one tick of the scheduler (`scheduler_loop`), including `enqueue_capture`;
- the maintenance handlers: `add_tag`, `remove_tag`, `delete_capture`,
  `create_schedule` and `toggle_schedule`.

The SQLite tables, the AUTOINCREMENT counters, `app_config` and the storage
directory are one value `Schema.Db`:

- tables are sequences of rows in rowid order;
- the files are a map from `RelPath` (`data/storage/capture_<id>/<name>`) to bytes.

Every operation is a function from one `Db` to the next (modules `Capturing`,
`Integrity`, `Scheduling`, `Maintenance`). Its properties are lemmas about that
function. Module `Engine` holds the same state as the fields of `class Store`.
Its methods perform the handlers' statements one at a time: loops over attempts,
capture ids, schedules and artifact paths. Each method is proved to leave exactly
the state the corresponding function computes.

Foreign calls are inputs:

- The browser, WARC writer and HTML parser of an attempt are one
  `AttemptOutcome`. It carries the files written, the HTTP status, the WARC
  writer's exception and the extracted metadata, or the exception that ended
  the attempt. The worker takes one outcome per attempt index.
- SHA-256 of a file's bytes is a parameter `hash: Bytes -> string`.
- `now_iso()` is one integer timestamp `now` per handler call.

Python exceptions are `Wrappers.Try` values carrying the exception text. A
`db_conn` block that raises commits nothing (app/main.py:64-71), so a raising
persist block leaves the tables unchanged.

Module layout:

- `text.dfy`: `str.strip`, `split`, `join`, `int()` and `f"{n}"`.
- `urls.dfy`: the netloc computed by `urlparse`.
- `settings.dfy`: `config_value` and blocklist parsing.
- `schema.dfy`: rows, tables and table invariants.
- `artifacts.dfy`: `persist_artifact` and the persist block.
- `capturing.dfy`: worker, enqueue and block.
- `integrity.dfy`: the integrity sweep.
- `scheduling.dfy`: one scheduler tick.
- `maintenance.dfy`: tags, delete and schedules.
- `engine.dfy`: the imperative handlers.

Where the design description and the code differ, the model follows the code:

- The status `running` is never written. A capture goes straight from
  `pending` to `success`, `partial` or `failed`.
- With a negative `max_capture_retries`, `range(0, max_retries + 1)` is empty.
  The capture stays `pending` with no event. `Capturing.Worker` models this
  instead of excluding it.
- A blocked capture keeps the `retries` it had (0 from enqueue), and gets no
  "attempt started" event.
- A `warc` row is stored whenever `snapshot.warc` exists. That includes a file
  opened by a WARC writer that then failed, and a file left by an earlier
  attempt.

SQLite behaviour the model keeps: `INSERT OR IGNORE INTO tags` draws the next
AUTOINCREMENT id before the UNIQUE check. So `add_tag` with an existing name
still advances the tags counter, and the next new tag skips that id.

The handlers are modelled as functions on `Db`. These carry no `ensures` of
their own: the lemmas in the table below state what they do.

- `Capturing.Worker` (app/main.py:192-283) is the whole of `capture_worker`. See
  WorkerSettles, NegativeRetriesLeavePending, BlockSpec and WorkerWellFormed.
- `Capturing.Block` (app/main.py:197-202) is the blocked-domain branch. See
  BlockSpec, BlockedDomain and BlockWellFormed.
- `Capturing.Attempts` (app/main.py:207-283) is the retry loop. See SkipFailures,
  AllAttemptsFail, ReachesPersist, FirstPersistingAttempt, AttemptsSettle and
  AttemptsWellFormed.
- `Capturing.RunAttempt` (app/main.py:209-273) is one pass of the try block. See
  AbortedOnlyLogged and ReachesPersist.
- `Capturing.Finish` (app/main.py:257-273) is the persist commit and its event.
  See FinishSpec and FinishWellFormed.
- `Capturing.GiveUp` (app/main.py:276-281) is the update after the last failed
  attempt. See AllAttemptsFail.
- `Integrity.Sweep` (app/main.py:318-342) is `integrity_check_once`, and
  `Integrity.SweepOne` (app/main.py:322-342) is its body for one capture. See
  CheckArtifacts, SweepIdsSpec, SweepSpec, SweepFindsIntact, SweepAfterPersistIsOk
  and RemovedFileCorrupts.
- `Scheduling.RunDue` (app/main.py:303-311) is the loop over the active rows. See
  RunDueRaises, RunFirstSpec, RunFirstStamps, RunDueJobs, RunDueInserts,
  RunDueStamps and PassWellFormed.
- `Scheduling.Tick` (app/main.py:300-312) is one iteration of `scheduler_loop`.
  See TickSpec, TickSweeps and SelectedRuns.
- `Maintenance.EnsureTag` (app/main.py:431-432) and `Maintenance.AddTag`
  (app/main.py:429-433) model `add_tag`. See TagNamed, AddTagSpec,
  AddTagIdempotent, IgnoredInsertSpendsId and AddTagWellFormed.
- `Maintenance.RemoveTag` (app/main.py:438-440) models `remove_tag`. See
  RemoveTagSpec and AddThenRemoveTag.
- `Maintenance.DeleteCapture` (app/main.py:410-424) models `delete_capture`. See
  DeleteCaptureSpec, DeleteCaptureArtifacts, DeleteCaptureFiles,
  DeleteCaptureWellFormed and DeleteCaptureIdempotent.
- `Maintenance.CreateSchedule` (app/main.py:522-524) models `create_schedule`.
  See CreateScheduleSpec and CreateScheduleRuns.
- `Maintenance.ToggleSchedule` (app/main.py:529-532) models `toggle_schedule`. See
  ToggleScheduleSpec, ToggleTwice, ToggleAndTick and ToggleOnRuns.

## Model

| member | source | states |
|---|---|---|
| Text.StripIdempotent | app/main.py:196 | stripping an already stripped string changes nothing |
| Text.StripPadded | app/main.py:196 | `strip` of whitespace + d + whitespace is d when d has no whitespace at either end |
| Text.StripIsTrimmed | app/main.py:249 | a stripped string has no whitespace at either end |
| Text.JoinSplit | app/main.py:196 | joining the pieces of `s.split(c)` with c gives back s |
| Text.SplitJoin | app/main.py:196 | splitting the join of separator-free pieces gives back the pieces |
| Text.ParseIntRoundTrip | app/main.py:194-195 | `int()` of the decimal text of n is n |
| Text.ParseIntNegative | app/main.py:194-195 | `int("-" + digits)` is the negated value, so a negative retry count can be stored |
| Urls.NetlocOfUrl | app/main.py:197 | for `scheme://host rest` with a well-formed scheme and a host without delimiters, tabs or brackets, `urlparse(url).netloc` is exactly host |
| Settings.StrippedEntriesMembership | app/main.py:196 | a domain is in the list comprehension iff it is non-empty and equals some stripped piece |
| Settings.ListedDomainBlocked | app/main.py:196 | a domain written, possibly padded with whitespace, as one comma-separated entry is in the blocklist |
| Settings.DefaultSettings | app/main.py:47-54 | with no stored rows, `config_value` gives 2 retries, a 90-second timeout and an empty blocklist |
| Schema.SnapshotPathInjective | app/main.py:204-215 | two snapshot paths are equal iff capture id and kind are equal |
| Schema.ArtifactsOfAfterDelete | app/main.py:258 | after `DELETE FROM artifacts WHERE capture_id=?` that capture has no rows and every other capture keeps exactly its own, in order |
| Schema.AppendEvent | app/main.py:166-172 | `set_event` appends one row with the next event id and changes nothing else |
| Schema.AppendEventIdsFresh | app/main.py:126-127 | the AUTOINCREMENT event ids stay increasing along the table and within the counter after `set_event` |
| Artifacts.WriteFiles | app/main.py:226-244 | written files replace or add exactly their own paths; every other file keeps its bytes |
| Artifacts.PersistArtifact | app/main.py:183-189 | the row is inserted iff the file exists; it carries the file's length, its hash, its path, kind and capture; a missing file raises FileNotFoundError |
| Artifacts.PersistRows | app/main.py:257-264 | the block commits iff both html and screenshot files exist; otherwise it raises for the first missing one, html before screenshot |
| Artifacts.PersistRowsRecords | app/main.py:183-189 | each inserted row belongs to the capture, has the next consecutive id, the current time and its kind's path, and records the file's size and checksum |
| Artifacts.PersistRowsKinds | app/main.py:259-264 | html and screenshot are always inserted, warc iff its file exists, pdf iff requested and present; no kind twice |
| Capturing.Classify | app/main.py:266 | status is partial iff there are partial-failure notes, else success |
| Capturing.Truncate | app/main.py:254 | exactly the first 500 links are kept, or all of them when there are fewer |
| Capturing.Enqueue | app/main.py:286-294 | raises iff urlparse raises; otherwise appends one pending row with the next id, the URL's netloc, the flags and schedule id, and returns that id |
| Capturing.AbortedOnlyLogged | app/main.py:209-246 | an attempt that raises only appends events and writes files; no table row is changed |
| Capturing.SkipFailures | app/main.py:274-283 | a run of raising attempts that are not the last only appends two events each and leaves the loop to continue at the next index |
| Capturing.AllAttemptsFail | app/main.py:274-283 | if every attempt raises: artifacts untouched, two events per attempt, and only the capture's row becomes failed with the last exception's text, finish time and retries = max_capture_retries |
| Capturing.ReplacedArtifacts | app/main.py:258-264 | after the persist commit the capture's artifacts are exactly the new rows and other captures keep theirs |
| Capturing.FinishSpec | app/main.py:257-272 | the capture's artifacts become exactly the new rows; its row changes in exactly the ten columns the UPDATE names (status by classification, partial iff the WARC writer failed, http_status, total_size = sum of the rows' sizes, title, description, finish time, retries = attempt, text, links, error_message = notes joined by newlines) and keeps every other column; one "Captura finalizada" event with the next id is appended; other captures, schedules, tags, logs and files are unchanged |
| Capturing.ReachesPersist | app/main.py:207-256 | when attempts 0..k-1 raise and attempt k renders, the worker reaches attempt k having only logged 2k+2 events and written the attempts' files |
| Capturing.FirstPersistingAttempt | app/main.py:207-273 | the first attempt that reaches the persist block ends the worker: the capture's artifacts are its persisted rows, its row changes in exactly the UPDATE's columns, with retries = that attempt, 2k+3 events are logged, other captures are untouched |
| Capturing.AttemptsSettle | app/main.py:207-283 | however the attempts go, the capture ends not pending, finished now, with retries between the first attempt and max_capture_retries, and equal to the maximum when failed; other rows and tables are unchanged |
| Capturing.BlockSpec | app/main.py:197-202 | a blocked capture becomes failed with "Domínio bloqueado" and the finish time, one error event is logged, and nothing else changes |
| Capturing.BlockWellFormed | app/main.py:197-202 | the blocked branch keeps the table invariants |
| Capturing.BlockedDomain | app/main.py:196-202 | a netloc in the blocklist runs no attempt: the worker's whole effect is the block |
| Capturing.ListedHostBlocked | app/main.py:194-202 | a URL whose host is listed, possibly padded with whitespace, in the comma-separated blocked_domains is blocked |
| Capturing.WorkerSettles | app/main.py:192-283 | with readable settings, a parsable URL and max_capture_retries >= 0, the capture always ends terminal; blocked captures keep their retries, others end with 0 <= retries <= max |
| Capturing.NegativeRetriesLeavePending | app/main.py:207 | with a negative max_capture_retries and an unblocked domain the worker changes nothing, so the capture stays pending |
| Capturing.EnqueueThenBlocked | app/main.py:196-202 | a newly enqueued capture of a blocked domain ends failed with retries 0, the blocked error, a finish time, no artifacts and no files |
| Capturing.DeleteKeepsKindsUnique | app/main.py:258 | deleting a capture's artifact rows keeps "one kind per capture" |
| Capturing.FinishWellFormed | app/main.py:257-273 | the persist commit keeps the table invariants (fresh ids, one artifact per kind per capture, paths in the capture's folder) |
| Capturing.AttemptsWellFormed | app/main.py:207-283 | the attempt loop keeps the table invariants |
| Capturing.WorkerWellFormed | app/main.py:192-283 | the worker keeps the table invariants |
| Capturing.EnqueueWellFormed | app/main.py:286-294 | enqueue keeps the table invariants and hands out an id no existing capture has |
| Integrity.Detail | app/main.py:327-336 | a row contributes a detail exactly when its file is missing or its hash differs from the stored checksum |
| Integrity.NoDetailsIffIntact | app/main.py:325-337 | the details are empty iff every artifact file exists with its stored checksum |
| Integrity.DetailsCount | app/main.py:327-336 | at most one detail per artifact, and one for every artifact exactly when none is intact |
| Integrity.MissingFileReported | app/main.py:329-332 | an artifact whose file is gone is reported as "Ausente: kind" |
| Integrity.CheckArtifacts | app/main.py:325-336 | the loop's ok flag is true iff all artifacts are intact, and its details list is the per-row details in artifact order |
| Integrity.CheckOne | app/main.py:325-337 | the loop and the join give the verdict (ok iff every artifact is intact) and the "; "-joined details the log row records |
| Integrity.CheckedIdsAppend | app/main.py:320 | appending captures that are neither success nor partial does not change the ids the sweep selects |
| Integrity.CheckedIdsSpec | app/main.py:320 | exactly the ids of success or partial captures are selected |
| Integrity.SweepIdsSpec | app/main.py:321-342 | each listed capture gets the verdict of its own artifacts and exactly one log row, in order, with consecutive ids; nothing else changes |
| Integrity.SweepSpec | app/main.py:318-342 | only success/partial captures change, only in integrity_state, which is ok iff all their files are intact and corrupted otherwise; one log row per checked capture |
| Integrity.RecordedRowsIntact | app/main.py:183-189 | rows that record their files' sizes and checksums are intact against those files |
| Integrity.SweepFindsIntact | app/main.py:318-342 | a finished capture whose files are intact is marked ok |
| Integrity.PersistLeavesIntact | app/main.py:257-273 | right after the persist commit the capture is finished and all its artifacts are intact |
| Integrity.SweepAfterPersistIsOk | app/main.py:318-342 | a sweep right after a successful persist, with the files unchanged, marks the capture ok |
| Integrity.RemovedFileCorrupts | app/main.py:318-342 | removing one artifact file of a finished capture makes the next sweep mark it corrupted, with a detail naming that artifact's kind |
| Scheduling.DueStaysDue | app/main.py:306-307 | a due schedule stays due as time passes |
| Scheduling.JustRunNotDue | app/main.py:307-311 | a schedule stamped now is due again at once iff its interval is not positive |
| Scheduling.OneHourExamples | app/main.py:306-307 | with a one-hour interval, a run 90 minutes ago is due and a run 30 minutes ago is not |
| Scheduling.ActiveRowsMembers | app/main.py:304 | the selected rows are exactly the schedules with active = 1 |
| Scheduling.DueRowsMembers | app/main.py:305-308 | the rows that fire are exactly the due ones |
| Scheduling.RunDueRaises | app/main.py:305-309 | the loop raises iff some due row's URL makes urlparse raise |
| Scheduling.RunFirstSpec | app/main.py:308-311 | one due row enqueues one pending capture with its URL and schedule id and the next capture id; events, artifacts, tags, logs and files are unchanged |
| Scheduling.RunFirstStamps | app/main.py:310-311 | after the enqueue, exactly the schedule rows with the due row's id get last_run_at = now; the others are unchanged |
| Scheduling.RunDueJobs | app/main.py:305-309 | with parsable URLs, one job per due row, in order, with consecutive capture ids, no PDF, headers "{}" and cookies "[]" |
| Scheduling.RunDueInserts | app/main.py:305-311 | the captures gained are exactly one pending row per due schedule, appended in order; no other table changes |
| Scheduling.RunDueStamps | app/main.py:310-311 | a schedule's last_run_at becomes now iff it fired; other rows are unchanged |
| Scheduling.SelectedIds | app/main.py:304-308 | with distinct ids, a schedule fires iff it is active and due |
| Scheduling.QueuedRowsShape | app/main.py:288-294 | the inserted rows carry the next ids, are pending, and point at their schedule |
| Scheduling.PassWellFormed | app/main.py:303-311 | the loop over schedules keeps the table invariants |
| Scheduling.TickSpec | app/main.py:303-312 | a tick runs exactly the active due schedules: one job and one pending capture (schedule id set) each, those rows stamped with now and all others unchanged |
| Scheduling.TickSweeps | app/main.py:312 | the sweep after the loop: each capture finished before the tick gets integrity_state ok iff all its artifacts are intact and corrupted otherwise, other earlier captures are unchanged, artifacts and files are untouched, and one log row is appended per finished capture |
| Scheduling.SelectedRuns | app/main.py:303-311 | when no due URL makes urlparse raise, every selected schedule runs: the tick has no error and starts a job for a new pending capture pointing at it |
| Maintenance.TagNamed | app/main.py:432 | the lookup finds a row with that name, or reports that there is none |
| Maintenance.AddTagSpec | app/main.py:429-433 | afterwards a tag of that name exists (the old one, or a new one with the next id), the tags counter has advanced by one either way, the capture carries the tag, the pairs are the old ones plus that one, and nothing else changes |
| Maintenance.AddTagIdempotent | app/main.py:429-433 | adding the same tag twice leaves tags and capture_tags as adding it once; the second call only advances the tags counter |
| Maintenance.IgnoredInsertSpendsId | app/main.py:429-433 | from no tags, adding "a", "a" again and then "b" gives "b" the id 3: the ignored insert still draws an AUTOINCREMENT id |
| Maintenance.AddTagWellFormed | app/main.py:429-433 | tag names and ids stay unique and each (capture, tag) pair occurs once |
| Maintenance.RemoveTagSpec | app/main.py:438-440 | exactly that (capture, tag) pair is removed; an unknown tag name changes nothing |
| Maintenance.AddThenRemoveTag | app/main.py:429-440 | tagging a capture with a tag it lacked and untagging it restores the pairs |
| Maintenance.DeleteCaptureSpec | app/main.py:410-417 | no row keyed by the id is left in captures, artifacts, events, integrity_logs or capture_tags; every other row is kept; tags, schedules, config and counters are untouched; only files are removed |
| Maintenance.DeleteCaptureArtifacts | app/main.py:414 | the deleted capture has no artifacts; every other capture keeps exactly its own, in order |
| Maintenance.DeleteCaptureFiles | app/main.py:418-424 | when artifact files lie in their capture's folder, exactly the files of that folder are removed |
| Maintenance.DeleteCaptureWellFormed | app/main.py:410-424 | deletion keeps the table invariants |
| Maintenance.DeleteCaptureIdempotent | app/main.py:410-424 | deleting twice is deleting once |
| Maintenance.UnlinkOneMore | app/main.py:418-421 | one more unlink removes exactly that artifact's path |
| Maintenance.ScheduleWithId | app/main.py:531 | the lookup finds a row with that id, or reports that there is none |
| Maintenance.CreateScheduleSpec | app/main.py:522-524 | a new schedule keeps ids distinct and is selected (active and due) by the very next tick |
| Maintenance.CreateScheduleRuns | app/main.py:303-311 | when no due URL makes urlparse raise, the very next tick ends without error and starts a job for a new capture of that schedule |
| Maintenance.ToggleScheduleSpec | app/main.py:529-532 | raises iff the id is unknown; otherwise that row's active flips between zero and non-zero and nothing else changes |
| Maintenance.ToggleTwice | app/main.py:529-532 | toggling a 0/1 schedule twice restores the tables |
| Maintenance.ToggleAndTick | app/main.py:529-532 | after a toggle the next tick selects the schedule iff it was inactive before and is due |
| Maintenance.ToggleOnRuns | app/main.py:303-311 | when no due URL makes urlparse raise, switching on an inactive due schedule makes the next tick start a job for a new capture of it |
| Engine.Store.SetEvent | app/main.py:166-172 | the new state is `AppendEvent` of the old |
| Engine.Store.EnqueueCapture | app/main.py:286-294 | returns the new id, or the urlparse error with the state unchanged, as `Enqueue` says |
| Engine.Store.Persist | app/main.py:257-272 | the statements of the persist block leave the state `Finish` computes |
| Engine.Store.Attempt | app/main.py:209-273 | one attempt's statements end in the state `RunAttempt` computes, with its error when it raised |
| Engine.Store.BlockCapture | app/main.py:197-202 | the blocked branch leaves the state `Block` computes |
| Engine.Store.RunAttempts | app/main.py:207-283 | the attempt loop leaves the state `Attempts` computes, or nothing changed when the range is empty |
| Engine.Store.CaptureWorker | app/main.py:192-283 | the worker leaves the state `Worker` computes |
| Engine.Store.IntegrityCheckOnce | app/main.py:318-342 | the sweep loop leaves the state `Sweep` computes |
| Engine.Store.CheckCapture | app/main.py:321-341 | one capture's transaction leaves the state `SweepOne` computes: its integrity_state and one new log row |
| Engine.Store.SchedulerTick | app/main.py:303-312 | the tick loop returns the started jobs and the error, and leaves the state `Tick` computes |
| Engine.Store.AddTag | app/main.py:429-433 | leaves the state `Maintenance.AddTag` computes, including the counter drawn by an ignored insert |
| Engine.Store.RemoveTag | app/main.py:438-440 | leaves the state `Maintenance.RemoveTag` computes |
| Engine.Store.UnlinkArtifacts | app/main.py:418-421 | the unlink loop removes exactly the listed artifacts' paths |
| Engine.Store.DeleteRows | app/main.py:411-416 | the five DELETE statements leave each keyed table without the capture's rows and every other field as it was |
| Engine.Store.DeleteCapture | app/main.py:410-424 | leaves the state `Maintenance.DeleteCapture` computes |
| Engine.Store.CreateSchedule | app/main.py:522-524 | leaves the state `Maintenance.CreateSchedule` computes |
| Engine.Store.ToggleSchedule | app/main.py:529-532 | returns the TypeError with the state unchanged for an unknown id, else leaves the state `Maintenance.ToggleSchedule` computes |

## Left out

- Playwright rendering, scrolling, screenshot and PDF (app/main.py:216-234): foreign browser calls. Each attempt's outcome is an input, so the timeout only matters to the renderer and is only parsed here.
- WARC encoding by warcio (app/main.py:238-246): only the writer's exception and the bytes it left in `snapshot.warc` are modelled.
- BeautifulSoup extraction (app/main.py:248-255): title, description, links and text are opaque outcome values. Only the strip of the title, the "(sem título)" default and the 500-link limit are modelled. A missing `snapshot.html` raising at line 248 is modelled.
- The `json.loads` of headers and cookies (app/main.py:218-221) happens inside the renderer. A JSON error is one of the outcome's exceptions.
- SHA-256 and chunked reading (app/main.py:175-180): a parameter function of a file's bytes.
- `CAPTURE_SEMAPHORE`, daemon threads and semaphore replacement (app/main.py:60, 193, 295-296, 516-517): concurrency is not modelled. Each handler runs alone and to completion.
- `time.sleep` back-off, the endless `while True` and the catch-all handler of `scheduler_loop` (app/main.py:283, 300-315): one tick is modelled, and its exception is returned.
- Timestamps are integers (seconds) and one `now` serves a whole handler call. ISO formatting and parsing are not modelled.
- Scheduling.Due: `timedelta(hours=interval_hours)` (app/main.py:307) raises OverflowError for an interval beyond about 2.4·10¹⁰ hours, which ends that tick; `Due` accepts any integer interval.
- Maintenance.CreateSchedule: an interval_hours outside SQLite's 64-bit INTEGER range makes `create_schedule` fail (app/main.py:524); `CreateSchedule` accepts any integer.
- Urls.Netloc: the checks urlparse makes on bracketed hosts, besides the bracket mismatch, are not modelled. Neither is the NFKC normalisation check.
- Text.ParseInt: accepts ASCII digits with optional sign and surrounding whitespace. Underscore separators and non-ASCII digits, which `int()` also accepts, are not modelled. Neither is the limit on digit strings that `int()` has since Python 3.11: a string of more than 4300 digits raises ValueError there, so a huge max_capture_retries ends the worker thread, while ParseInt accepts it.
- Text.ParseIntRoundTrip: stated for every n, including values of more than 4300 digits, for which Python 3.11 and later raise instead.
- Artifacts.MissingFile: the error text holds the file name, not the absolute path that `stat` reports.
- Capturing.FinishedRow: `links_json` is the list of links itself, not its `json.dumps` text.
- Capturing.Worker: a settings value that `int()` rejects, or a URL urlparse rejects, ends the worker thread with no change. The exception's logging is not modelled.
- Maintenance.DeleteCaptureFiles: it states the file effect only when every artifact path lies in its capture's folder. That is true of every row this program writes (`PathsInFolder`).
- Maintenance.ToggleTwice: stated for schedules whose active flag is 0 or 1. A different non-zero value comes back as 1.
- Dashboard, list, search, detail, download, settings pages, the SSE event stream and backup export (app/main.py:351-400, 445-500, 536-545): HTTP and UI plumbing.
- `update_settings` (app/main.py:504-518): it stores strings without checking them. The model accepts any app_config content instead of modelling the form.
- `init_db` (app/main.py:78-157) and logging set-up: schema creation is replaced by the `Db` datatype and its invariant `WellFormed`.
