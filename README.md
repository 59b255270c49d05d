# ClassCheck attendance core in Dafny

ClassCheck is a classroom attendance system. An administrator registers students, each
with a name, a unique roll number and a department. The administrator then starts a
timed attendance poll of 1 to 60 minutes. Starting a poll supersedes any earlier poll.
While the poll's window is open, a student marks themselves present by typing their
roll number.

The back end is a FastAPI service over three tables: students, attendance polls and
attendance records. The front end is a Next.js application with these views:

- the student page, which holds the attendance form;
- a countdown timer;
- the administrator's live poll page;
- the attendance-log page, which exports a CSV.

This project models that core and proves properties of the model.

- **Tables** (`Models`) are datatypes. The database is a class `Crud.Store`. Its fields
  are:
  - the three tables, as sequences in storage order;
  - the counters that hand out primary keys.
- **CRUD operations** (`Crud`) are:
  - methods on `Store` for the operations that write;
  - functions for the queries. Their SQL semantics are modelled exactly:
    - `.first()` returns the first row in storage order;
    - a negative `OFFSET` counts as 0 and a negative `LIMIT` means no limit;
    - `ORDER BY … DESC` is a stable sort.
- **Unique roll number.** The database constraint on the roll number is modelled as an
  `IntegrityError` outcome.
- **Deleting a referenced student.** The ORM sets the `NOT NULL` foreign key of the
  student's attendance records to null. That also fails the commit with an
  `IntegrityError`. The application's own test expects the delete to succeed and take
  the records with it. Both the delete as written and the cascading delete are
  modelled: see Findings.
- **Request validation** (`Schemas`) is the Pydantic field bounds. Errors are HTTP
  answers: 404 and 400 with their detail, 422 naming the fields, and 500.
- **Routers** (`StudentsRouter`, `AttendanceRouter`) are methods when they write and
  functions when they only read. Each check runs in the source's order.
- **Clock reads** become integer parameters (seconds). `get_current_poll` reads the
  clock twice, so it takes two parameters.
- **Configuration** (`Config`) is the parsing of the CORS origin list.
- **Front end** (`AttendanceForm`, `Timer`, `LogsPage`, `AdminPollPage`,
  `StudentPage`): each React component's state is a class whose methods are the event
  handlers. The pure rendering decisions are functions.
- **Generic helpers:** `Seqs` holds the sequence helpers (find, filter, some, paging,
  stable descending sort, key sets). `Text` holds Python's `split`/`strip` and
  JavaScript's `join`.

Main results:

- **Store invariant.** Every writing operation preserves increasing primary keys,
  unique roll numbers, and poll windows that match their duration.
- **Integrity.** The routers preserve referential integrity: every record names an
  existing student and poll.
- **Marking is idempotent.** Marking never creates a second record for the same
  (student, poll) pair.
- **Starting a poll** leaves exactly the new poll flagged as active. It is the active
  poll for exactly its window.
- **A superseded poll still accepts marks** while its window is open, because marking
  does not look at `is_active`.
- **Update roll-number check.** The conflict check on an update rejects exactly the
  roll numbers held by another student.
- **Attendance report.** In the corrected report, the present count never exceeds the
  number of students, and the percentage lies between 0 and 100. The report as written
  does not have this property: see Findings.
- **Live counter.** On the admin page, the "present" counter equals the number of
  students shown as ticked. This holds when:
  - the listed students have distinct ids;
  - the records name distinct students;
  - every record's student is listed.

  The page lists students with `GET /students/`, which returns at most 100. With more
  than 100 students, a mark by a student past the first 100 is counted but ticks
  nobody: see Findings. With every student listed, the counter matches the ticks in any
  consistent store.
- **CSV export.** The exported CSV splits back into the header and one row per record.
- **CORS origins.** The origin list joins back to the configured string. The default
  yields the two front-end origins.

## Model

| member | source | states |
|---|---|---|
| Config.CorsOriginsList | backend/app/config.py:15-17 | one origin per comma-separated segment (count = commas + 1); no origin contains a comma or starts or ends with whitespace |
| Config.OriginIsStrippedSegment | backend/app/config.py:17 | the i-th origin is exactly the i-th comma segment with surrounding whitespace stripped |
| Config.OriginsRoundTrip | backend/app/config.py:17 | for a setting without whitespace, joining the origins with commas gives back the setting |
| Config.TwoOrigins | backend/app/config.py:17 | two clean comma-free origins joined by a comma parse back to exactly those two |
| Config.DefaultOrigins | backend/app/config.py:9-17 | the default setting yields the local and the deployed front-end origins, in that order |
| Schemas.StatusCode | backend/app/routers/attendance.py:47-65 | each error kind has its own code: 404 exactly for not-found errors, 400 exactly for bad requests, 422 exactly for validation errors, 500 exactly for server errors |
| Schemas.ValidateStudentCreate | backend/app/schemas.py:6-12 | accepted iff every field has 1..100 / 1..50 / 1..100 characters; otherwise 422 naming exactly the failing fields |
| Schemas.ValidateStudentUpdate | backend/app/schemas.py:14-17 | omitted fields always pass; a supplied field fails exactly when outside its bounds; 422 names exactly those |
| Schemas.ValidatePollCreate | backend/app/schemas.py:27-28 | accepted iff 0 < duration_minutes <= 60, otherwise 422 on duration_minutes |
| Crud.SetField | backend/app/crud.py:29 | the chosen column takes the value, every other column and the id and creation time are kept |
| Crud.UpdateData | backend/app/crud.py:27 | the items are exactly the supplied fields, each once, each with its supplied value |
| Crud.ApplyUpdate | backend/app/crud.py:26-29 | after the loop each column holds the supplied value if one was sent, the old value otherwise; id and creation time unchanged |
| Crud.Store.constructor | backend/app/models.py:6-42 | the empty database satisfies the store invariant, has no duplicate marks, at most one flagged poll and integral references |
| Crud.Store.GetStudent | backend/app/crud.py:15-16 | finds a stored student with that id, None iff no row has it |
| Crud.Store.GetStudentByRollNo | backend/app/crud.py:18-19 | finds a stored student with that roll number, None iff no row has it |
| Crud.Store.GetStudents | backend/app/crud.py:21-22 | with non-negative arguments, the slice of the table starting at skip, of at most limit rows; every row is stored |
| Crud.Store.CreateStudent | backend/app/crud.py:8-13 | IntegrityError (nothing written) iff the roll number is taken (models.py:11); otherwise appends a row with a fresh id that get_student then finds; invariant and references preserved |
| Crud.Store.UpdateStudent | backend/app/crud.py:24-32 | no row: None and nothing written; a roll number held by another row: IntegrityError and nothing written; otherwise the row is replaced in place by the updated one, invariant kept |
| Crud.Store.IsReferenced | backend/app/models.py:36 | true iff some attendance record names the student |
| Crud.Store.DeleteStudent | backend/app/crud.py:34-40 | false iff no such student; IntegrityError (nothing written) iff the student has records (NOT NULL foreign key at models.py:36); otherwise exactly that row is removed and get_student no longer finds it |
| Crud.RecordsWithout | backend/tests/test_students.py:137-151 | the records not naming the student: each kept record is stored and names someone else, and every such stored record is kept |
| Crud.RecordsWithoutKeepsValid | backend/tests/test_students.py:137-151 | dropping a student's records keeps record keys increasing and every (student, poll) pair recorded at most once |
| Crud.Store.DeleteRecordsOf | backend/tests/test_students.py:137-151 | afterwards no record names the student and the records are exactly the others; store invariant and references preserved |
| Crud.Store.DeleteStudentCascade | backend/tests/test_students.py:137-151 | the delete the tests expect: false iff no such student; otherwise the student row and exactly that student's records are removed, other rows kept; invariant, unique marks and references preserved |
| Crud.Store.GetActivePoll | backend/app/crud.py:63-71 | a stored, flagged poll whose window contains the time; None iff no such poll |
| Crud.Store.GetPoll | backend/app/crud.py:73-74 | finds a stored poll with that id, None iff no row has it |
| Crud.Store.GetPolls | backend/app/crud.py:76-79 | the page [skip, skip + limit) of some ordering of all polls by non-increasing creation time; with non-negative arguments, exactly min(limit, n − skip) polls (none past the end); all of them when nothing is skipped or cut |
| Crud.Store.CreatePoll | backend/app/crud.py:43-61 | appends the poll [now, now + 60·d] flagged active and unflags every earlier poll; afterwards the new poll is the active poll at exactly the times of its window |
| Crud.Store.FindRecord | backend/app/crud.py:84-89 | finds a stored record of that (student, poll) pair, None iff there is none |
| Crud.Store.MarkAttendance | backend/app/crud.py:82-101 | returns the existing record unchanged if there is one, else appends one with a fresh id; afterwards the pair is found; no duplicate pair is ever introduced |
| Crud.Store.GetAttendanceByPoll | backend/app/crud.py:103-106 | exactly the records of that poll (a sub-multiset of the table); without duplicate marks, no student appears twice |
| Crud.Store.GetStudentAttendanceHistory | backend/app/crud.py:108-111 | exactly the student's records, newest marking time first |
| Crud.MarkTwice | backend/app/crud.py:91-92 | marking the same pair twice returns the same record and adds at most one row |
| StudentsRouter.RollConflict | backend/app/routers/students.py:49-51 | a conflict only for a supplied non-empty roll number held by a different student |
| StudentsRouter.RollConflictExactly | backend/app/routers/students.py:49-55 | for a valid update, a conflict iff another student already holds the supplied roll number |
| StudentsRouter.OwnRollNoAllowed | backend/app/routers/students.py:49-51 | re-sending a student's own roll number is never a conflict |
| StudentsRouter.CreateStudent | backend/app/routers/students.py:12-22 | 422 on invalid fields, 400 "Roll number already registered" on a taken roll number, otherwise the created student; never a 500 |
| StudentsRouter.GetStudent | backend/app/routers/students.py:30-39 | the stored student with that id, or 404 "Student not found" iff there is none |
| StudentsRouter.UpdateStudent | backend/app/routers/students.py:41-63 | 422, then 400 "Roll number already taken" (checked before existence), then 404, otherwise the updated student; never a 500 |
| StudentsRouter.DeleteStudent | backend/app/routers/students.py:65-74 | 404 when absent; 500 with nothing written when the student has records; otherwise the student is gone and later lookups answer 404 |
| StudentsRouter.DeleteStudentCascade | backend/tests/test_students.py:120-151 | 404 iff the student is unknown (nothing written); otherwise success, later lookups answer 404 and no record names the student |
| StudentsRouter.DeleteWithAttendanceAsWritten | backend/tests/test_students.py:137-151 | the delete as written answers 500 for one student with one attendance record |
| StudentsRouter.DeleteWithAttendanceCascading | backend/tests/test_students.py:137-151 | the cascading delete succeeds on that store |
| AttendanceRouter.StartPoll | backend/app/routers/attendance.py:13-17 | 422 unless 1 <= d <= 60 (nothing written); otherwise the new poll is the only flagged one and is active at the start time |
| AttendanceRouter.GetCurrentPoll | backend/app/routers/attendance.py:19-36 | active iff a poll is active at the query time; otherwise only is_active=false; remaining seconds are max(0, end − second clock read) |
| AttendanceRouter.RemainingWithinDuration | backend/app/routers/attendance.py:27-35 | the remaining seconds reported never exceed the poll's duration |
| AttendanceRouter.CheckMark | backend/app/routers/attendance.py:44-65 | 404 "Student not found", then 404 "Poll not found", then 400 "Poll has expired or not yet started" exactly outside [start, end] |
| AttendanceRouter.SupersededPollStillOpen | backend/app/routers/attendance.py:52-65 | a poll that was unflagged by a newer poll still passes the checks while its window is open |
| AttendanceRouter.MarkAttendance | backend/app/routers/attendance.py:38-81 | succeeds iff the checks pass (nothing written otherwise); answers the existing or new record decorated with the student's name and roll number; integrity preserved |
| AttendanceRouter.Decorate | backend/app/routers/attendance.py:103-110 | the response carries the record's id, student, poll and time, and the student's name and roll number |
| AttendanceRouter.DecorateRecords | backend/app/routers/attendance.py:100-110 | defined iff every record's student exists; one response per record carrying that student's name and roll number |
| AttendanceRouter.Percentage | backend/app/routers/attendance.py:98 | 0 when total is 0, otherwise present·100/total; within [0, 100] iff present ≤ total, above 100 when present > total |
| AttendanceRouter.BuildLog | backend/app/routers/attendance.py:93-121 | 500 iff a record's student is missing. Otherwise: the poll's id and window; present = number of records; absent = total − present; percentage = Percentage(present, total); each record decorated with its student's name and roll number |
| AttendanceRouter.GetAttendanceLogsAsWritten | backend/app/routers/attendance.py:83-121 | 404 for an unknown poll; 500 iff the poll exists and some record names a missing student. Otherwise the report over the poll's records with total = min(n, 100): window, present, absent = total − present, the percentage and the decorated records |
| AttendanceRouter.AsWrittenOvercounts | backend/app/routers/attendance.py:94-98 | with more than 100 students and more than 100 marks the report answers a negative absent count and a percentage above 100 |
| AttendanceRouter.GetAttendanceLogs | backend/app/routers/attendance.py:83-121 | as written, but total = all n students: 404, 500 iff a record's student is missing, otherwise window, present, absent = n − present, the percentage and the decorated records |
| AttendanceRouter.ReportedRecordsHaveStudents | backend/app/routers/attendance.py:106-107 | under referential integrity every reported record's student exists |
| AttendanceRouter.PresentAtMostStudents | backend/app/routers/attendance.py:93-95 | without duplicate marks and with integral references, a poll never has more records than there are students |
| AttendanceRouter.PresentWithinTotal | backend/app/routers/attendance.py:83-121 | for a consistent database the corrected report succeeds with absent ≥ 0 and a percentage in [0, 100] |
| AttendanceRouter.GetStudentAttendance | backend/app/routers/attendance.py:129-151 | 404 iff the student is unknown; otherwise one response per history record, newest first, carrying that record's id, poll and marking time and the student's id, name and roll number |
| AttendanceRouter.DecorateAll | backend/app/routers/attendance.py:141-151 | one response per record, in order, each the record decorated with the one student |
| AttendanceForm.FindByRollNo | frontend/components/AttendanceForm.tsx:24 | the first student with that roll number, None iff none has it |
| AttendanceForm.ErrorMessage | frontend/components/AttendanceForm.tsx:37 | the server's detail when non-empty, otherwise "Failed to mark attendance"; never empty |
| AttendanceForm.Form.constructor | frontend/components/AttendanceForm.tsx:14-17 | empty roll number, not loading, no error, no success |
| AttendanceForm.Form.Submit | frontend/components/AttendanceForm.tsx:19-30 | clears error and success; an unknown roll number sets the not-found message and makes no call; otherwise starts loading and calls with the student's id |
| AttendanceForm.Form.Settle | frontend/components/AttendanceForm.tsx:31-40 | success clears the roll number and shows success; failure shows the error message; loading always ends |
| AttendanceForm.Form.HandleSubmit | frontend/components/AttendanceForm.tsx:19-41 | a call is made iff the roll number is known, for that student's id; the final state per outcome |
| AttendanceForm.Form.Type | frontend/components/AttendanceForm.tsx:49 | only the roll number changes |
| AttendanceForm.Form.SubmitDisabled | frontend/components/AttendanceForm.tsx:66 | the submit button is enabled iff nothing is loading and a roll number has been typed |
| AttendanceForm.Form.DismissSuccess | frontend/components/AttendanceForm.tsx:35 | only the success flag is cleared |
| Timer.TickValue | frontend/components/ui/Timer.tsx:26-33 | one tick: never negative; zero iff the count was at most 1; otherwise one less |
| Timer.AfterTicks | frontend/components/ui/Timer.tsx:26-33 | zero ticks leave the count; after at least one tick it is not negative and, from a positive start, below the start |
| Timer.AfterTicksClosedForm | frontend/components/ui/Timer.tsx:26-33 | after n > 0 ticks from s the display shows max(0, s − n) |
| Timer.ToneOf | frontend/components/ui/Timer.tsx:39-50 | red iff ≤ 30 s, yellow iff 31..60 s, blue iff > 60 s |
| Timer.TimerState.SecondsEffect | frontend/components/ui/Timer.tsx:19-24 | onExpire is called once exactly when the seconds are ≤ 0; an interval is scheduled iff they are positive; the seconds are kept |
| Timer.TimerState.constructor | frontend/components/ui/Timer.tsx:12-23 | starts at the given seconds; onExpire is called once on mount when that is ≤ 0 |
| Timer.TimerState.PropChange | frontend/components/ui/Timer.tsx:15-23 | a new remainingSeconds resets the count; onExpire fires when the reset lands on a new value ≤ 0 |
| Timer.TimerState.Tick | frontend/components/ui/Timer.tsx:19-37 | above 1 s counts down by one; at ≤ 1 s stops at 0 and onExpire has been called twice (in the tick and in the effect re-run) |
| LogsPage.LogsRequest | frontend/app/admin/attendance/logs/page.tsx:19-22 | logs are fetched iff a non-zero poll id is selected, for that id |
| LogsPage.Cell | frontend/app/admin/attendance/logs/page.tsx:29-36 | a present value is written as is, a null one as the empty string |
| LogsPage.RecordCells | frontend/app/admin/attendance/logs/page.tsx:29-34 | one cell per header column: roll number, name, "Present", formatted marking time |
| LogsPage.Rows | frontend/app/admin/attendance/logs/page.tsx:27-35 | the header row then one row per record |
| LogsPage.Lines | frontend/app/admin/attendance/logs/page.tsx:36 | each line is its row joined with commas |
| LogsPage.ExportCsv | frontend/app/admin/attendance/logs/page.tsx:24-37 | a CSV exactly when logs are loaded |
| LogsPage.CsvShape | frontend/app/admin/attendance/logs/page.tsx:24-37 | for records without commas or newlines, the CSV splits into records + 1 lines, the first splitting back into the header and line i+1 into record i's cells |
| AdminPollPage.IsPresent | frontend/app/admin/attendance/page.tsx:124-127 | ticked iff some loaded record names the student |
| AdminPollPage.LiveCounter | frontend/app/admin/attendance/page.tsx:119 | the lengths of the loaded lists, 0 for a list not yet loaded |
| AdminPollPage.TickedStudents | frontend/app/admin/attendance/page.tsx:124-127 | exactly the listed students shown as present |
| AdminPollPage.CounterMatchesTicks | frontend/app/admin/attendance/page.tsx:119-127 | with distinct records of listed students, the present counter equals the number of ticked students |
| AdminPollPage.ListedStudentsAsWritten | frontend/app/admin/attendance/page.tsx:23-26 | the page's student list is the first min(n, 100) students in storage order |
| AdminPollPage.CounterExceedsTicksAsWritten | frontend/app/admin/attendance/page.tsx:23-26 | as written, a mark by a student past the first 100 makes the present counter exceed the number of ticked students |
| AdminPollPage.ListedStudents | frontend/app/admin/attendance/page.tsx:23-26 | the corrected list is every student |
| AdminPollPage.ReportRecordsListed | frontend/app/admin/attendance/page.tsx:28-38 | in a consistent store the polled report exists and its records name distinct stored students |
| AdminPollPage.CounterMatchesTicksAllListed | frontend/app/admin/attendance/page.tsx:23-38 | with every student listed, the counter over the polled report's records equals the ticked students in any consistent store |
| AdminPollPage.LiveRecordsRequest | frontend/app/admin/attendance/page.tsx:28-38 | records are polled iff the status is active; logs are requested only for a non-zero poll id |
| AdminPollPage.DurationInputDisabled | frontend/app/admin/attendance/page.tsx:83 | disabled iff a poll is active |
| AdminPollPage.StartButtonDisabled | frontend/app/admin/attendance/page.tsx:90 | disabled iff a poll is active or a start is in flight |
| AdminPollPage.StartControl.constructor | frontend/app/admin/attendance/page.tsx:40-52 | not starting, no refreshes yet |
| AdminPollPage.StartControl.BeginStart | frontend/app/admin/attendance/page.tsx:42 | starting, so the start button is disabled whatever the status |
| AdminPollPage.StartControl.FinishStart | frontend/app/admin/attendance/page.tsx:43-51 | starting ends; the status is refreshed only after a successful start |
| StudentPage.HandleMarkAttendance | frontend/app/student/page.tsx:22-27 | throws "No active poll" iff no non-zero poll id is known, otherwise requests the mark for that poll |
| StudentPage.ShowAttendanceForm | frontend/app/student/page.tsx:61-84 | the form is shown iff the status is active and the students are loaded |
| StudentPage.ResponseDetail | frontend/components/AttendanceForm.tsx:36-37 | the detail the form reads from a failed request: the handler's detail for a 404 or 400, none for a 500 |
| StudentPage.OutcomeOf | frontend/app/student/page.tsx:22-27 | a call that throws before any request reaches the form as a rejection without a detail; a request resolves iff the server answers Ok, otherwise it is rejected with the answer's detail |
| StudentPage.SubmitOnPage | frontend/app/student/page.tsx:22-27 | the form's submit on this page: an unknown roll number gives "Student not found" and no call; otherwise handleMarkAttendance is called with that student's id; a throw ("No active poll") ends with the generic "Failed to mark attendance", not the thrown message; a request ends with success or the server's detail |
| StudentPage.BeyondFirstPageNotFound | frontend/app/student/page.tsx:18-20 | the page lists at most the first 100 students, so the form does not find the roll number of any student past them |
| StudentPage.ShownFormRequestsActivePoll | frontend/app/student/page.tsx:22-27 | when the form is shown for a server status, a submit requests a mark for the active poll |

## Left out

- **Rounding** (`round(…, 2)` in the report; `toFixed` on the pages): the percentage is
  the exact rational value.
- **Clock and time precision.** Each call takes one integer `now` in seconds, and
  `created_at`, `start_time` and `marked_at` all use it. This leaves out two things:
  - sub-second times, and the `int()` truncation in `get_current_poll`;
  - the separate clock reads of column defaults within one request.
- **Primary keys** come from counters. SQLite may reuse the key of a deleted last row;
  this is not modelled.
- **Ordering.** `ORDER BY … DESC` ties are taken in storage order. SQL leaves that order
  unspecified.
- **Explicit nulls.** An update body with an explicit `null` field is not modelled. The
  model's `StudentUpdate` only distinguishes a field that is left out from one that is
  supplied.
- **StudentPage.ResponseDetail:** a 422 answer's `detail` is a list, which the form would
  show as is. The model reads it as no detail, because the page's requests always
  carry two integer ids and cannot fail validation.
- **422 bodies.** The 422 answer is modelled as the list of failing field names, not as
  Pydantic's full error objects. Non-integer bodies and path parameters are not
  modelled.
- **Database plumbing.** Sessions, commit/refresh, `get_db`, `main.py` router wiring,
  the CORS middleware, and the authentication router/settings are not part of this
  model.
- **Pass-through routes.** `GET /students/` and `GET /attendance/logs` just return
  `crud.get_students` and `crud.get_polls`. They are covered by
  `Crud.Store.GetStudents` and `Crud.Store.GetPolls`.
- **Concurrency.** Concurrent requests are not modelled. Neither is the race between
  two markings of the same pair, which the missing unique constraint would allow.
- **Front-end fetching.** SWR caching and polling intervals are not modelled. Their
  fetch keys are: `LogsPage.LogsRequest`, `AdminPollPage.LiveRecordsRequest`, and
  `StudentPage.ShowAttendanceForm`'s inputs.
- **Front-end timers.** `setInterval`/`setTimeout` scheduling and the 3-second success
  dismissal are reduced to explicit `Tick` and `DismissSuccess` calls.
- **Timer.TimerState.Tick:** re-runs of the effect caused by a new `onExpire` identity
  are not modelled.
- **Front-end formatting and I/O:**
  - `formatDateTime` and `formatDuration` are parameters and stay opaque;
  - the CSV `Blob` download and `alert` are left out;
  - `parseInt` of the duration input: the start request carries an integer.
- **JavaScript falsy values.** Only the two that matter here are modelled: poll id `0`
  and the empty string.

## Findings

| source | as written | input that shows it | evidently intended | confidence | as-written member | corrected member |
|---|---|---|---|---|---|---|
| backend/app/routers/attendance.py:94 | `total_students = len(crud.get_students(db))` counts only the first page of students, since `get_students` defaults to `limit=100` | 101 students, all 101 marked for one poll: total 100, absent −1, percentage 101 | count every student | not executed | AttendanceRouter.AsWrittenOvercounts | AttendanceRouter.PresentWithinTotal |
| backend/app/crud.py:34-40 | `db.delete(student)` of a student with attendance records: the relationship at models.py:16 has no cascade, so the ORM nulls the records' `NOT NULL` `student_id` and the commit fails; the route answers 500 | one student with one attendance record, then `DELETE /students/{id}` | the records go with the student and the answer is 204, as backend/tests/test_students.py:137-151 expects | not executed | StudentsRouter.DeleteWithAttendanceAsWritten | StudentsRouter.DeleteStudentCascade |
| frontend/app/admin/attendance/page.tsx:23-26 | the student list is `GET /students/`, which answers at most 100 students (students.py:25); the counter counts every record of the poll | 101 students and only student 101 marks: the counter reads "1 / 100" and no listed student is ticked. The student page lists students the same way, so student 101 gets "Student not found" from the form (StudentPage.BeyondFirstPageNotFound) and can only mark through a direct API call | list every student, so that the counter equals the ticks | not executed | AdminPollPage.CounterExceedsTicksAsWritten | AdminPollPage.CounterMatchesTicksAllListed |
