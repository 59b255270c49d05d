/** The `/attendance` handlers: starting a poll, the current-poll status, marking with its
    ordered checks, the per-poll report and a student's history. */
module AttendanceRouter {
  import opened Seqs
  import opened Models
  import opened Schemas
  import opened Crud

  /** `POST /attendance/start`: 422 unless `1 <= duration_minutes <= 60`; otherwise the new
      poll, which supersedes every earlier one and is active from `now` on. */
  method StartPoll(db: Store, durationMinutes: int, now: int) returns (r: Result<Poll>)
    requires db.Valid()
    modifies db
    ensures db.Valid()
    ensures r.Ok? <==> 1 <= durationMinutes <= MaxDurationMinutes
    ensures r.Err? ==> r.error == Unprocessable(["duration_minutes"]) && unchanged(db)
    ensures r.Ok? ==>
      && r.value.id == old(db.nextPollId)
      && r.value.isActive
      && r.value.startTime == now
      && r.value.endTime == now + 60 * durationMinutes
      && r.value.durationMinutes == durationMinutes
    ensures r.Ok? ==> AtMostOneFlagged(db.polls) && db.GetActivePoll(now) == Some(r.value)
    ensures r.Ok? ==>
      && |db.polls| == |old(db.polls)| + 1
      && forall i :: 0 <= i < |old(db.polls)| ==> db.polls[i] == old(db.polls)[i].(isActive := false)
    ensures db.students == old(db.students) && db.records == old(db.records)
    ensures old(db.Referential()) ==> db.Referential()
  {
    var valid := ValidatePollCreate(durationMinutes);
    if valid.Err? {
      return Err(valid.error);
    }
    var p := db.CreatePoll(valid.value.durationMinutes, now);
    r := Ok(p);
  }

  /** `GET /attendance/current`. The active poll is looked up at the clock reading
      `queryNow`; the remaining time is computed from a later reading `now`. */
  function GetCurrentPoll(db: Store, queryNow: int, now: int): (r: PollStatus)
    reads db
    ensures r.isActive <==> db.GetActivePoll(queryNow).Some?
    ensures !r.isActive ==> r == InactiveStatus
    ensures r.isActive ==>
      && r.pollId == Some(db.GetActivePoll(queryNow).value.id)
      && r.startTime == Some(db.GetActivePoll(queryNow).value.startTime)
      && r.endTime == Some(db.GetActivePoll(queryNow).value.endTime)
      && r.remainingSeconds.Some?
    ensures r.remainingSeconds.Some? ==> r.remainingSeconds.value >= 0
    ensures r.isActive && now <= r.endTime.value ==> r.remainingSeconds == Some(r.endTime.value - now)
    ensures r.isActive && now > r.endTime.value ==> r.remainingSeconds == Some(0)
  {
    match db.GetActivePoll(queryNow)
    case None => InactiveStatus
    case Some(p) =>
      var remaining := p.endTime - now;
      PollStatus(true, Some(p.id), Some(p.startTime), Some(p.endTime), Some(if remaining < 0 then 0 else remaining))
  }

  /** With a clock that does not run backwards, the remaining time never exceeds the
      poll's duration. */
  lemma RemainingWithinDuration(db: Store, queryNow: int, now: int)
    requires db.Valid() && queryNow <= now
    requires GetCurrentPoll(db, queryNow, now).isActive
    ensures GetCurrentPoll(db, queryNow, now).remainingSeconds.value <= 60 * db.GetActivePoll(queryNow).value.durationMinutes
  {
    var p := db.GetActivePoll(queryNow).value;
    var k :| 0 <= k < |db.polls| && db.polls[k] == p;
  }

  /** The checks of `POST /attendance/mark`, in order: the student exists, the poll
      exists, and `now` lies in the poll's window. The poll's active flag is not read. */
  function CheckMark(db: Store, req: AttendanceMarkRequest, now: int): (r: Result<(Student, Poll)>)
    reads db
    ensures db.GetStudent(req.studentId).None? ==> r == Err(NotFound(StudentNotFound))
    ensures db.GetStudent(req.studentId).Some? && db.GetPoll(req.pollId).None? ==> r == Err(NotFound(PollNotFound))
    ensures db.GetStudent(req.studentId).Some? && db.GetPoll(req.pollId).Some? ==>
      (r.Ok? <==> db.GetPoll(req.pollId).value.startTime <= now <= db.GetPoll(req.pollId).value.endTime)
    ensures r.Err? && db.GetStudent(req.studentId).Some? && db.GetPoll(req.pollId).Some? ==> r == Err(BadRequest(PollClosed))
    ensures r.Ok? ==>
      && r.value.0 in db.students && r.value.0.id == req.studentId
      && r.value.1 in db.polls && r.value.1.id == req.pollId
  {
    match db.GetStudent(req.studentId)
    case None => Err(NotFound(StudentNotFound))
    case Some(student) =>
      match db.GetPoll(req.pollId)
      case None => Err(NotFound(PollNotFound))
      case Some(poll) =>
        if now < poll.startTime || now > poll.endTime then Err(BadRequest(PollClosed))
        else Ok((student, poll))
  }

  /** A poll that a later start has superseded still accepts marks while `now` lies in
      its window. */
  lemma {:induction false} SupersededPollStillOpen(db: Store, req: AttendanceMarkRequest, now: int, k: nat)
    requires db.Valid()
    requires db.GetStudent(req.studentId).Some?
    requires k < |db.polls| && db.polls[k].id == req.pollId && !db.polls[k].isActive
    requires db.polls[k].startTime <= now <= db.polls[k].endTime
    ensures CheckMark(db, req, now).Ok?
    ensures CheckMark(db, req, now).value.1 == db.polls[k]
  {
    var p := db.GetPoll(req.pollId).value;
    var j :| 0 <= j < |db.polls| && db.polls[j] == p;
    assert j == k;
  }

  /** The response for a record, decorated with the given student's name and roll number. */
  function Decorate(record: AttendanceRecord, student: Student): (r: AttendanceRecordResponse)
    ensures r.id == record.id && r.studentId == record.studentId && r.pollId == record.pollId
    ensures r.markedAt == record.markedAt
    ensures r.studentName == Some(student.name) && r.studentRollNo == Some(student.rollNo)
  {
    AttendanceRecordResponse(record.id, record.studentId, record.pollId, record.markedAt, Some(student.name), Some(student.rollNo))
  }

  /** `POST /attendance/mark`: the checks, then the idempotent mark; the answer carries
      the student's name and roll number. */
  method MarkAttendance(db: Store, req: AttendanceMarkRequest, now: int) returns (r: Result<AttendanceRecordResponse>)
    requires db.Valid()
    modifies db
    ensures db.Valid()
    ensures r.Ok? <==> old(CheckMark(db, req, now)).Ok?
    ensures r.Err? ==> r.error == old(CheckMark(db, req, now)).error && unchanged(db)
    ensures r.Ok? ==>
      && r.value.studentId == req.studentId && r.value.pollId == req.pollId
      && r.value.studentName == Some(old(db.GetStudent(req.studentId)).value.name)
      && r.value.studentRollNo == Some(old(db.GetStudent(req.studentId)).value.rollNo)
      && db.FindRecord(req.studentId, req.pollId) == Some(AttendanceRecord(r.value.id, req.studentId, req.pollId, r.value.markedAt))
    ensures r.Ok? && old(db.FindRecord(req.studentId, req.pollId)).Some? ==>
      r.value.id == old(db.FindRecord(req.studentId, req.pollId)).value.id && unchanged(db)
    ensures r.Ok? && old(db.FindRecord(req.studentId, req.pollId)).None? ==>
      |db.records| == |old(db.records)| + 1 && r.value.markedAt == now
    ensures db.students == old(db.students) && db.polls == old(db.polls)
    ensures NoDuplicateMarks(old(db.records)) ==> NoDuplicateMarks(db.records)
    ensures old(db.Referential()) ==> db.Referential()
  {
    var check := CheckMark(db, req, now);
    if check.Err? {
      return Err(check.error);
    }
    var (student, poll) := check.value;
    if db.Referential() {
      RefsSurviveRecordAppend(db.records, db.students, db.polls, AttendanceRecord(db.nextRecordId, req.studentId, req.pollId, now));
    }
    var record := db.MarkAttendance(req.studentId, req.pollId, now);
    r := Ok(Decorate(record, student));
  }

  /** The list comprehension of the report: every record decorated with the student it
      names. A record whose student is gone raises, which the server answers with 500. */
  function DecorateRecords(db: Store, records: seq<AttendanceRecord>): (r: Option<seq<AttendanceRecordResponse>>)
    reads db
    ensures r.Some? <==> forall i :: 0 <= i < |records| ==> db.GetStudent(records[i].studentId).Some?
    ensures r.Some? ==> |r.value| == |records|
    ensures r.Some? ==> forall i :: 0 <= i < |records| ==>
      r.value[i] == Decorate(records[i], db.GetStudent(records[i].studentId).value)
    decreases |records|
  {
    if |records| == 0 then Some([])
    else
      match db.GetStudent(records[0].studentId)
      case None => None
      case Some(student) =>
        match DecorateRecords(db, records[1..])
        case None => None
        case Some(rest) =>
          assert forall i :: 1 <= i < |records| ==> records[i] == records[1..][i - 1];
          Some([Decorate(records[0], student)] + rest)
  }

  /** `present / total * 100`, and 0 when there are no students; kept exact. */
  function Percentage(present: int, total: int): (p: real)
    ensures total <= 0 ==> p == 0.0
    ensures total > 0 ==> p * (total as real) == (present as real) * 100.0
    ensures total > 0 && 0 <= present <= total ==> 0.0 <= p <= 100.0
    ensures total > 0 && present > total ==> p > 100.0
  {
    if total > 0 then (present as real) / (total as real) * 100.0 else 0.0
  }

  /** `log` is the report of `poll` over `records` dividing by `total`: the poll's id and
      time window, the counts, the percentage, and every record decorated with its student. */
  ghost predicate Reports(db: Store, poll: Poll, records: seq<AttendanceRecord>, total: int, log: AttendanceLogResponse)
    reads db
  {
    && log.pollId == poll.id && log.startTime == poll.startTime && log.endTime == poll.endTime
    && log.totalStudents == total
    && log.presentCount == |records|
    && log.absentCount == total - |records|
    && log.attendancePercentage == Percentage(|records|, total)
    && Some(log.records) == DecorateRecords(db, records)
  }

  /** The report of a poll given its records and the student count it divides by; 500
      when some record names a missing student. */
  function BuildLog(db: Store, poll: Poll, records: seq<AttendanceRecord>, total: int): (r: Result<AttendanceLogResponse>)
    reads db
    ensures r.Err? <==> exists i :: 0 <= i < |records| && db.GetStudent(records[i].studentId).None?
    ensures r.Err? ==> r.error == ServerError
    ensures r.Ok? ==> Reports(db, poll, records, total, r.value)
    ensures r.Ok? ==> |r.value.records| == |records| && forall i :: 0 <= i < |records| ==>
      && r.value.records[i].id == records[i].id
      && r.value.records[i].studentName == Some(db.GetStudent(records[i].studentId).value.name)
      && r.value.records[i].studentRollNo == Some(db.GetStudent(records[i].studentId).value.rollNo)
  {
    match DecorateRecords(db, records)
    case None => Err(ServerError)
    case Some(responses) =>
      Ok(AttendanceLogResponse(poll.id, poll.startTime, poll.endTime, total, |records|, total - |records|,
                               Percentage(|records|, total), responses))
  }

  /** `GET /attendance/logs/{poll_id}` as written: the student total is the length of the
      first page of students, at most 100. */
  function GetAttendanceLogsAsWritten(db: Store, pollId: int): (r: Result<AttendanceLogResponse>)
    reads db
    ensures db.GetPoll(pollId).None? ==> r == Err(NotFound(PollNotFound))
    ensures r == Err(ServerError) <==>
      && db.GetPoll(pollId).Some?
      && exists i :: 0 <= i < |db.GetAttendanceByPoll(pollId)| && db.GetStudent(db.GetAttendanceByPoll(pollId)[i].studentId).None?
    ensures r.Ok? ==> r.value.pollId == pollId && r.value.totalStudents <= 100
    ensures r.Ok? ==> Reports(db, db.GetPoll(pollId).value, db.GetAttendanceByPoll(pollId),
                              if |db.students| < 100 then |db.students| else 100, r.value)
  {
    match db.GetPoll(pollId)
    case None => Err(NotFound(PollNotFound))
    case Some(poll) => BuildLog(db, poll, db.GetAttendanceByPoll(pollId), |db.GetStudents(0, 100)|)
  }

  /** With more than 100 students of whom more than 100 marked the poll, the report as
      written counts a negative number of absentees and a percentage above 100. */
  lemma AsWrittenOvercounts(db: Store, pollId: int)
    requires db.GetPoll(pollId).Some? && db.Referential()
    requires |db.students| > 100 && |db.GetAttendanceByPoll(pollId)| > 100
    ensures GetAttendanceLogsAsWritten(db, pollId).Ok?
    ensures GetAttendanceLogsAsWritten(db, pollId).value.absentCount < 0
    ensures GetAttendanceLogsAsWritten(db, pollId).value.attendancePercentage > 100.0
  {
    ReportedRecordsHaveStudents(db, pollId);
  }

  /** `GET /attendance/logs/{poll_id}` counting every student: 404 for an unknown poll,
      500 when a record names a missing student, otherwise the report. */
  function GetAttendanceLogs(db: Store, pollId: int): (r: Result<AttendanceLogResponse>)
    reads db
    ensures db.GetPoll(pollId).None? ==> r == Err(NotFound(PollNotFound))
    ensures r == Err(ServerError) <==>
      && db.GetPoll(pollId).Some?
      && exists i :: 0 <= i < |db.GetAttendanceByPoll(pollId)| && db.GetStudent(db.GetAttendanceByPoll(pollId)[i].studentId).None?
    ensures r.Ok? ==> r.value.pollId == pollId
    ensures r.Ok? ==> Reports(db, db.GetPoll(pollId).value, db.GetAttendanceByPoll(pollId), |db.students|, r.value)
  {
    match db.GetPoll(pollId)
    case None => Err(NotFound(PollNotFound))
    case Some(poll) => BuildLog(db, poll, db.GetAttendanceByPoll(pollId), |db.students|)
  }

  /** When every record names an existing student, the report of an existing poll is produced. */
  lemma {:induction false} ReportedRecordsHaveStudents(db: Store, pollId: int)
    requires db.Referential()
    ensures forall i :: 0 <= i < |db.GetAttendanceByPoll(pollId)| ==>
      db.GetStudent(db.GetAttendanceByPoll(pollId)[i].studentId).Some?
  {
    var rs := db.GetAttendanceByPoll(pollId);
    forall i | 0 <= i < |rs| ensures db.GetStudent(rs[i].studentId).Some? {
      var k :| 0 <= k < |db.records| && db.records[k] == rs[i];
      assert HasStudent(db.students, db.records[k].studentId);
    }
  }

  /** The report never fails for an existing poll while records name existing students,
      and then nobody is counted absent twice: the present count never exceeds the
      total, so the absent count is not negative and the percentage is at most 100. */
  lemma {:induction false} PresentWithinTotal(db: Store, pollId: int)
    requires db.Valid() && db.Referential() && NoDuplicateMarks(db.records)
    requires db.GetPoll(pollId).Some?
    ensures GetAttendanceLogs(db, pollId).Ok?
    ensures 0 <= GetAttendanceLogs(db, pollId).value.absentCount
    ensures 0.0 <= GetAttendanceLogs(db, pollId).value.attendancePercentage <= 100.0
  {
    ReportedRecordsHaveStudents(db, pollId);
    PresentAtMostStudents(db, pollId);
  }

  /** Marks of one poll name distinct existing students, so there are no more of them
      than there are students. */
  lemma {:induction false} PresentAtMostStudents(db: Store, pollId: int)
    requires db.Referential() && NoDuplicateMarks(db.records)
    ensures |db.GetAttendanceByPoll(pollId)| <= |db.students|
  {
    var rs := db.GetAttendanceByPoll(pollId);
    DistinctKeysCount(rs, RecordStudentId);
    KeysBound(db.students, StudentKey);
    forall id | id in Keys(rs, RecordStudentId) ensures id in Keys(db.students, StudentKey) {
      var i :| 0 <= i < |rs| && RecordStudentId(rs[i]) == id;
      var k :| 0 <= k < |db.records| && db.records[k] == rs[i];
      assert HasStudent(db.students, db.records[k].studentId);
      var j :| 0 <= j < |db.students| && db.students[j].id == id;
      assert StudentKey(db.students[j]) == id;
    }
    assert |Keys(rs, RecordStudentId)| <= |Keys(db.students, StudentKey)| by {
      SubsetCard(Keys(rs, RecordStudentId), Keys(db.students, StudentKey));
    }
  }

  /** `GET /attendance/student/{student_id}`: 404 for an unknown student, otherwise that
      student's records, latest first, each decorated with the student's name and roll number. */
  function GetStudentAttendance(db: Store, studentId: int): (r: Result<seq<AttendanceRecordResponse>>)
    reads db
    ensures db.GetStudent(studentId).None? <==> r == Err(NotFound(StudentNotFound))
    ensures r.Ok? ==> |r.value| == |db.GetStudentAttendanceHistory(studentId)|
    ensures r.Ok? ==> forall i :: 0 <= i < |r.value| ==>
      && r.value[i].studentId == studentId
      && r.value[i].studentName == Some(db.GetStudent(studentId).value.name)
      && r.value[i].studentRollNo == Some(db.GetStudent(studentId).value.rollNo)
      && r.value[i].id == db.GetStudentAttendanceHistory(studentId)[i].id
      && r.value[i].pollId == db.GetStudentAttendanceHistory(studentId)[i].pollId
      && r.value[i].markedAt == db.GetStudentAttendanceHistory(studentId)[i].markedAt
    ensures r.Ok? ==> forall i, j :: 0 <= i < j < |r.value| ==> r.value[i].markedAt >= r.value[j].markedAt
  {
    match db.GetStudent(studentId)
    case None => Err(NotFound(StudentNotFound))
    case Some(student) =>
      Ok(DecorateAll(db.GetStudentAttendanceHistory(studentId), student))
  }

  /** The list comprehension of the history handler: every record decorated with the one student. */
  function DecorateAll(records: seq<AttendanceRecord>, student: Student): (r: seq<AttendanceRecordResponse>)
    ensures |r| == |records|
    ensures forall i :: 0 <= i < |r| ==> r[i] == Decorate(records[i], student)
  {
    seq(|records|, i requires 0 <= i < |records| => Decorate(records[i], student))
  }

  lemma SubsetCard(a: set<int>, b: set<int>)
    requires a <= b
    ensures |a| <= |b|
  {
    assert b == a + (b - a);
  }
}
