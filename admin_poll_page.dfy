/** The admin poll page: which students are shown present, the live counter, and the
    gating of the start-poll form. */
module AdminPollPage {
  import opened Seqs
  import opened Models
  import opened Schemas
  import opened Crud
  import opened AttendanceRouter

  /** `presentStudents?.some((record) => record.student_id === student.id)`: never true
      while the records are not loaded. */
  function IsPresent(present: Option<seq<AttendanceRecordResponse>>, studentId: int): (b: bool)
    ensures b <==> present.Some? && exists i :: 0 <= i < |present.value| && present.value[i].studentId == studentId
  {
    present.Some? && Any(present.value, (r: AttendanceRecordResponse) => r.studentId == studentId)
  }

  /** `{presentStudents?.length || 0} / {students?.length || 0}`. */
  function LiveCounter(present: Option<seq<AttendanceRecordResponse>>, students: Option<seq<Student>>): (c: (nat, nat))
    ensures present.None? ==> c.0 == 0
    ensures students.None? ==> c.1 == 0
    ensures present.Some? ==> c.0 == |present.value|
    ensures students.Some? ==> c.1 == |students.value|
  {
    (if present.Some? then |present.value| else 0, if students.Some? then |students.value| else 0)
  }

  function ResponseStudentId(r: AttendanceRecordResponse): int { r.studentId }

  /** The students ticked as present, in list order. */
  function TickedStudents(present: Option<seq<AttendanceRecordResponse>>, students: seq<Student>): (t: seq<Student>)
    ensures forall i :: 0 <= i < |t| ==> t[i] in students && IsPresent(present, t[i].id)
    ensures forall i :: 0 <= i < |students| && IsPresent(present, students[i].id) ==> students[i] in t
    ensures DistinctKeys(students, StudentKey) ==> DistinctKeys(t, StudentKey)
  {
    var isTicked := (s: Student) => IsPresent(present, s.id);
    FilterKeepsDistinctKeys(students, isTicked, StudentKey);
    Filter(students, isTicked)
  }

  /** When the records name distinct listed students and the listed students have
      distinct ids, the counter's first number equals the number of ticked students. */
  lemma {:induction false} CounterMatchesTicks(present: seq<AttendanceRecordResponse>, students: seq<Student>)
    requires DistinctKeys(present, ResponseStudentId)
    requires DistinctKeys(students, StudentKey)
    requires forall i :: 0 <= i < |present| ==> exists k :: 0 <= k < |students| && students[k].id == present[i].studentId
    ensures |TickedStudents(Some(present), students)| == LiveCounter(Some(present), Some(students)).0
  {
    var t := TickedStudents(Some(present), students);
    DistinctKeysCount(t, StudentKey);
    DistinctKeysCount(present, ResponseStudentId);
    TickedKeysArePresent(present, students);
    PresentKeysAreTicked(present, students);
    assert Keys(t, StudentKey) == Keys(present, ResponseStudentId);
  }

  lemma TickedKeysArePresent(present: seq<AttendanceRecordResponse>, students: seq<Student>)
    ensures Keys(TickedStudents(Some(present), students), StudentKey) <= Keys(present, ResponseStudentId)
  {
    var t := TickedStudents(Some(present), students);
    forall id | id in Keys(t, StudentKey) ensures id in Keys(present, ResponseStudentId) {
      var i :| 0 <= i < |t| && StudentKey(t[i]) == id;
      assert IsPresent(Some(present), t[i].id);
      var j :| 0 <= j < |present| && present[j].studentId == id;
      assert ResponseStudentId(present[j]) == id;
    }
  }

  lemma PresentKeysAreTicked(present: seq<AttendanceRecordResponse>, students: seq<Student>)
    requires forall i :: 0 <= i < |present| ==> exists k :: 0 <= k < |students| && students[k].id == present[i].studentId
    ensures Keys(present, ResponseStudentId) <= Keys(TickedStudents(Some(present), students), StudentKey)
  {
    var t := TickedStudents(Some(present), students);
    forall id | id in Keys(present, ResponseStudentId) ensures id in Keys(t, StudentKey) {
      var j :| 0 <= j < |present| && ResponseStudentId(present[j]) == id;
      var k :| 0 <= k < |students| && students[k].id == present[j].studentId;
      PresentKeyIsTicked(present, students, j, k);
    }
  }

  /** The student a record names is ticked. */
  lemma PresentKeyIsTicked(present: seq<AttendanceRecordResponse>, students: seq<Student>, j: nat, k: nat)
    requires j < |present| && k < |students| && students[k].id == present[j].studentId
    ensures present[j].studentId in Keys(TickedStudents(Some(present), students), StudentKey)
  {
    var t := TickedStudents(Some(present), students);
    assert IsPresent(Some(present), students[k].id);
    assert students[k] in t;
    var i :| 0 <= i < |t| && t[i] == students[k];
    assert StudentKey(t[i]) == present[j].studentId;
  }

  /** The page's student list: `GET /students/` with its default page of 100 rows. */
  function ListedStudentsAsWritten(db: Store): (s: seq<Student>)
    reads db
    ensures |s| == (if |db.students| < 100 then |db.students| else 100)
    ensures forall i :: 0 <= i < |s| ==> s[i] == db.students[i]
  {
    db.GetStudents(0, 100)
  }

  /** The student list the counter needs: every student. */
  function ListedStudents(db: Store): (s: seq<Student>)
    reads db
    ensures s == db.students
  {
    db.GetStudents(0, |db.students|)
  }

  /** Valid student keys increase in storage order, so any prefix lists distinct students. */
  lemma ListedAsWrittenDistinct(db: Store)
    requires db.Valid()
    ensures DistinctKeys(ListedStudentsAsWritten(db), StudentKey)
  {
    var listed := ListedStudentsAsWritten(db);
    forall a, b | 0 <= a < b < |listed| ensures StudentKey(listed[a]) != StudentKey(listed[b]) {
      assert listed[a] == db.students[a] && listed[b] == db.students[b];
    }
  }

  /** A student past the first 100 is never ticked as written. */
  lemma BeyondFirstPageNotTicked(db: Store, present: seq<AttendanceRecordResponse>, k: nat)
    requires db.Valid() && 100 <= k < |db.students|
    ensures db.students[k].id !in Keys(TickedStudents(Some(present), ListedStudentsAsWritten(db)), StudentKey)
  {
    var listed := ListedStudentsAsWritten(db);
    var t := TickedStudents(Some(present), listed);
    forall x | x in Keys(t, StudentKey) ensures x != db.students[k].id {
      var i :| 0 <= i < |t| && StudentKey(t[i]) == x;
      var m :| 0 <= m < |listed| && listed[m] == t[i];
      assert listed[m] == db.students[m];
    }
  }

  /** As written, with more than 100 students a mark by a student past the first 100 is
      counted but ticks nobody, so the counter exceeds the ticked students. */
  lemma {:induction false} CounterExceedsTicksAsWritten(db: Store, present: seq<AttendanceRecordResponse>, j: nat, k: nat)
    requires db.Valid()
    requires DistinctKeys(present, ResponseStudentId)
    requires j < |present| && 100 <= k < |db.students| && present[j].studentId == db.students[k].id
    ensures |TickedStudents(Some(present), ListedStudentsAsWritten(db))| < LiveCounter(Some(present), Some(ListedStudentsAsWritten(db))).0
  {
    var listed := ListedStudentsAsWritten(db);
    ListedAsWrittenDistinct(db);
    var t := TickedStudents(Some(present), listed);
    DistinctKeysCount(t, StudentKey);
    DistinctKeysCount(present, ResponseStudentId);
    TickedKeysArePresent(present, listed);
    BeyondFirstPageNotTicked(db, present, k);
    var id := present[j].studentId;
    assert ResponseStudentId(present[j]) == id;
    SubsetCard(Keys(t, StudentKey), Keys(present, ResponseStudentId) - {id});
  }

  /** The report of an existing poll carries its records in order, each naming the
      student of the stored record. */
  lemma ReportRecordsFollowStore(db: Store, pollId: int)
    requires db.Referential() && db.GetPoll(pollId).Some?
    ensures GetAttendanceLogsAsWritten(db, pollId).Ok?
    ensures |GetAttendanceLogsAsWritten(db, pollId).value.records| == |db.GetAttendanceByPoll(pollId)|
    ensures forall i :: 0 <= i < |db.GetAttendanceByPoll(pollId)| ==>
      && GetAttendanceLogsAsWritten(db, pollId).value.records[i].studentId == db.GetAttendanceByPoll(pollId)[i].studentId
      && db.GetStudent(db.GetAttendanceByPoll(pollId)[i].studentId).Some?
  {
    ReportedRecordsHaveStudents(db, pollId);
  }

  /** The report's records name distinct students, each of them stored. */
  lemma ReportRecordsListed(db: Store, pollId: int)
    requires db.Valid() && db.Referential() && NoDuplicateMarks(db.records)
    requires db.GetPoll(pollId).Some?
    ensures GetAttendanceLogsAsWritten(db, pollId).Ok?
    ensures DistinctKeys(GetAttendanceLogsAsWritten(db, pollId).value.records, ResponseStudentId)
    ensures forall i :: 0 <= i < |GetAttendanceLogsAsWritten(db, pollId).value.records| ==>
      exists m :: 0 <= m < |db.students| && db.students[m].id == GetAttendanceLogsAsWritten(db, pollId).value.records[i].studentId
  {
    ReportRecordsFollowStore(db, pollId);
    var rs := db.GetAttendanceByPoll(pollId);
    var present := GetAttendanceLogsAsWritten(db, pollId).value.records;
    forall a, b | 0 <= a < b < |present| ensures ResponseStudentId(present[a]) != ResponseStudentId(present[b]) {
      assert RecordStudentId(rs[a]) != RecordStudentId(rs[b]);
    }
    forall i | 0 <= i < |present| ensures exists m :: 0 <= m < |db.students| && db.students[m].id == present[i].studentId {
      var s := db.GetStudent(rs[i].studentId).value;
      var m :| 0 <= m < |db.students| && db.students[m] == s;
    }
  }

  /** With every student listed, the counter over the report's records equals the number
      of ticked students in a store whose records name existing students once per poll. */
  lemma {:induction false} CounterMatchesTicksAllListed(db: Store, pollId: int)
    requires db.Valid() && db.Referential() && NoDuplicateMarks(db.records)
    requires db.GetPoll(pollId).Some?
    ensures GetAttendanceLogsAsWritten(db, pollId).Ok?
    ensures |TickedStudents(Some(GetAttendanceLogsAsWritten(db, pollId).value.records), ListedStudents(db))|
      == LiveCounter(Some(GetAttendanceLogsAsWritten(db, pollId).value.records), Some(ListedStudents(db))).0
  {
    ReportRecordsListed(db, pollId);
    assert DistinctKeys(db.students, StudentKey) by {
      forall a, b | 0 <= a < b < |db.students| ensures StudentKey(db.students[a]) != StudentKey(db.students[b]) {
      }
    }
    CounterMatchesTicks(GetAttendanceLogsAsWritten(db, pollId).value.records, db.students);
  }

  /** The live records are requested only while the status says a poll is active; the
      request then names the status's poll, or yields an empty list when that id is
      missing or 0. */
  function LiveRecordsRequest(status: Option<PollStatus>): (r: Option<Option<int>>)
    ensures r.Some? <==> status.Some? && status.value.isActive
    ensures r.Some? && r.value.Some? ==> status.value.pollId == r.value && r.value.value != 0
    ensures r.Some? && r.value.None? ==> status.value.pollId.None? || status.value.pollId.value == 0
  {
    if status.Some? && status.value.isActive then
      Some(if status.value.pollId.Some? && status.value.pollId.value != 0 then status.value.pollId else None)
    else None
  }

  /** `disabled={pollStatus?.is_active}` on the duration input. */
  function DurationInputDisabled(status: Option<PollStatus>): (b: bool)
    ensures b <==> status.Some? && status.value.isActive
  {
    status.Some? && status.value.isActive
  }

  /** `disabled={pollStatus?.is_active || starting}` on the start button. */
  function StartButtonDisabled(status: Option<PollStatus>, starting: bool): (b: bool)
    ensures b <==> DurationInputDisabled(status) || starting
    ensures !b ==> !DurationInputDisabled(status)
  {
    (status.Some? && status.value.isActive) || starting
  }

  /** The `starting` flag of `handleStartPoll` and the status refreshes it triggers. */
  class StartControl {
    var starting: bool
    var statusRefreshes: nat

    constructor ()
      ensures !starting && statusRefreshes == 0
    {
      starting, statusRefreshes := false, 0;
    }

    /** Before the start call: the button disables itself. */
    method BeginStart()
      modifies this
      ensures starting && statusRefreshes == old(statusRefreshes)
      ensures forall status :: StartButtonDisabled(status, starting)
    {
      starting := true;
    }

    /** After the start call: the status is fetched again only on success; `starting`
        is reset either way. */
    method FinishStart(succeeded: bool)
      modifies this
      ensures !starting
      ensures statusRefreshes == old(statusRefreshes) + (if succeeded then 1 else 0)
    {
      if succeeded {
        statusRefreshes := statusRefreshes + 1;
      }
      starting := false;
    }
  }
}
