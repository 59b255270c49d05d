/** The three database tables: students, attendance polls and attendance records.
    Timestamps are whole seconds. */
module Models {

  /** A row of `students`. */
  datatype Student = Student(id: int, name: string, rollNo: string, department: string, createdAt: int)

  /** A row of `attendance_polls`. */
  datatype Poll = Poll(
    id: int,
    startTime: int,
    endTime: int,
    durationMinutes: int,
    isActive: bool,
    createdBy: string,
    createdAt: int)

  /** A row of `attendance_records`; `studentId` and `pollId` are foreign keys that the
      database does not check. */
  datatype AttendanceRecord = AttendanceRecord(id: int, studentId: int, pollId: int, markedAt: int)

  /** The column default of `attendance_polls.created_by`. */
  const DefaultCreatedBy: string := "admin"

  /** The unique index on `students.roll_no`. */
  ghost predicate UniqueRollNos(students: seq<Student>) {
    forall i, j :: 0 <= i < j < |students| ==> students[i].rollNo != students[j].rollNo
  }

  /** Rows in storage order carry increasing primary keys below the next key to hand out. */
  ghost predicate IncreasingStudentIds(students: seq<Student>, next: int) {
    && 0 < next
    && (forall i :: 0 <= i < |students| ==> 0 < students[i].id < next)
    && (forall i, j :: 0 <= i < j < |students| ==> students[i].id < students[j].id)
  }

  ghost predicate IncreasingPollIds(polls: seq<Poll>, next: int) {
    && 0 < next
    && (forall i :: 0 <= i < |polls| ==> 0 < polls[i].id < next)
    && (forall i, j :: 0 <= i < j < |polls| ==> polls[i].id < polls[j].id)
  }

  ghost predicate IncreasingRecordIds(records: seq<AttendanceRecord>, next: int) {
    && 0 < next
    && (forall i :: 0 <= i < |records| ==> 0 < records[i].id < next)
    && (forall i, j :: 0 <= i < j < |records| ==> records[i].id < records[j].id)
  }

  /** Every poll ends `duration_minutes` after it starts. */
  ghost predicate WindowsMatchDurations(polls: seq<Poll>) {
    forall i :: 0 <= i < |polls| ==> polls[i].endTime == polls[i].startTime + 60 * polls[i].durationMinutes
  }

  /** No (student, poll) pair is recorded twice. The table declares no such constraint;
      only the marking operation keeps it. */
  ghost predicate NoDuplicateMarks(records: seq<AttendanceRecord>) {
    forall i, j :: 0 <= i < j < |records| ==>
      records[i].studentId != records[j].studentId || records[i].pollId != records[j].pollId
  }

  /** At most one poll carries the active flag. */
  ghost predicate AtMostOneFlagged(polls: seq<Poll>) {
    forall i, j :: 0 <= i < j < |polls| && polls[i].isActive ==> !polls[j].isActive
  }
}
