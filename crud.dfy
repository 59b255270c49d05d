/** The data-access layer: the three tables held in memory with their key counters,
    the queries over them and the operations that insert, update and delete rows. */
module Crud {
  import opened Seqs
  import opened Models
  import opened Schemas

  /** The outcome of a commit: accepted, or refused by a table constraint (SQLAlchemy
      raises `IntegrityError` and nothing is written). */
  datatype Committed<T> = Committed(value: T) | IntegrityError

  /** The columns a student update may set. */
  datatype StudentField = NameField | RollNoField | DepartmentField

  function FieldOf(s: Student, f: StudentField): string {
    match f
    case NameField => s.name
    case RollNoField => s.rollNo
    case DepartmentField => s.department
  }

  function SuppliedValue(u: StudentUpdate, f: StudentField): Option<string> {
    match f
    case NameField => u.name
    case RollNoField => u.rollNo
    case DepartmentField => u.department
  }

  /** `setattr(student, key, value)`. */
  function SetField(s: Student, f: StudentField, v: string): (r: Student)
    ensures FieldOf(r, f) == v
    ensures forall g :: g != f ==> FieldOf(r, g) == FieldOf(s, g)
    ensures r.id == s.id && r.createdAt == s.createdAt
  {
    match f
    case NameField => s.(name := v)
    case RollNoField => s.(rollNo := v)
    case DepartmentField => s.(department := v)
  }

  /** `student.dict(exclude_unset=True).items()`: each supplied field once, in declaration order. */
  function UpdateData(u: StudentUpdate): (items: seq<(StudentField, string)>)
    ensures forall i, j :: 0 <= i < j < |items| ==> items[i].0 != items[j].0
    ensures forall i :: 0 <= i < |items| ==> SuppliedValue(u, items[i].0) == Some(items[i].1)
    ensures forall f :: SuppliedValue(u, f).Some? ==> exists i :: 0 <= i < |items| && items[i].0 == f
  {
    var a := if u.name.Some? then [(NameField, u.name.value)] else [];
    var b := if u.rollNo.Some? then [(RollNoField, u.rollNo.value)] else [];
    var c := if u.department.Some? then [(DepartmentField, u.department.value)] else [];
    var items := a + b + c;
    assert u.name.Some? ==> items[0].0 == NameField;
    assert u.rollNo.Some? ==> items[|a|].0 == RollNoField;
    assert u.department.Some? ==> items[|a| + |b|].0 == DepartmentField;
    items
  }

  /** `r` is `s` with every field the update supplies overwritten and every other
      field, the id and the creation time kept. */
  ghost predicate UpdatedFrom(r: Student, s: Student, u: StudentUpdate) {
    && r.id == s.id
    && r.createdAt == s.createdAt
    && forall f :: FieldOf(r, f) == (if SuppliedValue(u, f).Some? then SuppliedValue(u, f).value else FieldOf(s, f))
  }

  /** The loop of `update_student` that copies the supplied fields onto the row. */
  method ApplyUpdate(s: Student, u: StudentUpdate) returns (r: Student)
    ensures r.id == s.id && r.createdAt == s.createdAt
    ensures r.name == (if u.name.Some? then u.name.value else s.name)
    ensures r.rollNo == (if u.rollNo.Some? then u.rollNo.value else s.rollNo)
    ensures r.department == (if u.department.Some? then u.department.value else s.department)
    ensures UpdatedFrom(r, s, u)
  {
    var items := UpdateData(u);
    r := s;
    for i := 0 to |items|
      invariant r.id == s.id && r.createdAt == s.createdAt
      invariant forall j :: 0 <= j < i ==> FieldOf(r, items[j].0) == items[j].1
      invariant forall f :: (forall j :: 0 <= j < i ==> items[j].0 != f) ==> FieldOf(r, f) == FieldOf(s, f)
    {
      r := SetField(r, items[i].0, items[i].1);
    }
    forall f ensures FieldOf(r, f) == if SuppliedValue(u, f).Some? then SuppliedValue(u, f).value else FieldOf(s, f) {
      if SuppliedValue(u, f).Some? {
        var j :| 0 <= j < |items| && items[j].0 == f;
      }
    }
    assert FieldOf(r, NameField) == r.name;
    assert FieldOf(r, RollNoField) == r.rollNo;
    assert FieldOf(r, DepartmentField) == r.department;
  }

  /** Appending a row with the next key and a roll number not yet held keeps the table valid. */
  lemma AppendKeepsValid(students: seq<Student>, row: Student, next: int)
    requires IncreasingStudentIds(students, next) && UniqueRollNos(students)
    requires row.id == next
    requires forall i :: 0 <= i < |students| ==> students[i].rollNo != row.rollNo
    ensures IncreasingStudentIds(students + [row], next + 1) && UniqueRollNos(students + [row])
  {
    var t := students + [row];
    assert forall i :: 0 <= i < |students| ==> t[i] == students[i];
  }

  /** Replacing a row by one with the same key and a roll number no other row holds keeps
      the table valid. */
  lemma ReplaceKeepsValid(students: seq<Student>, i: nat, row: Student, next: int)
    requires IncreasingStudentIds(students, next) && UniqueRollNos(students)
    requires i < |students| && row.id == students[i].id
    requires !exists k :: 0 <= k < |students| && students[k].id != row.id && students[k].rollNo == row.rollNo
    ensures IncreasingStudentIds(students[i := row], next) && UniqueRollNos(students[i := row])
  {
    var t := students[i := row];
    forall k, l | 0 <= k < l < |t| ensures t[k].rollNo != t[l].rollNo {
      if k == i {
        assert students[l].id != row.id;
      } else if l == i {
        assert students[k].id != row.id;
      }
    }
  }

  /** The position in the original sequence of the `k`-th element left after removing position `i`. */
  function Skip(k: nat, i: nat): (j: nat)
    ensures j != i && (j < i <==> k < i)
  {
    if k < i then k else k + 1
  }

  /** Removing row `i` shifts every later row down by one. */
  lemma RemovedAt(students: seq<Student>, i: nat, rest: seq<Student>)
    requires i < |students| && rest == students[..i] + students[i + 1..]
    ensures |rest| == |students| - 1
    ensures forall k :: 0 <= k < |rest| ==> rest[k] == students[Skip(k, i)]
  {
    forall k | 0 <= k < |rest| ensures rest[k] == students[Skip(k, i)] {
      if k < i { assert rest[k] == students[..i][k]; } else { assert rest[k] == students[i + 1..][k - i]; }
    }
  }

  /** Removing a row keeps the table valid; the rest keep their order. */
  lemma RemoveKeepsValid(students: seq<Student>, i: nat, next: int, rest: seq<Student>)
    requires IncreasingStudentIds(students, next) && UniqueRollNos(students)
    requires i < |students| && rest == students[..i] + students[i + 1..]
    ensures IncreasingStudentIds(rest, next) && UniqueRollNos(rest)
    ensures forall k :: 0 <= k < |students| && k != i ==> students[k] in rest
    ensures forall k :: 0 <= k < |rest| ==> rest[k] in students && rest[k].id != students[i].id
  {
    RemovedAt(students, i, rest);
    forall k, l | 0 <= k < l < |rest|
      ensures rest[k].id < rest[l].id && rest[k].rollNo != rest[l].rollNo
    {
      assert Skip(k, i) < Skip(l, i);
    }
    forall k | 0 <= k < |rest| ensures rest[k] in students && rest[k].id != students[i].id {
      assert Skip(k, i) != i;
    }
    forall k | 0 <= k < |students| && k != i ensures students[k] in rest {
      if k < i { assert rest[k] == students[k]; } else { assert rest[k - 1] == students[k]; }
    }
  }

  /** Clearing every flag and appending a flagged poll with the next key keeps the poll
      table's invariant and leaves the new poll as the only flagged one. */
  lemma PollAppendKeepsValid(polls: seq<Poll>, polls': seq<Poll>, p: Poll, next: int)
    requires IncreasingPollIds(polls, next) && WindowsMatchDurations(polls)
    requires p.id == next && p.isActive && p.endTime == p.startTime + 60 * p.durationMinutes
    requires |polls'| == |polls| + 1 && polls'[|polls|] == p
    requires forall i :: 0 <= i < |polls| ==> polls'[i] == polls[i].(isActive := false)
    ensures IncreasingPollIds(polls', next + 1) && WindowsMatchDurations(polls')
    ensures forall i :: 0 <= i < |polls'| ==> (polls'[i].isActive <==> i == |polls'| - 1)
  {
    forall i | 0 <= i < |polls'| ensures 0 < polls'[i].id < next + 1 {
      if i < |polls| {
        assert polls'[i].id == polls[i].id;
      }
    }
    forall i, j | 0 <= i < j < |polls'| ensures polls'[i].id < polls'[j].id {
      assert polls'[i].id == polls[i].id;
      if j < |polls| {
        assert polls'[j].id == polls[j].id;
      }
    }
    forall i | 0 <= i < |polls'|
      ensures polls'[i].endTime == polls'[i].startTime + 60 * polls'[i].durationMinutes
    {
      if i < |polls| {
        assert polls'[i] == polls[i].(isActive := false);
      }
    }
  }

  /** The roll number an update leaves a student with is held by another student exactly
      when the update supplies a roll number that another student holds. */
  lemma TakenByOther(students: seq<Student>, next: int, i: nat, rollNo: string, supplied: Option<string>)
    requires IncreasingStudentIds(students, next) && UniqueRollNos(students)
    requires i < |students|
    requires rollNo == if supplied.Some? then supplied.value else students[i].rollNo
    ensures (exists k :: 0 <= k < |students| && students[k].id != students[i].id && students[k].rollNo == rollNo)
        <==> supplied.Some? && exists k :: 0 <= k < |students| && students[k].id != students[i].id && students[k].rollNo == supplied.value
  {
    if supplied.None? {
      forall k | 0 <= k < |students| && students[k].id != students[i].id ensures students[k].rollNo != rollNo {
        assert k != i;
      }
    }
  }

  /** No other row carries the key of row `i`. */
  lemma IdOnlyAt(students: seq<Student>, next: int, i: nat)
    requires IncreasingStudentIds(students, next) && i < |students|
    ensures forall k :: 0 <= k < |students| && k != i ==> students[k].id != students[i].id
  {
  }

  /** When only the last poll is flagged, any flagged poll is the last one. */
  lemma FlaggedIsLast(polls: seq<Poll>, v: Poll)
    requires forall i :: 0 <= i < |polls| ==> (polls[i].isActive <==> i == |polls| - 1)
    requires v in polls && v.isActive
    ensures v == polls[|polls| - 1]
  {
    var k :| 0 <= k < |polls| && polls[k] == v;
  }

  /** Primary keys identify students. */
  lemma IdsIdentify(students: seq<Student>, next: int, a: Student, b: Student)
    requires IncreasingStudentIds(students, next)
    requires a in students && b in students && a.id == b.id
    ensures a == b
  {
    var i :| 0 <= i < |students| && students[i] == a;
    var j :| 0 <= j < |students| && students[j] == b;
    assert !(i < j) && !(j < i);
  }

  /** After appending the first record of a pair, the only record of that pair is the new one. */
  lemma OnlyMarkIsLast(records: seq<AttendanceRecord>, r: AttendanceRecord, v: AttendanceRecord)
    requires forall i :: 0 <= i < |records| ==> !(records[i].studentId == r.studentId && records[i].pollId == r.pollId)
    requires v in records + [r] && v.studentId == r.studentId && v.pollId == r.pollId
    ensures v == r
  {
    var k :| 0 <= k < |records + [r]| && (records + [r])[k] == v;
    if k < |records| {
      assert records[k] == v;
    }
  }

  /** Appending a record with the next key for a pair not yet recorded keeps keys
      increasing and pairs distinct. */
  lemma RecordAppendKeepsValid(records: seq<AttendanceRecord>, r: AttendanceRecord, next: int)
    requires IncreasingRecordIds(records, next) && r.id == next
    requires forall i :: 0 <= i < |records| ==> !(records[i].studentId == r.studentId && records[i].pollId == r.pollId)
    ensures IncreasingRecordIds(records + [r], next + 1)
    ensures NoDuplicateMarks(records) ==> NoDuplicateMarks(records + [r])
  {
    var t := records + [r];
    assert forall i :: 0 <= i < |records| ==> t[i] == records[i];
  }

  /** Some row carries that key. */
  ghost predicate HasStudent(students: seq<Student>, id: int) {
    exists k :: 0 <= k < |students| && students[k].id == id
  }

  ghost predicate HasPoll(polls: seq<Poll>, id: int) {
    exists k :: 0 <= k < |polls| && polls[k].id == id
  }

  /** Every record names an existing student and an existing poll. */
  ghost predicate RecordsRefer(records: seq<AttendanceRecord>, students: seq<Student>, polls: seq<Poll>) {
    forall i :: 0 <= i < |records| ==> HasStudent(students, records[i].studentId) && HasPoll(polls, records[i].pollId)
  }

  lemma RefsSurviveStudentAppend(records: seq<AttendanceRecord>, students: seq<Student>, polls: seq<Poll>, row: Student)
    requires RecordsRefer(records, students, polls)
    ensures RecordsRefer(records, students + [row], polls)
  {
    forall i | 0 <= i < |records| ensures HasStudent(students + [row], records[i].studentId) {
      var k :| 0 <= k < |students| && students[k].id == records[i].studentId;
      assert (students + [row])[k] == students[k];
    }
  }

  lemma RefsSurviveStudentReplace(records: seq<AttendanceRecord>, students: seq<Student>, polls: seq<Poll>, i: nat, row: Student)
    requires RecordsRefer(records, students, polls)
    requires i < |students| && row.id == students[i].id
    ensures RecordsRefer(records, students[i := row], polls)
  {
    forall j | 0 <= j < |records| ensures HasStudent(students[i := row], records[j].studentId) {
      var k :| 0 <= k < |students| && students[k].id == records[j].studentId;
      assert students[i := row][k].id == students[k].id;
    }
  }

  lemma RefsSurviveStudentRemoval(records: seq<AttendanceRecord>, students: seq<Student>, polls: seq<Poll>, i: nat, rest: seq<Student>)
    requires RecordsRefer(records, students, polls)
    requires i < |students| && rest == students[..i] + students[i + 1..]
    requires forall j :: 0 <= j < |records| ==> records[j].studentId != students[i].id
    ensures RecordsRefer(records, rest, polls)
  {
    forall j | 0 <= j < |records| ensures HasStudent(rest, records[j].studentId) {
      var k :| 0 <= k < |students| && students[k].id == records[j].studentId;
      if k < i { assert rest[k] == students[k]; } else { assert rest[k - 1] == students[k]; }
    }
  }

  lemma RefsSurvivePollReset(records: seq<AttendanceRecord>, students: seq<Student>, polls: seq<Poll>, polls': seq<Poll>)
    requires RecordsRefer(records, students, polls)
    requires |polls| <= |polls'| && forall k :: 0 <= k < |polls| ==> polls'[k].id == polls[k].id
    ensures RecordsRefer(records, students, polls')
  {
    forall j | 0 <= j < |records| ensures HasPoll(polls', records[j].pollId) {
      var k :| 0 <= k < |polls| && polls[k].id == records[j].pollId;
      assert polls'[k].id == polls[k].id;
    }
  }

  lemma RefsSurviveRecordAppend(records: seq<AttendanceRecord>, students: seq<Student>, polls: seq<Poll>, r: AttendanceRecord)
    requires RecordsRefer(records, students, polls)
    requires HasStudent(students, r.studentId) && HasPoll(polls, r.pollId)
    ensures RecordsRefer(records + [r], students, polls)
  {
    forall j | 0 <= j < |records| + 1 ensures HasStudent(students, (records + [r])[j].studentId) && HasPoll(polls, (records + [r])[j].pollId) {
      if j < |records| { assert (records + [r])[j] == records[j]; }
    }
  }

  /** Records taken from `records` still name existing students and polls. */
  lemma RefsSurviveRecordRemoval(records: seq<AttendanceRecord>, kept: seq<AttendanceRecord>, students: seq<Student>, polls: seq<Poll>)
    requires RecordsRefer(records, students, polls)
    requires forall i :: 0 <= i < |kept| ==> kept[i] in records
    ensures RecordsRefer(kept, students, polls)
  {
    forall i | 0 <= i < |kept| ensures HasStudent(students, kept[i].studentId) && HasPoll(polls, kept[i].pollId) {
      var k :| 0 <= k < |records| && records[k] == kept[i];
      assert HasStudent(students, records[k].studentId) && HasPoll(polls, records[k].pollId);
    }
  }

  /** The records that do not name the student, in storage order. */
  function RecordsWithout(records: seq<AttendanceRecord>, studentId: int): (r: seq<AttendanceRecord>)
    ensures forall i :: 0 <= i < |r| ==> r[i] in records && r[i].studentId != studentId
    ensures forall i :: 0 <= i < |records| && records[i].studentId != studentId ==> records[i] in r
  {
    Filter(records, (x: AttendanceRecord) => x.studentId != studentId)
  }

  ghost predicate IdsIncrease(records: seq<AttendanceRecord>) {
    forall i, j :: 0 <= i < j < |records| ==> records[i].id < records[j].id
  }

  lemma ConsIdsIncrease(h: AttendanceRecord, rest: seq<AttendanceRecord>)
    requires IdsIncrease(rest) && forall j :: 0 <= j < |rest| ==> h.id < rest[j].id
    ensures IdsIncrease([h] + rest)
  {
    var r := [h] + rest;
    forall i, j | 0 <= i < j < |r| ensures r[i].id < r[j].id {
      assert r[j] == rest[j - 1];
      if i > 0 { assert r[i] == rest[i - 1]; }
    }
  }

  /** Dropping a student's records keeps record keys increasing in storage order. */
  lemma {:induction false} RecordsWithoutKeepsOrder(records: seq<AttendanceRecord>, studentId: int)
    requires IdsIncrease(records)
    ensures IdsIncrease(RecordsWithout(records, studentId))
    decreases |records|
  {
    if |records| > 0 && records[0].studentId != studentId {
      var tail := records[1..];
      assert IdsIncrease(tail) by {
        forall i, j | 0 <= i < j < |tail| ensures tail[i].id < tail[j].id {
          assert tail[i] == records[i + 1] && tail[j] == records[j + 1];
        }
      }
      RecordsWithoutKeepsOrder(tail, studentId);
      var rest := RecordsWithout(tail, studentId);
      var r := [records[0]] + rest;
      assert RecordsWithout(records, studentId) == r;
      forall j | 0 <= j < |rest| ensures records[0].id < rest[j].id {
        var k :| 0 <= k < |tail| && tail[k] == rest[j];
        assert records[k + 1] == rest[j];
      }
      ConsIdsIncrease(records[0], rest);
    } else if |records| > 0 {
      var tail := records[1..];
      assert IdsIncrease(tail) by {
        forall i, j | 0 <= i < j < |tail| ensures tail[i].id < tail[j].id {
          assert tail[i] == records[i + 1] && tail[j] == records[j + 1];
        }
      }
      RecordsWithoutKeepsOrder(tail, studentId);
    }
  }

  /** Dropping a student's records keeps every (student, poll) pair recorded at most once. */
  lemma {:induction false} RecordsWithoutKeepsMarks(records: seq<AttendanceRecord>, studentId: int)
    requires NoDuplicateMarks(records)
    ensures NoDuplicateMarks(RecordsWithout(records, studentId))
    decreases |records|
  {
    if |records| > 0 && records[0].studentId != studentId {
      var tail := records[1..];
      RecordsWithoutKeepsMarks(tail, studentId);
      var rest := RecordsWithout(tail, studentId);
      assert RecordsWithout(records, studentId) == [records[0]] + rest;
      forall j | 0 <= j < |rest| ensures records[0].studentId != rest[j].studentId || records[0].pollId != rest[j].pollId {
        var k :| 0 <= k < |tail| && tail[k] == rest[j];
        assert records[k + 1] == rest[j];
      }
    } else if |records| > 0 {
      RecordsWithoutKeepsMarks(records[1..], studentId);
    }
  }

  lemma RecordsWithoutKeepsValid(records: seq<AttendanceRecord>, studentId: int, next: int)
    requires IncreasingRecordIds(records, next)
    ensures IncreasingRecordIds(RecordsWithout(records, studentId), next)
    ensures NoDuplicateMarks(records) ==> NoDuplicateMarks(RecordsWithout(records, studentId))
  {
    RecordsWithoutKeepsOrder(records, studentId);
    if NoDuplicateMarks(records) {
      RecordsWithoutKeepsMarks(records, studentId);
    }
  }

  function PollCreatedAt(p: Poll): int { p.createdAt }

  function StudentKey(s: Student): int { s.id }

  function RecordStudentId(r: AttendanceRecord): int { r.studentId }

  function RecordMarkedAt(r: AttendanceRecord): int { r.markedAt }

  /** The database. Rows are kept in storage order; the counters hand out primary keys. */
  class Store {
    var students: seq<Student>
    var polls: seq<Poll>
    var records: seq<AttendanceRecord>
    var nextStudentId: int
    var nextPollId: int
    var nextRecordId: int

    /** Primary keys are positive, increasing in storage order and below their counter;
        roll numbers are unique. */
    ghost predicate Valid()
      reads this
    {
      && IncreasingStudentIds(students, nextStudentId)
      && UniqueRollNos(students)
      && IncreasingPollIds(polls, nextPollId)
      && WindowsMatchDurations(polls)
      && IncreasingRecordIds(records, nextRecordId)
    }

    /** Every record names a student and a poll that exist. The database does not enforce
        this; the marking handler's checks and the ORM's refusal to orphan records keep it. */
    ghost predicate Referential()
      reads this
    {
      RecordsRefer(records, students, polls)
    }

    /** An empty database. */
    constructor ()
      ensures Valid()
      ensures students == [] && polls == [] && records == []
      ensures NoDuplicateMarks(records) && AtMostOneFlagged(polls) && Referential()
    {
      students, polls, records := [], [], [];
      nextStudentId, nextPollId, nextRecordId := 1, 1, 1;
    }

    // ----- students -----

    /** `get_student`: the row with that primary key. */
    function GetStudent(studentId: int): (r: Option<Student>)
      reads this
      ensures r.Some? ==> r.value in students && r.value.id == studentId
      ensures r.None? <==> forall i :: 0 <= i < |students| ==> students[i].id != studentId
    {
      Find(students, (s: Student) => s.id == studentId)
    }

    /** `get_student_by_roll_no`: the first row with exactly that roll number. */
    function GetStudentByRollNo(rollNo: string): (r: Option<Student>)
      reads this
      ensures r.Some? ==> r.value in students && r.value.rollNo == rollNo
      ensures r.None? <==> forall i :: 0 <= i < |students| ==> students[i].rollNo != rollNo
    {
      Find(students, (s: Student) => s.rollNo == rollNo)
    }

    /** `get_students`: the rows `[skip, skip + limit)` in storage order. */
    function GetStudents(skip: int, limit: int): (r: seq<Student>)
      reads this
      ensures 0 <= skip && 0 <= limit ==>
        r == students[(if skip < |students| then skip else |students|)..(if skip + limit < |students| then skip + limit else |students|)]
      ensures limit >= 0 ==> |r| <= limit
      ensures forall i :: 0 <= i < |r| ==> r[i] in students
    {
      var r := Page(students, skip, limit);
      assert forall i :: 0 <= i < |r| ==> r[i] == students[Offset(skip, |students|) + i];
      r
    }

    /** `create_student`: inserts one row with a fresh key, unless the roll number is
        already held, which the unique index refuses. */
    method CreateStudent(s: StudentCreate, now: int) returns (r: Committed<Student>)
      requires Valid()
      modifies this
      ensures Valid()
      ensures r.IntegrityError? <==> old(GetStudentByRollNo(s.rollNo)).Some?
      ensures r.IntegrityError? ==> unchanged(this)
      ensures r.Committed? ==> r.value == Student(old(nextStudentId), s.name, s.rollNo, s.department, now)
      ensures r.Committed? ==> GetStudent(r.value.id) == Some(r.value)
      ensures r.Committed? ==> students == old(students) + [r.value]
      ensures r.Committed? ==> forall i :: 0 <= i < |old(students)| ==> old(students)[i].id != r.value.id
      ensures polls == old(polls) && records == old(records)
      ensures nextPollId == old(nextPollId) && nextRecordId == old(nextRecordId)
      ensures old(Referential()) ==> Referential()
    {
      if GetStudentByRollNo(s.rollNo).Some? {
        return IntegrityError;
      }
      var row := Student(nextStudentId, s.name, s.rollNo, s.department, now);
      AppendKeepsValid(students, row, nextStudentId);
      if Referential() {
        RefsSurviveStudentAppend(records, students, polls, row);
      }
      students, nextStudentId := students + [row], nextStudentId + 1;
      r := Committed(row);
      assert students[|students| - 1] == row;
      IdsIdentify(students, nextStudentId, GetStudent(row.id).value, row);
    }

    /** `update_student`: nothing when the key is absent; otherwise the supplied fields
        are overwritten, unless the new roll number is held by another row. */
    method UpdateStudent(studentId: int, u: StudentUpdate) returns (r: Committed<Option<Student>>)
      requires Valid()
      modifies this
      ensures Valid()
      ensures old(GetStudent(studentId)).None? ==> r == Committed(None) && unchanged(this)
      ensures r.Committed? ==> (r.value.Some? <==> old(GetStudent(studentId)).Some?)
      ensures r.IntegrityError? <==>
        && old(GetStudent(studentId)).Some?
        && u.rollNo.Some?
        && exists i :: 0 <= i < |old(students)| && old(students)[i].id != studentId && old(students)[i].rollNo == u.rollNo.value
      ensures r.IntegrityError? ==> unchanged(this)
      ensures r.Committed? && r.value.Some? ==> UpdatedFrom(r.value.value, old(GetStudent(studentId)).value, u)
      ensures r.Committed? && r.value.Some? ==>
        && |students| == |old(students)|
        && forall i :: 0 <= i < |students| ==>
             students[i] == if old(students)[i].id == studentId then r.value.value else old(students)[i]
      ensures polls == old(polls) && records == old(records)
      ensures nextStudentId == old(nextStudentId) && nextPollId == old(nextPollId) && nextRecordId == old(nextRecordId)
      ensures old(Referential()) ==> Referential()
    {
      var found := FindIndex(students, (x: Student) => x.id == studentId);
      if found.None? {
        return Committed(None);
      }
      var i := found.value;
      IdsIdentify(students, nextStudentId, GetStudent(studentId).value, students[i]);
      IdOnlyAt(students, nextStudentId, i);
      var row := ApplyUpdate(students[i], u);
      var taken := Any(students, (x: Student) => x.id != studentId && x.rollNo == row.rollNo);
      TakenByOther(students, nextStudentId, i, row.rollNo, u.rollNo);
      if taken {
        return IntegrityError;
      }
      ReplaceKeepsValid(students, i, row, nextStudentId);
      if Referential() {
        RefsSurviveStudentReplace(records, students, polls, i, row);
      }
      students := students[i := row];
      r := Committed(Some(row));
    }

    /** Whether some attendance record names the student. */
    function IsReferenced(studentId: int): (b: bool)
      reads this
      ensures b <==> exists i :: 0 <= i < |records| && records[i].studentId == studentId
    {
      Any(records, (x: AttendanceRecord) => x.studentId == studentId)
    }

    /** `delete_student`: reports whether a row with that key existed and removes it.
        A student with attendance records cannot be removed: the ORM sets the records'
        `student_id` to NULL, which the NOT NULL column refuses, and nothing is written. */
    method DeleteStudent(studentId: int) returns (r: Committed<bool>)
      requires Valid()
      modifies this
      ensures Valid()
      ensures r.Committed? && !r.value <==> old(GetStudent(studentId)).None?
      ensures r.IntegrityError? <==> old(GetStudent(studentId)).Some? && old(IsReferenced(studentId))
      ensures r != Committed(true) ==> unchanged(this)
      ensures r == Committed(true) ==> |students| == |old(students)| - 1 && GetStudent(studentId).None?
      ensures r == Committed(true) ==>
        forall i :: 0 <= i < |students| ==> students[i] in old(students) && students[i].id != studentId
      ensures r == Committed(true) ==>
        forall i :: 0 <= i < |old(students)| && old(students)[i].id != studentId ==> old(students)[i] in students
      ensures polls == old(polls) && records == old(records)
      ensures nextStudentId == old(nextStudentId) && nextPollId == old(nextPollId) && nextRecordId == old(nextRecordId)
      ensures old(Referential()) ==> Referential()
    {
      var found := FindIndex(students, (x: Student) => x.id == studentId);
      if found.None? {
        return Committed(false);
      }
      if IsReferenced(studentId) {
        return IntegrityError;
      }
      var i := found.value;
      RemoveKeepsValid(students, i, nextStudentId, students[..i] + students[i + 1..]);
      if Referential() {
        RefsSurviveStudentRemoval(records, students, polls, i, students[..i] + students[i + 1..]);
      }
      students := students[..i] + students[i + 1..];
      r := Committed(true);
    }

    /** The delete the application's own tests expect: the student's attendance records
        are removed with the student, so an existing student is always deleted and no
        record is left naming them. */
    method DeleteStudentCascade(studentId: int) returns (found: bool)
      requires Valid()
      modifies this
      ensures Valid()
      ensures found <==> old(GetStudent(studentId)).Some?
      ensures !found ==> unchanged(this)
      ensures found ==> |students| == |old(students)| - 1 && GetStudent(studentId).None? && !IsReferenced(studentId)
      ensures found ==>
        forall i :: 0 <= i < |students| ==> students[i] in old(students) && students[i].id != studentId
      ensures found ==>
        forall i :: 0 <= i < |old(students)| && old(students)[i].id != studentId ==> old(students)[i] in students
      ensures found ==> records == RecordsWithout(old(records), studentId)
      ensures polls == old(polls)
      ensures nextStudentId == old(nextStudentId) && nextPollId == old(nextPollId) && nextRecordId == old(nextRecordId)
      ensures NoDuplicateMarks(old(records)) ==> NoDuplicateMarks(records)
      ensures old(Referential()) ==> Referential()
    {
      if GetStudent(studentId).None? {
        return false;
      }
      DeleteRecordsOf(studentId);
      var deleted := DeleteStudent(studentId);
      found := true;
    }

    /** The cascade's first step: every attendance record naming the student is removed. */
    method DeleteRecordsOf(studentId: int)
      requires Valid()
      modifies this
      ensures Valid()
      ensures records == RecordsWithout(old(records), studentId) && !IsReferenced(studentId)
      ensures students == old(students) && polls == old(polls)
      ensures nextStudentId == old(nextStudentId) && nextPollId == old(nextPollId) && nextRecordId == old(nextRecordId)
      ensures NoDuplicateMarks(old(records)) ==> NoDuplicateMarks(records)
      ensures old(Referential()) ==> Referential()
    {
      var kept := RecordsWithout(records, studentId);
      RecordsWithoutKeepsValid(records, studentId, nextRecordId);
      if Referential() {
        RefsSurviveRecordRemoval(records, kept, students, polls);
      }
      records := kept;
    }

    // ----- polls -----

    /** `get_active_poll`: the first poll whose flag is set and whose window
        `[start_time, end_time]` contains `now`, both ends included. */
    function GetActivePoll(now: int): (r: Option<Poll>)
      reads this
      ensures r.Some? ==> r.value in polls && r.value.isActive && r.value.startTime <= now <= r.value.endTime
      ensures r.None? <==>
        forall i :: 0 <= i < |polls| ==> !(polls[i].isActive && polls[i].startTime <= now <= polls[i].endTime)
    {
      Find(polls, (p: Poll) => p.isActive && p.startTime <= now <= p.endTime)
    }

    /** `get_poll`: the poll with that primary key. */
    function GetPoll(pollId: int): (r: Option<Poll>)
      reads this
      ensures r.Some? ==> r.value in polls && r.value.id == pollId
      ensures r.None? <==> forall i :: 0 <= i < |polls| ==> polls[i].id != pollId
    {
      Find(polls, (p: Poll) => p.id == pollId)
    }

    /** `get_polls`: newest first by creation time, then the rows `[skip, skip + limit)`. */
    function GetPolls(skip: int, limit: int): (r: seq<Poll>)
      reads this
      ensures forall i, j :: 0 <= i < j < |r| ==> r[i].createdAt >= r[j].createdAt
      ensures forall i :: 0 <= i < |r| ==> r[i] in polls
      ensures limit >= 0 ==> |r| <= limit
      ensures skip <= 0 && (limit < 0 || |polls| <= limit) ==> multiset(r) == multiset(polls)
      ensures 0 <= skip && 0 <= limit ==>
        |r| == (if |polls| <= skip then 0 else if |polls| - skip < limit then |polls| - skip else limit)
      ensures exists s :: SortedDesc(s, PollCreatedAt) && multiset(s) == multiset(polls) && r == Page(s, skip, limit)
    {
      var sorted := SortDesc(polls, PollCreatedAt);
      PageOfSorted(sorted, PollCreatedAt, skip, limit);
      var r := Page(sorted, skip, limit);
      assert forall i :: 0 <= i < |r| ==> r[i] in multiset(polls) by {
        forall i | 0 <= i < |r| ensures r[i] in multiset(polls) {
          assert r[i] == sorted[Offset(skip, |sorted|) + i];
          assert r[i] in multiset(sorted);
        }
      }
      assert skip <= 0 && (limit < 0 || |polls| <= limit) ==> r == sorted;
      assert SortedDesc(sorted, PollCreatedAt) && multiset(sorted) == multiset(polls) && r == Page(sorted, skip, limit);
      r
    }

    /** `create_poll`: clears the flag of every poll, then inserts a flagged poll that
        starts at `now` and ends `duration_minutes` later. Afterwards the new poll is
        the only flagged one, so it is the active poll exactly inside its window. */
    method CreatePoll(durationMinutes: int, now: int) returns (p: Poll)
      requires Valid()
      modifies this
      ensures Valid()
      ensures p == Poll(old(nextPollId), now, now + 60 * durationMinutes, durationMinutes, true, DefaultCreatedBy, now)
      ensures |polls| == |old(polls)| + 1 && polls[|old(polls)|] == p
      ensures forall i :: 0 <= i < |old(polls)| ==> polls[i] == old(polls)[i].(isActive := false)
      ensures forall i :: 0 <= i < |polls| ==> (polls[i].isActive <==> i == |polls| - 1)
      ensures AtMostOneFlagged(polls)
      ensures forall t :: GetActivePoll(t) == if now <= t <= now + 60 * durationMinutes then Some(p) else None
      ensures students == old(students) && records == old(records)
      ensures nextStudentId == old(nextStudentId) && nextRecordId == old(nextRecordId)
      ensures old(Referential()) ==> Referential()
    {
      var before := polls;
      var cleared := seq(|before|, i requires 0 <= i < |before| => before[i].(isActive := false));
      p := Poll(nextPollId, now, now + 60 * durationMinutes, durationMinutes, true, DefaultCreatedBy, now);
      if Referential() {
        RefsSurvivePollReset(records, students, polls, cleared + [p]);
      }
      PollAppendKeepsValid(before, cleared + [p], p, nextPollId);
      polls, nextPollId := cleared + [p], nextPollId + 1;
      forall t ensures GetActivePoll(t) == if now <= t <= now + 60 * durationMinutes then Some(p) else None {
        var r := GetActivePoll(t);
        if r.Some? {
          FlaggedIsLast(polls, r.value);
        }
      }
    }

    // ----- attendance records -----

    /** The first record of that (student, poll) pair. */
    function FindRecord(studentId: int, pollId: int): (r: Option<AttendanceRecord>)
      reads this
      ensures r.Some? ==> r.value in records && r.value.studentId == studentId && r.value.pollId == pollId
      ensures r.None? <==>
        forall i :: 0 <= i < |records| ==> !(records[i].studentId == studentId && records[i].pollId == pollId)
    {
      Find(records, (x: AttendanceRecord) => x.studentId == studentId && x.pollId == pollId)
    }

    /** `mark_attendance`: returns the existing record of the pair untouched, or inserts
        exactly one new record. Either way the pair is then recorded by the returned
        record, so a repeated call returns the same record. */
    method MarkAttendance(studentId: int, pollId: int, now: int) returns (r: AttendanceRecord)
      requires Valid()
      modifies this
      ensures Valid()
      ensures r.studentId == studentId && r.pollId == pollId
      ensures old(FindRecord(studentId, pollId)).Some? ==> r == old(FindRecord(studentId, pollId)).value && unchanged(this)
      ensures old(FindRecord(studentId, pollId)).None? ==>
        && r == AttendanceRecord(old(nextRecordId), studentId, pollId, now)
        && records == old(records) + [r]
      ensures FindRecord(studentId, pollId) == Some(r)
      ensures NoDuplicateMarks(old(records)) ==> NoDuplicateMarks(records)
      ensures students == old(students) && polls == old(polls)
      ensures nextStudentId == old(nextStudentId) && nextPollId == old(nextPollId)
    {
      var existing := FindRecord(studentId, pollId);
      if existing.Some? {
        return existing.value;
      }
      r := AttendanceRecord(nextRecordId, studentId, pollId, now);
      ghost var before := records;
      RecordAppendKeepsValid(records, r, nextRecordId);
      records, nextRecordId := records + [r], nextRecordId + 1;
      assert records[|records| - 1] == r;
      OnlyMarkIsLast(before, r, FindRecord(studentId, pollId).value);
    }

    /** `get_attendance_by_poll`: exactly the records of that poll, in storage order. */
    function GetAttendanceByPoll(pollId: int): (r: seq<AttendanceRecord>)
      reads this
      ensures forall i :: 0 <= i < |r| ==> r[i] in records && r[i].pollId == pollId
      ensures forall i :: 0 <= i < |records| && records[i].pollId == pollId ==> records[i] in r
      ensures multiset(r) <= multiset(records)
      ensures NoDuplicateMarks(records) ==> DistinctKeys(r, RecordStudentId)
    {
      var onPoll := (x: AttendanceRecord) => x.pollId == pollId;
      FilterKeepsDistinctKeys(records, onPoll, RecordStudentId);
      assert NoDuplicateMarks(records) ==> DistinctKeysWhere(records, onPoll, RecordStudentId);
      Filter(records, onPoll)
    }

    /** `get_student_attendance_history`: exactly the records of that student, latest first. */
    function GetStudentAttendanceHistory(studentId: int): (r: seq<AttendanceRecord>)
      reads this
      ensures forall i :: 0 <= i < |r| ==> r[i] in records && r[i].studentId == studentId
      ensures forall i :: 0 <= i < |records| && records[i].studentId == studentId ==> records[i] in r
      ensures forall i, j :: 0 <= i < j < |r| ==> r[i].markedAt >= r[j].markedAt
      ensures multiset(r) <= multiset(records)
    {
      var mine := Filter(records, (x: AttendanceRecord) => x.studentId == studentId);
      var r := SortDesc(mine, RecordMarkedAt);
      forall i | 0 <= i < |r| ensures r[i] in records && r[i].studentId == studentId {
        assert r[i] in multiset(mine);
        var k :| 0 <= k < |mine| && mine[k] == r[i];
      }
      forall i | 0 <= i < |records| && records[i].studentId == studentId ensures records[i] in r {
        assert records[i] in mine;
        assert records[i] in multiset(r);
      }
      r
    }
  }

  /** Marking the same pair twice yields the same record, and the second call adds nothing. */
  method MarkTwice(db: Store, studentId: int, pollId: int, now1: int, now2: int)
    returns (first: AttendanceRecord, second: AttendanceRecord)
    requires db.Valid()
    modifies db
    ensures first == second && first.id == second.id
    ensures |db.records| <= |old(db.records)| + 1
  {
    first := db.MarkAttendance(studentId, pollId, now1);
    ghost var afterFirst := db.records;
    second := db.MarkAttendance(studentId, pollId, now2);
    assert db.records == afterFirst;
  }
}
