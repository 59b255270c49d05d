/** The `/students` handlers: request validation, the roll-number guards in front of the
    data-access layer, and the answers for missing students. */
module StudentsRouter {
  import opened Seqs
  import opened Models
  import opened Schemas
  import opened Crud

  /** The guard of the update handler: the body carries a non-empty roll number and the
      first student holding it is a different one. */
  function RollConflict(db: Store, studentId: int, u: StudentUpdate): (b: bool)
    reads db
    ensures b ==> u.rollNo.Some? && u.rollNo.value != ""
    ensures b ==> exists i :: 0 <= i < |db.students| && db.students[i].rollNo == u.rollNo.value && db.students[i].id != studentId
  {
    && u.rollNo.Some?
    && u.rollNo.value != ""
    && match db.GetStudentByRollNo(u.rollNo.value)
       case None => false
       case Some(holder) => holder.id != studentId
  }

  /** With unique roll numbers the guard fires exactly when another student holds the
      requested roll number. */
  lemma {:induction false} RollConflictExactly(db: Store, studentId: int, u: StudentUpdate)
    requires db.Valid() && ValidStudentUpdate(u)
    ensures RollConflict(db, studentId, u) <==>
      u.rollNo.Some? && exists i :: 0 <= i < |db.students| && db.students[i].rollNo == u.rollNo.value && db.students[i].id != studentId
  {
    if u.rollNo.Some? {
      var holder := db.GetStudentByRollNo(u.rollNo.value);
      if i :| 0 <= i < |db.students| && db.students[i].rollNo == u.rollNo.value && db.students[i].id != studentId {
        var k :| 0 <= k < |db.students| && db.students[k] == holder.value;
        assert k == i;
      }
    }
  }

  /** Sending a student's own roll number back is never a conflict. */
  lemma OwnRollNoAllowed(db: Store, studentId: int, u: StudentUpdate)
    requires db.Valid()
    requires db.GetStudent(studentId).Some? && u.rollNo == Some(db.GetStudent(studentId).value.rollNo)
    ensures !RollConflict(db, studentId, u)
  {
    var own := db.GetStudent(studentId).value;
    var holder := db.GetStudentByRollNo(own.rollNo);
    var k :| 0 <= k < |db.students| && db.students[k] == own;
    var j :| 0 <= j < |db.students| && db.students[j] == holder.value;
    assert j == k;
  }

  /** `POST /students/`: 422 for an invalid body, 400 when the roll number is already
      registered, otherwise the stored student. */
  method CreateStudent(db: Store, body: StudentCreate, now: int) returns (r: Result<Student>)
    requires db.Valid()
    modifies db
    ensures db.Valid()
    ensures r != Err(ServerError)
    ensures !ValidStudentCreate(body) ==> r.Err? && r.error == ValidateStudentCreate(body).error && unchanged(db)
    ensures ValidStudentCreate(body) && old(db.GetStudentByRollNo(body.rollNo)).Some? ==>
      r == Err(BadRequest(RollNoRegistered)) && unchanged(db)
    ensures r.Ok? <==> ValidStudentCreate(body) && old(db.GetStudentByRollNo(body.rollNo)).None?
    ensures r.Ok? ==>
      && r.value == Student(old(db.nextStudentId), body.name, body.rollNo, body.department, now)
      && db.students == old(db.students) + [r.value]
      && db.GetStudent(r.value.id) == Some(r.value)
    ensures db.polls == old(db.polls) && db.records == old(db.records)
    ensures old(db.Referential()) ==> db.Referential()
  {
    var valid := ValidateStudentCreate(body);
    if valid.Err? {
      return Err(valid.error);
    }
    if db.GetStudentByRollNo(body.rollNo).Some? {
      return Err(BadRequest(RollNoRegistered));
    }
    var committed := db.CreateStudent(body, now);
    match committed
    case IntegrityError => r := Err(ServerError);
    case Committed(s) => r := Ok(s);
  }

  /** `GET /students/{id}`: the student, or 404. */
  function GetStudent(db: Store, studentId: int): (r: Result<Student>)
    reads db
    ensures r.Ok? <==> exists i :: 0 <= i < |db.students| && db.students[i].id == studentId
    ensures r.Ok? ==> r.value in db.students && r.value.id == studentId
    ensures r.Err? ==> r.error == NotFound(StudentNotFound)
  {
    match db.GetStudent(studentId)
    case None => Err(NotFound(StudentNotFound))
    case Some(s) => Ok(s)
  }

  /** `PUT /students/{id}`: 422 for an invalid body; then 400 when another student holds
      the requested roll number, checked before the student is looked up; then 404;
      otherwise the updated student. */
  method UpdateStudent(db: Store, studentId: int, u: StudentUpdate) returns (r: Result<Student>)
    requires db.Valid()
    modifies db
    ensures db.Valid()
    ensures r != Err(ServerError)
    ensures !ValidStudentUpdate(u) ==> r.Err? && r.error == ValidateStudentUpdate(u).error && unchanged(db)
    ensures ValidStudentUpdate(u) && old(RollConflict(db, studentId, u)) ==>
      r == Err(BadRequest(RollNoTaken)) && unchanged(db)
    ensures ValidStudentUpdate(u) && !old(RollConflict(db, studentId, u)) && old(db.GetStudent(studentId)).None? ==>
      r == Err(NotFound(StudentNotFound)) && unchanged(db)
    ensures r.Ok? <==> ValidStudentUpdate(u) && !old(RollConflict(db, studentId, u)) && old(db.GetStudent(studentId)).Some?
    ensures r.Ok? ==> UpdatedFrom(r.value, old(db.GetStudent(studentId)).value, u)
    ensures r.Ok? ==>
      && |db.students| == |old(db.students)|
      && forall i :: 0 <= i < |db.students| ==>
           db.students[i] == if old(db.students)[i].id == studentId then r.value else old(db.students)[i]
    ensures db.polls == old(db.polls) && db.records == old(db.records)
    ensures old(db.Referential()) ==> db.Referential()
  {
    var valid := ValidateStudentUpdate(u);
    if valid.Err? {
      return Err(valid.error);
    }
    if RollConflict(db, studentId, u) {
      return Err(BadRequest(RollNoTaken));
    }
    RollConflictExactly(db, studentId, u);
    var committed := db.UpdateStudent(studentId, u);
    match committed
    case IntegrityError => r := Err(ServerError);
    case Committed(None) => r := Err(NotFound(StudentNotFound));
    case Committed(Some(s)) => r := Ok(s);
  }

  /** `DELETE /students/{id}`: 404 for an unknown student; an unhandled database error
      (500) for a student with attendance records; otherwise the student is gone. */
  method DeleteStudent(db: Store, studentId: int) returns (r: Result<()>)
    requires db.Valid()
    modifies db
    ensures db.Valid()
    ensures old(db.GetStudent(studentId)).None? ==> r == Err(NotFound(StudentNotFound)) && unchanged(db)
    ensures old(db.GetStudent(studentId)).Some? && old(db.IsReferenced(studentId)) ==> r == Err(ServerError) && unchanged(db)
    ensures r.Ok? <==> old(db.GetStudent(studentId)).Some? && !old(db.IsReferenced(studentId))
    ensures r.Ok? ==> GetStudent(db, studentId) == Err(NotFound(StudentNotFound))
    ensures r.Ok? ==> |db.students| == |old(db.students)| - 1
    ensures db.polls == old(db.polls) && db.records == old(db.records)
    ensures old(db.Referential()) ==> db.Referential()
  {
    var committed := db.DeleteStudent(studentId);
    match committed
    case IntegrityError => r := Err(ServerError);
    case Committed(false) => r := Err(NotFound(StudentNotFound));
    case Committed(true) => r := Ok(());
  }

  /** `DELETE /students/{id}` as the application's tests expect it: 404 for an unknown
      student; otherwise the student and every attendance record naming them are gone. */
  method DeleteStudentCascade(db: Store, studentId: int) returns (r: Result<()>)
    requires db.Valid()
    modifies db
    ensures db.Valid()
    ensures r == Err(NotFound(StudentNotFound)) <==> old(db.GetStudent(studentId)).None?
    ensures r.Err? ==> unchanged(db)
    ensures r.Ok? <==> old(db.GetStudent(studentId)).Some?
    ensures r.Ok? ==> GetStudent(db, studentId) == Err(NotFound(StudentNotFound)) && !db.IsReferenced(studentId)
    ensures r.Ok? ==> |db.students| == |old(db.students)| - 1 && db.records == RecordsWithout(old(db.records), studentId)
    ensures db.polls == old(db.polls)
    ensures NoDuplicateMarks(old(db.records)) ==> NoDuplicateMarks(db.records)
    ensures old(db.Referential()) ==> db.Referential()
  {
    var found := db.DeleteStudentCascade(studentId);
    r := if found then Ok(()) else Err(NotFound(StudentNotFound));
  }

  /** One student with one attendance record, as in the application's test of deleting a
      student who has attendance: the delete as written answers 500. */
  method DeleteWithAttendanceAsWritten() returns (r: Result<()>)
    ensures r == Err(ServerError)
  {
    var db := AttendedStore();
    r := DeleteStudent(db, 1);
  }

  /** The same store with the cascading delete: the student is deleted. */
  method DeleteWithAttendanceCascading() returns (r: Result<()>)
    ensures r.Ok?
  {
    var db := AttendedStore();
    r := DeleteStudentCascade(db, 1);
  }

  /** A store holding student 1, poll 1 and the record of student 1 marking poll 1. */
  method AttendedStore() returns (db: Store)
    ensures fresh(db) && db.Valid()
    ensures db.GetStudent(1).Some? && db.IsReferenced(1)
  {
    db := new Store();
    db.students := [Student(1, "John Doe", "TEST001", "Computer Science", 0)];
    db.polls := [Poll(1, 0, 300, 5, true, DefaultCreatedBy, 0)];
    db.records := [AttendanceRecord(1, 1, 1, 0)];
    db.nextStudentId, db.nextPollId, db.nextRecordId := 2, 2, 2;
    assert db.students[0].id == 1 && db.records[0].studentId == 1;
  }
}
