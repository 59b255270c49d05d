/** Request and response shapes of the HTTP API with their field constraints, and the
    errors the API answers with. */
module Schemas {
  import opened Seqs
  import opened Models

  const NameMaxLength: nat := 100
  const RollNoMaxLength: nat := 50
  const DepartmentMaxLength: nat := 100
  const MaxDurationMinutes: int := 60

  /** Body of a student creation. */
  datatype StudentCreate = StudentCreate(name: string, rollNo: string, department: string)

  /** Body of a student update: a field is `None` when the request leaves it out. */
  datatype StudentUpdate = StudentUpdate(name: Option<string>, rollNo: Option<string>, department: Option<string>)

  /** Body of a poll start. */
  datatype PollCreate = PollCreate(durationMinutes: int)

  /** Answer of the current-poll query. Only `isActive` is always present. */
  datatype PollStatus = PollStatus(
    isActive: bool,
    pollId: Option<int>,
    startTime: Option<int>,
    endTime: Option<int>,
    remainingSeconds: Option<int>)

  /** The status with every optional field left at its default. */
  const InactiveStatus: PollStatus := PollStatus(false, None, None, None, None)

  /** Body of a marking request: both ids are required integers. */
  datatype AttendanceMarkRequest = AttendanceMarkRequest(studentId: int, pollId: int)

  /** An attendance record as the API returns it, decorated with the student's name and roll number. */
  datatype AttendanceRecordResponse = AttendanceRecordResponse(
    id: int,
    studentId: int,
    pollId: int,
    markedAt: int,
    studentName: Option<string>,
    studentRollNo: Option<string>)

  /** The per-poll attendance report. The percentage is kept exact (no rounding). */
  datatype AttendanceLogResponse = AttendanceLogResponse(
    pollId: int,
    startTime: int,
    endTime: int,
    totalStudents: int,
    presentCount: int,
    absentCount: int,
    attendancePercentage: real,
    records: seq<AttendanceRecordResponse>)

  /** Errors as HTTP answers: 404 and 400 carry the handler's detail, 422 names the
      body fields that failed validation, 500 is an unhandled exception. */
  datatype ApiError =
    | NotFound(detail: string)
    | BadRequest(detail: string)
    | Unprocessable(fields: seq<string>)
    | ServerError

  datatype Result<T> = Ok(value: T) | Err(error: ApiError)

  /** The details the handlers answer with. */
  const StudentNotFound: string := "Student not found"
  const PollNotFound: string := "Poll not found"
  const RollNoRegistered: string := "Roll number already registered"
  const RollNoTaken: string := "Roll number already taken"
  const PollClosed: string := "Poll has expired or not yet started"

  function StatusCode(e: ApiError): (code: int)
    ensures 400 <= code < 600
    ensures e.NotFound? <==> code == 404
    ensures e.BadRequest? <==> code == 400
    ensures e.Unprocessable? <==> code == 422
    ensures e.ServerError? <==> code == 500
  {
    match e
    case NotFound(_) => 404
    case BadRequest(_) => 400
    case Unprocessable(_) => 422
    case ServerError => 500
  }

  /** A string field with `min_length=1` and the given `max_length`. */
  predicate LengthWithin(s: string, maxLength: nat) {
    1 <= |s| <= maxLength
  }

  predicate OptionalLengthWithin(s: Option<string>, maxLength: nat) {
    s.None? || LengthWithin(s.value, maxLength)
  }

  predicate ValidStudentCreate(s: StudentCreate) {
    && LengthWithin(s.name, NameMaxLength)
    && LengthWithin(s.rollNo, RollNoMaxLength)
    && LengthWithin(s.department, DepartmentMaxLength)
  }

  predicate ValidStudentUpdate(u: StudentUpdate) {
    && OptionalLengthWithin(u.name, NameMaxLength)
    && OptionalLengthWithin(u.rollNo, RollNoMaxLength)
    && OptionalLengthWithin(u.department, DepartmentMaxLength)
  }

  /** The names of the failing fields, in declaration order. */
  function FieldErrors(nameOk: bool, rollNoOk: bool, departmentOk: bool): (fields: seq<string>)
    ensures "name" in fields <==> !nameOk
    ensures "roll_no" in fields <==> !rollNoOk
    ensures "department" in fields <==> !departmentOk
    ensures fields == [] <==> nameOk && rollNoOk && departmentOk
  {
    (if nameOk then [] else ["name"])
    + (if rollNoOk then [] else ["roll_no"])
    + (if departmentOk then [] else ["department"])
  }

  /** Request validation of a creation body: 422 naming every field outside its bounds. */
  function ValidateStudentCreate(s: StudentCreate): (r: Result<StudentCreate>)
    ensures r.Ok? <==> ValidStudentCreate(s)
    ensures r.Ok? ==> r.value == s
    ensures r.Err? ==> r.error.Unprocessable?
    ensures r.Err? ==> ("name" in r.error.fields <==> !(1 <= |s.name| <= 100))
    ensures r.Err? ==> ("roll_no" in r.error.fields <==> !(1 <= |s.rollNo| <= 50))
    ensures r.Err? ==> ("department" in r.error.fields <==> !(1 <= |s.department| <= 100))
  {
    var fields := FieldErrors(
      LengthWithin(s.name, NameMaxLength),
      LengthWithin(s.rollNo, RollNoMaxLength),
      LengthWithin(s.department, DepartmentMaxLength));
    if fields == [] then Ok(s) else Err(Unprocessable(fields))
  }

  /** Request validation of an update body: absent fields always pass, present ones
      must meet the creation bounds. */
  function ValidateStudentUpdate(u: StudentUpdate): (r: Result<StudentUpdate>)
    ensures r.Ok? <==> ValidStudentUpdate(u)
    ensures r.Ok? ==> r.value == u
    ensures r.Err? ==> r.error.Unprocessable?
    ensures r.Err? ==> ("name" in r.error.fields <==> u.name.Some? && !(1 <= |u.name.value| <= 100))
    ensures r.Err? ==> ("roll_no" in r.error.fields <==> u.rollNo.Some? && !(1 <= |u.rollNo.value| <= 50))
    ensures r.Err? ==> ("department" in r.error.fields <==> u.department.Some? && !(1 <= |u.department.value| <= 100))
  {
    var fields := FieldErrors(
      OptionalLengthWithin(u.name, NameMaxLength),
      OptionalLengthWithin(u.rollNo, RollNoMaxLength),
      OptionalLengthWithin(u.department, DepartmentMaxLength));
    if fields == [] then Ok(u) else Err(Unprocessable(fields))
  }

  /** Request validation of a poll start: `duration_minutes` must be greater than 0
      and at most 60. */
  function ValidatePollCreate(durationMinutes: int): (r: Result<PollCreate>)
    ensures r.Ok? <==> 1 <= durationMinutes <= 60
    ensures r.Ok? ==> r.value.durationMinutes == durationMinutes
    ensures r.Err? ==> r.error == Unprocessable(["duration_minutes"])
  {
    if 0 < durationMinutes <= MaxDurationMinutes then Ok(PollCreate(durationMinutes))
    else Err(Unprocessable(["duration_minutes"]))
  }
}
