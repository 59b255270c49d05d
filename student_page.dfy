/** The student page: the marking callback handed to the form and when the form is shown. */
module StudentPage {
  import opened Seqs
  import opened Models
  import opened Schemas
  import opened Crud
  import AttendanceRouter
  import AttendanceForm
  import AdminPollPage

  const NoActivePollMessage: string := "No active poll"

  /** What `handleMarkAttendance` does: throws before any request, or asks the server
      to mark the student for the status's poll. */
  datatype MarkCall = Thrown(message: string) | Request(studentId: int, pollId: int)

  /** `handleMarkAttendance`: throws unless the status carries a poll id other than 0. */
  function HandleMarkAttendance(status: Option<PollStatus>, studentId: int): (r: MarkCall)
    ensures r.Thrown? <==> status.None? || status.value.pollId.None? || status.value.pollId.value == 0
    ensures r.Thrown? ==> r.message == NoActivePollMessage
    ensures r.Request? ==> r.studentId == studentId && status.value.pollId == Some(r.pollId)
  {
    if status.None? || status.value.pollId.None? || status.value.pollId.value == 0 then Thrown(NoActivePollMessage)
    else Request(studentId, status.value.pollId.value)
  }

  /** `pollStatus?.is_active && students`: the form, or otherwise the "No Active Poll"
      panel. An empty but loaded list still shows the form. */
  function ShowAttendanceForm(status: Option<PollStatus>, students: Option<seq<Student>>): (b: bool)
    ensures b <==> status.Some? && status.value.isActive && students.Some?
  {
    status.Some? && status.value.isActive && students.Some?
  }

  /** What the form's `catch` reads as `err.response?.data?.detail`: the handler's detail
      of a 404 or 400, nothing for a 500, whose body is not JSON. */
  function ResponseDetail(e: ApiError): (d: Option<string>)
    ensures e.NotFound? || e.BadRequest? ==> d == Some(e.detail)
    ensures e.ServerError? ==> d.None?
  {
    match e
    case NotFound(detail) => Some(detail)
    case BadRequest(detail) => Some(detail)
    case Unprocessable(_) => None
    case ServerError => None
  }

  /** How the awaited `onSubmit` ends: an `Error` thrown before any request has no
      `response`, so it is rejected without a detail; a request ends as the server answered. */
  function OutcomeOf(call: MarkCall, answer: Result<AttendanceRecordResponse>): (o: AttendanceForm.Outcome)
    ensures call.Thrown? ==> o == AttendanceForm.Rejected(None)
    ensures call.Request? ==> (o.Resolved? <==> answer.Ok?)
    ensures call.Request? && answer.Err? ==> o == AttendanceForm.Rejected(ResponseDetail(answer.error))
  {
    match call
    case Thrown(_) => AttendanceForm.Rejected(None)
    case Request(_, _) => if answer.Ok? then AttendanceForm.Resolved else AttendanceForm.Rejected(ResponseDetail(answer.error))
  }

  /** Submitting the form on this page: the form looks the typed roll number up, calls
      `handleMarkAttendance` with that student's id, and settles with how the call ended;
      `answer` is what the server answers if a request is sent. Without a poll id the
      thrown "No active poll" never reaches the student: the form shows the generic message. */
  method SubmitOnPage(form: AttendanceForm.Form, status: Option<PollStatus>, answer: Result<AttendanceRecordResponse>)
    returns (call: Option<MarkCall>)
    modifies form
    ensures call.None? <==> AttendanceForm.FindByRollNo(form.students, old(form.rollNo)).None?
    ensures call.None? ==> form.error == AttendanceForm.NotFoundMessage && !form.success
    ensures call.Some? ==>
      call.value == HandleMarkAttendance(status, AttendanceForm.FindByRollNo(form.students, old(form.rollNo)).value.id)
    ensures call.Some? && call.value.Thrown? ==>
      && form.error == AttendanceForm.FallbackMessage && form.error != NoActivePollMessage
      && !form.success && form.rollNo == old(form.rollNo) && !form.loading
    ensures call.Some? && call.value.Request? && answer.Ok? ==>
      form.success && form.rollNo == "" && form.error == "" && !form.loading
    ensures call.Some? && call.value.Request? && answer.Err? ==>
      && form.error == AttendanceForm.ErrorMessage(ResponseDetail(answer.error))
      && !form.success && form.rollNo == old(form.rollNo) && !form.loading
  {
    var id := form.Submit();
    if id.None? {
      return None;
    }
    var markCall := HandleMarkAttendance(status, id.value);
    form.Settle(OutcomeOf(markCall, answer));
    call := Some(markCall);
  }

  /** The page's student list is also `GET /students/`, at most 100 rows: a student past
      the first 100 is unknown to the form, which answers "Student not found". */
  lemma BeyondFirstPageNotFound(db: Store, k: nat)
    requires db.Valid() && 100 <= k < |db.students|
    ensures AttendanceForm.FindByRollNo(AdminPollPage.ListedStudentsAsWritten(db), db.students[k].rollNo).None?
  {
    var listed := AdminPollPage.ListedStudentsAsWritten(db);
    forall i | 0 <= i < |listed| ensures listed[i].rollNo != db.students[k].rollNo {
      assert listed[i] == db.students[i];
    }
  }

  /** Whenever the form is shown for a status the server produced, submitting it sends
      a request for the server's active poll: the callback never throws. */
  lemma {:induction false} ShownFormRequestsActivePoll(db: Store, queryNow: int, now: int, students: Option<seq<Student>>, studentId: int)
    requires db.Valid()
    requires ShowAttendanceForm(Some(AttendanceRouter.GetCurrentPoll(db, queryNow, now)), students)
    ensures HandleMarkAttendance(Some(AttendanceRouter.GetCurrentPoll(db, queryNow, now)), studentId)
      == Request(studentId, db.GetActivePoll(queryNow).value.id)
  {
    var p := db.GetActivePoll(queryNow).value;
    var k :| 0 <= k < |db.polls| && db.polls[k] == p;
  }
}
