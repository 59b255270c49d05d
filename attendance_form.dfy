/** The student's attendance form: the roll-number lookup and the submit state machine
    around the awaited marking call. */
module AttendanceForm {
  import opened Seqs
  import opened Models

  const NotFoundMessage: string := "Student not found. Please check your roll number."
  const FallbackMessage: string := "Failed to mark attendance"

  /** How the awaited `onSubmit` call ended: resolved, or rejected with the server's
      `detail` when the error carries a response with one. */
  datatype Outcome = Resolved | Rejected(detail: Option<string>)

  /** `students.find((s) => s.roll_no === rollNo)`: the first exact, case-sensitive match. */
  function FindByRollNo(students: seq<Student>, rollNo: string): (r: Option<Student>)
    ensures r.None? <==> forall i :: 0 <= i < |students| ==> students[i].rollNo != rollNo
    ensures r.Some? ==> r.value.rollNo == rollNo
    ensures r.Some? ==> exists i :: 0 <= i < |students| && students[i] == r.value && forall j :: 0 <= j < i ==> students[j].rollNo != rollNo
  {
    Find(students, (s: Student) => s.rollNo == rollNo)
  }

  /** `err.response?.data?.detail || 'Failed to mark attendance'`: a missing or empty
      detail falls back to the generic message. */
  function ErrorMessage(detail: Option<string>): (m: string)
    ensures m != ""
    ensures detail.Some? && detail.value != "" ==> m == detail.value
    ensures detail.None? || detail.value == "" ==> m == FallbackMessage
  {
    if detail.Some? && detail.value != "" then detail.value else FallbackMessage
  }

  /** The form's state. `students` is the list the page passes in. */
  class Form {
    const students: seq<Student>
    var rollNo: string
    var loading: bool
    var error: string
    var success: bool

    constructor (students: seq<Student>)
      ensures this.students == students
      ensures rollNo == "" && !loading && error == "" && !success
    {
      this.students := students;
      rollNo, loading, error, success := "", false, "", false;
    }

    /** `disabled={loading || !rollNo}`: the button is enabled only while no call is in
        flight and a roll number has been typed. */
    function SubmitDisabled(): (b: bool)
      reads this
      ensures !b <==> !loading && |rollNo| > 0
    {
      loading || rollNo == ""
    }

    /** The input's `onChange`. */
    method Type(value: string)
      modifies this
      ensures rollNo == value
      ensures loading == old(loading) && error == old(error) && success == old(success)
    {
      rollNo := value;
    }

    /** `handleSubmit` up to the awaited call: clears the error and the success flag,
        looks the roll number up, and either reports it unknown or starts loading.
        Returns the id `onSubmit` is called with, if it is called. */
    method Submit() returns (call: Option<int>)
      modifies this
      ensures rollNo == old(rollNo) && !success
      ensures FindByRollNo(students, rollNo).None? ==>
        call.None? && error == NotFoundMessage && loading == old(loading)
      ensures FindByRollNo(students, rollNo).Some? ==>
        call == Some(FindByRollNo(students, rollNo).value.id) && error == "" && loading
      ensures call.Some? ==> SubmitDisabled()
    {
      error := "";
      success := false;
      var student := FindByRollNo(students, rollNo);
      if student.None? {
        error := NotFoundMessage;
        return None;
      }
      loading := true;
      call := Some(student.value.id);
    }

    /** `handleSubmit` after the awaited call: on success the banner shows and the input
        is cleared; on failure the error shows and the input is kept; loading ends either way. */
    method Settle(outcome: Outcome)
      modifies this
      ensures !loading
      ensures outcome.Resolved? ==> success && rollNo == "" && error == old(error)
      ensures outcome.Rejected? ==> success == old(success) && rollNo == old(rollNo) && error == ErrorMessage(outcome.detail)
      ensures outcome.Resolved? ==> SubmitDisabled()
    {
      match outcome {
        case Resolved =>
          success := true;
          rollNo := "";
        case Rejected(detail) =>
          error := ErrorMessage(detail);
      }
      loading := false;
    }

    /** The whole submit: `onSubmit` is called at most once, with the id of the first
        student holding the typed roll number, and `outcome` is how that call ended. */
    method HandleSubmit(outcome: Outcome) returns (call: Option<int>)
      modifies this
      ensures call.None? <==> FindByRollNo(students, old(rollNo)).None?
      ensures call.Some? ==> call.value == FindByRollNo(students, old(rollNo)).value.id
      ensures call.None? ==>
        error == NotFoundMessage && !success && rollNo == old(rollNo) && loading == old(loading)
      ensures call.Some? && outcome.Resolved? ==> success && rollNo == "" && error == "" && !loading
      ensures call.Some? && outcome.Rejected? ==>
        !success && rollNo == old(rollNo) && error == ErrorMessage(outcome.detail) && !loading
    {
      call := Submit();
      if call.Some? {
        Settle(outcome);
      }
    }

    /** The timer three seconds after a success hides the banner. */
    method DismissSuccess()
      modifies this
      ensures !success
      ensures rollNo == old(rollNo) && loading == old(loading) && error == old(error)
    {
      success := false;
    }
  }
}
