/** The Enrolments page: adding an enrolment, the status toggle button and
    the list filter. */
module Enrolments {
  import opened Wrappers
  import opened Text
  import opened Collections
  import opened Records

  /** The fields of the add-enrolment modal: an enrolment without its id. */
  datatype EnrolmentForm = EnrolmentForm(
    student: string,
    program: string,
    enrolmentDate: string,
    status: EnrolmentStatus,
    nextPayment: string,
    notes: string)

  const StudentAndProgramRequired: string := "Student and program are required."

  /** Adds the form as a new enrolment at the front of the list, under the
      fresh id; an empty student or program rejects without change. */
  function AddEnrolment(es: seq<Enrolment>, form: EnrolmentForm, freshId: string)
    : (r: Reply<seq<Enrolment>>)
    requires FreshEnrolmentId(es, freshId)
    ensures form.student == "" || form.program == "" <==> r.outcome.Rejected?
    ensures r.outcome.Rejected? ==> r == Reply(es, Rejected(StudentAndProgramRequired))
    ensures !r.outcome.Rejected? ==> r.outcome == Succeeded
    ensures r.outcome.Succeeded? ==>
              && |r.state| == |es| + 1
              && r.state[1..] == es
              && r.state[0] == Enrolment(freshId, form.student, form.program, form.enrolmentDate,
                                         form.status, form.nextPayment, form.notes)
    ensures UniqueEnrolmentIds(es) ==> UniqueEnrolmentIds(r.state)
  {
    if form.student == "" || form.program == "" then
      Reply(es, Rejected(StudentAndProgramRequired))
    else
      var record := Enrolment(freshId, form.student, form.program, form.enrolmentDate,
                              form.status, form.nextPayment, form.notes);
      assert ([record] + es)[1..] == es;
      Reply([record] + es, Succeeded)
  }

  /** The toggle button's transition table: Active goes to Paused, Cancelled
      stays Cancelled, and Pending Payment and Paused go to Active. */
  function NextStatus(s: EnrolmentStatus): (r: EnrolmentStatus)
    ensures r != PendingPayment
    ensures s == EnrolmentStatus.Cancelled <==> r == EnrolmentStatus.Cancelled
    ensures s == EnrolmentStatus.Active <==> r == EnrolmentStatus.Paused
  {
    match s
    case PendingPayment => EnrolmentStatus.Active
    case Active => EnrolmentStatus.Paused
    case Paused => EnrolmentStatus.Active
    case Cancelled => EnrolmentStatus.Cancelled
  }

  /** After the first press the toggle only swings between Active and
      Paused: every press moves a record that is not Cancelled, pressing
      twice returns an Active or Paused record to where it was, and every
      status lands there or stays Cancelled. */
  lemma NextStatusCycle(s: EnrolmentStatus)
    ensures s != EnrolmentStatus.Cancelled ==> NextStatus(s) != s
    ensures s == EnrolmentStatus.Active || s == EnrolmentStatus.Paused ==> NextStatus(NextStatus(s)) == s
    ensures NextStatus(s) in {EnrolmentStatus.Active, EnrolmentStatus.Paused, EnrolmentStatus.Cancelled}
  {
  }

  /** The status toggle pressed on `record`: every enrolment carrying its id
      takes the status that follows the status `record` showed; nothing else
      changes. */
  function ToggleStatus(es: seq<Enrolment>, record: Enrolment): (r: seq<Enrolment>)
    ensures |r| == |es|
    ensures forall i :: 0 <= i < |es| && es[i].id != record.id ==> r[i] == es[i]
    ensures forall i :: 0 <= i < |es| && es[i].id == record.id ==>
              r[i] == es[i].(status := NextStatus(record.status))
    ensures forall i :: 0 <= i < |r| ==> r[i].id == es[i].id
    ensures forall i :: 0 <= i < |r| && r[i].id == record.id ==> r[i].status != PendingPayment
  {
    seq(|es|, i requires 0 <= i < |es| =>
      if es[i].id == record.id then es[i].(status := NextStatus(record.status)) else es[i])
  }

  /** Pressing the toggle `n` times on the same `record`. */
  function ToggleTimes(es: seq<Enrolment>, record: Enrolment, n: nat): seq<Enrolment>
    decreases n
  {
    if n == 0 then es else ToggleStatus(ToggleTimes(es, record, n - 1), record)
  }

  /** Cancelled is absorbing: toggling a Cancelled record any number of
      times leaves every enrolment of that id Cancelled, and once they are,
      further presses change nothing. */
  lemma {:induction false} CancelledAbsorbing(es: seq<Enrolment>, record: Enrolment, n: nat)
    requires record.status == EnrolmentStatus.Cancelled
    requires forall i :: 0 <= i < |es| && es[i].id == record.id ==> es[i].status == EnrolmentStatus.Cancelled
    ensures ToggleTimes(es, record, n) == es
    decreases n
  {
    if n > 0 {
      CancelledAbsorbing(es, record, n - 1);
      var t := ToggleStatus(es, record);
      assert forall i :: 0 <= i < |es| ==> t[i] == es[i];
    }
  }

  /** The list filters: the status drop-down (`None` for 'All') and the
      lower-case search text within the lower-case student and program. */
  predicate EnrolmentMatches(e: Enrolment, status: Option<EnrolmentStatus>, search: string) {
    && SelectsStatus(status, e.status)
    && Contains(Lower(e.student + e.program), Lower(search))
  }

  /** The visible enrolments: those passing the filters, in list order. */
  function FilterEnrolments(es: seq<Enrolment>, status: Option<EnrolmentStatus>, search: string)
    : (r: seq<Enrolment>)
    ensures IsSubsequence(r, es)
    ensures forall e :: e in r <==> e in es && EnrolmentMatches(e, status, search)
    ensures forall e :: multiset(r)[e] == if EnrolmentMatches(e, status, search) then multiset(es)[e] else 0
  {
    Filter(es, (e: Enrolment) => EnrolmentMatches(e, status, search))
  }

  /** The search is case-insensitive: a search text that occurs in the
      student's name, in any letter case, keeps the enrolment. */
  lemma SearchFindsStudent(e: Enrolment, search: string)
    requires Contains(Lower(e.student), Lower(search))
    ensures EnrolmentMatches(e, None, search)
  {
    LowerConcat(e.student, e.program);
    var h := Lower(e.student + e.program);
    var n := Lower(search);
    var k :| 0 <= k <= |Lower(e.student)| - |n| && OccursAt(Lower(e.student), n, k);
    assert h[k..k + |n|] == Lower(e.student)[k..k + |n|];
    assert OccursAt(h, n, k);
  }
}
