/** The console's record types and the in-memory store holding the five
    shared collections.  Optional fields (`leadId?`, `notes?`) become
    `Option`s; string-literal unions become enumerations. */
module Records {
  import opened Wrappers

  // ---------------------------------------------------------------- leads

  datatype LeadStatus = New | Contacted | TrialScheduled | InFollowUp | Converted | Lost

  /** A free-trial inquiry. */
  datatype Lead = Lead(
    id: string,
    student: string,
    contact: string,
    preferredClass: string,
    status: LeadStatus,
    owner: string,
    createdAt: string,
    notes: string)

  // ------------------------------------------------------------- bookings

  datatype BookingStatus = Scheduled | Confirmed | Completed | Converted | NoShow

  /** A scheduled trial class; `weekOf` is the Monday date key of its week. */
  datatype Booking = Booking(
    id: string,
    leadId: Option<string>,
    student: string,
    contact: string,
    preferredClass: string,
    owner: string,
    coach: string,
    location: string,
    scheduledAt: string,
    weekOf: string,
    status: BookingStatus,
    notes: string)

  // ----------------------------------------------------------- follow-ups

  datatype FollowUpStatus = PendingCall | Attempted | NeedsManager | Won | Lost

  datatype TrialOutcome = Attended | NoShow | Cancelled

  /** A post-trial sales task, optionally linked to its lead and booking. */
  datatype FollowUp = FollowUp(
    id: string,
    leadId: Option<string>,
    bookingId: Option<string>,
    student: string,
    contact: string,
    owner: string,
    preferredClass: string,
    trialOutcome: TrialOutcome,
    followUpStatus: FollowUpStatus,
    lastContactedAt: Option<string>,
    nextAction: string,
    nextActionDue: string,
    notes: string,
    createdAt: string)

  // ----------------------------------------------------------- enrolments

  datatype EnrolmentStatus = PendingPayment | Active | Paused | Cancelled

  /** A paying student's registration in a program. */
  datatype Enrolment = Enrolment(
    id: string,
    student: string,
    program: string,
    enrolmentDate: string,
    status: EnrolmentStatus,
    nextPayment: string,
    notes: string)

  // ---------------------------------------------------------- internships

  datatype InternshipStatus = Onboarding | Active | Paused | Completed

  /** An internship with hour tracking; hours are JavaScript numbers, here reals. */
  datatype Placement = Placement(
    id: string,
    intern: string,
    program: string,
    placementDates: string,
    mentor: string,
    location: string,
    hoursCompleted: real,
    targetHours: real,
    status: InternshipStatus,
    nextCheckIn: string,
    goals: string,
    notes: Option<string>)

  // -------------------------------------------------------------- classes

  /** A class on the weekly roster. */
  datatype ClassSession = ClassSession(
    id: string,
    name: string,
    schedule: string,
    coach: string,
    location: string,
    capacity: real,
    enrolled: real,
    tags: Option<seq<string>>)

  // ---------------------------------------------------------------- store

  /** The five shared collections the page handlers read and replace. */
  datatype Store = Store(
    leads: seq<Lead>,
    bookings: seq<Booking>,
    followUps: seq<FollowUp>,
    enrolments: seq<Enrolment>,
    placements: seq<Placement>)

  /** JavaScript truthiness of an optional id: present and non-empty. */
  predicate Linked(ref: Option<string>) {
    ref.Some? && ref.value != ""
  }

  predicate UniqueEnrolmentIds(es: seq<Enrolment>) {
    forall i, j :: 0 <= i < j < |es| ==> es[i].id != es[j].id
  }

  predicate UniqueLeadIds(ls: seq<Lead>) {
    forall i, j :: 0 <= i < j < |ls| ==> ls[i].id != ls[j].id
  }

  predicate FreshEnrolmentId(es: seq<Enrolment>, id: string) {
    forall i :: 0 <= i < |es| ==> es[i].id != id
  }

  predicate FreshLeadId(ls: seq<Lead>, id: string) {
    forall i :: 0 <= i < |ls| ==> ls[i].id != id
  }

  /** A drop-down selector: `'All'` matches anything, any other value only itself. */
  predicate Selects(selector: string, value: string) {
    selector == "All" || value == selector
  }

  /** A status drop-down, `None` standing for `'All'`. */
  predicate SelectsStatus<S(==)>(selector: Option<S>, value: S) {
    selector.None? || value == selector.value
  }

  /** Sets `status` on every lead whose id is `id` (the `map` the lead
      cascades and the lead convert button perform); a missing id is a no-op. */
  function SetLeadStatus(leads: seq<Lead>, id: string, status: LeadStatus): (r: seq<Lead>)
    ensures |r| == |leads|
    ensures forall i :: 0 <= i < |leads| && leads[i].id == id ==> r[i] == leads[i].(status := status)
    ensures forall i :: 0 <= i < |leads| && leads[i].id != id ==> r[i] == leads[i]
    ensures forall i :: 0 <= i < |r| ==> r[i].id == leads[i].id
  {
    seq(|leads|, i requires 0 <= i < |leads| =>
      if leads[i].id == id then leads[i].(status := status) else leads[i])
  }

  /** Sets `status` on every booking whose id is `id`. */
  function SetBookingStatus(bookings: seq<Booking>, id: string, status: BookingStatus): (r: seq<Booking>)
    ensures |r| == |bookings|
    ensures forall i :: 0 <= i < |bookings| && bookings[i].id == id ==> r[i] == bookings[i].(status := status)
    ensures forall i :: 0 <= i < |bookings| && bookings[i].id != id ==> r[i] == bookings[i]
    ensures forall i :: 0 <= i < |r| ==> r[i].id == bookings[i].id
  {
    seq(|bookings|, i requires 0 <= i < |bookings| =>
      if bookings[i].id == id then bookings[i].(status := status) else bookings[i])
  }

  /** Setting a lead status twice is setting it once. */
  lemma SetLeadStatusIdempotent(leads: seq<Lead>, id: string, status: LeadStatus)
    ensures SetLeadStatus(SetLeadStatus(leads, id, status), id, status) == SetLeadStatus(leads, id, status)
  {
    var once := SetLeadStatus(leads, id, status);
    var twice := SetLeadStatus(once, id, status);
    assert forall i :: 0 <= i < |leads| ==> twice[i] == once[i];
  }
}
