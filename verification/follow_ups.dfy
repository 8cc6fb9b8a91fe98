/** The Sales Follow-up page: logging a call, converting a follow-up into an
    enrolment (which cascades to the linked lead and booking), marking it
    lost (which cascades to the lead only), and the list filter. */
module FollowUps {
  import opened Wrappers
  import opened Text
  import opened Collections
  import opened Records

  /** The fields of the log-call modal. */
  datatype LogForm = LogForm(
    followUpStatus: FollowUpStatus,
    nextAction: string,
    nextActionDue: string,
    notes: string)

  const DueRequired: string := "Next action due date is required."
  const ActionRequired: string := "Please describe the next action."
  const ToBeScheduled: string := "To be scheduled"

  /** `after` differs from `before` at most in the five fields a call log writes. */
  predicate OnlyLogFieldsDiffer(before: FollowUp, after: FollowUp) {
    before.(followUpStatus := after.followUpStatus, nextAction := after.nextAction,
            nextActionDue := after.nextActionDue, notes := after.notes,
            lastContactedAt := after.lastContactedAt) == after
  }

  /** Logs a call against the modal's target.  The due date is checked
      before the action text; either failing leaves the follow-ups as they
      were.  `timestamp` stands for the current time. */
  function LogCall(items: seq<FollowUp>, target: Option<FollowUp>, form: LogForm, timestamp: string)
    : (r: Reply<seq<FollowUp>>)
    ensures target.None? ==> r == Reply(items, Silent)
    ensures target.Some? && form.nextActionDue == "" ==> r == Reply(items, Rejected(DueRequired))
    ensures (target.Some? && form.nextActionDue != "" && form.nextAction == "")
              ==> r == Reply(items, Rejected(ActionRequired))
    ensures r.outcome.Succeeded? <==> target.Some? && form.nextActionDue != "" && form.nextAction != ""
    ensures r.outcome.Succeeded? ==> |r.state| == |items|
    ensures r.outcome.Succeeded? ==>
              forall i :: 0 <= i < |items| && items[i].id != target.value.id ==> r.state[i] == items[i]
    ensures r.outcome.Succeeded? ==> forall i :: 0 <= i < |items| && items[i].id == target.value.id ==>
              && OnlyLogFieldsDiffer(items[i], r.state[i])
              && r.state[i].followUpStatus == form.followUpStatus
              && r.state[i].nextAction == form.nextAction
              && r.state[i].nextActionDue == form.nextActionDue
              && r.state[i].notes == form.notes
              && r.state[i].lastContactedAt == Some(timestamp)
  {
    if target.None? then Reply(items, Silent)
    else if form.nextActionDue == "" then Reply(items, Rejected(DueRequired))
    else if form.nextAction == "" then Reply(items, Rejected(ActionRequired))
    else
      var id := target.value.id;
      var next := seq(|items|, i requires 0 <= i < |items| =>
        if items[i].id == id then
          items[i].(followUpStatus := form.followUpStatus, nextAction := form.nextAction,
                    nextActionDue := form.nextActionDue, notes := form.notes,
                    lastContactedAt := Some(timestamp))
        else items[i]);
      Reply(next, Succeeded)
  }

  /** Submitting the same call log twice leaves the same follow-ups as
      submitting it once. */
  lemma LogCallIdempotent(items: seq<FollowUp>, target: FollowUp, form: LogForm, timestamp: string)
    ensures var once := LogCall(items, Some(target), form, timestamp).state;
            LogCall(once, Some(target), form, timestamp).state == once
  {
    var once := LogCall(items, Some(target), form, timestamp).state;
    var twice := LogCall(once, Some(target), form, timestamp).state;
    if form.nextActionDue != "" && form.nextAction != "" {
      assert |twice| == |once|;
      forall i | 0 <= i < |once|
        ensures twice[i] == once[i]
      {
        assert once[i].id == items[i].id;
      }
    }
  }

  /** The note written on an enrolment created from a follow-up. */
  function ConversionNote(record: FollowUp): string {
    "Converted from follow-up " + record.id + ". Contact: " + record.contact
  }

  /** Converts `record` into an enrolment: prepends a Pending Payment
      enrolment under the fresh id, drops the follow-up, and sets the
      linked lead and booking (when present and non-empty) to Converted.
      Placements are untouched. */
  function ConvertToEnrolment(store: Store, record: FollowUp, freshId: string, today: string)
    : (r: Store)
    requires FreshEnrolmentId(store.enrolments, freshId)
    ensures |r.enrolments| == |store.enrolments| + 1
    ensures r.enrolments[1..] == store.enrolments
    ensures r.enrolments[0] == Enrolment(freshId, record.student, record.preferredClass, today,
                                         PendingPayment, ToBeScheduled, ConversionNote(record))
    ensures UniqueEnrolmentIds(store.enrolments) ==> UniqueEnrolmentIds(r.enrolments)
    ensures IsSubsequence(r.followUps, store.followUps)
    ensures forall f :: f in r.followUps <==> f in store.followUps && f.id != record.id
    ensures forall f :: multiset(r.followUps)[f] == if f.id != record.id then multiset(store.followUps)[f] else 0
    ensures r.leads == if Linked(record.leadId)
                       then SetLeadStatus(store.leads, record.leadId.value, LeadStatus.Converted)
                       else store.leads
    ensures r.bookings == if Linked(record.bookingId)
                          then SetBookingStatus(store.bookings, record.bookingId.value, BookingStatus.Converted)
                          else store.bookings
    ensures r.placements == store.placements
  {
    var enrolment := Enrolment(freshId, record.student, record.preferredClass, today,
                               PendingPayment, ToBeScheduled, ConversionNote(record));
    var enrolments := [enrolment] + store.enrolments;
    assert enrolments[1..] == store.enrolments;
    Store(
      if Linked(record.leadId)
      then SetLeadStatus(store.leads, record.leadId.value, LeadStatus.Converted)
      else store.leads,
      if Linked(record.bookingId)
      then SetBookingStatus(store.bookings, record.bookingId.value, BookingStatus.Converted)
      else store.bookings,
      Filter(store.followUps, (f: FollowUp) => f.id != record.id),
      enrolments,
      store.placements)
  }

  /** The conversion of a follow-up linked to lead `L` and booking `B`: the
      follow-up is gone, an enrolment for its preferred class exists, and
      every record carrying `L` or `B` is Converted. */
  lemma ConversionAtomicity(store: Store, record: FollowUp, freshId: string, today: string)
    requires FreshEnrolmentId(store.enrolments, freshId)
    requires Linked(record.leadId) && Linked(record.bookingId)
    ensures var r := ConvertToEnrolment(store, record, freshId, today);
      && (forall f :: f in r.followUps ==> f.id != record.id)
      && (exists e :: e in r.enrolments && e.program == record.preferredClass && e.status == PendingPayment)
      && (forall l :: l in r.leads && l.id == record.leadId.value ==> l.status == LeadStatus.Converted)
      && (forall b :: b in r.bookings && b.id == record.bookingId.value ==> b.status == BookingStatus.Converted)
  {
    var r := ConvertToEnrolment(store, record, freshId, today);
    assert r.enrolments[0] in r.enrolments;
  }

  /** Marks `record` lost: its status becomes Lost and its notes are those
      of the record the button was pressed on; the linked lead (when present
      and non-empty) becomes Lost.  Bookings, enrolments and placements are
      never touched. */
  function MarkLost(store: Store, record: FollowUp): (r: Store)
    ensures |r.followUps| == |store.followUps|
    ensures forall i :: 0 <= i < |store.followUps| && store.followUps[i].id == record.id ==>
              r.followUps[i] == store.followUps[i].(followUpStatus := FollowUpStatus.Lost, notes := record.notes)
    ensures forall i :: 0 <= i < |store.followUps| && store.followUps[i].id != record.id ==>
              r.followUps[i] == store.followUps[i]
    ensures r.leads == if Linked(record.leadId)
                       then SetLeadStatus(store.leads, record.leadId.value, LeadStatus.Lost)
                       else store.leads
    ensures r.bookings == store.bookings
    ensures r.enrolments == store.enrolments
    ensures r.placements == store.placements
  {
    var followUps := seq(|store.followUps|, i requires 0 <= i < |store.followUps| =>
      if store.followUps[i].id == record.id
      then store.followUps[i].(followUpStatus := FollowUpStatus.Lost, notes := record.notes)
      else store.followUps[i]);
    store.(
      followUps := followUps,
      leads := if Linked(record.leadId)
               then SetLeadStatus(store.leads, record.leadId.value, LeadStatus.Lost)
               else store.leads)
  }

  /** Pressing Mark lost on a follow-up as it currently stands loses no
      information: the record keeps its notes and only its status moves. */
  lemma MarkLostKeepsNotes(store: Store, k: nat)
    requires k < |store.followUps|
    ensures var r := MarkLost(store, store.followUps[k]);
      r.followUps[k] == store.followUps[k].(followUpStatus := FollowUpStatus.Lost)
  {
  }

  /** The list filters of the page. `status` is `None` for 'All'. */
  datatype FollowUpQuery = FollowUpQuery(
    status: Option<FollowUpStatus>,
    owner: string,
    search: string,
    overdueOnly: bool)

  /** One follow-up passes the filters: status and owner drop-downs, the
      trimmed lower-case search text within its trimmed lower-case student,
      contact, next action and notes, and, when asked, a due date before
      `today` (a `YYYY-MM-DD` string compared as a string). */
  predicate FollowUpMatches(item: FollowUp, q: FollowUpQuery, today: string) {
    && SelectsStatus(q.status, item.followUpStatus)
    && Selects(q.owner, item.owner)
    && Contains(Trim(Lower(item.student + item.contact + item.nextAction + item.notes)),
                Trim(Lower(q.search)))
    && (q.overdueOnly ==> LexLess(item.nextActionDue, today))
  }

  /** The visible follow-ups: those passing the filters, in list order. */
  function FilterFollowUps(items: seq<FollowUp>, q: FollowUpQuery, today: string)
    : (r: seq<FollowUp>)
    ensures IsSubsequence(r, items)
    ensures forall x :: x in r <==> x in items && FollowUpMatches(x, q, today)
    ensures forall x :: multiset(r)[x] == if FollowUpMatches(x, q, today) then multiset(items)[x] else 0
  {
    Filter(items, x => FollowUpMatches(x, q, today))
  }

  /** With every selector on 'All', no search text and overdue-only off,
      every follow-up is shown, in order. */
  lemma FilterFollowUpsShowsAll(items: seq<FollowUp>, today: string)
    ensures FilterFollowUps(items, FollowUpQuery(None, "All", "", false), today) == items
  {
    var q := FollowUpQuery(None, "All", "", false);
    assert Trim(Lower("")) == "";
    forall i | 0 <= i < |items|
      ensures FollowUpMatches(items[i], q, today)
    {
      var x := items[i];
      ContainsEmpty(Trim(Lower(x.student + x.contact + x.nextAction + x.notes)));
    }
  }

  function OwnerOf(item: FollowUp): string { item.owner }

  /** The owner drop-down: 'All' and then each owner once, in the order of
      their first follow-up in the list. */
  function OwnerOptions(items: seq<FollowUp>): (r: seq<string>)
    ensures |r| >= 1 && r[0] == "All"
    ensures NoDuplicates(r[1..])
    ensures forall o :: o in r[1..] <==> exists i :: 0 <= i < |items| && items[i].owner == o
    ensures FirstOccurrenceOrder(r[1..], MapSeq(items, OwnerOf))
  {
    Options(MapSeq(items, OwnerOf))
  }
}
