/** The Free Trials page: the quick-intake form, the convert button and the
    list filter.  The page keeps its own list of leads, seeded from the
    same data as the shared store but never written back to it. */
module FreeTrials {
  import opened Wrappers
  import opened Text
  import opened Collections
  import opened Records

  /** The fields of the add-lead modal: a lead without its id, whose notes
      are absent until the notes box has been typed into. */
  datatype LeadForm = LeadForm(
    student: string,
    contact: string,
    preferredClass: string,
    status: LeadStatus,
    owner: string,
    createdAt: string,
    notes: Option<string>)

  const FieldsRequired: string := "Please fill the required fields."
  const IntakeNote: string := "New lead added via quick intake."

  /** The lead a valid form creates under `freshId`.  The notes default
      applies only to notes never typed: an emptied notes box keeps "". */
  function NewLead(form: LeadForm, freshId: string): (l: Lead)
    ensures l.id == freshId
    ensures form.notes.Some? ==> l.notes == form.notes.value
    ensures form.notes.None? ==> l.notes == IntakeNote
    ensures l.(id := freshId, notes := "") ==
            Lead(freshId, form.student, form.contact, form.preferredClass, form.status,
                 form.owner, form.createdAt, "")
  {
    Lead(freshId, form.student, form.contact, form.preferredClass, form.status,
         form.owner, form.createdAt, form.notes.GetOr(IntakeNote))
  }

  /** Saves the form: an empty student, contact or preferred class rejects
      without change; otherwise the new lead goes to the front of the list. */
  function SubmitLead(leads: seq<Lead>, form: LeadForm, freshId: string): (r: Reply<seq<Lead>>)
    requires FreshLeadId(leads, freshId)
    ensures r.outcome.Rejected? <==> form.student == "" || form.contact == "" || form.preferredClass == ""
    ensures r.outcome.Rejected? ==> r == Reply(leads, Rejected(FieldsRequired))
    ensures !r.outcome.Rejected? ==> r.outcome == Succeeded
    ensures r.outcome.Succeeded? ==>
              && |r.state| == |leads| + 1
              && r.state[0] == NewLead(form, freshId)
              && r.state[1..] == leads
    ensures UniqueLeadIds(leads) ==> UniqueLeadIds(r.state)
  {
    if form.student == "" || form.contact == "" || form.preferredClass == "" then
      Reply(leads, Rejected(FieldsRequired))
    else
      var next := [NewLead(form, freshId)] + leads;
      assert next[1..] == leads;
      Reply(next, Succeeded)
  }

  /** A saved lead is found again by the list filter under its own status
      and an empty search. */
  lemma SubmittedLeadListed(leads: seq<Lead>, form: LeadForm, freshId: string)
    requires FreshLeadId(leads, freshId)
    requires form.student != "" && form.contact != "" && form.preferredClass != ""
    ensures var r := SubmitLead(leads, form, freshId);
      NewLead(form, freshId) in FilterLeads(r.state, Some(form.status), "")
  {
    var l := NewLead(form, freshId);
    var r := SubmitLead(leads, form, freshId);
    assert r.state[0] == l;
    ContainsEmpty(Lower(l.student + l.contact + l.preferredClass + l.owner));
  }

  /** The convert button: every lead carrying the pressed lead's id becomes
      Converted, every other lead stays as it was. */
  function ConvertLead(leads: seq<Lead>, lead: Lead): (r: seq<Lead>)
    ensures |r| == |leads|
    ensures forall i :: 0 <= i < |leads| && leads[i].id == lead.id ==>
              r[i] == leads[i].(status := LeadStatus.Converted)
    ensures forall i :: 0 <= i < |leads| && leads[i].id != lead.id ==> r[i] == leads[i]
  {
    SetLeadStatus(leads, lead.id, LeadStatus.Converted)
  }

  /** Pressing convert twice on the same lead is pressing it once. */
  lemma ConvertLeadIdempotent(leads: seq<Lead>, lead: Lead)
    ensures ConvertLead(ConvertLead(leads, lead), lead) == ConvertLead(leads, lead)
  {
    SetLeadStatusIdempotent(leads, lead.id, LeadStatus.Converted);
  }

  /** The list filters: the status drop-down (`None` for 'All') and the
      lower-case search text within the lower-case student, contact,
      preferred class and owner run together. */
  predicate LeadMatches(l: Lead, status: Option<LeadStatus>, search: string) {
    && SelectsStatus(status, l.status)
    && Contains(Lower(l.student + l.contact + l.preferredClass + l.owner), Lower(search))
  }

  /** The visible leads: those passing the filters, in list order. */
  function FilterLeads(leads: seq<Lead>, status: Option<LeadStatus>, search: string)
    : (r: seq<Lead>)
    ensures IsSubsequence(r, leads)
    ensures forall l :: l in r <==> l in leads && LeadMatches(l, status, search)
    ensures forall l :: multiset(r)[l] == if LeadMatches(l, status, search) then multiset(leads)[l] else 0
  {
    Filter(leads, (l: Lead) => LeadMatches(l, status, search))
  }

  /** With 'All' statuses and no search text every lead is shown, in order. */
  lemma FilterLeadsShowsAll(leads: seq<Lead>)
    ensures FilterLeads(leads, None, "") == leads
  {
    forall i | 0 <= i < |leads|
      ensures LeadMatches(leads[i], None, "")
    {
      var l := leads[i];
      ContainsEmpty(Lower(l.student + l.contact + l.preferredClass + l.owner));
    }
  }

  /** A converted lead is listed under the Converted status filter. */
  lemma ConvertedLeadListed(leads: seq<Lead>, k: nat)
    requires k < |leads|
    ensures var r := ConvertLead(leads, leads[k]);
      r[k] in FilterLeads(r, Some(LeadStatus.Converted), "")
  {
    var r := ConvertLead(leads, leads[k]);
    var l := r[k];
    ContainsEmpty(Lower(l.student + l.contact + l.preferredClass + l.owner));
  }
}
