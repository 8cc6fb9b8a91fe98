/** The Class Scheduling page: the coach and location filters with their
    option lists, the edit form's save, and the mock assign-students modal
    with its check boxes. */
module ClassScheduling {
  import opened Wrappers
  import opened Collections
  import opened Records

  function CoachOf(c: ClassSession): string { c.coach }
  function LocationOf(c: ClassSession): string { c.location }

  /** The coach drop-down: 'All' and then each coach once, in the order of
      their first class in the list. */
  function Coaches(records: seq<ClassSession>): (r: seq<string>)
    ensures |r| >= 1 && r[0] == "All"
    ensures NoDuplicates(r[1..])
    ensures forall c :: c in r[1..] <==> exists i :: 0 <= i < |records| && records[i].coach == c
    ensures FirstOccurrenceOrder(r[1..], MapSeq(records, CoachOf))
  {
    Options(MapSeq(records, CoachOf))
  }

  /** The location drop-down: 'All' and then each location once, in the
      order of their first class in the list. */
  function Locations(records: seq<ClassSession>): (r: seq<string>)
    ensures |r| >= 1 && r[0] == "All"
    ensures NoDuplicates(r[1..])
    ensures forall l :: l in r[1..] <==> exists i :: 0 <= i < |records| && records[i].location == l
    ensures FirstOccurrenceOrder(r[1..], MapSeq(records, LocationOf))
  {
    Options(MapSeq(records, LocationOf))
  }

  /** One class passes the coach and location drop-downs. */
  predicate ClassMatches(c: ClassSession, coach: string, location: string) {
    Selects(coach, c.coach) && Selects(location, c.location)
  }

  /** The visible classes, in list order. */
  function FilterClasses(records: seq<ClassSession>, coach: string, location: string)
    : (r: seq<ClassSession>)
    ensures IsSubsequence(r, records)
    ensures forall c :: c in r <==> c in records && ClassMatches(c, coach, location)
    ensures forall c :: multiset(r)[c] == if ClassMatches(c, coach, location) then multiset(records)[c] else 0
  {
    Filter(records, (c: ClassSession) => ClassMatches(c, coach, location))
  }

  /** Every option the coach drop-down offers selects at least one class,
      so choosing any listed coach never empties the list on its own. */
  lemma CoachOptionNonEmpty(records: seq<ClassSession>, coach: string)
    requires coach in Coaches(records)
    ensures FilterClasses(records, coach, "All") != [] || records == []
  {
    if coach != "All" {
      var cs := Coaches(records);
      var k :| 0 <= k < |cs| && cs[k] == coach;
      assert k >= 1 && cs[1..][k - 1] == coach;
      var i :| 0 <= i < |records| && records[i].coach == coach;
      assert ClassMatches(records[i], coach, "All");
      assert records[i] in FilterClasses(records, coach, "All");
    } else if records != [] {
      assert ClassMatches(records[0], coach, "All");
      assert records[0] in FilterClasses(records, coach, "All");
    }
  }

  /** Saving the edit form: every class carrying the edited id is replaced
      by the form's value; every other class stays as it was. */
  function EditClass(records: seq<ClassSession>, updated: ClassSession): (r: seq<ClassSession>)
    ensures |r| == |records|
    ensures forall i :: 0 <= i < |records| && records[i].id == updated.id ==> r[i] == updated
    ensures forall i :: 0 <= i < |records| && records[i].id != updated.id ==> r[i] == records[i]
    ensures forall i :: 0 <= i < |r| ==> r[i].id == records[i].id
  {
    MapWhere(records, (c: ClassSession) => c.id == updated.id, (c: ClassSession) => updated)
  }

  /** Class ids are unique in the list. */
  predicate UniqueClassIds(records: seq<ClassSession>) {
    forall i, j :: 0 <= i < j < |records| ==> records[i].id != records[j].id
  }

  /** The edit form opens on a copy of the class: saving it untouched
      changes nothing as long as class ids are unique, and saving keeps
      the ids unique. */
  lemma EditUnchangedIsIdentity(records: seq<ClassSession>, k: nat)
    requires k < |records|
    requires UniqueClassIds(records)
    ensures EditClass(records, records[k]) == records
    ensures UniqueClassIds(EditClass(records, records[k]))
  {
    var r := EditClass(records, records[k]);
    forall i | 0 <= i < |records|
      ensures r[i] == records[i]
    {
      if records[i].id == records[k].id {
        assert i == k;
      }
    }
  }

  /** Saving the same edit twice leaves what saving it once left. */
  lemma EditClassIdempotent(records: seq<ClassSession>, updated: ClassSession)
    ensures EditClass(EditClass(records, updated), updated) == EditClass(records, updated)
  {
    var once := EditClass(records, updated);
    var twice := EditClass(once, updated);
    assert forall i :: 0 <= i < |records| ==> twice[i] == once[i];
  }

  /** Ticking or unticking one student in the modal: a ticked student is
      removed (every copy), an unticked one is appended. */
  function ToggleStudent(selection: seq<string>, student: string): (r: seq<string>)
    ensures student in r <==> student !in selection
    ensures forall s :: s != student ==> (s in r <==> s in selection)
    ensures NoDuplicates(selection) ==> NoDuplicates(r)
    ensures student !in selection ==> r == selection + [student]
    ensures student in selection ==> IsSubsequence(r, selection)
  {
    if student in selection then
      RemoveAllNoDuplicates(selection, student);
      RemoveAll(selection, student)
    else
      selection + [student]
  }

  /** Removing every copy of `x` keeps a duplicate-free sequence so. */
  lemma {:induction false} RemoveAllNoDuplicates(s: seq<string>, x: string)
    ensures NoDuplicates(s) ==> NoDuplicates(RemoveAll(s, x))
    decreases |s|
  {
    if s != [] && NoDuplicates(s) {
      assert NoDuplicates(s[1..]);
      RemoveAllNoDuplicates(s[1..], x);
      if s[0] != x {
        var rest := RemoveAll(s[1..], x);
        assert s[0] !in s[1..];
        assert s[0] !in rest;
        assert RemoveAll(s, x) == [s[0]] + rest;
      }
    }
  }

  /** Ticking a box and unticking it again restores the selection, from
      any selection not holding that student. */
  lemma ToggleTwiceRestores(selection: seq<string>, student: string)
    requires student !in selection
    ensures ToggleStudent(ToggleStudent(selection, student), student) == selection
  {
    RemoveAllAppended(selection, student);
  }

  /** The modal's state: the class it is open on, if any, and the ticked
      students. */
  datatype AssignModal = AssignModal(target: Option<ClassSession>, selection: seq<string>)

  /** The Assign Students button on a class card: the modal opens on that
      class with nothing ticked. */
  function OpenAssign(classItem: ClassSession): (m: AssignModal)
    ensures m.target == Some(classItem)
    ensures |m.selection| == 0
  {
    AssignModal(Some(classItem), [])
  }

  /** The page state the assignment touches: the class list and the modal. */
  datatype ClassPage = ClassPage(records: seq<ClassSession>, modal: AssignModal)

  /** Saving the mock assignment: with no open modal nothing happens;
      otherwise the modal closes and its selection is cleared.  Either way
      the class list is left exactly as it was. */
  function Assign(page: ClassPage): (r: Reply<ClassPage>)
    ensures r.state.records == page.records
    ensures page.modal.target.None? <==> r.outcome == Silent
    ensures page.modal.target.None? ==> r.state == page
    ensures page.modal.target.Some? ==>
              r.outcome == Succeeded && r.state.modal.target.None? && r.state.modal.selection == []
  {
    if page.modal.target.None? then Reply(page, Silent)
    else Reply(page.(modal := AssignModal(None, [])), Succeeded)
  }
}
