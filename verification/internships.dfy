/** The Internships page: logging hours (with automatic completion at the
    target), reassigning the mentor, the list filter and the upcoming
    check-ins panel. */
module Internships {
  import opened Wrappers
  import opened Text
  import opened Collections
  import opened Records

  const HoursInvalid: string := "Please enter a valid number of hours."
  const MentorRequired: string := "Please choose a mentor."
  const Bullet: string := "• "
  const MentorBullet: string := "• Mentor update: "

  /** `p` is how `s` ends. */
  predicate IsSuffixOf(p: string, s: string) {
    |p| <= |s| && s[|s| - |p|..] == p
  }

  /** Appends a bulleted entry to optional notes:
      `[prev, bullet + input].filter(Boolean).join('\n')` when `input` is
      non-empty, the previous notes unchanged otherwise. */
  function MergeNotes(prev: Option<string>, input: string, bullet: string): (r: Option<string>)
    ensures input == "" ==> r == prev
    ensures input != "" ==> r.Some? && IsSuffixOf(bullet + input, r.value)
    ensures input != "" ==> prev.GetOr("") <= r.value
    ensures input != "" && prev.GetOr("") != "" ==> r.value == prev.value + "\n" + bullet + input
    ensures input != "" && prev.GetOr("") == "" ==> r.value == bullet + input
  {
    if input == "" then prev
    else if prev.Some? && prev.value != "" then Some(prev.value + "\n" + bullet + input)
    else Some(bullet + input)
  }

  /** `updatePlacement`: applies `updater` to every placement carrying `id`. */
  function UpdatePlacement(ps: seq<Placement>, id: string, updater: Placement -> Placement)
    : (r: seq<Placement>)
    ensures |r| == |ps|
    ensures forall i :: 0 <= i < |ps| && ps[i].id != id ==> r[i] == ps[i]
    ensures forall i :: 0 <= i < |ps| && ps[i].id == id ==> r[i] == updater(ps[i])
  {
    MapWhere(ps, (p: Placement) => p.id == id, updater)
  }

  /** The hour-log updater on one placement: hours grow by `value`, the
      status becomes Completed once the target is reached and is otherwise
      kept, and a non-empty note is appended with a bullet. */
  function AddHours(p: Placement, value: real, note: string): (r: Placement)
    ensures r.hoursCompleted == p.hoursCompleted + value
    ensures r.status == InternshipStatus.Completed <==> r.hoursCompleted >= p.targetHours || p.status == InternshipStatus.Completed
    ensures r.status != InternshipStatus.Completed ==> r.status == p.status
    ensures r.notes == MergeNotes(p.notes, note, Bullet)
    ensures r == p.(hoursCompleted := r.hoursCompleted, status := r.status, notes := r.notes)
  {
    var next := p.hoursCompleted + value;
    p.(hoursCompleted := next,
       status := if next >= p.targetHours then InternshipStatus.Completed else p.status,
       notes := MergeNotes(p.notes, note, Bullet))
  }

  /** Logs hours on the modal's target.  `hours` is the parsed number, `None`
      when it is not a number; a missing or non-positive value rejects. */
  function LogHours(ps: seq<Placement>, target: Option<Placement>, hours: Option<real>, note: string)
    : (r: Reply<seq<Placement>>)
    ensures target.None? ==> r == Reply(ps, Silent)
    ensures target.Some? && (hours.None? || hours.value <= 0.0) ==> r == Reply(ps, Rejected(HoursInvalid))
    ensures r.outcome.Succeeded? <==> target.Some? && hours.Some? && hours.value > 0.0
    ensures r.outcome.Succeeded? ==> |r.state| == |ps|
    ensures r.outcome.Succeeded? ==>
              forall i :: 0 <= i < |ps| && ps[i].id != target.value.id ==> r.state[i] == ps[i]
    ensures r.outcome.Succeeded? ==>
              forall i :: 0 <= i < |ps| && ps[i].id == target.value.id ==> r.state[i] == AddHours(ps[i], hours.value, note)
  {
    if target.None? then Reply(ps, Silent)
    else if hours.None? || hours.value <= 0.0 then Reply(ps, Rejected(HoursInvalid))
    else Reply(UpdatePlacement(ps, target.value.id, (p: Placement) => AddHours(p, hours.value, note)), Succeeded)
  }

  /** Logging hours never takes anything away: hours strictly grow, a
      Completed placement stays Completed, and the earlier notes remain the
      start of the new notes. */
  lemma LogHoursMonotone(ps: seq<Placement>, target: Placement, value: real, note: string, i: nat)
    requires value > 0.0 && i < |ps|
    ensures var r := LogHours(ps, Some(target), Some(value), note).state;
      && r[i].hoursCompleted >= ps[i].hoursCompleted
      && (ps[i].status == InternshipStatus.Completed ==> r[i].status == InternshipStatus.Completed)
      && (ps[i].id == target.id ==> r[i].hoursCompleted > ps[i].hoursCompleted)
      && (ps[i].id == target.id && note != "" ==> ps[i].notes.GetOr("") <= r[i].notes.GetOr(""))
  {
  }

  /** The completion threshold on a 95-of-100-hour placement: five more
      hours complete it, four leave its status alone. */
  lemma CompletionThreshold(p: Placement)
    requires p.hoursCompleted == 95.0 && p.targetHours == 100.0 && p.status == InternshipStatus.Active
    ensures AddHours(p, 5.0, "").hoursCompleted == 100.0 && AddHours(p, 5.0, "").status == InternshipStatus.Completed
    ensures AddHours(p, 4.0, "").hoursCompleted == 99.0 && AddHours(p, 4.0, "").status == InternshipStatus.Active
  {
  }

  /** Assigns a mentor to the modal's target and appends an optional
      mentor-update note; an empty mentor rejects. */
  function AssignMentor(ps: seq<Placement>, target: Option<Placement>, mentor: string, note: string)
    : (r: Reply<seq<Placement>>)
    ensures target.None? ==> r == Reply(ps, Silent)
    ensures target.Some? && mentor == "" ==> r == Reply(ps, Rejected(MentorRequired))
    ensures r.outcome.Succeeded? <==> target.Some? && mentor != ""
    ensures r.outcome.Succeeded? ==> |r.state| == |ps|
    ensures r.outcome.Succeeded? ==>
              forall i :: 0 <= i < |ps| && ps[i].id != target.value.id ==> r.state[i] == ps[i]
    ensures r.outcome.Succeeded? ==>
              forall i :: 0 <= i < |ps| && ps[i].id == target.value.id ==>
                && r.state[i].mentor == mentor
                && r.state[i].notes == MergeNotes(ps[i].notes, note, MentorBullet)
                && r.state[i] == ps[i].(mentor := mentor, notes := r.state[i].notes)
  {
    if target.None? then Reply(ps, Silent)
    else if mentor == "" then Reply(ps, Rejected(MentorRequired))
    else
      Reply(UpdatePlacement(ps, target.value.id,
                            (p: Placement) => p.(mentor := mentor, notes := MergeNotes(p.notes, note, MentorBullet))),
            Succeeded)
  }

  /** Assigning a mentor never takes anything away: the earlier notes stay
      the start of the target's notes, and assigning the same mentor again
      with no note changes nothing. */
  lemma AssignMentorStable(ps: seq<Placement>, target: Placement, mentor: string, note: string)
    requires mentor != ""
    ensures var r := AssignMentor(ps, Some(target), mentor, note).state;
      forall i :: 0 <= i < |ps| && ps[i].id == target.id ==> ps[i].notes.GetOr("") <= r[i].notes.GetOr("")
    ensures var r := AssignMentor(ps, Some(target), mentor, note).state;
      AssignMentor(r, Some(target), mentor, "").state == r
  {
    var r := AssignMentor(ps, Some(target), mentor, note).state;
    var again := AssignMentor(r, Some(target), mentor, "").state;
    assert forall i :: 0 <= i < |r| ==> again[i] == r[i];
  }

  /** The four drop-downs of the page: program, mentor, location and status
      (`None` for 'All'). */
  datatype PlacementQuery = PlacementQuery(
    program: string,
    mentor: string,
    location: string,
    status: Option<InternshipStatus>)

  predicate PlacementMatches(p: Placement, q: PlacementQuery) {
    && Selects(q.program, p.program)
    && Selects(q.mentor, p.mentor)
    && Selects(q.location, p.location)
    && SelectsStatus(q.status, p.status)
  }

  /** The visible placements: those passing all four drop-downs, in order. */
  function FilterPlacements(ps: seq<Placement>, q: PlacementQuery): (r: seq<Placement>)
    ensures IsSubsequence(r, ps)
    ensures forall p :: p in r <==> p in ps && PlacementMatches(p, q)
    ensures forall p :: multiset(r)[p] == if PlacementMatches(p, q) then multiset(ps)[p] else 0
  {
    Filter(ps, (p: Placement) => PlacementMatches(p, q))
  }

  /** Ascending by next check-in date string. */
  predicate SortedByCheckIn(s: seq<Placement>) {
    forall i, j :: 0 <= i < j < |s| ==> LexLe(s[i].nextCheckIn, s[j].nextCheckIn)
  }

  /** Inserts `p` after every placement checking in no later than it. */
  function InsertByCheckIn(p: Placement, s: seq<Placement>): (r: seq<Placement>)
    requires SortedByCheckIn(s)
    ensures SortedByCheckIn(r)
    ensures multiset(r) == multiset(s) + multiset{p}
    decreases |s|
  {
    if s == [] then [p]
    else if LexLess(p.nextCheckIn, s[0].nextCheckIn) then
      InsertFrontByCheckIn(p, s);
      [p] + s
    else
      var t := InsertByCheckIn(p, s[1..]);
      LexLeNotLess(s[0].nextCheckIn, p.nextCheckIn);
      InsertBehindByCheckIn(s, p, t);
      assert s == [s[0]] + s[1..];
      [s[0]] + t
  }

  lemma InsertFrontByCheckIn(p: Placement, s: seq<Placement>)
    requires SortedByCheckIn(s) && s != [] && LexLess(p.nextCheckIn, s[0].nextCheckIn)
    ensures SortedByCheckIn([p] + s)
  {
    var r := [p] + s;
    forall i, j | 0 <= i < j < |r|
      ensures LexLe(r[i].nextCheckIn, r[j].nextCheckIn)
    {
      if i == 0 {
        LexLeTransitive(p.nextCheckIn, s[0].nextCheckIn, s[j - 1].nextCheckIn);
      } else {
        assert r[i] == s[i - 1] && r[j] == s[j - 1];
      }
    }
  }

  lemma InsertBehindByCheckIn(s: seq<Placement>, p: Placement, t: seq<Placement>)
    requires SortedByCheckIn(s) && s != [] && LexLe(s[0].nextCheckIn, p.nextCheckIn)
    requires SortedByCheckIn(t)
    requires multiset(t) == multiset(s[1..]) + multiset{p}
    ensures SortedByCheckIn([s[0]] + t)
  {
    var r := [s[0]] + t;
    forall j | 0 <= j < |t|
      ensures LexLe(s[0].nextCheckIn, t[j].nextCheckIn)
    {
      assert t[j] in multiset(t);
      if t[j] != p {
        assert t[j] in multiset(s[1..]);
        var k :| 0 <= k < |s[1..]| && s[1..][k] == t[j];
        assert s[k + 1] == t[j];
      }
    }
    forall i, j | 0 <= i < j < |r|
      ensures LexLe(r[i].nextCheckIn, r[j].nextCheckIn)
    {
      if i == 0 {
        assert r[j] == t[j - 1];
      } else {
        assert r[i] == t[i - 1] && r[j] == t[j - 1];
      }
    }
  }

  /** Sorts placements by next check-in (insertion sort, stable). */
  function SortByCheckIn(s: seq<Placement>): (r: seq<Placement>)
    ensures SortedByCheckIn(r)
    ensures multiset(r) == multiset(s)
    decreases |s|
  {
    if s == [] then []
    else
      assert s == [s[0]] + s[1..];
      InsertByCheckIn(s[0], SortByCheckIn(s[1..]))
  }

  /** The upcoming check-ins panel: the (at most) four placements with the
      earliest next check-in, earliest first; every placement left out checks
      in no earlier than any shown. */
  function UpcomingCheckIns(ps: seq<Placement>): (r: seq<Placement>)
    ensures |r| == if |ps| < 4 then |ps| else 4
    ensures SortedByCheckIn(r)
    ensures multiset(r) <= multiset(ps)
    ensures forall i, x :: 0 <= i < |r| && x in multiset(ps) - multiset(r) ==>
              LexLe(r[i].nextCheckIn, x.nextCheckIn)
  {
    var s := SortByCheckIn(ps);
    var k := if |s| < 4 then |s| else 4;
    assert |s| == |ps| by {
      assert |multiset(s)| == |multiset(ps)|;
    }
    UpcomingSplit(s, k);
    s[..k]
  }

  lemma UpcomingSplit(s: seq<Placement>, k: nat)
    requires SortedByCheckIn(s) && k <= |s|
    ensures SortedByCheckIn(s[..k])
    ensures multiset(s[..k]) <= multiset(s)
    ensures forall i, x :: 0 <= i < k && x in multiset(s) - multiset(s[..k]) ==>
              LexLe(s[i].nextCheckIn, x.nextCheckIn)
  {
    assert s == s[..k] + s[k..];
    assert multiset(s) == multiset(s[..k]) + multiset(s[k..]);
    forall i, x | 0 <= i < k && x in multiset(s) - multiset(s[..k])
      ensures LexLe(s[i].nextCheckIn, x.nextCheckIn)
    {
      assert x in multiset(s[k..]);
      var j :| 0 <= j < |s[k..]| && s[k..][j] == x;
      assert s[k + j] == x;
    }
  }
}
