/** The Trial Scheduling page: status changes, rescheduling (which
    recomputes the Monday-of-week key), the list filter, grouping the
    visible bookings by day and the week drop-down. */
module TrialScheduling {
  import opened Wrappers
  import opened Text
  import opened Collections
  import opened Records

  // ------------------------------------------------------------ calendar

  /** A calendar day is a day number counted from 1970-01-01 (a Thursday);
      `Weekday` numbers days like `Date.getDay()`: 0 is Sunday, 1 Monday. */
  function Weekday(day: int): (w: int)
    ensures 0 <= w < 7
  {
    (day + 4) % 7
  }

  /** Days to add to reach the Monday of the week: -6 on a Sunday,
      `1 - weekday` on any other day. */
  function MondayOffset(weekday: int): (offset: int)
    requires 0 <= weekday < 7
    ensures -6 <= offset <= 0
    ensures offset == -6 <==> weekday == 0
  {
    if weekday == 0 then -6 else 1 - weekday
  }

  /** The Monday that starts the week of `day`: a Monday, at most six days
      earlier, never later. */
  function MondayOf(day: int): (m: int)
    ensures Weekday(m) == 1
    ensures m <= day < m + 7
  {
    var q := (day + 4) / 7;
    var w := Weekday(day);
    assert day + 4 == 7 * q + w;
    var m := day + MondayOffset(w);
    assert if w == 0 then m + 4 == 7 * (q - 1) + 1 else m + 4 == 7 * q + 1;
    m
  }

  /** Two days with the same weekday less than a week apart are the same day. */
  lemma SameWeekdayWithinWeek(a: int, b: int)
    requires Weekday(a) == Weekday(b)
    requires a - 7 < b < a + 7
    ensures a == b
  {
    var qa := (a + 4) / 7;
    var qb := (b + 4) / 7;
    assert a + 4 == 7 * qa + Weekday(a);
    assert b + 4 == 7 * qb + Weekday(b);
    assert a - b == 7 * (qa - qb);
  }

  /** A Monday is its own week start. */
  lemma MondayOfMonday(day: int)
    requires Weekday(day) == 1
    ensures MondayOf(day) == day
  {
    SameWeekdayWithinWeek(day, MondayOf(day));
  }

  /** Every day of the week starting on Monday `m` has `m` as week start;
      in particular the rule is idempotent. */
  lemma MondayOfSameWeek(day: int, other: int)
    requires MondayOf(day) <= other < MondayOf(day) + 7
    ensures MondayOf(other) == MondayOf(day)
  {
    SameWeekdayWithinWeek(MondayOf(day), MondayOf(other));
  }

  /** Saturday 2025-11-15 (day 20407) and Sunday 2025-11-16 (day 20408) both
      belong to the week of Monday 2025-11-10 (day 20402). */
  lemma WeekOfExamples()
    ensures MondayOf(20407) == 20402
    ensures MondayOf(20408) == 20402
  {
    assert Weekday(20402) == 1;
    MondayOfSameWeek(20402, 20407);
    MondayOfSameWeek(20402, 20408);
    MondayOfMonday(20402);
  }

  /** The week key as the code computes it: the Monday's local midnight is
      converted to a UTC date (`toISOString`).  `minutesEast` is the local
      zone's offset from UTC; day numbers count days, instants minutes. */
  function WeekKeyDayAsWritten(day: int, minutesEast: int): (k: int)
    requires -1440 < minutesEast < 1440
    ensures MondayOf(day) - 1 <= k <= MondayOf(day)
  {
    (MondayOf(day) * 1440 - minutesEast) / 1440
  }

  /** East of UTC (Adelaide is +10:30) the computed key is the Sunday before
      the Monday, not the Monday. */
  lemma WeekKeyEastOfUtcIsSunday(day: int, minutesEast: int)
    requires 0 < minutesEast < 1440
    ensures WeekKeyDayAsWritten(day, minutesEast) == MondayOf(day) - 1
    ensures Weekday(WeekKeyDayAsWritten(day, minutesEast)) == 0
  {
    var m := MondayOf(day);
    assert m * 1440 - minutesEast == (m - 1) * 1440 + (1440 - minutesEast);
  }

  /** At or west of UTC the computed key is the Monday. */
  lemma WeekKeyWestOfUtcIsMonday(day: int, minutesEast: int)
    requires -1440 < minutesEast <= 0
    ensures WeekKeyDayAsWritten(day, minutesEast) == MondayOf(day)
  {
    var m := MondayOf(day);
    assert m * 1440 - minutesEast == m * 1440 + (0 - minutesEast);
  }

  /** Rescheduling to Wednesday 2025-11-12 (day 20404) at +10:30 (630 minutes)
      yields 2025-11-09 (day 20401), while the week started on 2025-11-10. */
  lemma WeekKeyAdelaideCounterexample()
    ensures WeekKeyDayAsWritten(20404, 630) == 20401
    ensures MondayOf(20404) == 20402
  {
    assert Weekday(20402) == 1;
    MondayOfSameWeek(20402, 20404);
    MondayOfMonday(20402);
    WeekKeyEastOfUtcIsSunday(20404, 630);
  }

  // ------------------------------------------------------------ handlers

  /** `updateBooking`: applies `updater` to every booking carrying `id`. */
  function UpdateBooking(bs: seq<Booking>, id: string, updater: Booking -> Booking): (r: seq<Booking>)
    ensures |r| == |bs|
    ensures forall i :: 0 <= i < |bs| && bs[i].id != id ==> r[i] == bs[i]
    ensures forall i :: 0 <= i < |bs| && bs[i].id == id ==> r[i] == updater(bs[i])
  {
    MapWhere(bs, (b: Booking) => b.id == id, updater)
  }

  /** A status button: only the status of the bookings carrying the id moves. */
  function ChangeStatus(bs: seq<Booking>, booking: Booking, status: BookingStatus): (r: seq<Booking>)
    ensures |r| == |bs|
    ensures forall i :: 0 <= i < |bs| && bs[i].id != booking.id ==> r[i] == bs[i]
    ensures forall i :: 0 <= i < |bs| && bs[i].id == booking.id ==>
              r[i].status == status && r[i].(status := bs[i].status) == bs[i]
  {
    UpdateBooking(bs, booking.id, (b: Booking) => b.(status := status))
  }

  /** The status buttons and the conversion cascade move booking statuses
      the same way. */
  lemma ChangeStatusIsCascade(bs: seq<Booking>, booking: Booking, status: BookingStatus)
    ensures ChangeStatus(bs, booking, status) == SetBookingStatus(bs, booking.id, status)
  {
    var a := ChangeStatus(bs, booking, status);
    var b := SetBookingStatus(bs, booking.id, status);
    assert forall i :: 0 <= i < |bs| ==> a[i] == b[i];
  }

  /** The fields of the reschedule modal. */
  datatype RescheduleForm = RescheduleForm(
    scheduledAt: string,
    coach: string,
    location: string,
    notes: string)

  const TimeRequired: string := "Please select a new time."
  const TimeInvalid: string := "Please enter a valid time."

  /** `after` differs from `before` at most in the fields a reschedule writes. */
  predicate OnlyRescheduleFieldsDiffer(before: Booking, after: Booking) {
    before.(scheduledAt := after.scheduledAt, coach := after.coach, location := after.location,
            notes := after.notes, status := after.status, weekOf := after.weekOf) == after
  }

  /** Reschedules the modal's target.  `parse` gives the local calendar day
      of a date-time text (`None` for an invalid date) and `dateKey` writes a
      day as `YYYY-MM-DD`.  An empty or unparseable time rejects; otherwise
      the new time, coach, location and notes are written, the status goes
      back to Scheduled and the week key is that of the new day's Monday. */
  function Reschedule(bs: seq<Booking>, target: Option<Booking>, form: RescheduleForm,
                      parse: string -> Option<int>, dateKey: int -> string)
    : (r: Reply<seq<Booking>>)
    ensures target.None? ==> r == Reply(bs, Silent)
    ensures target.Some? && form.scheduledAt == "" ==> r == Reply(bs, Rejected(TimeRequired))
    ensures (target.Some? && form.scheduledAt != "" && parse(form.scheduledAt).None?)
              ==> r == Reply(bs, Rejected(TimeInvalid))
    ensures r.outcome.Succeeded? <==> target.Some? && form.scheduledAt != "" && parse(form.scheduledAt).Some?
    ensures r.outcome.Succeeded? ==> |r.state| == |bs|
    ensures r.outcome.Succeeded? ==>
              forall i :: 0 <= i < |bs| && bs[i].id != target.value.id ==> r.state[i] == bs[i]
    ensures r.outcome.Succeeded? ==>
              forall i :: 0 <= i < |bs| && bs[i].id == target.value.id ==>
                && OnlyRescheduleFieldsDiffer(bs[i], r.state[i])
                && r.state[i].scheduledAt == form.scheduledAt
                && r.state[i].coach == form.coach
                && r.state[i].location == form.location
                && r.state[i].notes == form.notes
                && r.state[i].status == Scheduled
                && r.state[i].weekOf == dateKey(MondayOf(parse(form.scheduledAt).value))
  {
    if target.None? then Reply(bs, Silent)
    else if form.scheduledAt == "" then Reply(bs, Rejected(TimeRequired))
    else
      match parse(form.scheduledAt)
      case None => Reply(bs, Rejected(TimeInvalid))
      case Some(day) =>
        var weekOf := dateKey(MondayOf(day));
        Reply(UpdateBooking(bs, target.value.id,
                            (b: Booking) => b.(scheduledAt := form.scheduledAt, coach := form.coach,
                                               location := form.location, notes := form.notes,
                                               status := Scheduled, weekOf := weekOf)),
              Succeeded)
  }

  /** A successful reschedule writes, into every rescheduled booking, the
      key of a Monday no later than the new day and less than a week
      before it, whatever the booking's previous status. */
  lemma RescheduleKeysMonday(bs: seq<Booking>, target: Booking, form: RescheduleForm,
                             parse: string -> Option<int>, dateKey: int -> string, i: nat)
    requires form.scheduledAt != "" && parse(form.scheduledAt).Some?
    requires i < |bs| && bs[i].id == target.id
    ensures var r := Reschedule(bs, Some(target), form, parse, dateKey).state;
      exists m :: Weekday(m) == 1 && m <= parse(form.scheduledAt).value < m + 7 && r[i].weekOf == dateKey(m)
  {
    var m := MondayOf(parse(form.scheduledAt).value);
    assert Weekday(m) == 1;
  }

  // -------------------------------------------------------------- filter

  /** The four drop-downs of the page: week, coach, location and owner. */
  datatype BookingQuery = BookingQuery(week: string, coach: string, location: string, owner: string)

  predicate BookingMatches(b: Booking, q: BookingQuery) {
    && Selects(q.week, b.weekOf)
    && Selects(q.coach, b.coach)
    && Selects(q.location, b.location)
    && Selects(q.owner, b.owner)
  }

  /** The visible bookings: those passing all four drop-downs, in order. */
  function FilterBookings(bs: seq<Booking>, q: BookingQuery): (r: seq<Booking>)
    ensures IsSubsequence(r, bs)
    ensures forall b :: b in r <==> b in bs && BookingMatches(b, q)
    ensures forall b :: multiset(r)[b] == if BookingMatches(b, q) then multiset(bs)[b] else 0
  {
    Filter(bs, (b: Booking) => BookingMatches(b, q))
  }

  // ------------------------------------------------------------ grouping

  /** `scheduledAt.slice(0, 10)`: the `YYYY-MM-DD` part of the time. */
  function DayKey(b: Booking): (k: string)
    ensures |k| == if |b.scheduledAt| < 10 then |b.scheduledAt| else 10
    ensures k == b.scheduledAt[..|k|]
  {
    if |b.scheduledAt| >= 10 then b.scheduledAt[..10] else b.scheduledAt
  }

  /** The bookings of one day, in list order. */
  function BookingsOn(bs: seq<Booking>, day: string): (r: seq<Booking>)
    ensures IsSubsequence(r, bs)
    ensures forall b :: b in r <==> b in bs && DayKey(b) == day
    decreases |bs|
  {
    if bs == [] then []
    else if DayKey(bs[0]) == day then [bs[0]] + BookingsOn(bs[1..], day)
    else BookingsOn(bs[1..], day)
  }

  lemma {:induction false} BookingsOnAppend(bs: seq<Booking>, b: Booking, day: string)
    ensures BookingsOn(bs + [b], day) == BookingsOn(bs, day) + (if DayKey(b) == day then [b] else [])
    decreases |bs|
  {
    if bs == [] {
      assert [b][1..] == [];
    } else {
      assert (bs + [b])[1..] == bs[1..] + [b];
      BookingsOnAppend(bs[1..], b, day);
    }
  }

  /** A day's group keeps every copy of a booking of that day: each booking
      occurs in it exactly as often as in the list, and other days' bookings
      not at all. */
  lemma {:induction false} BookingsOnCount(bs: seq<Booking>, day: string, x: Booking)
    ensures multiset(BookingsOn(bs, day))[x] == if DayKey(x) == day then multiset(bs)[x] else 0
    decreases |bs|
  {
    if bs != [] {
      BookingsOnCount(bs[1..], day, x);
      MultisetCons(bs);
      var rest := BookingsOn(bs[1..], day);
      if DayKey(bs[0]) == day {
        assert multiset([bs[0]] + rest) == multiset([bs[0]]) + multiset(rest);
      }
    }
  }

  /** A day no booking falls on has no bookings. */
  lemma BookingsOnAbsent(bs: seq<Booking>, day: string)
    requires forall i :: 0 <= i < |bs| ==> DayKey(bs[i]) != day
    ensures BookingsOn(bs, day) == []
  {
  }

  /** `groupedByDay`: the reduce that pushes each booking, in order, onto the
      array under its day key.  Each day present maps to exactly that day's
      bookings in list order, and only days that occur are keys. */
  function GroupByDay(bs: seq<Booking>): (g: map<string, seq<Booking>>)
    ensures forall k :: k in g <==> exists i :: 0 <= i < |bs| && DayKey(bs[i]) == k
    ensures forall k :: k in g ==> g[k] == BookingsOn(bs, k)
    decreases |bs|
  {
    if bs == [] then map[]
    else
      var p := bs[..|bs| - 1];
      var b := bs[|bs| - 1];
      assert bs == p + [b];
      var acc := GroupByDay(p);
      var day := DayKey(b);
      var g := acc[day := (if day in acc then acc[day] else []) + [b]];
      GroupByDayStep(p, b, acc, g);
      g
  }

  lemma GroupByDayStep(p: seq<Booking>, b: Booking, acc: map<string, seq<Booking>>, g: map<string, seq<Booking>>)
    requires forall k :: k in acc <==> exists i :: 0 <= i < |p| && DayKey(p[i]) == k
    requires forall k :: k in acc ==> acc[k] == BookingsOn(p, k)
    requires g == acc[DayKey(b) := (if DayKey(b) in acc then acc[DayKey(b)] else []) + [b]]
    ensures forall k :: k in g <==> exists i :: 0 <= i < |p + [b]| && DayKey((p + [b])[i]) == k
    ensures forall k :: k in g ==> g[k] == BookingsOn(p + [b], k)
  {
    var bs := p + [b];
    forall k
      ensures k in g <==> exists i :: 0 <= i < |bs| && DayKey(bs[i]) == k
    {
      if k in g && k != DayKey(b) {
        var i :| 0 <= i < |p| && DayKey(p[i]) == k;
        assert bs[i] == p[i];
      }
      if k == DayKey(b) {
        assert bs[|p|] == b;
      }
      if exists i :: 0 <= i < |bs| && DayKey(bs[i]) == k {
        var i :| 0 <= i < |bs| && DayKey(bs[i]) == k;
        if i < |p| {
          assert bs[i] == p[i];
        }
      }
    }
    forall k | k in g
      ensures g[k] == BookingsOn(bs, k)
    {
      BookingsOnAppend(p, b, k);
      if k == DayKey(b) && k !in acc {
        BookingsOnAbsent(p, k);
      }
    }
  }

  /** Every visible booking sits in the group of its own day and in no
      other, and every group member is a visible booking of that day. */
  lemma GroupsPartitionBookings(bs: seq<Booking>)
    ensures forall i :: 0 <= i < |bs| ==> DayKey(bs[i]) in GroupByDay(bs) && bs[i] in GroupByDay(bs)[DayKey(bs[i])]
    ensures forall k, b :: k in GroupByDay(bs) && b in GroupByDay(bs)[k] ==> b in bs && DayKey(b) == k
  {
  }

  /** A listed booking's day is a group, and that group holds as many
      copies of the booking as the list does. */
  lemma GroupKeepsCopies(bs: seq<Booking>, b: Booking)
    requires b in bs
    ensures DayKey(b) in GroupByDay(bs)
    ensures multiset(GroupByDay(bs)[DayKey(b)])[b] == multiset(bs)[b]
  {
    var i :| 0 <= i < |bs| && bs[i] == b;
    BookingsOnCount(bs, DayKey(b), b);
  }

  /** `sortedDays`: the group keys, in ascending order and each once. */
  function SortedDays(bs: seq<Booking>): (r: seq<string>)
    ensures StrictlySorted(r)
    ensures NoDuplicates(r)
    ensures forall k :: k in r <==> k in GroupByDay(bs)
  {
    var keys := Distinct(MapSeq(bs, DayKey));
    var r := SortStrings(keys);
    StrictlySortedNoDuplicates(r);
    r
  }

  /** A strictly ascending sequence reversed holds the same strings in
      strictly descending order. */
  lemma ReverseSortedDescends(s: seq<string>)
    requires StrictlySorted(s)
    ensures forall w :: w in Reverse(s) <==> w in s
    ensures forall i, j :: 0 <= i < j < |s| ==> LexLess(Reverse(s)[j], Reverse(s)[i])
  {
    var d := Reverse(s);
    forall w | w in s
      ensures w in d
    {
      var k :| 0 <= k < |s| && s[k] == w;
      assert d[|s| - 1 - k] == w;
    }
    forall i, j | 0 <= i < j < |s|
      ensures LexLess(d[j], d[i])
    {
      assert d[j] == s[|s| - 1 - j] && d[i] == s[|s| - 1 - i];
    }
  }

  /** `weekOptions`: 'All', then every week key once, newest first. */
  function WeekOptions(bs: seq<Booking>): (r: seq<string>)
    ensures |r| >= 1 && r[0] == "All"
    ensures forall i, j :: 1 <= i < j < |r| ==> LexLess(r[j], r[i])
    ensures forall w :: w in r[1..] <==> exists i :: 0 <= i < |bs| && bs[i].weekOf == w
  {
    var weeks := Distinct(MapSeq(bs, (b: Booking) => b.weekOf));
    var desc := Reverse(SortStrings(weeks));
    ReverseSortedDescends(SortStrings(weeks));
    var r := ["All"] + desc;
    assert r[1..] == desc;
    assert forall i :: 1 <= i < |r| ==> r[i] == desc[i - 1];
    r
  }
}
