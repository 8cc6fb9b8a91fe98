# CirkidzWeb record transitions in Dafny

CirkidzWeb is the admin console of a circus school. Its pages keep lists of
free-trial leads, trial bookings, sales follow-ups, enrolments, internship
placements and class sessions, and the handlers behind their forms and
action buttons rewrite one or more of these lists; the export button, the
assign modal's save and the close and cancel buttons change no list. This
project models those rewrites, together with
the list filters and drop-down option lists, as pure Dafny functions over
immutable record datatypes, and proves what each one promises:

- only the id-matching record changes;
- a list grows by exactly one record at its front, or keeps its length,
  except that a conversion drops the converted follow-up;
- a rejected form leaves every list as it was;
- the state tables (enrolment toggle, internship completion) behave as stated;
- the cascades across lists happen exactly when the source record is linked.

Modules follow the pages of the console:

- `Wrappers`: `Option`, and `Reply`/`Outcome`, which stand in for the toast
  a handler shows: `Silent` (the handler returned early), `Succeeded` or
  `Rejected(message)`.
- `Text`: ASCII lower-casing, JavaScript `trim`, `includes`, and string order.
- `Collections`: `filter`, `map`, `Array.from(new Set(...))` and the
  `['All', ...]` option lists, plus sorting distinct strings.
- `Records`: the record types and the store of all five lists that the
  handlers write.
- `FollowUps`, `Enrolments`, `Internships`, `TrialScheduling`,
  `FreeTrials`, `ClassScheduling`: one module per page.

Fresh ids (`Date.now()`), the current time and today's date are parameters.
A fresh id must not already occur in the list it is added to. Dates in the
trial-booking page are day numbers counted from 1970-01-01. Parsing a
date-time text and writing a day as `YYYY-MM-DD` are function parameters.

## Model

| member | source | states |
|---|---|---|
| FollowUps.LogCall | src/pages/SalesFollowUp.tsx:82-112 | No target: nothing happens. Empty due date, then empty next action: rejected with that message and no change. Otherwise only the id-matching follow-ups change, and only in status, next action, due date, notes and last-contacted time. |
| FollowUps.LogCallIdempotent | src/pages/SalesFollowUp.tsx:95-108 | Submitting the same call log twice gives the list one submission gives. |
| FollowUps.ConvertToEnrolment | src/pages/SalesFollowUp.tsx:114-150 | Exactly one Pending Payment enrolment is prepended, with program = preferred class and next payment "To be scheduled", and enrolment ids stay unique. Every follow-up with its id is removed, and every copy of the others stays, in order. Leads and bookings are set to Converted only when the follow-up links them. Placements are untouched. |
| FollowUps.ConversionAtomicity | src/pages/SalesFollowUp.tsx:114-144 | For a follow-up linked to both a lead and a booking: afterwards no follow-up carries its id, a matching enrolment exists, and every lead and booking with the linked ids is Converted. |
| FollowUps.MarkLost | src/pages/SalesFollowUp.tsx:152-172 | The id-matching follow-ups become Lost and carry the pressed record's notes. The linked lead becomes Lost. Bookings, enrolments and placements are never modified. |
| FollowUps.MarkLostKeepsNotes | src/pages/SalesFollowUp.tsx:155-160 | Marking a listed follow-up lost changes only its status. |
| FollowUps.FilterFollowUps | src/pages/SalesFollowUp.tsx:67-80 | The result is an order-preserving subsequence, holding every copy of each follow-up that passes the status and owner selectors and no other follow-up, for those that contain the trimmed lower-case search, and (when asked) fall due before today. |
| FollowUps.FilterFollowUpsShowsAll | src/pages/SalesFollowUp.tsx:67-80 | With every selector on 'All', an empty search and overdue-only off, every follow-up is shown, in order. |
| FollowUps.OwnerOptions | src/pages/SalesFollowUp.tsx:62-65 | 'All' first, then each owner exactly once, in the order of their first follow-up; an owner is offered iff some follow-up has it. |
| Enrolments.AddEnrolment | src/pages/Enrolments.tsx:44-57 | Rejected with "Student and program are required." and no change iff the student or program is empty. Otherwise one record with the form fields and the fresh id is prepended, the old records follow in order, and ids stay unique. |
| Enrolments.NextStatus | src/pages/Enrolments.tsx:63-72 | The whole toggle table: Pending Payment and Paused go to Active, Active (and only Active) goes to Paused, Cancelled (and only Cancelled) stays Cancelled; Pending Payment is never reached. |
| Enrolments.NextStatusCycle | src/pages/Enrolments.tsx:63-72 | Every press changes a status other than Cancelled; Active and Paused swap, returning after two presses; every status lands in Active, Paused or Cancelled. |
| Enrolments.ToggleStatus | src/pages/Enrolments.tsx:59-79 | Length, order and ids are kept. Records of other ids are unchanged. The id-matching records change only in status, which follows the status of the pressed record. |
| Enrolments.CancelledAbsorbing | src/pages/Enrolments.tsx:72 | Toggling a Cancelled record any number of times changes nothing once its records are Cancelled. |
| Enrolments.FilterEnrolments | src/pages/Enrolments.tsx:36-42 | An order-preserving subsequence holding every copy of each record that passes, and no other record: those that pass the status selector and whose lower-case student+program contains the lower-case search. |
| Enrolments.SearchFindsStudent | src/pages/Enrolments.tsx:39-40 | A search occurring in the student's name, in any letter case, keeps the record. |
| Internships.UpdatePlacement | src/pages/Internships.tsx:78-85 | Length and order are kept; only id-matching placements are rewritten, by the updater. |
| Internships.MergeNotes | src/pages/Internships.tsx:97-99 | An empty note keeps the notes. Otherwise the result ends with the bulleted note and starts with the old notes: old + "\n" + bullet + note when the old notes are non-empty, bullet + note when they are empty or absent. |
| Internships.AddHours | src/pages/Internships.tsx:95-106 | Hours grow by the logged value. Status is Completed iff the new total reaches the target or it already was Completed; otherwise it is kept. Notes merge with "• ". No other field changes. |
| Internships.LogHours | src/pages/Internships.tsx:87-113 | No target: nothing happens. A NaN or non-positive value: rejected with no change. Otherwise only the id-matching placements are updated by the hour-log rule. |
| Internships.LogHoursMonotone | src/pages/Internships.tsx:95-106 | Logging hours never lowers hours or downgrades a Completed status, and keeps the old notes as the start of the new. |
| Internships.CompletionThreshold | src/pages/Internships.tsx:103 | At 95 of 100 hours, 5 more hours complete the placement and 4 leave it Active. |
| Internships.AssignMentor | src/pages/Internships.tsx:115-138 | No target: nothing happens. Empty mentor: rejected with no change. Otherwise only the target's mentor and notes change, the notes merging with "• Mentor update: ". |
| Internships.AssignMentorStable | src/pages/Internships.tsx:115-138 | Assigning never takes anything away: the earlier notes stay the start of the target's notes, and assigning the same mentor again with no note changes nothing. |
| Internships.FilterPlacements | src/pages/Internships.tsx:52-60 | An order-preserving subsequence holding every copy of each placement that passes all four selectors, and no other placement. |
| Internships.UpcomingCheckIns | src/pages/Internships.tsx:62-66 | min(4, n) placements from the list, ordered by next check-in. No placement left out checks in earlier than one shown. |
| TrialScheduling.MondayOffset | src/pages/TrialScheduling.tsx:120-121 | The offset lies in [-6, 0], and it is -6 exactly on a Sunday. |
| TrialScheduling.MondayOf | src/pages/TrialScheduling.tsx:118-122 | The result is a Monday, no later than the day and less than a week before it. |
| TrialScheduling.MondayOfMonday | src/pages/TrialScheduling.tsx:118-122 | The rule applied to a Monday returns that day. |
| TrialScheduling.MondayOfSameWeek | src/pages/TrialScheduling.tsx:118-122 | Every day of a week maps to the same Monday, so the rule is idempotent. |
| TrialScheduling.WeekOfExamples | src/pages/TrialScheduling.tsx:118-122 | Saturday 2025-11-15 and Sunday 2025-11-16 both belong to the week of Monday 2025-11-10. |
| TrialScheduling.WeekKeyDayAsWritten | src/pages/TrialScheduling.tsx:118-125 | The key the code writes is the Monday or the Sunday before it, depending on the time zone. |
| TrialScheduling.WeekKeyEastOfUtcIsSunday | src/pages/TrialScheduling.tsx:123-124 | East of UTC the written key is the Sunday before the Monday. |
| TrialScheduling.WeekKeyWestOfUtcIsMonday | src/pages/TrialScheduling.tsx:123-124 | At or west of UTC the written key is the Monday. |
| TrialScheduling.WeekKeyAdelaideCounterexample | src/pages/TrialScheduling.tsx:118-125 | Rescheduling to Wednesday 2025-11-12 at UTC+10:30 writes 2025-11-09, while the week starts on 2025-11-10. |
| TrialScheduling.UpdateBooking | src/pages/TrialScheduling.tsx:85-92 | Length and order are kept; only id-matching bookings are rewritten, by the updater. |
| TrialScheduling.ChangeStatus | src/pages/TrialScheduling.tsx:94-104 | Only the status of id-matching bookings changes. Every other booking and field is unchanged. |
| TrialScheduling.ChangeStatusIsCascade | src/pages/TrialScheduling.tsx:94-99 | A status button and the follow-up conversion cascade update bookings the same way. |
| TrialScheduling.Reschedule | src/pages/TrialScheduling.tsx:106-139 | No target: nothing happens. An empty time, then an unparseable one: rejected with its message and no change. Otherwise only the target's time, coach, location, notes, status and week key change; the status becomes Scheduled. The key is the new day's Monday: this is the corrected rule of the Findings row, not the key the code writes east of UTC. |
| TrialScheduling.RescheduleKeysMonday | src/pages/TrialScheduling.tsx:118-135 | Under the corrected rule of the Findings row, a rescheduled booking's week key names a Monday of the new day's week. East of UTC the code writes the Sunday before instead. |
| TrialScheduling.FilterBookings | src/pages/TrialScheduling.tsx:52-60 | An order-preserving subsequence holding every copy of each booking that passes the week, coach, location and owner selectors, and no other booking. |
| TrialScheduling.DayKey | src/pages/TrialScheduling.tsx:64 | The day key is exactly the first 10 characters of the scheduled time, or all of it when shorter. |
| TrialScheduling.GroupByDay | src/pages/TrialScheduling.tsx:62-71 | The keys are exactly the days that occur. Each day maps to exactly that day's bookings, in list order. |
| TrialScheduling.GroupsPartitionBookings | src/pages/TrialScheduling.tsx:62-71 | Every booking lies in the group of its own day, and every group member is a booking of that day. |
| TrialScheduling.GroupKeepsCopies | src/pages/TrialScheduling.tsx:62-71 | A day's group holds as many copies of each booking of that day as the list does. |
| TrialScheduling.SortedDays | src/pages/TrialScheduling.tsx:73 | The days are strictly ascending, have no duplicates, and are exactly the group keys. |
| TrialScheduling.WeekOptions | src/pages/TrialScheduling.tsx:32-35 | 'All' first, then the week keys strictly descending, each one iff some booking has it. |
| FreeTrials.NewLead | src/pages/FreeTrials.tsx:50-54 | The lead carries the fresh id and the form fields. Its notes are the form's notes when the notes box was typed into (even if emptied), otherwise "New lead added via quick intake.". |
| FreeTrials.SubmitLead | src/pages/FreeTrials.tsx:45-59 | Rejected with "Please fill the required fields." and no change iff the student, contact or preferred class is empty. Otherwise one lead is prepended and the old leads follow in order, with ids staying unique. |
| FreeTrials.SubmittedLeadListed | src/pages/FreeTrials.tsx:35-59 | A saved lead appears in the list filtered by its own status with no search. |
| FreeTrials.ConvertLead | src/pages/FreeTrials.tsx:61-68 | Id-matching leads become Converted; other leads and fields are unchanged. |
| FreeTrials.ConvertLeadIdempotent | src/pages/FreeTrials.tsx:61-66 | Converting twice gives the list converting once gives. |
| FreeTrials.FilterLeads | src/pages/FreeTrials.tsx:35-43 | An order-preserving subsequence holding every copy of each lead that passes, and no other lead: those that pass the status selector and whose lower-case student, contact, class and owner contain the lower-case search. |
| FreeTrials.FilterLeadsShowsAll | src/pages/FreeTrials.tsx:35-43 | With 'All' statuses and an empty search, every lead is shown, in order. |
| FreeTrials.ConvertedLeadListed | src/pages/FreeTrials.tsx:35-66 | A converted lead is listed under the Converted filter. |
| ClassScheduling.Coaches | src/pages/ClassScheduling.tsx:24-27 | 'All' first, then each coach once, in first-occurrence order, each one iff some class has it. |
| ClassScheduling.Locations | src/pages/ClassScheduling.tsx:29-32 | 'All' first, then each location once, in first-occurrence order, each one iff some class has it. |
| ClassScheduling.FilterClasses | src/pages/ClassScheduling.tsx:34-40 | An order-preserving subsequence holding every copy of each class that passes the coach and location selectors, and no other class. |
| ClassScheduling.CoachOptionNonEmpty | src/pages/ClassScheduling.tsx:24-40 | Every coach the drop-down offers selects at least one class of a non-empty list. |
| ClassScheduling.EditClass | src/pages/ClassScheduling.tsx:52-58 | Length, order and ids are kept; id-matching classes are replaced by the edited one and others are unchanged. |
| ClassScheduling.EditUnchangedIsIdentity | src/pages/ClassScheduling.tsx:52-55 | With unique ids, saving an unchanged edit form changes nothing. |
| ClassScheduling.EditClassIdempotent | src/pages/ClassScheduling.tsx:52-55 | Saving the same edit twice gives the list saving it once gives. |
| ClassScheduling.ToggleStudent | src/pages/ClassScheduling.tsx:215-221 | An unticked student is appended at the end. A ticked student is removed with every copy, the others keeping their order. No other student's membership changes, and a selection without duplicates stays so. |
| ClassScheduling.OpenAssign | src/pages/ClassScheduling.tsx:163-168 | The Assign Students button opens the modal on that class with nothing ticked. |
| ClassScheduling.ToggleTwiceRestores | src/pages/ClassScheduling.tsx:215-221 | Ticking and then unticking a student restores the original selection. |
| ClassScheduling.Assign | src/pages/ClassScheduling.tsx:42-50 | The class list is never modified. No target: nothing happens. Otherwise the modal closes and the selection is cleared. |
| Collections.Distinct | src/pages/ClassScheduling.tsx:25 | Each value appears once and iff it occurs, in first-occurrence order. |
| Records.SetLeadStatusIdempotent | src/pages/SalesFollowUp.tsx:130-136 | Setting a lead status twice is setting it once. |

## Left out

- Rendering, React hooks, the context provider and the presentational
  components: the model covers the list transitions only.
- The provider in `src/hooks/useDemoData.tsx` exposes only leads, bookings
  and placements, while the follow-up and enrolment pages destructure
  follow-up and enrolment setters. The model gives the handlers the store of
  all five lists they assume.
- Toasts and their timed removal are replaced by `Outcome`. Success messages
  (which interpolate names and counts) are not modelled; error messages are
  copied exactly.
- `Date.now()` ids, `new Date().toISOString()` timestamps and today's date
  are parameters.
- `Date` parsing and `YYYY-MM-DD` formatting are function parameters. Day
  arithmetic works on local day numbers.
- Hours are `real`. `Number.parseFloat` is a parameter's result (`None`
  for NaN). IEEE rounding and Infinity, which passes the hours check, are
  not modelled.
- `Text.Lower`: lower-cases ASCII letters only, not the full Unicode
  mapping of `toLowerCase`. `Text.Trim` strips the common white-space
  characters, not every Unicode space.
- JavaScript compares strings by UTF-16 code units; the model compares
  characters by scalar value. The two orders agree outside the
  supplementary planes.
- TrialScheduling.Reschedule: writes the week key by the corrected rule, the
  local Monday, and not the UTC date of its midnight that the code writes;
  east of UTC, where the seed bookings are, the two differ by a day (see
  Findings, and `TrialScheduling.WeekKeyDayAsWritten` for the code's key).
- Internships.UpcomingCheckIns: does not fix the order of placements with
  equal check-in dates, because the source's comparator never returns 0
  and the engine's sort decides ties.
- The class-scheduling week selector only labels the cards and changes no
  list. Capacity and enrolled are real numbers, as `Number(...)` of the
  edit form's inputs can be fractional; the NaN and infinite values it can
  also give are not modelled, and the edited record is taken as given.
- Opening and closing modals, and copying a record into a form, are left
  out, except the assign modal's open and save.
- Seed data is not modelled.
- No operation turns a lead into a booking.
- The drop-down option lists of the internship and trial pages (program,
  mentor, coach, location, owner, status) are the same `Options`
  construction as `FollowUps.OwnerOptions` and `ClassScheduling.Coaches`,
  and are not repeated.

## Findings

| source | as written | input that shows it | evidently intended | confidence | as-written member | corrected member |
|---|---|---|---|---|---|---|
| src/pages/TrialScheduling.tsx:118-125 | The week key is the Monday's local midnight written with `toISOString`, a UTC date. | At UTC+10:30 (Adelaide), rescheduling to Wednesday 2025-11-12 writes "2025-11-09", a Sunday. | The Monday of the local week, "2025-11-10". | high; not executed | TrialScheduling.WeekKeyDayAsWritten (shown by TrialScheduling.WeekKeyAdelaideCounterexample) | TrialScheduling.MondayOf (used by TrialScheduling.Reschedule) |
