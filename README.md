# HabitPulse goal scheduling and calendar, in Dafny

HabitPulse is a habit tracker. A user keeps goals. Each goal is due on chosen
weekdays, or every N days from a start date. The user ticks goals off day by
day, and a calendar colours each day by how much of that day's schedule was
done. This project models the core of that system and proves properties of it.

**Backend** (`GoalService`, `GoalEndpoints`):
- The schedule predicate.
- The goal list with its today filter.
- Creating goals, with the next sort order.
- Partial updates.
- Toggling today's completion.
- Reordering goals.
- The per-day calendar aggregation.
- The done / not-done day details.
- The request guards of the HTTP handlers.

**Browser side**:
- Parsing `YYYY-MM-DD` dates.
- The next occurrence of an interval goal.
- The schedule and target labels (`goalHelpers.ts`, and their copies inside `GoalCard.tsx`). The card uses its copy of `formatTarget` only to decide whether to show a target at all. What it shows is the raw `targetValue` and the unit, with only "minutes" shortened to "min"; so `GoalCard.CardFormatTargetAgrees` is about the copy, not about the card's display.
- The calendar month grid, cell colours, tooltips and click guard (`Calendar.tsx`).
- The dashboard's drag-and-drop reordering and completion summary (`Dashboard.tsx`).

## Conventions

- **Dates** are day numbers on the scale of .NET's `DateOnly.DayNumber`. Day 0 is
  0001-01-01, a Monday. The browser's local-midnight `Date` values are mapped onto the
  same scale, so "today", interval starts and calendar cells compare directly.
  - `Dates` supplies the Gregorian functions: days in a month, day numbers, weekday and leap years.
  - `Dates` also supplies JavaScript's `new Date(y, m, d)` normalisation. A year in 0..99
    means 1900 + year, and months and days roll over.
- **Time** enters as a `today` parameter; nothing reads a clock. A goal's `CreatedAt`
  is a tick count. Its first countable day is `ticks / 864_000_000_000`.
- **Storage** is an in-memory store: the class `GoalStore.GoalService`. It holds a
  sequence of goals and a set of `(goalId, day)` completions.
  - Its methods update the store in place, as the entity context does.
  - The read operations are functions and loop methods over a snapshot of the store.
- **Goal order** for listing uses `(SortOrder, CreatedAt)`. It is produced by a stable insertion sort.
- **Intervals of zero days.** `IntervalDays == 0` makes `% 0` throw in
  `IsGoalScheduledForDate` once the date is on or after the start. The model makes that
  an explicit error, `Failure(DivideByZero)`. The list, calendar and day-details queries
  carry it up, and the endpoints turn it into a server error (500).

Where the code and its comments disagree, the model follows the code:
- `UpdateGoalAsync` says that a null clears the interval fields and the description
  (GoalService.cs lines 148 and 152). The code only assigns non-null values, so nothing
  is ever cleared. `GoalStore.PatchKeeps` proves that a present value stays present.
- The browser tests the interval fields for truthiness. An interval of 0 days therefore
  shows the weekday label, while the backend takes the interval branch.
  `GoalHelpers.ZeroIntervalDisagreement` states both sides.
- In a year 0..99 the month grid dates its cells 1900 years later than the month it
  shows, because `new Date(year, …)` reads two-digit years that way.
  `CalendarPage.TwoDigitYearGrid` states this. The column-alignment lemmas cover the
  other years.

## Model

| member | source | states |
|---|---|---|
| Dates.DayOfWeek | src/HabitPulse.Api/Services/GoalService.cs:27 | the weekday, 0 = Sunday, lies in 0..6 |
| Dates.WeekdayCycle | src/HabitPulse.Api/Services/GoalService.cs:27-28 | weekdays repeat every 7 days and advance by one each day |
| Dates.DaysInMonth | frontend/src/pages/Calendar.tsx:67 | a month has 28..31 days, and 29 exactly for February of a leap year |
| Dates.YearLength | src/HabitPulse.Api/Services/GoalService.cs:244 | a year has 365 days, or 366 in a leap year, and consecutive New Years differ by that |
| Dates.NextDay | src/HabitPulse.Api/Services/GoalService.cs:244 | `AddDays(1)` is the next calendar date, across month and year ends |
| Dates.Epoch | src/HabitPulse.Api/Services/GoalService.cs:22 | day 0 is 0001-01-01 and a Monday |
| Dates.FloorDiv | frontend/src/utils/goalHelpers.ts:53 | `Math.floor(a / b)` for either sign of `b` |
| Dates.JsDateInMonth | frontend/src/utils/goalHelpers.ts:22 | `new Date(y, m, d)` for a month index 0..11 is that calendar date, read as year 1900 + y when y is 0..99 |
| Dates.JsDateRangeEnds | frontend/src/utils/goalHelpers.ts:22 | `Date`'s range of 100,000,000 days either side of 1970-01-01 runs from -271821-04-20 to 275760-09-13 |
| Text.NatToStringRoundTrip | frontend/src/utils/goalHelpers.ts:101 | a number's decimal text reads back as the number |
| Text.ZeroPadRoundTrip | frontend/src/utils/goalHelpers.ts:21 | a zero-padded field reads back as its value |
| Text.SplitJoin | frontend/src/utils/goalHelpers.ts:21 | `split` undoes `join` when no part holds the separator |
| Schedule.IsGoalScheduledForDate | src/HabitPulse.Api/Services/GoalService.cs:17-29 | fails exactly when the interval is 0 and the date is not before the start; before the start it is not due; in weekday mode it is due iff the weekday is listed |
| Schedule.Remainder | src/HabitPulse.Api/Services/GoalService.cs:23 | C#'s `%` of a non-negative number of days by the interval: a value below the interval's magnitude |
| Schedule.RemainderZero | src/HabitPulse.Api/Services/GoalService.cs:23 | the remainder is zero exactly when the days since the start are a whole number of intervals |
| Schedule.IntervalOccurrences | src/HabitPulse.Api/Services/GoalService.cs:20-23 | in interval mode, due iff the date is the start plus a whole number of intervals |
| Schedule.IntervalOverridesWeekdays | src/HabitPulse.Api/Services/GoalService.cs:20-24 | with both interval fields present, the weekday list has no effect |
| Schedule.WeekdayModeWeekly | src/HabitPulse.Api/Services/GoalService.cs:26-28 | in weekday mode a goal is due on a date iff it is due a week later |
| Schedule.TwoDayIntervalExample | src/HabitPulse.Api/Services/GoalService.cs:20-23 | an every-2-days goal from 2025-01-13 is due on the 13th, 15th and 17th but not the 14th or 16th |
| Schedule.WeekdayExample | src/HabitPulse.Api/Services/GoalService.cs:26-28 | a Mon/Wed/Fri goal is due on exactly those days of the first week of 2025 |
| GoalOrdering.OrderBySortOrder | src/HabitPulse.Api/Services/GoalService.cs:40-41 | the result is sorted by (SortOrder, CreatedAt) and is a permutation of the input |
| GoalOrdering.InsertSorted | src/HabitPulse.Api/Services/GoalService.cs:40-41 | inserting into a sorted list keeps it sorted |
| GoalOrdering.InsertMultiset | src/HabitPulse.Api/Services/GoalService.cs:40-41 | inserting adds exactly the one element |
| GoalOrdering.OrderedMembers | src/HabitPulse.Api/Services/GoalService.cs:40-41 | ordering neither adds nor drops a goal |
| GoalOrdering.CountOrdered | src/HabitPulse.Api/Services/GoalService.cs:284-285 | ordering does not change how many goals satisfy a predicate |
| GoalQueries.SelectGoals | src/HabitPulse.Api/Services/GoalService.cs:46-47 | with todayOnly, fails iff some active goal's schedule check throws; otherwise keeps exactly the goals the filter admits |
| GoalQueries.GetGoals | src/HabitPulse.Api/Services/GoalService.cs:31-67 | returns at most the user's goals; `IsCompletedToday` holds iff a completion for (goal, today) exists |
| GoalQueries.Statuses | src/HabitPulse.Api/Services/GoalService.cs:48-64 | projects each kept goal, in order, with its completion flag |
| GoalQueries.GetGoalsFails | src/HabitPulse.Api/Services/GoalService.cs:46-47 | the list fails iff todayOnly is set and one of the user's active goals has a zero interval started by today |
| GoalQueries.GetGoalsAll | src/HabitPulse.Api/Services/GoalService.cs:38-43 | without todayOnly every goal of the user, active or not, comes back, one entry per goal, in (SortOrder, CreatedAt) order, and nothing else |
| GoalQueries.GetGoalsToday | src/HabitPulse.Api/Services/GoalService.cs:39-47 | with todayOnly the list is sorted and holds exactly the user's active goals due today |
| GoalQueries.OrderedOwned | src/HabitPulse.Api/Services/GoalService.cs:35-43 | the ordered list holds exactly the user's goals |
| GoalQueries.FindGoal | src/HabitPulse.Api/Services/GoalService.cs:71-72 | the first goal with that id owned by the user, or -1 iff there is none |
| GoalQueries.GetGoalById | src/HabitPulse.Api/Services/GoalService.cs:69-91 | null iff the user owns no goal with that id; otherwise that goal's response |
| GoalQueries.GetCalendarData | src/HabitPulse.Api/Services/GoalService.cs:224-272 | fails iff some active goal's schedule throws on a counted day of the range; otherwise returns the per-day counts of the specification |
| GoalQueries.TallyDay | src/HabitPulse.Api/Services/GoalService.cs:246-268 | one day's count of scheduled and completed goals, or the schedule failure |
| GoalQueries.LoadedCompletion | src/HabitPulse.Api/Services/GoalService.cs:231-240 | loading only the user's completions within the range loses none that the count needs |
| GoalQueries.CalendarShape | src/HabitPulse.Api/Services/GoalService.cs:244-268 | `end - start + 1` entries on consecutive ascending dates, each with `0 <= completed <= totalScheduled <= #active goals` |
| GoalQueries.NotCountedBeforeCreation | src/HabitPulse.Api/Services/GoalService.cs:251-254 | a goal adds nothing to days before the day it was created |
| GoalQueries.NoCrashBeforeCreation | src/HabitPulse.Api/Services/GoalService.cs:251-257 | a goal's schedule is never evaluated before the day it was created |
| GoalQueries.GetCalendarDayDetails | src/HabitPulse.Api/Services/GoalService.cs:279-317 | fails iff some active goal's schedule throws that day; otherwise the done / not-done split of the ordered active goals |
| GoalQueries.FileGoals | src/HabitPulse.Api/Services/GoalService.cs:293-316 | files each counted goal under done or not done, in order |
| GoalQueries.FileGoal | src/HabitPulse.Api/Services/GoalService.cs:298-314 | one goal of the loop throws iff its schedule check throws on a date it existed by; otherwise it goes under done, under not done, or nowhere, exactly as the day's done / not-done predicates say |
| GoalQueries.FiledDayIsDetails | src/HabitPulse.Api/Services/GoalService.cs:293-316 | adding the goals one at a time gives the done list and the not-done list of the goals in order |
| GoalQueries.OrderedActive | src/HabitPulse.Api/Services/GoalService.cs:282-286 | the ordered list holds exactly the user's active goals |
| GoalQueries.CompletedIdOfActive | src/HabitPulse.Api/Services/GoalService.cs:288-291 | for the user's goals, the id set answers exactly the completion lookup |
| GoalQueries.DayDetailsSound | src/HabitPulse.Api/Services/GoalService.cs:306-316 | TotalScheduled is the size of done plus the size of not done, Completed the size of done; done items were completed that day, not-done items were not, and both were scheduled and created by then |
| GoalQueries.DayDetailsComplete | src/HabitPulse.Api/Services/GoalService.cs:296-313 | every goal created by that day and due on it appears in done or not done, according to its completion |
| GoalQueries.DayDetailsOrdered | src/HabitPulse.Api/Services/GoalService.cs:284-285 | both lists keep the (SortOrder, CreatedAt) order |
| GoalQueries.DayDetailsMatchCalendar | src/HabitPulse.Api/Services/GoalService.cs:246-268 | the day details' counts equal the calendar entry for the same day |
| GoalQueries.ItemsSnoc | src/HabitPulse.Api/Services/GoalService.cs:306-312 | appending a goal appends its item |
| GoalStore.Wrap32 | src/HabitPulse.Api/Services/GoalService.cs:110 | 32-bit `int` addition: the result stays in range, equals the exact sum in range, and `int.MaxValue + 1` wraps to `int.MinValue` |
| GoalStore.MaxSortOrder | src/HabitPulse.Api/Services/GoalService.cs:95-97 | none iff the user has no goals; otherwise the largest of the user's sort orders |
| GoalStore.FirstGoalSortOrder | src/HabitPulse.Api/Services/GoalService.cs:95-97 | a user's first goal gets sort order 0 |
| GoalStore.NextSortOrderIsLargest | src/HabitPulse.Api/Services/GoalService.cs:95-110 | the new sort order is one more than the user's largest and above all of them |
| GoalStore.NextSortOrderWraps | src/HabitPulse.Api/Services/GoalService.cs:110 | after `int.MaxValue` the next sort order wraps to `int.MinValue` |
| GoalStore.NewGoalFields | src/HabitPulse.Api/Services/GoalService.cs:99-111 | a new goal is active, copies the request, and is scheduled every day when no days are given |
| GoalStore.PatchKeeps | src/HabitPulse.Api/Services/GoalService.cs:140-153 | an update keeps id, owner and creation time, and never clears an interval field or the description |
| GoalStore.PatchIdentityAndIdempotent | src/HabitPulse.Api/Services/GoalService.cs:140-153 | an empty update changes nothing, and applying an update twice equals applying it once |
| GoalStore.PatchCompose | src/HabitPulse.Api/Services/GoalService.cs:140-153 | two updates in a row equal one update merged from both, the later value winning |
| GoalStore.Flip | src/HabitPulse.Api/Services/GoalService.cs:200-216 | toggling puts the pair in iff it was absent, and touches no other pair |
| GoalStore.FlipTwice | src/HabitPulse.Api/Services/GoalService.cs:200-216 | two toggles restore the completion set |
| GoalStore.LastIndexOf | src/HabitPulse.Api/Services/GoalService.cs:325-331 | the last position of an id in the list, or -1 iff it is absent |
| GoalStore.Reordered | src/HabitPulse.Api/Services/GoalService.cs:319-335 | reordering keeps the number of goals |
| GoalStore.ReorderedSpec | src/HabitPulse.Api/Services/GoalService.cs:319-335 | only sort orders change; each listed goal of the user gets the last index of its id, and every other goal is unchanged |
| GoalStore.ReorderedFollowsList | src/HabitPulse.Api/Services/GoalService.cs:325-331 | with distinct ids, sort orders follow the list's order |
| GoalStore.ReorderStep | src/HabitPulse.Api/Services/GoalService.cs:325-331 | one loop step sets the sort order of the goal found for `goalIds[i]` to `i` |
| GoalStore.GoalService.constructor | src/HabitPulse.Api/Services/GoalService.cs:12-15 | the store starts empty and valid |
| GoalStore.GoalService.CreateGoal | src/HabitPulse.Api/Services/GoalService.cs:93-131 | appends the new goal with the next sort order, keeps the completions, and returns its response |
| GoalStore.GoalService.UpdateGoal | src/HabitPulse.Api/Services/GoalService.cs:133-172 | none and no change when the user owns no such goal; otherwise patches exactly that goal |
| GoalStore.GoalService.ToggleCompletion | src/HabitPulse.Api/Services/GoalService.cs:187-217 | fails with not-found iff the user owns no such goal; otherwise flips (goal, today) and reports whether it is now completed |
| GoalStore.GoalService.ReorderGoals | src/HabitPulse.Api/Services/GoalService.cs:319-335 | the goals become the reordered goals, and the completions stay the same |
| GoalEndpoints.ValidateCreate | src/HabitPulse.Api/Endpoints/GoalEndpoints.cs:48-53 | accepts iff the name is not blank and a measurable goal has a positive target; gives each refusal its message |
| GoalEndpoints.ValidateCalendarRange | src/HabitPulse.Api/Endpoints/GoalEndpoints.cs:117-125 | accepts iff both dates are present, ordered, and at most 366 days apart; otherwise the first failing guard's message: missing, reversed, or too long |
| GoalEndpoints.ValidateDayDate | src/HabitPulse.Api/Endpoints/GoalEndpoints.cs:140-141 | accepts iff a date is given |
| GoalEndpoints.ValidateReorder | src/HabitPulse.Api/Endpoints/GoalEndpoints.cs:156-157 | accepts iff the id list is present and non-empty |
| GoalEndpoints.GetGoalsHandler | src/HabitPulse.Api/Endpoints/GoalEndpoints.cs:14-22 | 200 with exactly the list query's result iff that query succeeds (an omitted `todayOnly` meaning true), else 500 |
| GoalEndpoints.GetGoalByIdHandler | src/HabitPulse.Api/Endpoints/GoalEndpoints.cs:27-38 | 404 iff the user owns no such goal; otherwise 200 with exactly the lookup's response for that goal |
| GoalEndpoints.TodayOnlyDefault | src/HabitPulse.Api/Endpoints/GoalEndpoints.cs:20 | an omitted `todayOnly` means true |
| GoalEndpoints.NoGoalsOk | src/HabitPulse.Api/Endpoints/GoalEndpoints.cs:14-22 | a user without goals gets an empty 200 list |
| GoalEndpoints.MeasurableZeroTargetRefused | tests/HabitPulse.Api.Tests/GoalEndpointsTests.cs:32-47 | a measurable goal with target 0 is refused with "Target value must be greater than 0" |
| GoalEndpoints.UnmeasuredZeroTargetAccepted | src/HabitPulse.Api/Endpoints/GoalEndpoints.cs:51-53 | a non-measurable goal with target 0 and a real name is accepted |
| GoalEndpoints.SpanBoundary | src/HabitPulse.Api/Endpoints/GoalEndpoints.cs:123-125 | a span of exactly 366 days is accepted and 367 is refused |
| GoalEndpoints.CreateGoalHandler | src/HabitPulse.Api/Endpoints/GoalEndpoints.cs:42-57 | a refused request is 400 with its message and changes nothing; otherwise 201 whose body is the response for the new goal, which is appended with the next sort order; completions never change |
| GoalEndpoints.UpdateGoalHandler | src/HabitPulse.Api/Endpoints/GoalEndpoints.cs:61-72 | 404 iff the user owns no such goal, with nothing changed; otherwise that goal is patched in place and 200 returns its response; completions never change |
| GoalEndpoints.ToggleHandler | src/HabitPulse.Api/Endpoints/GoalEndpoints.cs:91-106 | goals never change; a missing goal is 404 and changes nothing; otherwise today's completion is flipped and the 200 body is true iff it was absent before |
| GoalEndpoints.CalendarHandler | src/HabitPulse.Api/Endpoints/GoalEndpoints.cs:111-129 | a refused range is 400 with its message; otherwise 500 on a schedule failure, or 200 with the per-day counts |
| GoalEndpoints.CalendarDayHandler | src/HabitPulse.Api/Endpoints/GoalEndpoints.cs:134-145 | a missing date is 400; otherwise 500 iff some active goal's schedule check throws on that date, else 200 with the day details |
| GoalEndpoints.ReorderHandler | src/HabitPulse.Api/Endpoints/GoalEndpoints.cs:150-161 | 400 iff the id list is missing or empty, with nothing changed; otherwise the goals are reordered |
| GoalHelpers.ParseParts | frontend/src/utils/goalHelpers.ts:20-23 | reads the first three dash-separated fields as numbers, and fails iff one of them is not a digit string |
| GoalHelpers.ParseIsoDate | frontend/src/utils/goalHelpers.ts:20-23 | "YYYY-MM-DD" parses back to its year, month and day |
| GoalHelpers.ParseLocalDateOfIso | frontend/src/utils/goalHelpers.ts:20-23 | for a year of 100 or more, the parsed date is that calendar date (month - 1 as the month index), or an Invalid Date when it lies past the range `Date` can hold |
| GoalHelpers.TwoDigitYearsShift | frontend/src/utils/goalHelpers.ts:22 | a year 50 string is read as 1950 (or is an Invalid Date past the range `Date` can hold) |
| GoalHelpers.NextOccurrenceSpec | frontend/src/utils/goalHelpers.ts:51-62 | for a start in the past, the result is the smallest start plus a whole number of intervals that is not before today, and lies within one interval length of today |
| GoalHelpers.NextOccurrenceIsDue | frontend/src/utils/goalHelpers.ts:37-68 | the next occurrence is a day the backend calls due |
| GoalHelpers.GetNextOccurrence | frontend/src/utils/goalHelpers.ts:37-68 | a day iff the start date parses to a date `Date` can hold and the next occurrence is one too, otherwise an Invalid Date (never null); the start itself when it is today or later |
| GoalHelpers.NextOccurrenceInRange | frontend/src/utils/goalHelpers.ts:41-63 | a start that parses never gives an Invalid Date while today and the day one interval later are within `Date`'s range |
| GoalHelpers.DayNames | frontend/src/utils/goalHelpers.ts:90 | one name per listed day, in order |
| GoalHelpers.FormatSchedule | frontend/src/utils/goalHelpers.ts:73-91 | the interval label iff both interval fields are truthy, carrying N; "(Today)" iff the next occurrence is today, the next date when it is later; a RangeError from `format` iff the next occurrence is an Invalid Date: the start date does not parse, or a date lies past `Date`'s range (plain "Every N days" is unreachable); otherwise the weekday label |
| GoalHelpers.MissingDayThrows | frontend/src/utils/goalHelpers.ts:73-84 | a start date "2025-01" without its day makes the interval label throw |
| GoalHelpers.FarFutureStartThrows | frontend/src/utils/goalHelpers.ts:73-84 | a start date in year 300000, past `Date`'s range, makes the interval label throw |
| GoalHelpers.ScheduleNextIsFuture | frontend/src/utils/goalHelpers.ts:76-81 | a "(Next: …)" date is after today |
| GoalHelpers.ZeroIntervalDisagreement | frontend/src/utils/goalHelpers.ts:75 | a 0-day interval fails in the backend but shows the weekday label in the browser |
| GoalHelpers.DistinctCard | frontend/src/utils/goalHelpers.ts:86-89 | a list without repeats has as many distinct days as entries |
| GoalHelpers.DaySetFacts | frontend/src/utils/goalHelpers.ts:86-89 | distinct weekdays form a subset of 0..6 of the list's size |
| GoalHelpers.EveryDayMeansAll | frontend/src/utils/goalHelpers.ts:87 | for distinct weekdays, "Every day" iff all seven days are listed |
| GoalHelpers.WeekdaysMeansMonToFri | frontend/src/utils/goalHelpers.ts:88 | for distinct weekdays, "Weekdays" iff the days are exactly Monday..Friday |
| GoalHelpers.WeekendsMeansSatSun | frontend/src/utils/goalHelpers.ts:89 | for distinct weekdays, "Weekends" iff the days are exactly Saturday and Sunday |
| GoalHelpers.OtherDaysListed | frontend/src/utils/goalHelpers.ts:90 | any other set of days is shown as its short names joined by ", " |
| GoalHelpers.UnitLabel | frontend/src/utils/goalHelpers.ts:7-14 | a known unit maps to its abbreviation, and any other unit shows as itself |
| GoalHelpers.FormatTarget | frontend/src/utils/goalHelpers.ts:97-102 | null iff the goal is not measurable |
| GoalHelpers.FormatTargetWithLabel | frontend/src/utils/goalHelpers.ts:108-113 | "Simple" iff the goal is not measurable |
| GoalHelpers.TargetFormatsAgree | frontend/src/utils/goalHelpers.ts:97-113 | the two target formats agree on measurable goals |
| GoalHelpers.FormatTargetReadsBack | frontend/src/utils/goalHelpers.ts:101 | the target text is a minus sign iff the value is negative, then the magnitude's digits, which read back as the magnitude, then the unit label |
| GoalCard.CardNextOccurrenceAgrees | frontend/src/components/GoalCard.tsx:66-100 | the card's inline next occurrence equals the shared helper's |
| GoalCard.CardNextOccurrenceSpec | frontend/src/components/GoalCard.tsx:79-95 | the start when it is today or later; otherwise the first whole number of intervals after the start that is not before today, within N days of today; never an Invalid Date while today and the day one interval later are within `Date`'s range |
| GoalCard.CardFormatScheduleAgrees | frontend/src/components/GoalCard.tsx:103-138 | the card's schedule label equals the shared helper's |
| GoalCard.CardFormatTargetAgrees | frontend/src/components/GoalCard.tsx:141-156 | the card's target text equals the shared helper's |
| Ratios.RoundedPercent | frontend/src/pages/Calendar.tsx:58 | `Math.round(c / t * 100)`: the whole percent within half a point of the exact ratio |
| Ratios.PercentInRange | frontend/src/pages/Dashboard.tsx:45-46 | for `0 <= c <= t`, the percent lies in 0..100, and is 0 for none and 100 for all |
| CalendarPage.ToMondayIndex | frontend/src/pages/Calendar.tsx:31-33 | maps into 0..6 with Sunday to 6 and Monday..Saturday to 0..5 |
| CalendarPage.FromMondayIndex | frontend/src/pages/Calendar.tsx:21 | the Sunday-first weekday heading a Monday-first column, in 0..6: the weekday of day number `column`, since day 0 is a Monday |
| CalendarPage.MondayIndexBijection | frontend/src/pages/Calendar.tsx:31-33 | `toMondayIndex` is a bijection of 0..6, undone by `FromMondayIndex` |
| CalendarPage.ColumnOfDay | frontend/src/pages/Calendar.tsx:31-33 | a day's Monday-first column is its day number mod 7 |
| CalendarPage.GetIntensity | frontend/src/pages/Calendar.tsx:39-47 | "future" iff the date is after today, checked first; "empty" iff not future and there is no data or nothing scheduled |
| CalendarPage.IntensityThresholds | frontend/src/pages/Calendar.tsx:43-46 | for consistent counts: green iff 5c ≥ 4t, yellow iff 10c ≥ 3t but not green, red iff 10c < 3t; all done is green and none is red |
| CalendarPage.IntensityMonotone | frontend/src/pages/Calendar.tsx:43-46 | completing one more goal never worsens the colour |
| CalendarPage.BuildTooltip | frontend/src/pages/Calendar.tsx:52-60 | the tooltip starts with the date label |
| CalendarPage.TooltipMatchesIntensity | frontend/src/pages/Calendar.tsx:55-58 | "upcoming" iff the cell is future, "no goals scheduled" iff it is empty; otherwise the shown percent lies in 0..100 |
| CalendarPage.DayLookup | frontend/src/pages/Calendar.tsx:187-193 | finds a day with that date iff one exists, and no later day in the list has that date (the last one wins) |
| CalendarPage.LookupConsecutive | frontend/src/pages/Calendar.tsx:187-193 | on the server's consecutive days, the i-th date finds the i-th day |
| CalendarPage.LeadingBlanks | frontend/src/pages/Calendar.tsx:68-69 | the 1st's Monday-first column, in 0..6 |
| CalendarPage.BuildMonthGrid | frontend/src/pages/Calendar.tsx:66-90 | the two push loops build the month grid: the blanks, then days 1..n |
| CalendarPage.GridAt | frontend/src/pages/Calendar.tsx:79-87 | cell i is blank before the 1st, and otherwise day `i - blanks + 1` with its `new Date` |
| CalendarPage.MonthGridLayout | frontend/src/pages/Calendar.tsx:66-90 | length = blanks + days in month; a cell is blank iff it comes before the 1st; day cells count 1, 2, … in order |
| CalendarPage.GridColumn | frontend/src/pages/Calendar.tsx:66-90 | outside years 0..99, a day cell holds its own date and sits in its weekday's column |
| CalendarPage.GridConsecutive | frontend/src/pages/Calendar.tsx:83-87 | neighbouring day cells hold consecutive dates |
| CalendarPage.TwoDigitYearGrid | frontend/src/pages/Calendar.tsx:70-84 | in years 0..99, the cells are dated 1900 years later |
| CalendarPage.DayClick | frontend/src/pages/Calendar.tsx:201-206 | a click opens the details of that date iff the date is not in the future |
| CalendarPage.ClickMatchesIntensity | frontend/src/pages/Calendar.tsx:204 | a click is ignored exactly on cells coloured "future" |
| Dashboard.FindIndex | frontend/src/pages/Dashboard.tsx:100-101 | the first position of the id, or -1 iff it is absent |
| Dashboard.RemoveAt | frontend/src/pages/Dashboard.tsx:107 | `splice(i, 1)` shortens the list by one |
| Dashboard.InsertAt | frontend/src/pages/Dashboard.tsx:108 | `splice(i, 0, x)` lengthens the list by one |
| Dashboard.MovedSpec | frontend/src/pages/Dashboard.tsx:106-108 | the move is a permutation of the same length, puts the moved element at the target index, and keeps the others in their relative order |
| Dashboard.DropBesideTarget | frontend/src/pages/Dashboard.tsx:106-108 | a goal dragged downwards lands just after the target, and one dragged upwards just before it |
| Dashboard.HandleDrop | frontend/src/pages/Dashboard.tsx:96-112 | no new order iff nothing is dragged, it is dropped on itself, or either goal is missing; otherwise the dragged goal moved to the target's index |
| Dashboard.DropReorders | frontend/src/pages/Dashboard.tsx:96-112 | the order sent is a permutation of the list, with the dragged goal at the target's index and the rest in their old order |
| Dashboard.CompletedCount | frontend/src/pages/Dashboard.tsx:43 | completedCount ≤ totalCount |
| Dashboard.CompletionPercent | frontend/src/pages/Dashboard.tsx:45-46 | 0 with no goals, and always within 0..100 |
| Dashboard.SummaryCounts | frontend/src/pages/Dashboard.tsx:43-44 | the completed count is the number of goals done today, at most the total |
| Dashboard.AllDoneIsFull | frontend/src/pages/Dashboard.tsx:43-46 | with every goal done, completed = total and 100% |
| Dashboard.NoneDoneIsZero | frontend/src/pages/Dashboard.tsx:43-46 | with no goal done, 0 completed and 0% |

## Left out

- Authentication: the 401 branches of every endpoint and the reading of the user id from the token. The user id is a parameter.
- `DeleteGoalAsync` and its endpoint: deleting a goal, and the cascade that removes its completions, are not modelled.
- Entity Framework, `SaveChangesAsync` and the database are not modelled. The store is in memory, and one method call is one transaction.
- Order between goals with equal (SortOrder, CreatedAt) is not modelled, because the database leaves it unspecified. The model keeps such goals in store order.
- Concurrency is not modelled: two toggles racing, and unique-constraint conflicts.
- The clocks (`DateTime.UtcNow`, `new Date()`, `isFuture`, `isToday`) become the `today` parameter, and time zones and daylight saving are not modelled.
- Goal ids and `CreatedAt` are generated by the database or the runtime. They are parameters of `GoalStore.GoalService.CreateGoal`, which requires a fresh id.
- Models/Goal.cs is not part of this model. The model assumes its defaults: `IsActive` starts true, and `Name` is never null once the create guard has passed.
- `DateOnly.AddDays` overflow past 9999-12-31 is not modelled. Day numbers are unbounded.
- Date formatting with `format` and `toLocaleDateString` ("MMM d", "MMM d, yyyy", "yyyy-MM-dd", "EEEE, …") is not modelled.
  - The schedule label carries the next occurrence's day number, not its text.
  - The tooltip takes the formatted date label as a parameter.
  - A cell's date string is represented by its day number.
- GoalHelpers.ParseLocalDate: `Number()` also accepts blanks, signs, hex, exponents and decimals. The model reads digit strings only, an empty field as 0, and anything else as an Invalid Date, so a few texts that JavaScript reads as a valid date are treated as invalid here.
- Dates.InJsDateRange: `Date`'s range is 8.64e15 ms either side of 1970-01-01 UTC, while `new Date(y, m, d)` is local midnight. On the two boundary days, whether the date is valid depends on the time zone; the model takes the range in whole days.
- CalendarPage.BuildMonthGrid: the month grid's `new Date` cells are not range-checked. The page reaches a year past `Date`'s range only by paging forward one month at a time from today.
- GoalCard: the card's displayed target (value and unit spans, with "minutes" shown as "min") is not modelled. Only its `formatTarget` copy is, which decides whether the target is shown.
- GoalHelpers.GetNextOccurrence: requires a non-zero interval, because its only caller tests the interval for truthiness first.
- types.ts is not part of this model. `DAY_NAMES_SHORT` is taken as Sun..Sat, and an index outside 0..6 shows as an empty name, as `join` renders `undefined`.
- `UNIT_LABELS` lookups of inherited object keys (such as "constructor") are not modelled.
- Ratios.RoundedPercent: computed on exact rationals. Floating-point rounding of `c / t * 100` before `Math.round` is not modelled.
- CalendarPage.GetIntensity: the thresholds compare exact ratios, so a floating-point quotient that lands just under 0.8 or 0.3 is not modelled.
- Rendering, animation, CSS class names, modals, the zustand stores and the HTTP clients are not modelled.
- Dashboard.HandleDrop: works on the goals' ids, which are all that is sent to the server. The goal objects are not modelled.
