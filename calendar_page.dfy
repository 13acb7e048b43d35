/** The month view of the calendar page: Monday-first columns, the colour of a
    day cell, its tooltip, the grid of cells for a month, and which cells open
    the day-details popup. "Today" is a parameter; a date is in the future
    exactly when it comes after today (its local midnight is after now). */
module CalendarPage {
  import opened Wrappers
  import opened Text
  import opened Dates
  import opened GoalDtos
  import opened Ratios

  /** Column of a Sunday-first weekday (0 = Sunday) in a Monday-first week
      (0 = Monday .. 6 = Sunday). */
  function ToMondayIndex(weekday: int): (column: int)
    ensures 0 <= column < 7
    ensures weekday == 0 ==> column == 6
    ensures 1 <= weekday <= 6 ==> column == weekday - 1
  {
    (weekday + 6) % 7
  }

  /** The weekday (0 = Sunday) heading a Monday-first column: column 0 is
      Monday, as day 0 is, so the column's weekday is that day's. */
  function FromMondayIndex(column: int): (weekday: int)
    ensures 0 <= weekday < 7
  {
    DayOfWeek(column)
  }

  /** `ToMondayIndex` is a bijection of 0..6, undone by `FromMondayIndex`. */
  lemma MondayIndexBijection(weekday: int, column: int)
    ensures 0 <= weekday < 7 ==> FromMondayIndex(ToMondayIndex(weekday)) == weekday
    ensures 0 <= column < 7 ==> ToMondayIndex(FromMondayIndex(column)) == column
  {
  }

  /** Day 0 was a Monday, so the Monday-first column of a day is its day number modulo 7. */
  lemma ColumnOfDay(day: int)
    ensures ToMondayIndex(DayOfWeek(day)) == day % 7
  {
    var w := (day + 1) % 7;
    assert day % 7 == 6 ==> w == 0;
    assert day % 7 < 6 ==> w == day % 7 + 1;
  }

  // ---------------------------------------------------------------------
  // Intensity and tooltip of a day cell

  datatype Intensity = Future | Empty | Green | Yellow | Red

  /** Colour of a day cell: future days first, then days with no data or
      nothing scheduled, then the completion ratio against 80% and 30%. */
  function GetIntensity(day: Option<CalendarDayResponse>, date: int, today: int): (r: Intensity)
    ensures r == Future <==> date > today
    ensures r == Empty <==> date <= today && (day.None? || day.value.totalScheduled == 0)
  {
    if date > today then Future
    else if day.None? || day.value.totalScheduled == 0 then Empty
    else if RatioAtLeast(day.value.completed, day.value.totalScheduled, 80, 100) then Green
    else if RatioAtLeast(day.value.completed, day.value.totalScheduled, 30, 100) then Yellow
    else Red
  }

  /** Red < Yellow < Green; the other intensities carry no ratio. */
  function Shade(i: Intensity): int
  {
    match i
    case Red => 0
    case Yellow => 1
    case Green => 2
    case _ => -1
  }

  /** For a past or present day with goals scheduled, the colour follows the
      completed count in whole numbers: green from 4 in 5, yellow from 3 in 10,
      red below; all done is green and nothing done is red. */
  lemma IntensityThresholds(date: int, today: int, total: int, completed: int)
    requires date <= today && 0 <= completed <= total && total > 0
    ensures GetIntensity(Some(CalendarDayResponse(date, total, completed)), date, today) == Green
      <==> 5 * completed >= 4 * total
    ensures GetIntensity(Some(CalendarDayResponse(date, total, completed)), date, today) == Yellow
      <==> 10 * completed >= 3 * total && 5 * completed < 4 * total
    ensures GetIntensity(Some(CalendarDayResponse(date, total, completed)), date, today) == Red
      <==> 10 * completed < 3 * total
    ensures completed == total ==> GetIntensity(Some(CalendarDayResponse(date, total, completed)), date, today) == Green
    ensures completed == 0 ==> GetIntensity(Some(CalendarDayResponse(date, total, completed)), date, today) == Red
  {
  }

  /** Completing one more goal never makes a day's colour worse. */
  lemma IntensityMonotone(date: int, today: int, total: int, completed: int)
    requires date <= today && 0 <= completed < total
    ensures Shade(GetIntensity(Some(CalendarDayResponse(date, total, completed)), date, today))
      <= Shade(GetIntensity(Some(CalendarDayResponse(date, total, completed + 1)), date, today))
  {
  }

  /** The tooltip of a day cell; `dayLabel` is the date already formatted as "MMM d, yyyy". */
  function BuildTooltip(dayLabel: string, day: Option<CalendarDayResponse>, date: int, today: int): (text: string)
    ensures |dayLabel| < |text| && text[..|dayLabel|] == dayLabel
  {
    if date > today then dayLabel + ": upcoming"
    else if day.None? || day.value.totalScheduled == 0 then dayLabel + ": no goals scheduled"
    else
      dayLabel + ": " + IntToString(day.value.completed) + " of " + IntToString(day.value.totalScheduled)
      + " goals completed (" + IntToString(RoundedPercent(day.value.completed, day.value.totalScheduled)) + "%)"
  }

  /** The tooltip and the colour pick the same case: "upcoming" exactly for
      future cells, "no goals scheduled" exactly for empty ones, and otherwise
      a count whose percentage lies in 0..100 when the counts are consistent. */
  lemma TooltipMatchesIntensity(dayLabel: string, day: Option<CalendarDayResponse>, date: int, today: int)
    ensures BuildTooltip(dayLabel, day, date, today) == dayLabel + ": upcoming"
      <==> GetIntensity(day, date, today) == Future
    ensures BuildTooltip(dayLabel, day, date, today) == dayLabel + ": no goals scheduled"
      <==> GetIntensity(day, date, today) == Empty
    ensures GetIntensity(day, date, today) in {Green, Yellow, Red} && 0 <= day.value.completed <= day.value.totalScheduled ==>
      0 <= RoundedPercent(day.value.completed, day.value.totalScheduled) <= 100
  {
    var text := BuildTooltip(dayLabel, day, date, today);
    var n := |dayLabel| + 2;
    if date <= today && day.Some? && day.value.totalScheduled != 0 {
      var s := IntToString(day.value.completed);
      assert s[0] == '-' || IsDigit(s[0]);
      assert text[n] == s[0];
      assert (dayLabel + ": upcoming")[n] == 'u';
      assert (dayLabel + ": no goals scheduled")[n] == 'n';
      if 0 <= day.value.completed <= day.value.totalScheduled {
        PercentInRange(day.value.completed, day.value.totalScheduled);
      }
    } else if date <= today {
      assert (dayLabel + ": upcoming")[n] == 'u';
      assert text[n] == 'n';
    }
  }

  // ---------------------------------------------------------------------
  // Looking up a cell's data

  /** `daysByDate.get(date)`: the map is filled in list order, so a later day
      with the same date replaces an earlier one. */
  function DayLookup(days: seq<CalendarDayResponse>, date: int): (r: Option<CalendarDayResponse>)
    ensures r.Some? ==> r.value in days && r.value.date == date
    ensures r.None? <==> forall k :: 0 <= k < |days| ==> days[k].date != date
    ensures r.Some? ==> exists j :: 0 <= j < |days| && days[j] == r.value && forall k :: j < k < |days| ==> days[k].date != date
  {
    if days == [] then None
    else if days[|days| - 1].date == date then Some(days[|days| - 1])
    else
      var earlier := days[..|days| - 1];
      assert forall k :: 0 <= k < |earlier| ==> earlier[k] == days[k];
      DayLookup(earlier, date)
  }

  /** The days the server returns for a range are consecutive dates, so the
      cell for the i-th date finds the i-th day. */
  lemma {:induction false} LookupConsecutive(days: seq<CalendarDayResponse>, i: nat)
    requires i < |days|
    requires forall k :: 0 <= k < |days| ==> days[k].date == days[0].date + k
    ensures DayLookup(days, days[0].date + i) == Some(days[i])
  {
    if i < |days| - 1 {
      var pre := days[..|days| - 1];
      assert forall k :: 0 <= k < |pre| ==> pre[k] == days[k];
      LookupConsecutive(pre, i);
    }
  }

  // ---------------------------------------------------------------------
  // The month grid

  datatype Cell = Blank | DayCell(dayOfMonth: int, date: int)

  /** Blank cells before the 1st: the 1st's Monday-first column. */
  function LeadingBlanks(year: int, monthIndex: int): (n: int)
    requires 0 <= monthIndex < 12
    ensures 0 <= n < 7
  {
    ToMondayIndex(DayOfWeek(DayNumber(year, monthIndex + 1, 1)))
  }

  /** `blanks` blank cells followed by the cells of days 1 .. `days`. */
  function Layout(blanks: nat, days: nat, cell: int -> Cell): seq<Cell>
  {
    seq(blanks, _ => Blank) + seq(days, i => cell(i + 1))
  }

  lemma LayoutAt(blanks: nat, days: nat, cell: int -> Cell, i: int)
    requires 0 <= i < blanks + days
    ensures |Layout(blanks, days, cell)| == blanks + days
    ensures Layout(blanks, days, cell)[i] == if i < blanks then Blank else cell(i - blanks + 1)
  {
  }

  lemma LayoutSnoc(blanks: nat, days: nat, cell: int -> Cell)
    ensures Layout(blanks, days + 1, cell) == Layout(blanks, days, cell) + [cell(days + 1)]
  {
    assert seq(days + 1, i => cell(i + 1)) == seq(days, i => cell(i + 1)) + [cell(days + 1)];
  }

  /** The cell of day `day` of the month: `new Date(year, monthIndex, day)`. */
  function DayCellOf(year: int, monthIndex: int): int -> Cell
  {
    (day: int) => DayCell(day, JsDate(year, monthIndex, day))
  }

  /** The grid as a value: the leading blanks, then days 1 .. days-in-month,
      each dated with `new Date(year, monthIndex, day)`. */
  function MonthGrid(year: int, monthIndex: int): seq<Cell>
    requires 0 <= monthIndex < 12
  {
    Layout(LeadingBlanks(year, monthIndex), DaysInMonth(year, monthIndex + 1), DayCellOf(year, monthIndex))
  }

  /** Builds the grid by pushing the blanks and then the days. */
  method BuildMonthGrid(year: int, monthIndex: int) returns (cells: seq<Cell>)
    requires 0 <= monthIndex < 12
    ensures cells == MonthGrid(year, monthIndex)
  {
    var totalDays := DaysInMonth(year, monthIndex + 1);
    var leadingBlanks := LeadingBlanks(year, monthIndex);
    cells := [];
    var i := 0;
    while i < leadingBlanks
      invariant 0 <= i <= leadingBlanks
      invariant cells == seq(i, _ => Blank)
    {
      cells := cells + [Blank];
      i := i + 1;
    }
    assert cells == Layout(leadingBlanks, 0, DayCellOf(year, monthIndex));
    var day := 1;
    while day <= totalDays
      invariant 1 <= day <= totalDays + 1
      invariant cells == Layout(leadingBlanks, day - 1, DayCellOf(year, monthIndex))
    {
      LayoutSnoc(leadingBlanks, day - 1, DayCellOf(year, monthIndex));
      cells := cells + [DayCell(day, JsDate(year, monthIndex, day))];
      day := day + 1;
    }
  }

  /** One cell of the grid: a blank before the 1st, otherwise the day it shows. */
  lemma GridAt(year: int, monthIndex: int, i: int)
    requires 0 <= monthIndex < 12 && 0 <= i < |MonthGrid(year, monthIndex)|
    ensures |MonthGrid(year, monthIndex)| == LeadingBlanks(year, monthIndex) + DaysInMonth(year, monthIndex + 1)
    ensures MonthGrid(year, monthIndex)[i] == if i < LeadingBlanks(year, monthIndex) then Blank
      else DayCell(i - LeadingBlanks(year, monthIndex) + 1, JsDate(year, monthIndex, i - LeadingBlanks(year, monthIndex) + 1))
  {
    LayoutAt(LeadingBlanks(year, monthIndex), DaysInMonth(year, monthIndex + 1), DayCellOf(year, monthIndex), i);
  }

  /** Within a month, day numbers count up from the 1st. */
  lemma DayOfMonthNumber(year: int, month: int, day: int)
    requires 1 <= month <= 12
    ensures DayNumber(year, month, day) == DayNumber(year, month, 1) + day - 1
  {
  }

  /** The grid holds the leading blanks and then every day of the month once,
      in order. */
  lemma MonthGridLayout(year: int, monthIndex: int)
    requires 0 <= monthIndex < 12
    ensures |MonthGrid(year, monthIndex)| == LeadingBlanks(year, monthIndex) + DaysInMonth(year, monthIndex + 1)
    ensures forall i :: 0 <= i < |MonthGrid(year, monthIndex)| ==>
      (MonthGrid(year, monthIndex)[i] == Blank <==> i < LeadingBlanks(year, monthIndex))
    ensures forall i :: LeadingBlanks(year, monthIndex) <= i < |MonthGrid(year, monthIndex)| ==>
      MonthGrid(year, monthIndex)[i].dayOfMonth == i - LeadingBlanks(year, monthIndex) + 1
  {
    forall i | 0 <= i < |MonthGrid(year, monthIndex)|
      ensures MonthGrid(year, monthIndex)[i] == Blank <==> i < LeadingBlanks(year, monthIndex)
      ensures i >= LeadingBlanks(year, monthIndex) ==>
        MonthGrid(year, monthIndex)[i].dayOfMonth == i - LeadingBlanks(year, monthIndex) + 1
    {
      GridAt(year, monthIndex, i);
    }
  }

  /** For a year outside 0..99 a day cell carries its own date and sits in the
      column of that date's weekday. */
  lemma GridColumn(year: int, monthIndex: int, i: int)
    requires !(0 <= year <= 99) && 0 <= monthIndex < 12
    requires LeadingBlanks(year, monthIndex) <= i < |MonthGrid(year, monthIndex)|
    ensures MonthGrid(year, monthIndex)[i].date
      == DayNumber(year, monthIndex + 1, 1) + (i - LeadingBlanks(year, monthIndex))
    ensures i % 7 == ToMondayIndex(DayOfWeek(MonthGrid(year, monthIndex)[i].date))
  {
    var date := GridDate(year, monthIndex, i);
    CellColumn(DayNumber(year, monthIndex + 1, 1), LeadingBlanks(year, monthIndex), i, date);
  }

  /** A cell `i - blanks` days after the 1st, with the 1st in column `blanks`,
      sits in column `i % 7`, which is its own date's column. */
  lemma CellColumn(first: int, blanks: int, i: int, date: int)
    requires blanks == ToMondayIndex(DayOfWeek(first)) && date == first + (i - blanks)
    ensures i % 7 == ToMondayIndex(DayOfWeek(date))
  {
    ColumnOfDay(first);
    ColumnOfDay(date);
    SameColumn(first, i - blanks);
  }

  /** The date of a day cell, for a year outside 0..99: the 1st's day number
      plus the cell's offset from the 1st. */
  lemma {:induction false} GridDate(year: int, monthIndex: int, i: int) returns (date: int)
    requires !(0 <= year <= 99) && 0 <= monthIndex < 12
    requires LeadingBlanks(year, monthIndex) <= i < |MonthGrid(year, monthIndex)|
    ensures date == MonthGrid(year, monthIndex)[i].date
    ensures date == DayNumber(year, monthIndex + 1, 1) + (i - LeadingBlanks(year, monthIndex))
  {
    var d := i - LeadingBlanks(year, monthIndex) + 1;
    GridAt(year, monthIndex, i);
    JsDateInMonth(year, monthIndex, d);
    DayOfMonthNumber(year, monthIndex + 1, d);
    date := DayNumber(year, monthIndex + 1, d);
  }

  /** Moving `k` days on moves `k` cells on, modulo the week. */
  lemma SameColumn(first: int, k: int)
    ensures (first % 7 + k) % 7 == (first + k) % 7
  {
  }

  /** Neighbouring day cells hold neighbouring dates, so the grid shows the
      month's days without gaps or repeats. */
  lemma {:induction false} GridConsecutive(year: int, monthIndex: int, i: int)
    requires !(0 <= year <= 99) && 0 <= monthIndex < 12
    requires LeadingBlanks(year, monthIndex) <= i < |MonthGrid(year, monthIndex)| - 1
    ensures MonthGrid(year, monthIndex)[i + 1].date == MonthGrid(year, monthIndex)[i].date + 1
  {
    GridColumn(year, monthIndex, i);
    GridColumn(year, monthIndex, i + 1);
  }

  /** In a year 0..99 the cells take JavaScript's two-digit-year reading and
      are dated 1900 years later than the month shown. */
  lemma TwoDigitYearGrid(year: int, monthIndex: int, i: int)
    requires 0 <= year <= 99 && 0 <= monthIndex < 12
    requires LeadingBlanks(year, monthIndex) <= i < |MonthGrid(year, monthIndex)|
    ensures MonthGrid(year, monthIndex)[i].date
      == DayNumber(1900 + year, monthIndex + 1, i - LeadingBlanks(year, monthIndex) + 1)
  {
    GridAt(year, monthIndex, i);
    JsDateInMonth(year, monthIndex, i - LeadingBlanks(year, monthIndex) + 1);
  }

  // ---------------------------------------------------------------------
  // Clicking a day

  /** `handleDayClick`: the date whose details are opened, or None for a
      future day, which is ignored. */
  function DayClick(dateString: string, date: int, today: int): (openedDate: Option<string>)
    ensures openedDate.Some? <==> date <= today
    ensures openedDate.Some? ==> openedDate.value == dateString
  {
    if date > today then None else Some(dateString)
  }

  /** A cell opens its details exactly when it is not coloured as the future. */
  lemma ClickMatchesIntensity(dateString: string, day: Option<CalendarDayResponse>, date: int, today: int)
    ensures DayClick(dateString, date, today).None? <==> GetIntensity(day, date, today) == Future
  {
  }
}
