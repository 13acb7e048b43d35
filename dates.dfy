/** Calendar arithmetic on day numbers.

    A calendar date is represented by its day number in the proleptic Gregorian
    calendar, counted from day 0 = 0001-01-01 (the scale of .NET's
    `DateOnly.DayNumber`). The browser side uses the same scale for local
    midnights, so "today", interval starts and calendar cells compare directly. */
module Dates {

  /** `DateOnly.FromDateTime`: the day a tick count falls on, with
      864_000_000_000 .NET `DateTime` ticks (100 ns) in one day. */
  function DayOfTicks(ticks: nat): nat
  {
    ticks / 864_000_000_000
  }

  /** `(int)date.DayOfWeek` and JavaScript's `getDay()`: 0 = Sunday .. 6 = Saturday.
      Day 0 (0001-01-01) was a Monday. */
  function DayOfWeek(day: int): (w: int)
    ensures 0 <= w < 7
  {
    (day + 1) % 7
  }

  /** Weekdays repeat every seven days, and consecutive days have consecutive weekdays. */
  lemma WeekdayCycle(day: int)
    ensures DayOfWeek(day + 7) == DayOfWeek(day)
    ensures DayOfWeek(day + 1) == (DayOfWeek(day) + 1) % 7
  {
  }

  predicate IsLeapYear(year: int)
  {
    year % 4 == 0 && (year % 100 != 0 || year % 400 == 0)
  }

  /** Days in `month` (1 = January .. 12 = December) of `year`. */
  function DaysInMonth(year: int, month: int): (n: int)
    requires 1 <= month <= 12
    ensures 28 <= n <= 31
    ensures n == 29 <==> month == 2 && IsLeapYear(year)
  {
    if month == 2 then (if IsLeapYear(year) then 29 else 28)
    else if month == 4 || month == 6 || month == 9 || month == 11 then 30
    else 31
  }

  /** Days in the months of `year` that precede `month`. */
  function DaysBeforeMonth(year: int, month: int): (n: nat)
    requires 1 <= month <= 13
    decreases month
  {
    if month == 1 then 0 else DaysBeforeMonth(year, month - 1) + DaysInMonth(year, month - 1)
  }

  /** Days from 0001-01-01 to January 1st of `year` (negative before year 1). */
  function DaysBeforeYear(year: int): int
  {
    365 * (year - 1) + (year - 1) / 4 - (year - 1) / 100 + (year - 1) / 400
  }

  /** The day number of `year`-`month`-`day`, with `day` allowed to run past the
      month's end (as JavaScript's `Date` constructor allows). */
  function DayNumber(year: int, month: int, day: int): int
    requires 1 <= month <= 12
  {
    DaysBeforeYear(year) + DaysBeforeMonth(year, month) + day - 1
  }

  /** A year has 365 days, or 366 in a leap year. */
  lemma YearLength(year: int)
    ensures DaysBeforeMonth(year, 13) == if IsLeapYear(year) then 366 else 365
    ensures DaysBeforeYear(year + 1) - DaysBeforeYear(year) == DaysBeforeMonth(year, 13)
  {
    MonthsOfYear(year);
    YearStep(year);
  }

  /** The twelve months add up to 365 days, or 366 in a leap year. */
  lemma MonthsOfYear(year: int)
    ensures DaysBeforeMonth(year, 13) == if IsLeapYear(year) then 366 else 365
  {
  }

  /** New Year's days are a year length apart. */
  lemma YearStep(year: int)
    ensures DaysBeforeYear(year + 1) - DaysBeforeYear(year) == if IsLeapYear(year) then 366 else 365
  {
    var d4 := QuotientStep(year, 4);
    var d100 := QuotientStep(year, 100);
    var d400 := QuotientStep(year, 400);
    assert DaysBeforeYear(year + 1) - DaysBeforeYear(year) == 365 + d4 - d100 + d400;
    if d400 == 1 {
      assert year == 400 * (year / 400);
      assert year == 100 * (4 * (year / 400)) && year == 4 * (100 * (year / 400));
    } else if d100 == 1 {
      assert year == 100 * (year / 100);
      assert year == 4 * (25 * (year / 100));
    }
  }

  /** The count of multiples of `n` up to a year rises by one exactly at a multiple. */
  lemma QuotientStep(year: int, n: int) returns (step: int)
    requires n == 4 || n == 100 || n == 400
    ensures step == year / n - (year - 1) / n
    ensures step == if year % n == 0 then 1 else 0
  {
    step := year / n - (year - 1) / n;
  }

  /** Consecutive calendar days have consecutive day numbers: within a month,
      across a month end, and across a year end. */
  lemma NextDay(year: int, month: int, day: int)
    requires 1 <= month <= 12 && 1 <= day <= DaysInMonth(year, month)
    ensures day < DaysInMonth(year, month) ==>
      DayNumber(year, month, day + 1) == DayNumber(year, month, day) + 1
    ensures day == DaysInMonth(year, month) && month < 12 ==>
      DayNumber(year, month + 1, 1) == DayNumber(year, month, day) + 1
    ensures day == DaysInMonth(year, month) && month == 12 ==>
      DayNumber(year + 1, 1, 1) == DayNumber(year, month, day) + 1
  {
    if day == DaysInMonth(year, month) && month == 12 {
      YearLength(year);
    }
  }

  /** The epoch: 0001-01-01 is day 0 and a Monday. */
  lemma Epoch()
    ensures DayNumber(1, 1, 1) == 0
    ensures DayOfWeek(DayNumber(1, 1, 1)) == 1
  {
  }

  /** Division rounding toward negative infinity, JavaScript's
      `Math.floor(a / b)` on integers. */
  function FloorDiv(a: int, b: int): (q: int)
    requires b != 0
    ensures b > 0 ==> b * q <= a < b * q + b
    ensures b < 0 ==> b * q + b < a <= b * q
  {
    if b > 0 then a / b else (-a) / (-b)
  }

  /** Day number of 1970-01-01, JavaScript's time origin. */
  const UnixEpochDay := 719162

  /** JavaScript's `Date` holds at most 8.64e15 ms either side of its origin,
      which is 100,000,000 days. */
  const MaxJsDays := 100_000_000

  /** A day JavaScript's `Date` can hold; outside this range `new Date` and
      `addDays` give an Invalid Date. */
  predicate InJsDateRange(day: int)
  {
    -MaxJsDays <= day - UnixEpochDay <= MaxJsDays
  }

  /** 1970-01-01 is day 719162, and the range ends on 275760-09-13 and
      begins on -271821-04-20. */
  lemma JsDateRangeEnds()
    ensures DayNumber(1970, 1, 1) == UnixEpochDay
    ensures InJsDateRange(DayNumber(275760, 9, 13)) && !InJsDateRange(DayNumber(275760, 9, 14))
    ensures InJsDateRange(DayNumber(-271821, 4, 20)) && !InJsDateRange(DayNumber(-271821, 4, 19))
  {
  }

  /** JavaScript's `new Date(year, monthIndex, day)` as a day number: a year in
      0..99 means 1900 + year, and a month index outside 0..11 or a day outside
      the month rolls over into neighbouring months and years; the year moves
      by `Math.floor(monthIndex / 12)`, which Euclidean `/` by 12 is. */
  function JsDate(year: int, monthIndex: int, day: int): int
  {
    var fullYear := if 0 <= year <= 99 then 1900 + year else year;
    var y := fullYear + monthIndex / 12;
    var m := monthIndex % 12;
    DayNumber(y, m + 1, day)
  }

  /** For a month index 0..11, `new Date(year, monthIndex, day)` is that
      day of that month, in year 1900 + `year` when `year` is 0..99. */
  lemma JsDateInMonth(year: int, monthIndex: int, day: int)
    requires 0 <= monthIndex < 12
    ensures JsDate(year, monthIndex, day) == DayNumber(if 0 <= year <= 99 then 1900 + year else year, monthIndex + 1, day)
  {
    assert monthIndex / 12 == 0 && monthIndex % 12 == monthIndex;
  }
}
