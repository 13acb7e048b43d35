/** The browser's goal helpers: reading an ISO date, the next day of an
    interval schedule, the schedule label and the target text.

    "Today" is the local day number of the browser's clock, passed in. */
module GoalHelpers {
  import opened Wrappers
  import opened Seqs
  import opened Text
  import opened Dates
  import opened GoalDtos
  import opened Schedule

  /** The fields of a goal the helpers read, as the browser receives them:
      the interval start is the API's "YYYY-MM-DD" text. */
  datatype GoalView = GoalView(
    scheduleDays: seq<int>,
    intervalDays: Option<int>,
    intervalStartDate: Option<string>,
    isMeasurable: bool,
    targetValue: int,
    unit: string)

  /** The first three numbers of a '-'-separated date: year, month (1-based) and day. */
  datatype DateParts = DateParts(year: nat, month: nat, day: nat)

  /** `dateStr.split("-").map(Number)` destructured into its first three
      numbers; `None` when there are fewer than three pieces or one of them is
      not a run of decimal digits. */
  function ParseParts(s: string): (r: Option<DateParts>)
    ensures r.Some? <==> var p := Split(s, '-');
      |p| >= 3 && AllDigits(p[0]) && AllDigits(p[1]) && AllDigits(p[2])
    ensures r.Some? ==> var p := Split(s, '-');
      r.value == DateParts(DigitsValue(p[0]), DigitsValue(p[1]), DigitsValue(p[2]))
  {
    var p := Split(s, '-');
    if |p| >= 3 && AllDigits(p[0]) && AllDigits(p[1]) && AllDigits(p[2]) then
      Some(DateParts(DigitsValue(p[0]), DigitsValue(p[1]), DigitsValue(p[2])))
    else None
  }

  /** `parseLocalDate`: `new Date(year, month - 1, day)` at local midnight, as
      a day number; None stands for an Invalid Date, which text that is not a
      date, or a date beyond the range `Date` can hold, gives. */
  function ParseLocalDate(s: string): (r: Option<int>)
    ensures r.Some? ==> InJsDateRange(r.value)
  {
    match ParseParts(s)
    case None => None
    case Some(p) =>
      var d := JsDate(p.year, p.month - 1, p.day);
      if InJsDateRange(d) then Some(d) else None
  }

  /** The API's text for a date: "YYYY-MM-DD", zero-padded. */
  function IsoDate(year: nat, month: nat, day: nat): string
  {
    ZeroPad(year, 4) + "-" + ZeroPad(month, 2) + "-" + ZeroPad(day, 2)
  }

  lemma {:induction false} DigitsHaveNoDash(s: string)
    requires AllDigits(s)
    ensures '-' !in s
  {
  }

  /** Reading the API's date text gives back its year, month and day. */
  lemma ParseIsoDate(year: nat, month: nat, day: nat)
    ensures ParseParts(IsoDate(year, month, day)) == Some(DateParts(year, month, day))
  {
    var y, m, d := ZeroPad(year, 4), ZeroPad(month, 2), ZeroPad(day, 2);
    DigitsHaveNoDash(y);
    DigitsHaveNoDash(m);
    DigitsHaveNoDash(d);
    assert Join([y, m, d], "-") == IsoDate(year, month, day) by {
      assert Join([m, d], "-") == m + "-" + d by {
        assert [m, d][1..] == [d];
      }
      assert [y, m, d][1..] == [m, d];
    }
    SplitJoin([y, m, d], '-');
    ZeroPadRoundTrip(year, 4);
    ZeroPadRoundTrip(month, 2);
    ZeroPadRoundTrip(day, 2);
  }

  /** For a year from 100 on, `parseLocalDate` of the API's date text is that
      calendar day, or an Invalid Date past the range `Date` can hold. */
  lemma ParseLocalDateOfIso(year: nat, month: nat, day: nat)
    requires year >= 100 && 1 <= month <= 12
    ensures ParseLocalDate(IsoDate(year, month, day)) ==
      if InJsDateRange(DayNumber(year, month, day)) then Some(DayNumber(year, month, day)) else None
  {
    ParseIsoDate(year, month, day);
    JsDateInMonth(year, month - 1, day);
  }

  /** The `Date` constructor reads a year below 100 as 19xx, so the text of a
      year-50 date is read as 1950. */
  lemma TwoDigitYearsShift(month: nat, day: nat)
    requires 1 <= month <= 12
    ensures ParseLocalDate(IsoDate(50, month, day)) ==
      if InJsDateRange(DayNumber(1950, month, day)) then Some(DayNumber(1950, month, day)) else None
  {
    ParseIsoDate(50, month, day);
    JsDateInMonth(50, month - 1, day);
    var d := JsDate(50, month - 1, day);
    assert d == DayNumber(1950, month, day);
    assert ParseLocalDate(IsoDate(50, month, day)) == if InJsDateRange(d) then Some(d) else None;
  }


  /** `getNextOccurrence` on day numbers: the start when it is today or later;
      otherwise `start + floor(d / N) * N` for `d = today - start`, moved one
      more interval on when that is still before today. */
  function NextOccurrence(intervalDays: int, start: int, today: int): int
    requires intervalDays != 0
  {
    if start >= today then start
    else
      var daysSinceStart := today - start;
      var cyclesPassed := FloorDiv(daysSinceStart, intervalDays);
      var next := start + cyclesPassed * intervalDays;
      if next < today then next + intervalDays else next
  }

  lemma MulMonotone(a: int, b: int, m: nat)
    requires a <= b
    ensures a * m <= b * m
  {
  }

  /** A start in the past is followed by the first day that is a whole number
      of |N|-day intervals after the start and not before today: it lies in
      `[today, today + |N|)`, whatever the sign of N. */
  lemma NextOccurrenceSpec(intervalDays: int, start: int, today: int)
    requires intervalDays != 0 && start < today
    ensures var r := NextOccurrence(intervalDays, start, today);
      && today <= r < today + Abs(intervalDays)
      && (exists k: nat :: r == start + k * Abs(intervalDays))
      && forall k: nat :: start + k * Abs(intervalDays) >= today ==> r <= start + k * Abs(intervalDays)
  {
    var m := Abs(intervalDays);
    var r := NextOccurrence(intervalDays, start, today);
    var K: nat;
    if intervalDays > 0 {
      K := CyclesForward(intervalDays, start, today);
    } else {
      K := CyclesBackward(intervalDays, start, today);
    }
    assert r == start + K * m;
    FirstMultiple(start, today, m, K);
  }

  /** The multiple of `m` in `[today, today + m)` is the first one not before today. */
  lemma FirstMultiple(start: int, today: int, m: nat, K: nat)
    requires today <= start + K * m < today + m
    ensures forall k: nat :: start + k * m >= today ==> start + K * m <= start + k * m
  {
    forall k: nat | start + k * m >= today
      ensures start + K * m <= start + k * m
    {
      if k < K {
        MulMonotone(k, K - 1, m);
      }
    }
  }

  /** A positive interval: floor division lands at or before today, and one more interval passes it. */
  lemma CyclesForward(n: int, start: int, today: int) returns (K: nat)
    requires n > 0 && start < today
    ensures NextOccurrence(n, start, today) == start + K * n
    ensures today <= start + K * n < today + n
  {
    var d := today - start;
    var c := FloorDiv(d, n);
    assert c * n <= d < c * n + n;
    assert c >= 0 by {
      if c < 0 {
        MulMonotone(c, -1, n);
      }
    }
    if start + c * n < today {
      K := c + 1;
    } else {
      K := c;
    }
  }

  /** A negative interval: floor division already lands at or after today. */
  lemma CyclesBackward(n: int, start: int, today: int) returns (K: nat)
    requires n < 0 && start < today
    ensures NextOccurrence(n, start, today) == start + K * -n
    ensures today <= start + K * -n < today - n
  {
    var d := today - start;
    var c := FloorDiv(d, n);
    assert c * n + n < d <= c * n;
    assert c < 0;
    K := -c;
    assert K * -n == c * n;
  }

  /** The next occurrence is a day the server's schedule check calls due. */
  lemma NextOccurrenceIsDue(g: Goal, today: int)
    requires IntervalMode(g) && g.intervalDays.value != 0
    ensures Due(g, NextOccurrence(g.intervalDays.value, g.intervalStartDate.value, today))
  {
    var n, start := g.intervalDays.value, g.intervalStartDate.value;
    var r := NextOccurrence(n, start, today);
    IntervalOccurrences(g, r);
    if start < today {
      NextOccurrenceSpec(n, start, today);
    } else {
      assert r == start + 0 * Abs(n);
    }
  }

  /** The `Date` that `getNextOccurrence` returns: a calendar day, or an
      Invalid Date when the start text does not read as a date or the next
      occurrence lies beyond the range `Date` can hold. Nothing in
      its `try` block throws on an Invalid Date (the comparison is false and
      the day arithmetic yields NaN), so it never returns null, and an
      Invalid Date is still a truthy object. */
  datatype NextDate = InvalidDate | OnDay(day: int)

  /** `getNextOccurrence(intervalDays, intervalStartDate)` with the text parsed. */
  function GetNextOccurrence(intervalDays: int, intervalStartDate: string, today: int): (r: NextDate)
    requires intervalDays != 0
    ensures r.OnDay? <==>
      ParseLocalDate(intervalStartDate).Some?
      && InJsDateRange(NextOccurrence(intervalDays, ParseLocalDate(intervalStartDate).value, today))
    ensures r.OnDay? ==> InJsDateRange(r.day)
    ensures ParseLocalDate(intervalStartDate).Some? && ParseLocalDate(intervalStartDate).value >= today ==>
      r == OnDay(ParseLocalDate(intervalStartDate).value)
  {
    match ParseLocalDate(intervalStartDate)
    case None => InvalidDate
    case Some(start) =>
      var next := NextOccurrence(intervalDays, start, today);
      if InJsDateRange(next) then OnDay(next) else InvalidDate
  }

  /** While today and the day one interval later are both dates `Date` can
      hold, a start text that parses never gives an Invalid Date. */
  lemma NextOccurrenceInRange(intervalDays: int, intervalStartDate: string, today: int)
    requires intervalDays != 0 && ParseLocalDate(intervalStartDate).Some?
    requires InJsDateRange(today) && InJsDateRange(today + Abs(intervalDays))
    ensures GetNextOccurrence(intervalDays, intervalStartDate, today).OnDay?
  {
    var start := ParseLocalDate(intervalStartDate).value;
    if start < today {
      NextOccurrenceSpec(intervalDays, start, today);
    }
  }

  /** What follows "Every N days": " (Today)" or " (Next: <day>)"; or the
      RangeError that `format(date, "MMM d")` throws on an Invalid Date, in
      which case no label is produced at all. */
  datatype NextLabel = IsToday | NextOn(day: int) | FormatThrows

  /** The schedule line of a goal. `EveryNDays` carries the interval and the
      next-occurrence suffix; the date is kept as a day number rather than
      rendered as "MMM d". */
  datatype ScheduleLabel = EveryNDays(n: int, next: NextLabel) | EveryDay | Weekdays | Weekends | DayList(text: string)

  /** `DAY_NAMES_SHORT[d]`; an index outside 0..6 is `undefined`, which `join` renders as "". */
  function DayName(d: int): string
  {
    if d == 0 then "Sun" else if d == 1 then "Mon" else if d == 2 then "Tue"
    else if d == 3 then "Wed" else if d == 4 then "Thu" else if d == 5 then "Fri"
    else if d == 6 then "Sat" else ""
  }

  function DayNames(days: seq<int>): (r: seq<string>)
    ensures |r| == |days|
    ensures forall i :: 0 <= i < |days| ==> r[i] == DayName(days[i])
  {
    seq(|days|, i requires 0 <= i < |days| => DayName(days[i]))
  }

  /** JavaScript truthiness of the two interval fields: a number other than 0, a non-empty string. */
  predicate IntervalTruthy(goal: GoalView)
  {
    goal.intervalDays.Some? && goal.intervalDays.value != 0
    && goal.intervalStartDate.Some? && goal.intervalStartDate.value != ""
  }

  /** The weekday part of `formatSchedule`, checked in the source's order. */
  function WeekdayLabel(days: seq<int>): ScheduleLabel
  {
    if |days| == 7 then EveryDay
    else if |days| == 5 && 0 !in days && 6 !in days then Weekdays
    else if |days| == 2 && 0 in days && 6 in days then Weekends
    else DayList(Join(DayNames(days), ", "))
  }

  /** `formatSchedule`: the interval label when both interval fields are
      truthy, with " (Today)" exactly when the next occurrence is today,
      and a throw when that occurrence is an Invalid Date (the plain
      "Every N days" is never reached, since the occurrence is never null);
      otherwise the weekday label. */
  function FormatSchedule(goal: GoalView, today: int): (r: ScheduleLabel)
    ensures r.EveryNDays? <==> IntervalTruthy(goal)
    ensures r.EveryNDays? ==> r.n == goal.intervalDays.value
    ensures r.EveryNDays? && r.next.IsToday? ==>
      GetNextOccurrence(goal.intervalDays.value, goal.intervalStartDate.value, today) == OnDay(today)
    ensures r.EveryNDays? && r.next.NextOn? ==> r.next.day != today
    ensures IntervalTruthy(goal) ==>
      var o := GetNextOccurrence(goal.intervalDays.value, goal.intervalStartDate.value, today);
      && (r.next == IsToday <==> o == OnDay(today))
      && (o.OnDay? && o.day != today ==> r.next == NextOn(o.day))
      && (r.next == FormatThrows <==> o == InvalidDate)
    ensures !IntervalTruthy(goal) ==> r == WeekdayLabel(goal.scheduleDays)
  {
    if IntervalTruthy(goal) then
      var n := goal.intervalDays.value;
      match GetNextOccurrence(n, goal.intervalStartDate.value, today)
      case OnDay(next) => EveryNDays(n, if next == today then IsToday else NextOn(next))
      case InvalidDate => EveryNDays(n, FormatThrows)
    else WeekdayLabel(goal.scheduleDays)
  }

  /** A next day shown in the label is after today: the label never points into the past. */
  lemma ScheduleNextIsFuture(goal: GoalView, today: int)
    requires FormatSchedule(goal, today).EveryNDays? && FormatSchedule(goal, today).next.NextOn?
    ensures FormatSchedule(goal, today).next.day > today
  {
    var n := goal.intervalDays.value;
    var start := ParseLocalDate(goal.intervalStartDate.value).value;
    if start < today {
      NextOccurrenceSpec(n, start, today);
    }
  }

  /** An interval of 0 days: the server's schedule check throws on and after
      the start, while the browser ignores the interval and shows the weekday label. */
  lemma ZeroIntervalDisagreement(g: Goal, view: GoalView, today: int, date: int)
    requires g.intervalDays == Some(0) && g.intervalStartDate.Some? && date >= g.intervalStartDate.value
    requires view.intervalDays == Some(0)
    ensures IsGoalScheduledForDate(g, date) == Failure(DivideByZero)
    ensures FormatSchedule(view, today) == WeekdayLabel(view.scheduleDays)
  {
  }

  /** A start date without its day ("2025-01") reads as an Invalid Date, so
      the interval label throws instead of showing "Every 2 days". */
  lemma MissingDayThrows(scheduleDays: seq<int>, today: int)
    ensures FormatSchedule(GoalView(scheduleDays, Some(2), Some("2025-01"), false, 0, ""), today) == EveryNDays(2, FormatThrows)
  {
    assert '-' !in "2025" && '-' !in "01";
    assert "2025-01" == "2025" + ['-'] + "01";
    SplitCons("2025", '-', "01");
  }

  /** A start in year 300000 is past the range `Date` can hold, so it reads
      as an Invalid Date and the interval label throws. */
  lemma FarFutureStartThrows(scheduleDays: seq<int>, today: int)
    ensures FormatSchedule(GoalView(scheduleDays, Some(2), Some(IsoDate(300000, 1, 1)), false, 0, ""), today)
      == EveryNDays(2, FormatThrows)
  {
    ParseLocalDateOfIso(300000, 1, 1);
    assert !InJsDateRange(DayNumber(300000, 1, 1));
  }

  lemma {:induction false} DistinctCard(days: seq<int>)
    requires forall i, j :: 0 <= i < j < |days| ==> days[i] != days[j]
    ensures |set d | d in days| == |days|
  {
    if days != [] {
      var pre := days[..|days| - 1];
      DistinctCard(pre);
      assert (set d | d in days) == (set d | d in pre) + {days[|days| - 1]};
      assert days[|days| - 1] !in pre;
    }
  }

  /** Distinct weekday numbers, as a schedule editor produces them. */
  predicate DistinctWeekdays(days: seq<int>)
  {
    && (forall i, j :: 0 <= i < j < |days| ==> days[i] != days[j])
    && (forall i :: 0 <= i < |days| ==> 0 <= days[i] < 7)
  }

  function DaySet(days: seq<int>): set<int>
  {
    set d | d in days
  }

  lemma DaySetFacts(days: seq<int>)
    requires DistinctWeekdays(days)
    ensures |DaySet(days)| == |days|
    ensures DaySet(days) <= {0, 1, 2, 3, 4, 5, 6}
  {
    DistinctCard(days);
  }

  /** For a schedule of distinct weekdays, "Every day" means all seven days. */
  lemma EveryDayMeansAll(days: seq<int>)
    requires DistinctWeekdays(days)
    ensures WeekdayLabel(days) == EveryDay <==> DaySet(days) == {0, 1, 2, 3, 4, 5, 6}
  {
    DaySetFacts(days);
    if |days| == 7 {
      SubsetCard(DaySet(days), {0, 1, 2, 3, 4, 5, 6});
    }
  }

  /** For a schedule of distinct weekdays, "Weekdays" means exactly Monday to Friday. */
  lemma WeekdaysMeansMonToFri(days: seq<int>)
    requires DistinctWeekdays(days)
    ensures WeekdayLabel(days) == Weekdays <==> DaySet(days) == {1, 2, 3, 4, 5}
  {
    DaySetFacts(days);
    var s := DaySet(days);
    if |days| == 5 && 0 !in days && 6 !in days {
      assert s <= {1, 2, 3, 4, 5};
      SubsetCard(s, {1, 2, 3, 4, 5});
    }
    if s == {1, 2, 3, 4, 5} {
      assert 0 !in s && 6 !in s;
    }
  }

  /** For a schedule of distinct weekdays, "Weekends" means exactly Saturday and Sunday. */
  lemma WeekendsMeansSatSun(days: seq<int>)
    requires DistinctWeekdays(days)
    ensures WeekdayLabel(days) == Weekends <==> DaySet(days) == {0, 6}
  {
    DaySetFacts(days);
    var s := DaySet(days);
    if |days| == 2 && 0 in days && 6 in days {
      assert {0, 6} <= s;
      SubsetCard({0, 6}, s);
    }
    if s == {0, 6} {
      assert 0 in s && 6 in s;
    }
  }

  /** Any other set of distinct weekdays is listed by name, in the given order. */
  lemma OtherDaysListed(days: seq<int>)
    requires DistinctWeekdays(days)
    requires DaySet(days) != {0, 1, 2, 3, 4, 5, 6} && DaySet(days) != {1, 2, 3, 4, 5} && DaySet(days) != {0, 6}
    ensures WeekdayLabel(days) == DayList(Join(DayNames(days), ", "))
  {
    EveryDayMeansAll(days);
    WeekdaysMeansMonToFri(days);
    WeekendsMeansSatSun(days);
  }

  /** `UNIT_LABELS`: the short label of each known unit. */
  const UnitLabels: map<string, string> :=
    map["minutes" := "min", "pages" := "pg", "reps" := "reps", "liters" := "L", "km" := "km", "items" := "items"]

  /** `UNIT_LABELS[unit] || unit`: the short label, or the unit itself when it has none. */
  function UnitLabel(unit: string): (r: string)
    ensures unit in UnitLabels ==> r == UnitLabels[unit]
    ensures unit !in UnitLabels ==> r == unit
  {
    if unit in UnitLabels && UnitLabels[unit] != "" then UnitLabels[unit] else unit
  }

  /** `formatTarget`: nothing for a goal that is not measurable, otherwise the
      target followed by the unit's label. */
  function FormatTarget(isMeasurable: bool, targetValue: int, unit: string): (r: Option<string>)
    ensures r.None? <==> !isMeasurable
  {
    if !isMeasurable then None else Some(IntToString(targetValue) + UnitLabel(unit))
  }

  /** `formatTargetWithLabel`: "Simple" where `formatTarget` gives nothing. */
  function FormatTargetWithLabel(isMeasurable: bool, targetValue: int, unit: string): (r: string)
    ensures r == "Simple" <==> !isMeasurable
  {
    if !isMeasurable then "Simple"
    else
      var text := IntToString(targetValue) + UnitLabel(unit);
      assert text[0] == '-' || IsDigit(text[0]);
      text
  }

  /** The two target formats agree wherever the goal is measurable. */
  lemma TargetFormatsAgree(isMeasurable: bool, targetValue: int, unit: string)
    ensures FormatTarget(isMeasurable, targetValue, unit).Some? ==>
      FormatTargetWithLabel(isMeasurable, targetValue, unit) == FormatTarget(isMeasurable, targetValue, unit).value
  {
  }

  /** A measurable target's text is a minus sign exactly when the target is
      negative, then the digits of its magnitude, which read back as that
      magnitude, then the unit's label. */
  lemma FormatTargetReadsBack(targetValue: int, unit: string)
    ensures var t := FormatTarget(true, targetValue, unit).value;
      var sign := if targetValue < 0 then 1 else 0;
      var k := sign + |NatToString(Abs(targetValue))|;
      && k <= |t| && (t[0] == '-' <==> targetValue < 0)
      && AllDigits(t[sign..k]) && DigitsValue(t[sign..k]) == Abs(targetValue)
      && t[k..] == UnitLabel(unit)
  {
    var t := FormatTarget(true, targetValue, unit).value;
    var digits := NatToString(Abs(targetValue));
    var sign := if targetValue < 0 then 1 else 0;
    assert t[sign..sign + |digits|] == digits;
    assert IsDigit(digits[0]);
    NatToStringRoundTrip(Abs(targetValue));
  }
}
