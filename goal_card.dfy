/** The goal card's own copies of the schedule and target helpers, written
    inline in the component, and the proof that they behave like the shared
    helpers. */
module GoalCard {
  import opened Wrappers
  import opened Text
  import opened Dates
  import opened Schedule
  import opened GoalHelpers

  /** The card's `getNextOccurrence`: the start text is split and read inline. */
  function CardNextOccurrence(intervalDays: int, intervalStartDate: string, today: int): NextDate
    requires intervalDays != 0
  {
    var p := Split(intervalStartDate, '-');
    if |p| < 3 || !AllDigits(p[0]) || !AllDigits(p[1]) || !AllDigits(p[2]) then InvalidDate
    else
      var start := JsDate(DigitsValue(p[0]), DigitsValue(p[1]) - 1, DigitsValue(p[2]));
      var next := CardNextFrom(intervalDays, start, today);
      if InJsDateRange(start) && InJsDateRange(next) then OnDay(next) else InvalidDate
  }

  /** The card's arithmetic once the start is read. */
  function CardNextFrom(intervalDays: int, start: int, today: int): int
    requires intervalDays != 0
  {
    if start >= today then start
    else
      var cyclesPassed := FloorDiv(today - start, intervalDays);
      var nextOccurrence := start + cyclesPassed * intervalDays;
      if nextOccurrence < today then nextOccurrence + intervalDays else nextOccurrence
  }

  /** The card's arithmetic is the shared helper's. */
  lemma CardNextFromAgrees(intervalDays: int, start: int, today: int)
    requires intervalDays != 0
    ensures CardNextFrom(intervalDays, start, today) == NextOccurrence(intervalDays, start, today)
  {
  }

  /** The card computes the same next occurrence as the shared helper. */
  lemma CardNextOccurrenceAgrees(intervalDays: int, intervalStartDate: string, today: int)
    requires intervalDays != 0
    ensures CardNextOccurrence(intervalDays, intervalStartDate, today) == GetNextOccurrence(intervalDays, intervalStartDate, today)
  {
    var p := Split(intervalStartDate, '-');
    if |p| >= 3 && AllDigits(p[0]) && AllDigits(p[1]) && AllDigits(p[2]) {
      var start := JsDate(DigitsValue(p[0]), DigitsValue(p[1]) - 1, DigitsValue(p[2]));
      assert ParseLocalDate(intervalStartDate) == if InJsDateRange(start) then Some(start) else None;
      CardNextFromAgrees(intervalDays, start, today);
    } else {
      assert ParseLocalDate(intervalStartDate) == None;
    }
  }

  /** The card's next occurrence: the start when it is today or later,
      otherwise the first day at least today that is a whole number of
      intervals after the start, and less than one interval away; it is a
      day `Date` can hold whenever today and the day one interval later are. */
  lemma CardNextOccurrenceSpec(intervalDays: int, intervalStartDate: string, today: int)
    requires intervalDays != 0 && ParseLocalDate(intervalStartDate).Some?
    ensures var start := ParseLocalDate(intervalStartDate).value;
      var r := CardNextOccurrence(intervalDays, intervalStartDate, today);
      && (start >= today ==> r == OnDay(start))
      && (start < today && r.OnDay? ==>
            today <= r.day < today + Abs(intervalDays) && exists k: nat :: r.day == start + k * Abs(intervalDays))
      && (InJsDateRange(today) && InJsDateRange(today + Abs(intervalDays)) ==> r.OnDay?)
  {
    CardNextOccurrenceAgrees(intervalDays, intervalStartDate, today);
    var start := ParseLocalDate(intervalStartDate).value;
    if start < today {
      NextOccurrenceSpec(intervalDays, start, today);
    }
  }

  /** The card's `formatSchedule`, with the weekday tests written out on the card's goal. */
  function CardFormatSchedule(goal: GoalView, today: int): ScheduleLabel
  {
    if goal.intervalDays.Some? && goal.intervalDays.value != 0
       && goal.intervalStartDate.Some? && goal.intervalStartDate.value != "" then
      var n := goal.intervalDays.value;
      match CardNextOccurrence(n, goal.intervalStartDate.value, today)
      case OnDay(next) => EveryNDays(n, if next == today then IsToday else NextOn(next))
      case InvalidDate => EveryNDays(n, FormatThrows)
    else if |goal.scheduleDays| == 7 then EveryDay
    else if |goal.scheduleDays| == 5 && 0 !in goal.scheduleDays && 6 !in goal.scheduleDays then Weekdays
    else if |goal.scheduleDays| == 2 && 0 in goal.scheduleDays && 6 in goal.scheduleDays then Weekends
    else DayList(Join(DayNames(goal.scheduleDays), ", "))
  }

  /** The card labels every goal as the shared helper does. */
  lemma CardFormatScheduleAgrees(goal: GoalView, today: int)
    ensures CardFormatSchedule(goal, today) == FormatSchedule(goal, today)
  {
    if IntervalTruthy(goal) {
      CardNextOccurrenceAgrees(goal.intervalDays.value, goal.intervalStartDate.value, today);
    }
  }

  /** The card's own unit abbreviations. */
  const CardUnitLabels: map<string, string> :=
    map["minutes" := "min", "pages" := "pg", "reps" := "reps", "liters" := "L", "km" := "km", "items" := "items"]

  /** The card's `formatTarget`: nothing for a simple goal, else the target and the unit's label. */
  function CardFormatTarget(goal: GoalView): Option<string>
  {
    if !goal.isMeasurable then None
    else
      var unitLabel := if goal.unit in CardUnitLabels && CardUnitLabels[goal.unit] != "" then CardUnitLabels[goal.unit] else goal.unit;
      Some(IntToString(goal.targetValue) + unitLabel)
  }

  /** The card formats targets as the shared helper does. */
  lemma CardFormatTargetAgrees(goal: GoalView)
    ensures CardFormatTarget(goal) == FormatTarget(goal.isMeasurable, goal.targetValue, goal.unit)
  {
    assert CardUnitLabels == UnitLabels;
  }
}
