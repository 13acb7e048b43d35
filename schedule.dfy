/** The schedule predicate: whether a goal is due on a date. */
module Schedule {
  import opened Wrappers
  import opened Dates
  import opened GoalDtos

  /** Interval mode applies when both interval fields are present. */
  predicate IntervalMode(g: Goal)
  {
    g.intervalDays.Some? && g.intervalStartDate.Some?
  }

  /** Evaluating the schedule throws: an interval of 0 days reaches C#'s `%` by
      zero, which is only evaluated on or after the interval start. */
  predicate Faults(g: Goal, date: int)
  {
    IntervalMode(g) && g.intervalDays.value == 0 && date >= g.intervalStartDate.value
  }

  /** `IsGoalScheduledForDate`. In interval mode a date is due when it is on or
      after the start and a whole number of intervals away from it; otherwise
      it is due when its weekday (0 = Sunday) is listed in `scheduleDays`.
      The dividend reached here is never negative, and C#'s `%` of it is
      `Remainder(daysSinceStart, |intervalDays|)`. */
  function IsGoalScheduledForDate(g: Goal, date: int): (r: Result<bool, ServiceError>)
    ensures r.Failure? <==> Faults(g, date)
    ensures r.Failure? ==> r.error == DivideByZero
    ensures IntervalMode(g) && date < g.intervalStartDate.value ==> r == Success(false)
    ensures !IntervalMode(g) ==> r == Success(DayOfWeek(date) in g.scheduleDays)
  {
    if g.intervalDays.Some? && g.intervalStartDate.Some? then
      var daysSinceStart := date - g.intervalStartDate.value;
      if daysSinceStart < 0 then Success(false)
      else if g.intervalDays.value == 0 then Failure(DivideByZero)
      else Success(Remainder(daysSinceStart, Abs(g.intervalDays.value)) == 0)
    else
      Success(DayOfWeek(date) in g.scheduleDays)
  }

  /** The goal is due on `date` (the check ran and said yes). */
  predicate Due(g: Goal, date: int)
  {
    IsGoalScheduledForDate(g, date) == Success(true)
  }

  function Abs(n: int): nat
  {
    if n < 0 then -n else n
  }

  /** C#'s `x % n` for a non-negative dividend `x` and `m == |n|`: what is
      left after taking `m` out of `x` as often as it fits. */
  function Remainder(x: nat, m: nat): (r: nat)
    requires m > 0
    ensures r < m
    decreases x
  {
    if x < m then x else Remainder(x - m, m)
  }

  /** The remainder is zero exactly for the multiples of `m`. */
  lemma {:induction false} RemainderZero(x: nat, m: nat)
    requires m > 0
    ensures Remainder(x, m) == 0 <==> exists k: nat :: x == k * m
  {
    if x < m {
      forall k: nat | x == k * m
        ensures x == 0
      {
        NoSmallMultiple(k, m);
      }
      if x == 0 {
        assert x == 0 * m;
      }
    } else {
      RemainderZero(x - m, m);
      if Remainder(x, m) == 0 {
        var k: nat :| x - m == k * m;
        assert x == (k + 1) * m;
      }
      if exists k: nat :: x == k * m {
        var k: nat :| x == k * m;
        NoSmallMultiple(k, m);
        assert x - m == (k - 1) * m;
      }
    }
  }

  /** A non-zero multiple of `m` is at least `m`. */
  lemma NoSmallMultiple(k: nat, m: nat)
    requires m > 0
    ensures k == 0 || k * m >= m
  {
    if k > 0 {
      AtLeastFactor(m, k);
    }
  }

  /** Interval mode is due exactly on start, start + N, start + 2N, ... (N taken
      by its magnitude, as C#'s remainder does), never before the start. */
  lemma IntervalOccurrences(g: Goal, date: int)
    requires IntervalMode(g) && g.intervalDays.value != 0
    ensures Due(g, date) <==>
      exists k: nat :: date == g.intervalStartDate.value + k * Abs(g.intervalDays.value)
  {
    var start, m := g.intervalStartDate.value, Abs(g.intervalDays.value);
    if date >= start {
      RemainderZero(date - start, m);
    } else {
      forall k: nat
        ensures date != start + k * m
      {
        assert k * m >= 0;
      }
    }
  }

  lemma {:induction false} AtLeastFactor(a: nat, b: nat)
    requires a >= 1 && b >= 1
    ensures a * b >= a
  {
    if b > 1 {
      AtLeastFactor(a, b - 1);
      assert a * b == a * (b - 1) + a;
    }
  }

  /** The weekday configuration is dead data in interval mode. */
  lemma IntervalOverridesWeekdays(g: Goal, days: seq<int>, date: int)
    requires IntervalMode(g)
    ensures IsGoalScheduledForDate(g.(scheduleDays := days), date) == IsGoalScheduledForDate(g, date)
  {
  }

  /** Weekday mode repeats every week. */
  lemma WeekdayModeWeekly(g: Goal, date: int)
    requires !IntervalMode(g)
    ensures Due(g, date) <==> Due(g, date + 7)
  {
    WeekdayCycle(date);
  }

  /** Goal created 2025-01-13 with a 2-day interval starting that day: due on
      the 13th, 15th and 17th, not on the 14th or 16th. */
  lemma TwoDayIntervalExample(g: Goal)
    requires g.intervalDays == Some(2) && g.intervalStartDate == Some(DayNumber(2025, 1, 13))
    ensures Due(g, DayNumber(2025, 1, 13)) && Due(g, DayNumber(2025, 1, 15)) && Due(g, DayNumber(2025, 1, 17))
    ensures !Due(g, DayNumber(2025, 1, 14)) && !Due(g, DayNumber(2025, 1, 16))
  {
    assert DayNumber(2025, 1, 13) == 739263;
  }

  /** A Monday/Wednesday/Friday goal during 2025-01-01 (a Wednesday) .. 2025-01-07. */
  lemma WeekdayExample(g: Goal)
    requires !IntervalMode(g) && g.scheduleDays == [1, 3, 5]
    ensures Due(g, DayNumber(2025, 1, 1)) && Due(g, DayNumber(2025, 1, 3)) && Due(g, DayNumber(2025, 1, 6))
    ensures !Due(g, DayNumber(2025, 1, 2)) && !Due(g, DayNumber(2025, 1, 4))
    ensures !Due(g, DayNumber(2025, 1, 5)) && !Due(g, DayNumber(2025, 1, 7))
  {
    assert DayNumber(2025, 1, 1) == 739251;
  }
}
