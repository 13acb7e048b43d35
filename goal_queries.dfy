/** The read side of the goal service: the goal list with its "due today"
    filter, the calendar range aggregation, and the day-detail partition.

    Each query works on the snapshot the service loads from the store: the
    stored goals and the set of completion pairs. */
module GoalQueries {
  import opened Wrappers
  import opened Seqs
  import opened Dates
  import opened GoalDtos
  import opened Schedule
  import opened GoalOrdering

  function OwnedBy(userId: UserId): Goal -> bool
  {
    (g: Goal) => g.userId == userId
  }

  function ActiveOf(userId: UserId): Goal -> bool
  {
    (g: Goal) => g.userId == userId && g.isActive
  }

  /** The user's active goals, in store order. */
  function ActiveGoals(goals: seq<Goal>, userId: UserId): seq<Goal>
  {
    Filter(goals, ActiveOf(userId))
  }

  /** The completion belongs to a goal the user owns (`c.Goal.UserId == userId`). */
  predicate CompletionOfUser(goals: seq<Goal>, c: Completion, userId: UserId)
  {
    exists j :: 0 <= j < |goals| && goals[j].id == c.goalId && goals[j].userId == userId
  }

  /*** GetGoalsAsync ***/

  function ToStatus(g: Goal, completions: set<Completion>, today: int): GoalWithStatusResponse
  {
    GoalWithStatusResponse(g.id, g.name, g.isMeasurable, g.targetValue, g.unit, TargetMinutes(g),
                           g.scheduleDays, g.intervalDays, g.intervalStartDate, g.description,
                           g.sortOrder, g.isActive, g.createdAt, Completion(g.id, today) in completions)
  }

  function KeptFor(todayOnly: bool, today: int): Goal -> bool
  {
    (g: Goal) => !todayOnly || (g.isActive && Due(g, today))
  }

  /** The in-memory `Where` of GetGoalsAsync, enumerated front to back: the goals
      it keeps, or the exception the first faulting schedule check throws. An
      inactive goal is never checked (`&&` short-circuits). */
  function SelectGoals(s: seq<Goal>, todayOnly: bool, today: int): (r: Result<seq<Goal>, ServiceError>)
    ensures r.Failure? <==> todayOnly && AnyFaults(s, today)
    ensures r.Failure? ==> r.error == DivideByZero
    ensures r.Success? ==> r.value == Filter(s, KeptFor(todayOnly, today))
  {
    if s == [] then Success([])
    else
      var g := s[|s| - 1];
      assert forall i :: 0 <= i < |s| - 1 ==> s[..|s| - 1][i] == s[i];
      match SelectGoals(s[..|s| - 1], todayOnly, today)
      case Failure(e) => Failure(e)
      case Success(kept) =>
        if !todayOnly then Success(kept + [g])
        else if !g.isActive then Success(kept)
        else
          match IsGoalScheduledForDate(g, today)
          case Failure(e) => Failure(e)
          case Success(due) => if due then Success(kept + [g]) else Success(kept)
  }

  /** Some active goal of `s` throws in its schedule check on `today`. */
  predicate AnyFaults(s: seq<Goal>, today: int)
  {
    exists i :: 0 <= i < |s| && s[i].isActive && Faults(s[i], today)
  }

  /** `GetGoalsAsync`: the user's goals ordered by (SortOrder, CreatedAt), kept
      by the today filter, each flagged with whether it was completed today. */
  function GetGoals(goals: seq<Goal>, completions: set<Completion>, userId: UserId, todayOnly: bool, today: int)
    : (r: Result<seq<GoalWithStatusResponse>, ServiceError>)
    ensures r.Success? ==> |r.value| <= |Filter(goals, OwnedBy(userId))|
    ensures r.Success? ==> forall i :: 0 <= i < |r.value| ==>
      (r.value[i].isCompletedToday <==> Completion(r.value[i].id, today) in completions)
  {
    var ordered := OrderBySortOrder(Filter(goals, OwnedBy(userId)));
    match SelectGoals(ordered, todayOnly, today)
    case Failure(e) => Failure(e)
    case Success(kept) => Success(Statuses(kept, completions, today))
  }

  function Statuses(kept: seq<Goal>, completions: set<Completion>, today: int): (r: seq<GoalWithStatusResponse>)
    ensures |r| == |kept|
    ensures forall i :: 0 <= i < |r| ==> r[i] == ToStatus(kept[i], completions, today)
  {
    seq(|kept|, i requires 0 <= i < |kept| => ToStatus(kept[i], completions, today))
  }

  predicate StatusSorted(s: seq<GoalWithStatusResponse>)
  {
    forall i, j :: 0 <= i < j < |s| ==>
      s[i].sortOrder < s[j].sortOrder || (s[i].sortOrder == s[j].sortOrder && s[i].createdAt <= s[j].createdAt)
  }

  lemma OrderedOwned(goals: seq<Goal>, userId: UserId, g: Goal)
    ensures g in OrderBySortOrder(Filter(goals, OwnedBy(userId))) <==> g in goals && g.userId == userId
  {
    OrderedMembers(Filter(goals, OwnedBy(userId)), g);
    FilterMembers(goals, OwnedBy(userId));
  }

  /** The status records keep the order of the goals they come from. */
  lemma StatusesSorted(kept: seq<Goal>, completions: set<Completion>, today: int)
    requires Sorted(kept)
    ensures StatusSorted(Statuses(kept, completions, today))
  {
    var r := Statuses(kept, completions, today);
    forall i, j | 0 <= i < j < |r|
      ensures r[i].sortOrder < r[j].sortOrder || (r[i].sortOrder == r[j].sortOrder && r[i].createdAt <= r[j].createdAt)
    {
      assert KeyLe(kept[i], kept[j]);
    }
  }

  /** A goal among those kept has its status record in the list. */
  lemma StatusListed(kept: seq<Goal>, completions: set<Completion>, today: int, g: Goal)
    requires g in kept
    ensures ToStatus(g, completions, today) in Statuses(kept, completions, today)
  {
    var i :| 0 <= i < |kept| && kept[i] == g;
    assert Statuses(kept, completions, today)[i] == ToStatus(g, completions, today);
  }

  /** A goal of the user is one of the stored goals with that owner. */
  lemma OwnedStatus(goals: seq<Goal>, completions: set<Completion>, userId: UserId, today: int, g: Goal)
    requires g in OrderBySortOrder(Filter(goals, OwnedBy(userId)))
    ensures StatusOfOwned(goals, completions, userId, today, ToStatus(g, completions, today))
  {
    OrderedOwned(goals, userId, g);
    var k :| 0 <= k < |goals| && goals[k] == g;
  }

  /** A faulting active goal of the user turns up in the ordered list, and back. */
  lemma FaultsOwned(goals: seq<Goal>, userId: UserId, today: int)
    ensures AnyFaults(OrderBySortOrder(Filter(goals, OwnedBy(userId))), today)
      <==> (exists k :: 0 <= k < |goals| && goals[k].userId == userId && goals[k].isActive && Faults(goals[k], today))
  {
    var ordered := OrderBySortOrder(Filter(goals, OwnedBy(userId)));
    if exists k :: 0 <= k < |goals| && goals[k].userId == userId && goals[k].isActive && Faults(goals[k], today) {
      var k :| 0 <= k < |goals| && goals[k].userId == userId && goals[k].isActive && Faults(goals[k], today);
      OrderedOwned(goals, userId, goals[k]);
      var i :| 0 <= i < |ordered| && ordered[i] == goals[k];
    }
    if exists i :: 0 <= i < |ordered| && ordered[i].isActive && Faults(ordered[i], today) {
      var i :| 0 <= i < |ordered| && ordered[i].isActive && Faults(ordered[i], today);
      OrderedOwned(goals, userId, ordered[i]);
      var k :| 0 <= k < |goals| && goals[k] == ordered[i];
    }
  }

  /** The list throws only when `todayOnly` is set and one of the user's active
      goals hits the zero-interval division on `today`. */
  lemma GetGoalsFails(goals: seq<Goal>, completions: set<Completion>, userId: UserId, todayOnly: bool, today: int)
    ensures GetGoals(goals, completions, userId, todayOnly, today).Failure? <==>
      todayOnly && exists k :: 0 <= k < |goals| && goals[k].userId == userId && goals[k].isActive && Faults(goals[k], today)
  {
    var ordered := OrderBySortOrder(Filter(goals, OwnedBy(userId)));
    var selected := SelectGoals(ordered, todayOnly, today);
    if selected.Failure? {
      assert GetGoals(goals, completions, userId, todayOnly, today) == Failure(selected.error);
    } else {
      assert GetGoals(goals, completions, userId, todayOnly, today) == Success(Statuses(selected.value, completions, today));
    }
    FaultsOwned(goals, userId, today);
  }

  /** Without `todayOnly`, every goal of the user comes back, each exactly once
      and no other, in (SortOrder, CreatedAt) order. */
  lemma GetGoalsAll(goals: seq<Goal>, completions: set<Completion>, userId: UserId, today: int)
    ensures var r := GetGoals(goals, completions, userId, false, today);
      && r.Success?
      && |r.value| == |Filter(goals, OwnedBy(userId))|
      && StatusSorted(r.value)
      && (forall k :: 0 <= k < |goals| && goals[k].userId == userId ==> ToStatus(goals[k], completions, today) in r.value)
      && (forall i :: 0 <= i < |r.value| ==> StatusOfOwned(goals, completions, userId, today, r.value[i]))
  {
    var ordered := OrderBySortOrder(Filter(goals, OwnedBy(userId)));
    FilterAll(ordered, KeptFor(false, today));
    var rs := Statuses(ordered, completions, today);
    assert GetGoals(goals, completions, userId, false, today) == Success(rs);
    StatusesSorted(ordered, completions, today);
    forall k | 0 <= k < |goals| && goals[k].userId == userId
      ensures ToStatus(goals[k], completions, today) in rs
    {
      OrderedOwned(goals, userId, goals[k]);
      StatusListed(ordered, completions, today, goals[k]);
    }
    forall i | 0 <= i < |rs|
      ensures StatusOfOwned(goals, completions, userId, today, rs[i])
    {
      OwnedStatus(goals, completions, userId, today, ordered[i]);
    }
  }

  /** `s` is the status record of one of the user's goals. */
  predicate StatusOfOwned(goals: seq<Goal>, completions: set<Completion>, userId: UserId, today: int, s: GoalWithStatusResponse)
  {
    exists k :: 0 <= k < |goals| && goals[k].userId == userId && s == ToStatus(goals[k], completions, today)
  }

  /** `s` is the status record of one of the user's active goals due on `today`. */
  predicate StatusOfDue(goals: seq<Goal>, completions: set<Completion>, userId: UserId, today: int, s: GoalWithStatusResponse)
  {
    exists k :: 0 <= k < |goals| && goals[k].userId == userId && goals[k].isActive && Due(goals[k], today)
      && s == ToStatus(goals[k], completions, today)
  }

  /** A goal kept by the today filter is one of the user's active goals due today. */
  lemma DueStatus(goals: seq<Goal>, completions: set<Completion>, userId: UserId, today: int, g: Goal)
    requires g in Filter(OrderBySortOrder(Filter(goals, OwnedBy(userId))), KeptFor(true, today))
    ensures StatusOfDue(goals, completions, userId, today, ToStatus(g, completions, today))
  {
    var ordered := OrderBySortOrder(Filter(goals, OwnedBy(userId)));
    FilterMembers(ordered, KeptFor(true, today));
    OrderedOwned(goals, userId, g);
    var k :| 0 <= k < |goals| && goals[k] == g;
  }

  /** With `todayOnly`, when nothing throws, the list holds exactly the user's
      active goals that are due today, in (SortOrder, CreatedAt) order. */
  lemma GetGoalsToday(goals: seq<Goal>, completions: set<Completion>, userId: UserId, today: int)
    requires GetGoals(goals, completions, userId, true, today).Success?
    ensures var r := GetGoals(goals, completions, userId, true, today).value;
      && StatusSorted(r)
      && (forall k :: 0 <= k < |goals| && goals[k].userId == userId && goals[k].isActive && Due(goals[k], today) ==>
            ToStatus(goals[k], completions, today) in r)
      && (forall i :: 0 <= i < |r| ==> StatusOfDue(goals, completions, userId, today, r[i]))
  {
    var ordered := OrderBySortOrder(Filter(goals, OwnedBy(userId)));
    var kept := Filter(ordered, KeptFor(true, today));
    FilterOrdered(ordered, KeptFor(true, today), KeyLe);
    FilterMembers(ordered, KeptFor(true, today));
    var r := Statuses(kept, completions, today);
    assert GetGoals(goals, completions, userId, true, today).value == r;
    StatusesSorted(kept, completions, today);
    forall k | 0 <= k < |goals| && goals[k].userId == userId && goals[k].isActive && Due(goals[k], today)
      ensures ToStatus(goals[k], completions, today) in r
    {
      OrderedOwned(goals, userId, goals[k]);
      assert KeptFor(true, today)(goals[k]);
      StatusListed(kept, completions, today, goals[k]);
    }
    forall i | 0 <= i < |r|
      ensures StatusOfDue(goals, completions, userId, today, r[i])
    {
      assert kept[i] in kept;
      DueStatus(goals, completions, userId, today, kept[i]);
    }
  }

  /*** GetGoalByIdAsync ***/

  /** The goal `goalId` belongs to `userId`. */
  predicate Owns(g: Goal, userId: UserId, goalId: GoalId)
  {
    g.id == goalId && g.userId == userId
  }

  /** `FirstOrDefault(g => g.Id == goalId && g.UserId == userId)`: the index of
      the first such goal, or -1 when the user has none with that id. */
  function FindGoal(goals: seq<Goal>, userId: UserId, goalId: GoalId): (i: int)
    ensures -1 <= i < |goals|
    ensures i >= 0 ==> Owns(goals[i], userId, goalId) && forall j :: 0 <= j < i ==> !Owns(goals[j], userId, goalId)
    ensures i == -1 <==> forall j :: 0 <= j < |goals| ==> !Owns(goals[j], userId, goalId)
  {
    if goals == [] then -1
    else if Owns(goals[0], userId, goalId) then 0
    else
      var i := FindGoal(goals[1..], userId, goalId);
      if i < 0 then -1 else i + 1
  }

  /** `GetGoalByIdAsync`: the goal's response when the user owns a goal with
      that id, `None` (404) otherwise; another user's goal is never returned. */
  function GetGoalById(goals: seq<Goal>, userId: UserId, goalId: GoalId): (r: Option<GoalResponse>)
    ensures r.None? <==> forall j :: 0 <= j < |goals| ==> !Owns(goals[j], userId, goalId)
    ensures r.Some? ==> r.value.id == goalId
    ensures r.Some? ==> exists j :: 0 <= j < |goals| && Owns(goals[j], userId, goalId) && r.value == ToResponse(goals[j])
  {
    var i := FindGoal(goals, userId, goalId);
    if i < 0 then None else Some(ToResponse(goals[i]))
  }

  /*** GetCalendarDataAsync ***/

  /** The goal's first achievable day: the date part of its creation time. */
  function Baseline(g: Goal): nat
  {
    DayOfTicks(g.createdAt)
  }

  /** The goal counts as scheduled on `date`: it existed and is due. */
  function CountedOn(date: int): Goal -> bool
  {
    (g: Goal) => Baseline(g) <= date && Due(g, date)
  }

  /** Scheduled on `date` and completed that day. */
  function CompletedOn(completions: set<Completion>, date: int): Goal -> bool
  {
    (g: Goal) => Baseline(g) <= date && Due(g, date) && Completion(g.id, date) in completions
  }

  /** Scheduled on `date` and not completed that day. */
  function MissedOn(completions: set<Completion>, date: int): Goal -> bool
  {
    (g: Goal) => Baseline(g) <= date && Due(g, date) && Completion(g.id, date) !in completions
  }

  /** Checking the goal's schedule on `date` throws (the baseline test runs first). */
  predicate CrashesOn(g: Goal, date: int)
  {
    Baseline(g) <= date && Faults(g, date)
  }

  /** One calendar day: how many active goals were scheduled and how many of those were completed. */
  function CalendarEntry(active: seq<Goal>, completions: set<Completion>, date: int): CalendarDayResponse
  {
    CalendarDayResponse(date, CountWhere(active, CountedOn(date)), CountWhere(active, CompletedOn(completions, date)))
  }

  /** One entry per day from `start` to `end` inclusive; none when `end < start`. */
  function CalendarSpec(active: seq<Goal>, completions: set<Completion>, start: int, end: int): seq<CalendarDayResponse>
  {
    if end < start then []
    else seq(end - start + 1, i requires 0 <= i <= end - start => CalendarEntry(active, completions, start + i))
  }

  /** Some active goal throws on some day of the range. */
  predicate CalendarFaults(active: seq<Goal>, start: int, end: int)
  {
    exists k, d :: 0 <= k < |active| && start <= d <= end && CrashesOn(active[k], d)
  }

  /** `GetCalendarDataAsync`: the per-day totals over the user's active goals,
      or the exception the first faulting schedule check throws. Completions
      are loaded for the user's goals within the range and indexed by day. */
  method GetCalendarData(goals: seq<Goal>, completions: set<Completion>, userId: UserId, start: int, end: int)
    returns (r: Result<seq<CalendarDayResponse>, ServiceError>)
    ensures r.Failure? <==> CalendarFaults(ActiveGoals(goals, userId), start, end)
    ensures r.Failure? ==> r.error == DivideByZero
    ensures r.Success? ==> r.value == CalendarSpec(ActiveGoals(goals, userId), completions, start, end)
  {
    var active := ActiveGoals(goals, userId);
    var loaded := set c | c in completions && start <= c.completedOn <= end && CompletionOfUser(goals, c, userId);
    var results: seq<CalendarDayResponse> := [];
    var date := start;
    while date <= end
      invariant start <= date && (start <= end ==> date <= end + 1) && (end < start ==> date == start)
      invariant |results| == date - start
      invariant forall i :: 0 <= i < |results| ==> results[i] == CalendarEntry(active, completions, start + i)
      invariant forall k, d :: 0 <= k < |active| && start <= d < date ==> !CrashesOn(active[k], d)
      decreases end - date
    {
      forall k | 0 <= k < |active|
        ensures Completion(active[k].id, date) in loaded <==> Completion(active[k].id, date) in completions
      {
        LoadedCompletion(goals, completions, userId, start, end, active[k], date);
      }
      var day := TallyDay(active, completions, loaded, date);
      if day.Failure? {
        return Failure(day.error);
      }
      results := results + [day.value];
      date := date + 1;
    }
    var spec := CalendarSpec(active, completions, start, end);
    assert |results| == |spec|;
    assert forall i :: 0 <= i < |results| ==> results[i] == spec[i];
    return Success(results);
  }

  /** The body of the per-day loop: walks the active goals, skipping those
      created after `date` and those not due, counting the rest and those of
      them whose completion for `date` is among `loaded`. */
  method TallyDay(active: seq<Goal>, completions: set<Completion>, loaded: set<Completion>, date: int)
    returns (r: Result<CalendarDayResponse, ServiceError>)
    requires forall k :: 0 <= k < |active| ==>
      (Completion(active[k].id, date) in loaded <==> Completion(active[k].id, date) in completions)
    ensures r.Failure? <==> exists k :: 0 <= k < |active| && CrashesOn(active[k], date)
    ensures r.Failure? ==> r.error == DivideByZero
    ensures r.Success? ==> r.value == CalendarEntry(active, completions, date)
  {
    var total, completed := 0, 0;
    var k := 0;
    while k < |active|
      invariant 0 <= k <= |active|
      invariant total == CountWhere(active[..k], CountedOn(date))
      invariant completed == CountWhere(active[..k], CompletedOn(completions, date))
      invariant forall j :: 0 <= j < k ==> !CrashesOn(active[j], date)
    {
      var g := active[k];
      FilterSnoc(active, k, CountedOn(date));
      FilterSnoc(active, k, CompletedOn(completions, date));
      if date >= Baseline(g) {
        var scheduled := IsGoalScheduledForDate(g, date);
        if scheduled.Failure? {
          return Failure(scheduled.error);
        }
        assert !CrashesOn(g, date);
        if scheduled.value {
          total := total + 1;
          if Completion(g.id, date) in loaded {
            completed := completed + 1;
          }
        }
      }
      k := k + 1;
    }
    assert active[..|active|] == active;
    return Success(CalendarDayResponse(date, total, completed));
  }

  /** For one of the user's active goals and a day of the range, the loaded
      completions answer like the whole store. */
  lemma LoadedCompletion(goals: seq<Goal>, completions: set<Completion>, userId: UserId, start: int, end: int, g: Goal, date: int)
    requires g in ActiveGoals(goals, userId) && start <= date <= end
    ensures Completion(g.id, date) in completions <==>
      Completion(g.id, date) in (set c | c in completions && start <= c.completedOn <= end && CompletionOfUser(goals, c, userId))
  {
    OrderedActive(goals, userId, g);
    var k :| 0 <= k < |goals| && goals[k] == g;
    assert CompletionOfUser(goals, Completion(g.id, date), userId);
  }

  /*** Calendar properties ***/

  /** One entry per day of the range, each dated in order, with
      `0 <= completed <= totalScheduled <= number of active goals`. */
  lemma CalendarShape(active: seq<Goal>, completions: set<Completion>, start: int, end: int)
    ensures var r := CalendarSpec(active, completions, start, end);
      && |r| == (if end < start then 0 else end - start + 1)
      && forall i :: 0 <= i < |r| ==>
           r[i].date == start + i && 0 <= r[i].completed <= r[i].totalScheduled <= |active|
  {
    var r := CalendarSpec(active, completions, start, end);
    forall i | 0 <= i < |r|
      ensures r[i].date == start + i && 0 <= r[i].completed <= r[i].totalScheduled <= |active|
    {
      assert r[i] == CalendarEntry(active, completions, start + i);
      forall g | g in active && CompletedOn(completions, start + i)(g)
        ensures CountedOn(start + i)(g)
      {
      }
      CountMonotone(active, CompletedOn(completions, start + i), CountedOn(start + i));
    }
  }

  /** A goal created after `date` changes nothing on that day's entry, whatever its schedule. */
  lemma NotCountedBeforeCreation(active: seq<Goal>, completions: set<Completion>, g: Goal, date: int)
    requires date < Baseline(g)
    ensures CalendarEntry(active + [g], completions, date) == CalendarEntry(active, completions, date)
  {
    assert (active + [g])[..|active|] == active;
  }

  /** A goal created after `date` cannot make that day's check throw. */
  lemma NoCrashBeforeCreation(g: Goal, date: int)
    requires date < Baseline(g)
    ensures !CrashesOn(g, date)
  {
  }

  /*** GetCalendarDayDetailsAsync ***/

  /** The goals' calendar items, in the same order. */
  function Items(s: seq<Goal>): (r: seq<CalendarGoalItemResponse>)
    ensures |r| == |s|
  {
    if s == [] then [] else Items(s[..|s| - 1]) + [ToItem(s[|s| - 1])]
  }

  lemma {:induction false} ItemsAt(s: seq<Goal>)
    ensures forall i :: 0 <= i < |s| ==> Items(s)[i] == ToItem(s[i])
  {
    if s != [] {
      ItemsAt(s[..|s| - 1]);
    }
  }

  /** The detail of one day over the goals in list order: the scheduled goals
      split into done and not done, with their counts. */
  function DayDetails(ordered: seq<Goal>, completions: set<Completion>, date: int): CalendarDayDetailsResponse
  {
    var done := Items(Filter(ordered, CompletedOn(completions, date)));
    var notDone := Items(Filter(ordered, MissedOn(completions, date)));
    CalendarDayDetailsResponse(date, |done| + |notDone|, |done|, done, notDone)
  }

  /** `GetCalendarDayDetailsAsync`: walks the user's active goals in list order
      and files each one that existed and is due on `date` under done or not
      done by whether a completion of it exists for that day; or throws. */
  method GetCalendarDayDetails(goals: seq<Goal>, completions: set<Completion>, userId: UserId, date: int)
    returns (r: Result<CalendarDayDetailsResponse, ServiceError>)
    ensures r.Failure? <==> exists k :: 0 <= k < |ActiveGoals(goals, userId)| && CrashesOn(ActiveGoals(goals, userId)[k], date)
    ensures r.Failure? ==> r.error == DivideByZero
    ensures r.Success? ==> r.value == DayDetails(OrderBySortOrder(ActiveGoals(goals, userId)), completions, date)
  {
    var ordered := OrderBySortOrder(ActiveGoals(goals, userId));
    var completedGoalIds := set c | c in completions && c.completedOn == date && CompletionOfUser(goals, c, userId) :: c.goalId;
    forall j | 0 <= j < |ordered|
      ensures ordered[j].id in completedGoalIds <==> Completion(ordered[j].id, date) in completions
    {
      CompletedIdOfActive(goals, completions, userId, ordered[j], date);
    }
    r := FileGoals(ordered, completions, completedGoalIds, date);
    if r.Failure? {
      var j :| 0 <= j < |ordered| && CrashesOn(ordered[j], date);
      OrderedActive(goals, userId, ordered[j]);
    } else {
      forall j | 0 <= j < |ActiveGoals(goals, userId)| && CrashesOn(ActiveGoals(goals, userId)[j], date)
        ensures false
      {
        OrderedActive(goals, userId, ActiveGoals(goals, userId)[j]);
      }
    }
  }

  /** The `foreach` of the day detail: files each goal that existed and is due
      on `date` under done when its id is among `completedGoalIds`, under not
      done otherwise; stops at the first schedule check that throws. */
  method FileGoals(ordered: seq<Goal>, completions: set<Completion>, completedGoalIds: set<GoalId>, date: int)
    returns (r: Result<CalendarDayDetailsResponse, ServiceError>)
    requires forall j :: 0 <= j < |ordered| ==>
      (ordered[j].id in completedGoalIds <==> Completion(ordered[j].id, date) in completions)
    ensures r.Failure? <==> exists k :: 0 <= k < |ordered| && CrashesOn(ordered[k], date)
    ensures r.Failure? ==> r.error == DivideByZero
    ensures r.Success? ==> r.value == DayDetails(ordered, completions, date)
  {
    var done: seq<CalendarGoalItemResponse> := [];
    var notDone: seq<CalendarGoalItemResponse> := [];
    var k := 0;
    while k < |ordered|
      invariant 0 <= k <= |ordered|
      invariant (done, notDone) == FiledDay(ordered[..k], completions, date)
      invariant NoneCrash(ordered[..k], date)
    {
      var g := ordered[k];
      var filed := FileGoal(g, completions, completedGoalIds, date);
      if filed.Failure? {
        assert CrashesOn(ordered[k], date);
        return Failure(filed.error);
      }
      NoneCrashSnoc(ordered, k, date);
      assert ordered[..k + 1][..k] == ordered[..k];
      if filed.value == Done {
        done := done + [ToItem(g)];
      } else if filed.value == NotDone {
        notDone := notDone + [ToItem(g)];
      }
      k := k + 1;
    }
    assert ordered[..|ordered|] == ordered;
    FiledDayIsDetails(ordered, completions, date);
    return Success(CalendarDayDetailsResponse(date, |done| + |notDone|, |done|, done, notDone));
  }

  /** No goal of `s` throws in its schedule check on `date`. */
  predicate NoneCrash(s: seq<Goal>, date: int)
  {
    forall j :: 0 <= j < |s| ==> !CrashesOn(s[j], date)
  }

  lemma NoneCrashSnoc(s: seq<Goal>, k: nat, date: int)
    requires k < |s| && NoneCrash(s[..k], date) && !CrashesOn(s[k], date)
    ensures NoneCrash(s[..k + 1], date)
  {
    assert forall j :: 0 <= j < k ==> s[..k + 1][j] == s[..k][j];
  }

  /** Where one goal of the day detail goes. */
  datatype Filing = Done | NotDone | Skipped

  function Outcome(g: Goal, completions: set<Completion>, date: int): Filing
  {
    if CompletedOn(completions, date)(g) then Done
    else if MissedOn(completions, date)(g) then NotDone
    else Skipped
  }

  /** The done and not-done lists of the day detail, built one goal at a time. */
  function FiledDay(s: seq<Goal>, completions: set<Completion>, date: int)
    : (seq<CalendarGoalItemResponse>, seq<CalendarGoalItemResponse>)
  {
    if s == [] then ([], [])
    else
      var (done, notDone) := FiledDay(s[..|s| - 1], completions, date);
      var g := s[|s| - 1];
      match Outcome(g, completions, date)
      case Done => (done + [ToItem(g)], notDone)
      case NotDone => (done, notDone + [ToItem(g)])
      case Skipped => (done, notDone)
  }

  /** Building the lists one goal at a time gives the two filtered lists. */
  lemma {:induction false} FiledDayIsDetails(s: seq<Goal>, completions: set<Completion>, date: int)
    ensures FiledDay(s, completions, date)
      == (Items(Filter(s, CompletedOn(completions, date))), Items(Filter(s, MissedOn(completions, date))))
  {
    if s != [] {
      var pre, g := s[..|s| - 1], s[|s| - 1];
      FiledDayIsDetails(pre, completions, date);
      FilterSnoc(s, |s| - 1, CompletedOn(completions, date));
      FilterSnoc(s, |s| - 1, MissedOn(completions, date));
      assert s[..|s|] == s;
      ItemsSnoc(Filter(pre, CompletedOn(completions, date)), g);
      ItemsSnoc(Filter(pre, MissedOn(completions, date)), g);
    }
  }

  /** The body of the day-detail `foreach` for one goal: skipped when it did
      not exist yet or is not due, otherwise done or not done by whether its
      id is among `completedGoalIds`; the schedule check may throw. */
  method FileGoal(g: Goal, completions: set<Completion>, completedGoalIds: set<GoalId>, date: int)
    returns (r: Result<Filing, ServiceError>)
    requires g.id in completedGoalIds <==> Completion(g.id, date) in completions
    ensures r.Failure? <==> CrashesOn(g, date)
    ensures r.Failure? ==> r.error == DivideByZero
    ensures r.Success? ==> r.value == Outcome(g, completions, date)
  {
    if date >= Baseline(g) {
      var scheduled := IsGoalScheduledForDate(g, date);
      if scheduled.Failure? {
        return Failure(scheduled.error);
      }
      if scheduled.value {
        if g.id in completedGoalIds {
          return Success(Done);
        }
        return Success(NotDone);
      }
    }
    return Success(Skipped);
  }

  lemma ItemsSnoc(s: seq<Goal>, g: Goal)
    ensures Items(s + [g]) == Items(s) + [ToItem(g)]
  {
    assert (s + [g])[..|s|] == s;
  }

  lemma OrderedActive(goals: seq<Goal>, userId: UserId, g: Goal)
    ensures g in OrderBySortOrder(ActiveGoals(goals, userId)) <==> g in ActiveGoals(goals, userId)
    ensures g in ActiveGoals(goals, userId) <==> g in goals && g.userId == userId && g.isActive
  {
    OrderedMembers(ActiveGoals(goals, userId), g);
    FilterMembers(goals, ActiveOf(userId));
  }

  /** For one of the user's active goals, the set of completed goal ids loaded
      for `date` answers like the whole store. */
  lemma CompletedIdOfActive(goals: seq<Goal>, completions: set<Completion>, userId: UserId, g: Goal, date: int)
    requires g in OrderBySortOrder(ActiveGoals(goals, userId))
    ensures g.id in (set c | c in completions && c.completedOn == date && CompletionOfUser(goals, c, userId) :: c.goalId)
      <==> Completion(g.id, date) in completions
  {
    OrderedActive(goals, userId, g);
    var k :| 0 <= k < |goals| && goals[k] == g;
    assert CompletionOfUser(goals, Completion(g.id, date), userId);
  }

  /** The counts are the list lengths; every goal on the done list was
      scheduled, had existed and was completed on the day, and every goal on
      the not-done list was scheduled and had existed but was not completed. */
  lemma DayDetailsSound(ordered: seq<Goal>, completions: set<Completion>, date: int)
    ensures var r := DayDetails(ordered, completions, date);
      && r.totalScheduled == |r.done| + |r.notDone| && r.completed == |r.done|
      && (forall i :: 0 <= i < |r.done| ==> ItemCompleted(ordered, completions, date, r.done[i]))
      && (forall i :: 0 <= i < |r.notDone| ==> ItemMissed(ordered, completions, date, r.notDone[i]))
  {
    var done := Filter(ordered, CompletedOn(completions, date));
    var missed := Filter(ordered, MissedOn(completions, date));
    var r := DayDetails(ordered, completions, date);
    FilterMembers(ordered, CompletedOn(completions, date));
    FilterMembers(ordered, MissedOn(completions, date));
    ItemsAt(done);
    ItemsAt(missed);
    forall i | 0 <= i < |r.done|
      ensures ItemCompleted(ordered, completions, date, r.done[i])
    {
      var k :| 0 <= k < |ordered| && ordered[k] == done[i];
    }
    forall i | 0 <= i < |r.notDone|
      ensures ItemMissed(ordered, completions, date, r.notDone[i])
    {
      var k :| 0 <= k < |ordered| && ordered[k] == missed[i];
    }
  }

  /** `item` is listed for a goal scheduled on `date` that was completed then. */
  predicate ItemCompleted(ordered: seq<Goal>, completions: set<Completion>, date: int, item: CalendarGoalItemResponse)
  {
    exists k :: 0 <= k < |ordered| && Baseline(ordered[k]) <= date && Due(ordered[k], date)
      && Completion(ordered[k].id, date) in completions && item == ToItem(ordered[k])
  }

  /** `item` is listed for a goal scheduled on `date` that was not completed then. */
  predicate ItemMissed(ordered: seq<Goal>, completions: set<Completion>, date: int, item: CalendarGoalItemResponse)
  {
    exists k :: 0 <= k < |ordered| && Baseline(ordered[k]) <= date && Due(ordered[k], date)
      && Completion(ordered[k].id, date) !in completions && item == ToItem(ordered[k])
  }

  /** Every goal that existed and was due on `date` is listed: under done when
      a completion exists for that day, under not done otherwise. */
  lemma DayDetailsComplete(ordered: seq<Goal>, completions: set<Completion>, date: int, k: int)
    requires 0 <= k < |ordered| && Baseline(ordered[k]) <= date && Due(ordered[k], date)
    ensures var r := DayDetails(ordered, completions, date);
      if Completion(ordered[k].id, date) in completions then ToItem(ordered[k]) in r.done
      else ToItem(ordered[k]) in r.notDone
  {
    var r := DayDetails(ordered, completions, date);
    if Completion(ordered[k].id, date) in completions {
      var done := Filter(ordered, CompletedOn(completions, date));
      FilterMembers(ordered, CompletedOn(completions, date));
      assert ordered[k] in done;
      var i :| 0 <= i < |done| && done[i] == ordered[k];
      ItemsAt(done);
      assert r.done[i] == ToItem(ordered[k]);
    } else {
      var missed := Filter(ordered, MissedOn(completions, date));
      FilterMembers(ordered, MissedOn(completions, date));
      assert ordered[k] in missed;
      var i :| 0 <= i < |missed| && missed[i] == ordered[k];
      ItemsAt(missed);
      assert r.notDone[i] == ToItem(ordered[k]);
    }
  }

  /** Both lists keep the (SortOrder, CreatedAt) order of the goals. */
  lemma DayDetailsOrdered(ordered: seq<Goal>, completions: set<Completion>, date: int)
    requires Sorted(ordered)
    ensures Sorted(Filter(ordered, CompletedOn(completions, date)))
    ensures Sorted(Filter(ordered, MissedOn(completions, date)))
  {
    FilterOrdered(ordered, CompletedOn(completions, date), KeyLe);
    FilterOrdered(ordered, MissedOn(completions, date), KeyLe);
  }

  /** The day's detail counts agree with that day's calendar entry, whichever
      order the goals are listed in. */
  lemma DayDetailsMatchCalendar(active: seq<Goal>, completions: set<Completion>, date: int)
    ensures var d := DayDetails(OrderBySortOrder(active), completions, date);
      var c := CalendarEntry(active, completions, date);
      d.totalScheduled == c.totalScheduled && d.completed == c.completed
  {
    var ordered := OrderBySortOrder(active);
    FilterLength(ordered, CompletedOn(completions, date));
    FilterLength(ordered, MissedOn(completions, date));
    CountSplit(ordered, CountedOn(date), CompletedOn(completions, date), MissedOn(completions, date));
    CountOrdered(active, CountedOn(date));
    CountOrdered(active, CompletedOn(completions, date));
  }
}
