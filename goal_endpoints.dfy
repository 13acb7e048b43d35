/** The goal endpoints: each handler checks its request with a chain of guards
    and then makes one service call, mapping the outcome to an HTTP result. */
module GoalEndpoints {
  import opened Wrappers
  import opened Text
  import opened Seqs
  import opened GoalDtos
  import opened GoalOrdering
  import opened GoalQueries
  import opened GoalStore

  /** The HTTP results the handlers produce. `ServerError` is the 500 an
      unhandled service exception becomes. */
  datatype HttpResult<T> = Ok(body: T) | Created(body: T) | OkEmpty | BadRequest(error: string) | NotFound | ServerError

  const NameRequired := "Name is required"
  const TargetRequired := "Target value must be greater than 0 for measurable goals"
  const RangeRequired := "Both startDate and endDate are required"
  const RangeReversed := "startDate must be before or equal to endDate"
  const RangeTooLong := "Date range must not exceed 366 days"
  const DateRequired := "date query parameter is required"
  const GoalIdsRequired := "GoalIds are required"

  /** The longest accepted distance between the calendar's start and end days. */
  const MaxDaySpan := 366

  /** The create guards: a name that is not blank, and a positive target only
      when the goal is measurable. */
  function ValidateCreate(request: CreateGoalRequest): (e: Option<string>)
    ensures e.None? <==> !IsNullOrWhiteSpace(request.name) && (!request.isMeasurable || request.targetValue > 0)
    ensures IsNullOrWhiteSpace(request.name) ==> e == Some(NameRequired)
    ensures !IsNullOrWhiteSpace(request.name) && request.isMeasurable && request.targetValue <= 0 ==> e == Some(TargetRequired)
    ensures e.None? ==> request.name.Some?
  {
    if IsNullOrWhiteSpace(request.name) then Some(NameRequired)
    else if request.isMeasurable && request.targetValue <= 0 then Some(TargetRequired)
    else None
  }

  /** The calendar guards: both days present, in order, at most 366 days apart. */
  function ValidateCalendarRange(startDate: Option<int>, endDate: Option<int>): (e: Option<string>)
    ensures e.None? <==> startDate.Some? && endDate.Some? && startDate.value <= endDate.value
                         && endDate.value - startDate.value <= MaxDaySpan
    ensures startDate.None? || endDate.None? ==> e == Some(RangeRequired)
    ensures startDate.Some? && endDate.Some? && startDate.value > endDate.value ==> e == Some(RangeReversed)
    ensures startDate.Some? && endDate.Some? && startDate.value <= endDate.value ==>
      endDate.value - startDate.value > MaxDaySpan ==> e == Some(RangeTooLong)
  {
    if startDate.None? || endDate.None? then Some(RangeRequired)
    else if startDate.value > endDate.value then Some(RangeReversed)
    else if endDate.value - startDate.value > MaxDaySpan then Some(RangeTooLong)
    else None
  }

  function ValidateDayDate(date: Option<int>): (e: Option<string>)
    ensures e.None? <==> date.Some?
    ensures e.Some? ==> e.value == DateRequired
  {
    if date.None? then Some(DateRequired) else None
  }

  /** The reorder guard: a list of ids that is present and not empty. */
  function ValidateReorder(goalIds: Option<seq<GoalId>>): (e: Option<string>)
    ensures e.None? <==> goalIds.Some? && |goalIds.value| > 0
    ensures e.Some? ==> e.value == GoalIdsRequired
  {
    if goalIds.None? || |goalIds.value| == 0 then Some(GoalIdsRequired) else None
  }

  /** `GET /api/goals`: `todayOnly` defaults to true; a schedule exception is a 500. */
  function GetGoalsHandler(goals: seq<Goal>, completions: set<Completion>, userId: UserId, todayOnly: Option<bool>, today: int)
    : (r: HttpResult<seq<GoalWithStatusResponse>>)
    ensures r.Ok? || r.ServerError?
    ensures r.Ok? <==> GetGoals(goals, completions, userId, if todayOnly.Some? then todayOnly.value else true, today).Success?
    ensures r.Ok? ==> r.body == GetGoals(goals, completions, userId, if todayOnly.Some? then todayOnly.value else true, today).value
  {
    match GetGoals(goals, completions, userId, if todayOnly.Some? then todayOnly.value else true, today)
    case Success(list) => Ok(list)
    case Failure(_) => ServerError
  }

  /** `GET /api/goals/{id}`: 404 unless the user owns a goal with that id. */
  function GetGoalByIdHandler(goals: seq<Goal>, userId: UserId, goalId: GoalId): (r: HttpResult<GoalResponse>)
    ensures r.Ok? || r.NotFound?
    ensures r.NotFound? <==> forall j :: 0 <= j < |goals| ==> !Owns(goals[j], userId, goalId)
    ensures r.Ok? ==> r.body.id == goalId
    ensures r.Ok? ==> Some(r.body) == GetGoalById(goals, userId, goalId)
  {
    match GetGoalById(goals, userId, goalId)
    case Some(response) => Ok(response)
    case None => NotFound
  }

  /** Omitting `todayOnly` is the same as passing true. */
  lemma TodayOnlyDefault(goals: seq<Goal>, completions: set<Completion>, userId: UserId, today: int)
    ensures GetGoalsHandler(goals, completions, userId, None, today) == GetGoalsHandler(goals, completions, userId, Some(true), today)
  {
  }

  /** A user with no goals gets an empty list, not an error. */
  lemma NoGoalsOk(completions: set<Completion>, userId: UserId, todayOnly: Option<bool>, today: int)
    ensures GetGoalsHandler([], completions, userId, todayOnly, today) == Ok([])
  {
    var t := if todayOnly.Some? then todayOnly.value else true;
    assert Filter([], OwnedBy(userId)) == [];
    assert OrderBySortOrder([]) == [];
  }

  /** A measurable goal named "Read" with target 0 is refused with the target message. */
  lemma MeasurableZeroTargetRefused()
    ensures var request := CreateGoalRequest(Some("Read"), true, 0, "pages", None, None, None, None);
      var e := ValidateCreate(request);
      e.Some? && |e.value| >= 35 && e.value[..35] == "Target value must be greater than 0"
  {
    var request := CreateGoalRequest(Some("Read"), true, 0, "pages", None, None, None, None);
    assert request.name.value[0] == 'R' && !IsWhiteSpace('R');
  }

  /** A goal that is not measurable may have target 0. */
  lemma UnmeasuredZeroTargetAccepted(name: string)
    requires exists i :: 0 <= i < |name| && !IsWhiteSpace(name[i])
    ensures ValidateCreate(CreateGoalRequest(Some(name), false, 0, "minutes", None, None, None, None)).None?
  {
  }

  /** The span limit is inclusive: 366 days apart (367 days) passes, 367 apart does not. */
  lemma SpanBoundary(start: int)
    ensures ValidateCalendarRange(Some(start), Some(start + 366)).None?
    ensures ValidateCalendarRange(Some(start), Some(start + 367)) == Some(RangeTooLong)
  {
  }

  /** `POST /api/goals`: 400 with the first failing guard's message and no
      change; otherwise the goal is created and returned. */
  method CreateGoalHandler(service: GoalService, userId: UserId, request: CreateGoalRequest, id: GoalId, createdAt: nat)
    returns (r: HttpResult<GoalResponse>)
    requires service.Valid()
    requires forall j :: 0 <= j < |service.goals| ==> service.goals[j].id != id
    modifies service
    ensures service.Valid()
    ensures ValidateCreate(request).Some? ==>
      r == BadRequest(ValidateCreate(request).value) && service.goals == old(service.goals)
    ensures ValidateCreate(request).None? ==>
      r.Created? && r.body.id == id
      && r.body == ToResponse(NewGoal(request, userId, id, createdAt, NextSortOrder(old(service.goals), userId)))
      && service.goals == old(service.goals) + [NewGoal(request, userId, id, createdAt, NextSortOrder(old(service.goals), userId))]
    ensures service.completions == old(service.completions)
  {
    var e := ValidateCreate(request);
    if e.Some? {
      return BadRequest(e.value);
    }
    var goal := service.CreateGoal(userId, request, id, createdAt);
    return Created(goal);
  }

  /** `PUT /api/goals/{id}`: 404 when the user has no such goal. */
  method UpdateGoalHandler(service: GoalService, userId: UserId, goalId: GoalId, request: UpdateGoalRequest)
    returns (r: HttpResult<GoalResponse>)
    requires service.Valid()
    modifies service
    ensures service.Valid()
    ensures r.Ok? || r.NotFound?
    ensures r.NotFound? <==> FindGoal(old(service.goals), userId, goalId) < 0
    ensures r.NotFound? ==> service.goals == old(service.goals)
    ensures service.completions == old(service.completions)
    ensures var i := FindGoal(old(service.goals), userId, goalId);
      r.Ok? ==> service.goals == old(service.goals)[i := Patch(old(service.goals)[i], request)] && r.body == ToResponse(service.goals[i])
  {
    var updated := service.UpdateGoal(userId, goalId, request);
    if updated.None? {
      return NotFound;
    }
    return Ok(updated.value);
  }

  /** `POST /api/goals/{id}/toggle`: "Goal not found" becomes a 404 and changes nothing. */
  method ToggleHandler(service: GoalService, userId: UserId, goalId: GoalId, today: int)
    returns (r: HttpResult<bool>)
    requires service.Valid()
    modifies service
    ensures service.Valid()
    ensures r.Ok? || r.NotFound?
    ensures r.NotFound? <==> forall j :: 0 <= j < |service.goals| ==> !Owns(service.goals[j], userId, goalId)
    ensures r.NotFound? ==> service.goals == old(service.goals) && service.completions == old(service.completions)
    ensures service.goals == old(service.goals)
    ensures r.Ok? ==> service.completions == Flip(old(service.completions), Completion(goalId, today))
    ensures r.Ok? ==> (r.body <==> Completion(goalId, today) !in old(service.completions))
  {
    var toggled := service.ToggleCompletion(userId, goalId, today);
    if toggled.Failure? {
      return NotFound;
    }
    return Ok(toggled.value);
  }

  /** `GET /api/goals/calendar`: 400 for a missing, reversed or too long range;
      otherwise the per-day data, or a 500 when a schedule check throws. */
  method CalendarHandler(service: GoalService, userId: UserId, startDate: Option<int>, endDate: Option<int>)
    returns (r: HttpResult<seq<CalendarDayResponse>>)
    ensures ValidateCalendarRange(startDate, endDate).Some? ==> r == BadRequest(ValidateCalendarRange(startDate, endDate).value)
    ensures ValidateCalendarRange(startDate, endDate).None? ==>
      var active := ActiveGoals(service.goals, userId);
      if CalendarFaults(active, startDate.value, endDate.value) then r.ServerError?
      else r == Ok(CalendarSpec(active, service.completions, startDate.value, endDate.value))
  {
    var e := ValidateCalendarRange(startDate, endDate);
    if e.Some? {
      return BadRequest(e.value);
    }
    var data := GetCalendarData(service.goals, service.completions, userId, startDate.value, endDate.value);
    if data.Failure? {
      return ServerError;
    }
    return Ok(data.value);
  }

  /** `GET /api/goals/calendar/day`: 400 without a date; otherwise the day's detail. */
  method CalendarDayHandler(service: GoalService, userId: UserId, date: Option<int>)
    returns (r: HttpResult<CalendarDayDetailsResponse>)
    ensures date.None? ==> r == BadRequest(DateRequired)
    ensures date.Some? ==> r.Ok? || r.ServerError?
    ensures date.Some? ==> (r.ServerError? <==>
      exists k :: 0 <= k < |ActiveGoals(service.goals, userId)| && CrashesOn(ActiveGoals(service.goals, userId)[k], date.value))
    ensures r.Ok? ==> r.body == DayDetails(OrderBySortOrder(ActiveGoals(service.goals, userId)), service.completions, date.value)
  {
    var e := ValidateDayDate(date);
    if e.Some? {
      return BadRequest(e.value);
    }
    var details := GetCalendarDayDetails(service.goals, service.completions, userId, date.value);
    if details.Failure? {
      return ServerError;
    }
    return Ok(details.value);
  }

  /** `POST /api/goals/reorder`: 400 and no change for a missing or empty list. */
  method ReorderHandler(service: GoalService, userId: UserId, goalIds: Option<seq<GoalId>>)
    returns (r: HttpResult<()>)
    requires service.Valid()
    modifies service
    ensures service.Valid()
    ensures r == OkEmpty || r == BadRequest(GoalIdsRequired)
    ensures r.BadRequest? <==> goalIds.None? || |goalIds.value| == 0
    ensures r.BadRequest? ==> service.goals == old(service.goals)
    ensures r.OkEmpty? ==> service.goals == Reordered(old(service.goals), userId, goalIds.value)
    ensures service.completions == old(service.completions)
  {
    var e := ValidateReorder(goalIds);
    if e.Some? {
      return BadRequest(e.value);
    }
    service.ReorderGoals(userId, goalIds.value);
    return OkEmpty;
  }
}
