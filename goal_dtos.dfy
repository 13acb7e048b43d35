/** The goal and completion records of the API and the request/response shapes
    the goal service exchanges with its endpoints.

    Guids are modelled as integers; dates as day numbers (see `Dates`); a
    goal's `createdAt` as .NET ticks. C#'s nullable fields are `Option`s. */
module GoalDtos {
  import opened Wrappers

  type GoalId = int
  type UserId = int

  /** A stored goal. `intervalStartDate` is a day number; `createdAt` is in ticks. */
  datatype Goal = Goal(
    id: GoalId,
    userId: UserId,
    name: string,
    isMeasurable: bool,
    targetValue: int,
    unit: string,
    scheduleDays: seq<int>,
    intervalDays: Option<int>,
    intervalStartDate: Option<int>,
    description: Option<string>,
    sortOrder: int,
    isActive: bool,
    createdAt: nat)

  /** A completion: goal `goalId` was done on day `completedOn`. */
  datatype Completion = Completion(goalId: GoalId, completedOn: int)

  /** Body of the create request; `name` is `None` when the JSON carries null. */
  datatype CreateGoalRequest = CreateGoalRequest(
    name: Option<string>,
    isMeasurable: bool,
    targetValue: int,
    unit: string,
    scheduleDays: Option<seq<int>>,
    intervalDays: Option<int>,
    intervalStartDate: Option<int>,
    description: Option<string>)

  /** Body of the update request: every field may be omitted (null). */
  datatype UpdateGoalRequest = UpdateGoalRequest(
    name: Option<string>,
    isMeasurable: Option<bool>,
    targetValue: Option<int>,
    unit: Option<string>,
    scheduleDays: Option<seq<int>>,
    intervalDays: Option<int>,
    intervalStartDate: Option<int>,
    description: Option<string>,
    sortOrder: Option<int>,
    isActive: Option<bool>)

  datatype GoalResponse = GoalResponse(
    id: GoalId,
    name: string,
    isMeasurable: bool,
    targetValue: int,
    unit: string,
    targetMinutes: int,
    scheduleDays: seq<int>,
    intervalDays: Option<int>,
    intervalStartDate: Option<int>,
    description: Option<string>,
    sortOrder: int,
    isActive: bool,
    createdAt: nat)

  datatype GoalWithStatusResponse = GoalWithStatusResponse(
    id: GoalId,
    name: string,
    isMeasurable: bool,
    targetValue: int,
    unit: string,
    targetMinutes: int,
    scheduleDays: seq<int>,
    intervalDays: Option<int>,
    intervalStartDate: Option<int>,
    description: Option<string>,
    sortOrder: int,
    isActive: bool,
    createdAt: nat,
    isCompletedToday: bool)

  datatype CalendarDayResponse = CalendarDayResponse(date: int, totalScheduled: int, completed: int)

  datatype CalendarGoalItemResponse = CalendarGoalItemResponse(
    id: GoalId,
    name: string,
    isMeasurable: bool,
    targetValue: int,
    unit: string)

  datatype CalendarDayDetailsResponse = CalendarDayDetailsResponse(
    date: int,
    totalScheduled: int,
    completed: int,
    done: seq<CalendarGoalItemResponse>,
    notDone: seq<CalendarGoalItemResponse>)

  /** The exceptions the service can raise: `%` by zero in the schedule check,
      and "Goal not found" (InvalidOperationException) in the toggle. */
  datatype ServiceError = DivideByZero | GoalNotFound

  /** The backward-compatible `TargetMinutes` field: the target when the unit is minutes. */
  function TargetMinutes(g: Goal): int
  {
    if g.unit == "minutes" then g.targetValue else 0
  }

  function ToResponse(g: Goal): GoalResponse
  {
    GoalResponse(g.id, g.name, g.isMeasurable, g.targetValue, g.unit, TargetMinutes(g),
                 g.scheduleDays, g.intervalDays, g.intervalStartDate, g.description,
                 g.sortOrder, g.isActive, g.createdAt)
  }

  function ToItem(g: Goal): CalendarGoalItemResponse
  {
    CalendarGoalItemResponse(g.id, g.name, g.isMeasurable, g.targetValue, g.unit)
  }
}
