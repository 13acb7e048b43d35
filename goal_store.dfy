/** The state-changing side of the goal service: the stored goals and the set
    of completion pairs, and the operations that create, patch, toggle and
    reorder them. The database is replaced by the two fields of the service. */
module GoalStore {
  import opened Wrappers
  import opened GoalDtos
  import opened GoalQueries

  /** The schedule a new goal gets when the request gives none: every weekday. */
  const EveryWeekday: seq<int> := [0, 1, 2, 3, 4, 5, 6]

  const Int32Min: int := -0x8000_0000
  const Int32Max: int := 0x7fff_ffff

  /** C#'s unchecked `int` arithmetic: the 32-bit two's-complement value congruent to `x`. */
  function Wrap32(x: int): (r: int)
    ensures Int32Min <= r <= Int32Max
    ensures Int32Min <= x <= Int32Max ==> r == x
    ensures x == Int32Max + 1 ==> r == Int32Min
  {
    (x + 0x8000_0000) % 0x1_0000_0000 - 0x8000_0000
  }

  /** `Max(g => (int?)g.SortOrder)` over the user's goals: `None` when the user has none. */
  function MaxSortOrder(goals: seq<Goal>, userId: UserId): (m: Option<int>)
    ensures m.None? <==> forall j :: 0 <= j < |goals| ==> goals[j].userId != userId
    ensures m.Some? ==> exists j :: 0 <= j < |goals| && goals[j].userId == userId && goals[j].sortOrder == m.value
    ensures m.Some? ==> forall j :: 0 <= j < |goals| && goals[j].userId == userId ==> goals[j].sortOrder <= m.value
  {
    if goals == [] then None
    else
      var last := goals[|goals| - 1];
      var rest := MaxSortOrder(goals[..|goals| - 1], userId);
      assert forall j :: 0 <= j < |goals| - 1 ==> goals[..|goals| - 1][j] == goals[j];
      if last.userId != userId then rest
      else if rest.None? || rest.value < last.sortOrder then Some(last.sortOrder)
      else rest
  }

  /** `(max ?? -1) + 1` in 32-bit arithmetic. */
  function NextSortOrder(goals: seq<Goal>, userId: UserId): int
  {
    match MaxSortOrder(goals, userId)
    case None => 0
    case Some(m) => Wrap32(m + 1)
  }

  /** The goal `CreateGoalAsync` builds: the request's fields, every weekday
      when no schedule is given, active, sorted after the user's other goals. */
  function NewGoal(request: CreateGoalRequest, userId: UserId, id: GoalId, createdAt: nat, sortOrder: int): Goal
    requires request.name.Some?
  {
    Goal(id, userId, request.name.value, request.isMeasurable, request.targetValue, request.unit,
         if request.scheduleDays.Some? then request.scheduleDays.value else EveryWeekday,
         request.intervalDays, request.intervalStartDate, request.description,
         sortOrder, true, createdAt)
  }

  /** The first goal of a user gets sort order 0. */
  lemma FirstGoalSortOrder(goals: seq<Goal>, userId: UserId)
    requires forall j :: 0 <= j < |goals| ==> goals[j].userId != userId
    ensures NextSortOrder(goals, userId) == 0
  {
  }

  /** While the user's sort orders stay below `int.MaxValue`, a new goal gets
      one more than the largest of them, and so sorts after all of them. */
  lemma NextSortOrderIsLargest(goals: seq<Goal>, userId: UserId)
    requires forall j :: 0 <= j < |goals| && goals[j].userId == userId ==> Int32Min <= goals[j].sortOrder < Int32Max
    ensures forall j :: 0 <= j < |goals| && goals[j].userId == userId ==> goals[j].sortOrder < NextSortOrder(goals, userId)
    ensures (exists j :: 0 <= j < |goals| && goals[j].userId == userId) ==>
      exists k :: 0 <= k < |goals| && goals[k].userId == userId && NextSortOrder(goals, userId) == goals[k].sortOrder + 1
  {
  }

  /** When the largest sort order is `int.MaxValue`, the addition wraps to `int.MinValue`. */
  lemma NextSortOrderWraps(goals: seq<Goal>, userId: UserId)
    requires MaxSortOrder(goals, userId) == Some(Int32Max)
    ensures NextSortOrder(goals, userId) == Int32Min
  {
  }

  /** The fields of a new goal: defaults for the schedule and the active flag,
      the request's values for the rest. */
  lemma NewGoalFields(request: CreateGoalRequest, userId: UserId, id: GoalId, createdAt: nat, sortOrder: int)
    requires request.name.Some?
    ensures var g := NewGoal(request, userId, id, createdAt, sortOrder);
      && g.isActive
      && (request.scheduleDays.None? ==> forall d :: 0 <= d < 7 ==> d in g.scheduleDays)
      && (request.scheduleDays.Some? ==> g.scheduleDays == request.scheduleDays.value)
      && g.name == request.name.value && g.intervalDays == request.intervalDays
      && g.intervalStartDate == request.intervalStartDate && g.description == request.description
  {
    var g := NewGoal(request, userId, id, createdAt, sortOrder);
    if request.scheduleDays.None? {
      forall d | 0 <= d < 7
        ensures d in g.scheduleDays
      {
        assert g.scheduleDays[d] == d;
      }
    }
  }

  /*** UpdateGoalAsync ***/

  /** Every field the request carries overwrites the goal's; a missing (null)
      field never changes it, the interval fields and description included. */
  function Patch(g: Goal, r: UpdateGoalRequest): Goal
  {
    g.(name := if r.name.Some? then r.name.value else g.name,
       isMeasurable := if r.isMeasurable.Some? then r.isMeasurable.value else g.isMeasurable,
       targetValue := if r.targetValue.Some? then r.targetValue.value else g.targetValue,
       unit := if r.unit.Some? then r.unit.value else g.unit,
       scheduleDays := if r.scheduleDays.Some? then r.scheduleDays.value else g.scheduleDays,
       sortOrder := if r.sortOrder.Some? then r.sortOrder.value else g.sortOrder,
       isActive := if r.isActive.Some? then r.isActive.value else g.isActive,
       intervalDays := if r.intervalDays.Some? then r.intervalDays else g.intervalDays,
       intervalStartDate := if r.intervalStartDate.Some? then r.intervalStartDate else g.intervalStartDate,
       description := if r.description.Some? then r.description else g.description)
  }

  /** A patch never touches the identity, owner or creation time, and never
      clears an optional field: the interval fields and description are
      present afterwards whenever they were before. */
  lemma PatchKeeps(g: Goal, r: UpdateGoalRequest)
    ensures var p := Patch(g, r);
      && p.id == g.id && p.userId == g.userId && p.createdAt == g.createdAt
      && (g.intervalDays.Some? ==> p.intervalDays.Some?)
      && (g.intervalStartDate.Some? ==> p.intervalStartDate.Some?)
      && (g.description.Some? ==> p.description.Some?)
  {
  }

  /** The request with every field null. */
  const EmptyUpdate: UpdateGoalRequest := UpdateGoalRequest(None, None, None, None, None, None, None, None, None, None)

  /** An all-null request changes nothing; applying the same request twice is
      the same as once. */
  lemma PatchIdentityAndIdempotent(g: Goal, r: UpdateGoalRequest)
    ensures Patch(g, EmptyUpdate) == g
    ensures Patch(Patch(g, r), r) == Patch(g, r)
  {
  }

  /** Two successive patches equal one patch whose fields take the second
      request's values where it has them and the first's elsewhere. */
  function Merge(first: UpdateGoalRequest, second: UpdateGoalRequest): UpdateGoalRequest
  {
    UpdateGoalRequest(
      if second.name.Some? then second.name else first.name,
      if second.isMeasurable.Some? then second.isMeasurable else first.isMeasurable,
      if second.targetValue.Some? then second.targetValue else first.targetValue,
      if second.unit.Some? then second.unit else first.unit,
      if second.scheduleDays.Some? then second.scheduleDays else first.scheduleDays,
      if second.intervalDays.Some? then second.intervalDays else first.intervalDays,
      if second.intervalStartDate.Some? then second.intervalStartDate else first.intervalStartDate,
      if second.description.Some? then second.description else first.description,
      if second.sortOrder.Some? then second.sortOrder else first.sortOrder,
      if second.isActive.Some? then second.isActive else first.isActive)
  }

  lemma PatchCompose(g: Goal, first: UpdateGoalRequest, second: UpdateGoalRequest)
    ensures Patch(Patch(g, first), second) == Patch(g, Merge(first, second))
  {
  }

  /*** ToggleCompletionAsync ***/

  /** The completion set with `c` removed when present, added when absent. */
  function Flip(s: set<Completion>, c: Completion): (r: set<Completion>)
    ensures c in r <==> c !in s
    ensures forall x :: x != c ==> (x in r <==> x in s)
  {
    if c in s then s - {c} else s + {c}
  }

  /** Toggling twice restores the set. */
  lemma FlipTwice(s: set<Completion>, c: Completion)
    ensures Flip(Flip(s, c), c) == s
  {
  }

  /*** ReorderGoalsAsync ***/

  /** The last position of `id` in `ids`, -1 when absent. */
  function LastIndexOf(ids: seq<GoalId>, id: GoalId): (i: int)
    ensures -1 <= i < |ids|
    ensures i >= 0 ==> ids[i] == id && forall j :: i < j < |ids| ==> ids[j] != id
    ensures i == -1 <==> id !in ids
  {
    if ids == [] then -1
    else if ids[|ids| - 1] == id then |ids| - 1
    else
      assert forall x :: x in ids[..|ids| - 1] ==> x in ids;
      assert ids == ids[..|ids| - 1] + [ids[|ids| - 1]];
      LastIndexOf(ids[..|ids| - 1], id)
  }

  /** A goal after reordering: when it is the user's and listed, its sort order
      is its last position in the list; otherwise it is unchanged. */
  function ReorderOne(g: Goal, userId: UserId, ids: seq<GoalId>): Goal
  {
    var i := LastIndexOf(ids, g.id);
    if g.userId == userId && i >= 0 then g.(sortOrder := i) else g
  }

  function Reordered(goals: seq<Goal>, userId: UserId, ids: seq<GoalId>): (r: seq<Goal>)
    ensures |r| == |goals|
  {
    seq(|goals|, j requires 0 <= j < |goals| => ReorderOne(goals[j], userId, ids))
  }

  /** Reordering changes only the sort order of the user's listed goals, each
      to its last position in the list; ids the user does not own and goals
      not listed are left alone. */
  lemma ReorderedSpec(goals: seq<Goal>, userId: UserId, ids: seq<GoalId>, j: int)
    requires 0 <= j < |goals|
    ensures var g, h := goals[j], Reordered(goals, userId, ids)[j];
      && h == g.(sortOrder := h.sortOrder)
      && (g.userId == userId && g.id in ids ==>
            0 <= h.sortOrder < |ids| && ids[h.sortOrder] == g.id && forall k :: h.sortOrder < k < |ids| ==> ids[k] != g.id)
      && (g.userId != userId || g.id !in ids ==> h == g)
  {
  }

  /** With a list of distinct ids, two different listed goals of the user never
      share a sort order afterwards, and listed goals follow list order. */
  lemma ReorderedFollowsList(goals: seq<Goal>, userId: UserId, ids: seq<GoalId>, a: int, b: int, p: int, q: int)
    requires 0 <= a < |goals| && 0 <= b < |goals|
    requires 0 <= p < q < |ids| && ids[p] == goals[a].id && ids[q] == goals[b].id
    requires goals[a].userId == userId && goals[b].userId == userId
    requires forall x, y :: 0 <= x < y < |ids| ==> ids[x] != ids[y]
    ensures Reordered(goals, userId, ids)[a].sortOrder == p
    ensures Reordered(goals, userId, ids)[b].sortOrder == q
  {
    var i := LastIndexOf(ids, goals[a].id);
    assert i == p;
    var k := LastIndexOf(ids, goals[b].id);
    assert k == q;
  }

  /** One step of the loop: handling `ids[i]` after `ids[..i]`. */
  lemma ReorderStep(goals: seq<Goal>, userId: UserId, ids: seq<GoalId>, i: int, j: int)
    requires 0 <= i < |ids|
    requires forall x, y :: 0 <= x < y < |goals| ==> goals[x].id != goals[y].id
    requires j == FindGoal(Reordered(goals, userId, ids[..i]), userId, ids[i])
    ensures var cur := Reordered(goals, userId, ids[..i]);
      Reordered(goals, userId, ids[..i + 1]) ==
        if j >= 0 then cur[j := cur[j].(sortOrder := i)] else cur
  {
    var cur := Reordered(goals, userId, ids[..i]);
    var next := Reordered(goals, userId, ids[..i + 1]);
    assert ids[..i + 1][..i] == ids[..i];
    forall x | 0 <= x < |goals|
      ensures next[x] == if j >= 0 && x == j then cur[j].(sortOrder := i) else cur[x]
    {
      var g := goals[x];
      if g.id == ids[i] {
        assert LastIndexOf(ids[..i + 1], g.id) == i;
      } else {
        assert LastIndexOf(ids[..i + 1], g.id) == LastIndexOf(ids[..i], g.id);
      }
    }
  }

  class GoalService {
    var goals: seq<Goal>
    var completions: set<Completion>

    /** Goal ids are unique (the primary key) and every completion refers to a stored goal. */
    ghost predicate Valid()
      reads this
    {
      && (forall x, y :: 0 <= x < y < |goals| ==> goals[x].id != goals[y].id)
      && (forall c :: c in completions ==> exists j :: 0 <= j < |goals| && goals[j].id == c.goalId)
    }

    constructor ()
      ensures Valid() && goals == [] && completions == {}
    {
      goals := [];
      completions := {};
    }

    /** `CreateGoalAsync`: appends the new goal and returns its response. The
        id and creation time the database would assign are given. */
    method CreateGoal(userId: UserId, request: CreateGoalRequest, id: GoalId, createdAt: nat) returns (r: GoalResponse)
      requires Valid() && request.name.Some?
      requires forall j :: 0 <= j < |goals| ==> goals[j].id != id
      modifies this
      ensures Valid()
      ensures goals == old(goals) + [NewGoal(request, userId, id, createdAt, NextSortOrder(old(goals), userId))]
      ensures completions == old(completions)
      ensures r == ToResponse(goals[|goals| - 1])
    {
      var sortOrder := NextSortOrder(goals, userId);
      var goal := NewGoal(request, userId, id, createdAt, sortOrder);
      goals := goals + [goal];
      r := ToResponse(goal);
      assert forall j :: 0 <= j < |old(goals)| ==> goals[j] == old(goals)[j];
    }

    /** `UpdateGoalAsync`: patches the user's goal with that id, or answers
        `None` and changes nothing when there is none. */
    method UpdateGoal(userId: UserId, goalId: GoalId, request: UpdateGoalRequest) returns (r: Option<GoalResponse>)
      requires Valid()
      modifies this
      ensures Valid()
      ensures completions == old(completions)
      ensures var i := FindGoal(old(goals), userId, goalId);
        && (i < 0 ==> r.None? && goals == old(goals))
        && (i >= 0 ==> goals == old(goals)[i := Patch(old(goals)[i], request)] && r == Some(ToResponse(goals[i])))
    {
      var i := FindGoal(goals, userId, goalId);
      if i < 0 {
        return None;
      }
      var patched := Patch(goals[i], request);
      goals := goals[i := patched];
      r := Some(ToResponse(patched));
      assert forall j :: 0 <= j < |goals| ==> goals[j].id == old(goals)[j].id;
    }

    /** `ToggleCompletionAsync`: for the user's goal, flips today's completion
        and answers whether it is now completed; no schedule check is made.
        Another user's or a missing goal fails with "Goal not found". */
    method ToggleCompletion(userId: UserId, goalId: GoalId, today: int) returns (r: Result<bool, ServiceError>)
      requires Valid()
      modifies this
      ensures Valid()
      ensures goals == old(goals)
      ensures r.Failure? <==> forall j :: 0 <= j < |goals| ==> !Owns(goals[j], userId, goalId)
      ensures r.Failure? ==> r.error == GoalNotFound && completions == old(completions)
      ensures r.Success? ==> completions == Flip(old(completions), Completion(goalId, today))
      ensures r.Success? ==> (r.value <==> Completion(goalId, today) !in old(completions))
    {
      var i := FindGoal(goals, userId, goalId);
      if i < 0 {
        return Failure(GoalNotFound);
      }
      var c := Completion(goalId, today);
      if c in completions {
        completions := completions - {c};
        r := Success(false);
      } else {
        completions := completions + {c};
        r := Success(true);
      }
    }

    /** `ReorderGoalsAsync`: sets the sort order of each of the user's listed
        goals to its position in `goalIds` (the last one when listed twice). */
    method ReorderGoals(userId: UserId, goalIds: seq<GoalId>)
      requires Valid()
      modifies this
      ensures Valid()
      ensures goals == Reordered(old(goals), userId, goalIds)
      ensures completions == old(completions)
    {
      var i := 0;
      assert goals == Reordered(old(goals), userId, goalIds[..0]);
      while i < |goalIds|
        invariant 0 <= i <= |goalIds|
        invariant goals == Reordered(old(goals), userId, goalIds[..i])
        invariant completions == old(completions)
        invariant forall j :: 0 <= j < |goals| ==> goals[j].id == old(goals)[j].id
      {
        var j := FindGoal(goals, userId, goalIds[i]);
        ReorderStep(old(goals), userId, goalIds, i, j);
        if j >= 0 {
          goals := goals[j := goals[j].(sortOrder := i)];
        }
        i := i + 1;
      }
      assert goalIds[..i] == goalIds;
    }
  }
}
