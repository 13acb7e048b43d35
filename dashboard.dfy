/** The dashboard's list of today's goals: reordering it by dragging one goal
    onto another, and the completion summary shown above it. */
module Dashboard {
  import opened Wrappers
  import opened Seqs
  import opened GoalDtos
  import opened Ratios

  /** `findIndex` by id: the first position holding `id`, or -1. */
  function FindIndex(ids: seq<GoalId>, id: GoalId): (i: int)
    ensures -1 <= i < |ids|
    ensures i == -1 <==> id !in ids
    ensures 0 <= i ==> ids[i] == id && id !in ids[..i]
  {
    if ids == [] then -1
    else if ids[0] == id then 0
    else
      var j := FindIndex(ids[1..], id);
      assert ids[1..][..(if j < 0 then 0 else j)] == ids[1..(if j < 0 then 1 else j + 1)];
      if j < 0 then -1 else j + 1
  }

  /** `s` without its element at `i` (`splice(i, 1)`). */
  function RemoveAt<T>(s: seq<T>, i: nat): (r: seq<T>)
    requires i < |s|
    ensures |r| == |s| - 1
  {
    s[..i] + s[i + 1..]
  }

  /** `s` with `x` put in at `i` (`splice(i, 0, x)`). */
  function InsertAt<T>(s: seq<T>, i: nat, x: T): (r: seq<T>)
    requires i <= |s|
    ensures |r| == |s| + 1
  {
    s[..i] + [x] + s[i..]
  }

  /** The element at `from` taken out and put back in at `to`. */
  function Moved<T>(s: seq<T>, from: nat, to: nat): seq<T>
    requires from < |s| && to < |s|
  {
    InsertAt(RemoveAt(s, from), to, s[from])
  }

  /** Moving keeps the same elements with the same multiplicities, puts the
      moved one at `to`, and leaves every other element in its old relative
      order. */
  lemma MovedSpec<T>(s: seq<T>, from: nat, to: nat)
    requires from < |s| && to < |s|
    ensures |Moved(s, from, to)| == |s|
    ensures multiset(Moved(s, from, to)) == multiset(s)
    ensures Moved(s, from, to)[to] == s[from]
    ensures RemoveAt(Moved(s, from, to), to) == RemoveAt(s, from)
  {
    var rest := RemoveAt(s, from);
    var r := Moved(s, from, to);
    assert s == s[..from] + [s[from]] + s[from + 1..];
    calc {
      multiset(r);
      multiset(rest[..to]) + multiset([s[from]]) + multiset(rest[to..]);
      { assert rest == rest[..to] + rest[to..]; }
      multiset(rest) + multiset([s[from]]);
      multiset(s[..from]) + multiset(s[from + 1..]) + multiset([s[from]]);
      multiset(s);
    }
    assert r[..to] == rest[..to];
    assert r[to + 1..] == rest[to..];
  }

  /** Dropping below the target puts the dragged goal just after it, and
      dropping above the target puts it just before it. */
  lemma DropBesideTarget<T>(s: seq<T>, from: nat, to: nat)
    requires from < |s| && to < |s| && from != to
    ensures from < to ==> Moved(s, from, to)[to - 1] == s[to]
    ensures to < from ==> Moved(s, from, to)[to + 1] == s[to]
  {
  }

  /** `handleDrop`: the goal ids in their new order, to be sent to the server,
      or None when the drop is ignored because nothing is being dragged, the
      goal is dropped on itself, or either goal is not in the list. */
  method HandleDrop(ids: seq<GoalId>, dragged: Option<GoalId>, target: GoalId)
    returns (orderedIds: Option<seq<GoalId>>)
    ensures orderedIds.Some? <==>
      dragged.Some? && dragged.value != target && dragged.value in ids && target in ids
    ensures orderedIds.Some? ==> dragged.Some? && dragged.value in ids && target in ids
    ensures orderedIds.Some? ==>
      orderedIds.value == Moved(ids, FindIndex(ids, dragged.value), FindIndex(ids, target))
  {
    if dragged.None? || dragged.value == target {
      return None;
    }
    var draggedIndex := FindIndex(ids, dragged.value);
    var targetIndex := FindIndex(ids, target);
    if draggedIndex == -1 || targetIndex == -1 {
      return None;
    }
    var newOrder := ids;
    newOrder := newOrder[..draggedIndex] + newOrder[draggedIndex + 1..];
    newOrder := newOrder[..targetIndex] + [dragged.value] + newOrder[targetIndex..];
    return Some(newOrder);
  }

  /** A drop that goes through sends every goal once more (a permutation of
      the list), with the dragged goal at the target's old position and all the
      other goals in their old relative order. */
  lemma DropReorders(ids: seq<GoalId>, dragged: GoalId, target: GoalId)
    requires dragged != target && dragged in ids && target in ids
    ensures |Moved(ids, FindIndex(ids, dragged), FindIndex(ids, target))| == |ids|
    ensures multiset(Moved(ids, FindIndex(ids, dragged), FindIndex(ids, target))) == multiset(ids)
    ensures Moved(ids, FindIndex(ids, dragged), FindIndex(ids, target))[FindIndex(ids, target)] == dragged
    ensures RemoveAt(Moved(ids, FindIndex(ids, dragged), FindIndex(ids, target)), FindIndex(ids, target))
      == RemoveAt(ids, FindIndex(ids, dragged))
  {
    MovedSpec(ids, FindIndex(ids, dragged), FindIndex(ids, target));
  }

  // ---------------------------------------------------------------------
  // Today's summary

  function IsCompletedToday(g: GoalWithStatusResponse): bool
  {
    g.isCompletedToday
  }

  function CompletedCount(goals: seq<GoalWithStatusResponse>): (n: nat)
    ensures n <= |goals|
  {
    |Filter(goals, IsCompletedToday)|
  }

  function TotalCount(goals: seq<GoalWithStatusResponse>): nat
  {
    |goals|
  }

  /** The rounded share of today's goals that are done; 0 with no goals. */
  function CompletionPercent(goals: seq<GoalWithStatusResponse>): (p: int)
    ensures TotalCount(goals) == 0 ==> p == 0
    ensures 0 <= p <= 100
  {
    if TotalCount(goals) > 0 then
      PercentInRange(CompletedCount(goals), TotalCount(goals));
      RoundedPercent(CompletedCount(goals), TotalCount(goals))
    else 0
  }

  /** The summary counts the completed goals among all of them. */
  lemma SummaryCounts(goals: seq<GoalWithStatusResponse>)
    ensures CompletedCount(goals) == CountWhere(goals, IsCompletedToday)
    ensures CompletedCount(goals) <= TotalCount(goals)
  {
    FilterLength(goals, IsCompletedToday);
  }

  /** With every goal done the summary shows all of them and 100%. */
  lemma AllDoneIsFull(goals: seq<GoalWithStatusResponse>)
    requires |goals| > 0
    requires forall i :: 0 <= i < |goals| ==> goals[i].isCompletedToday
    ensures CompletedCount(goals) == TotalCount(goals)
    ensures CompletionPercent(goals) == 100
  {
    FilterAll(goals, IsCompletedToday);
    PercentInRange(|goals|, |goals|);
  }

  /** With no goal done the summary shows none of them and 0%. */
  lemma NoneDoneIsZero(goals: seq<GoalWithStatusResponse>)
    requires forall i :: 0 <= i < |goals| ==> !goals[i].isCompletedToday
    ensures CompletedCount(goals) == 0
    ensures CompletionPercent(goals) == 0
  {
    FilterNone(goals, IsCompletedToday);
    if |goals| > 0 {
      PercentInRange(0, |goals|);
    }
  }
}
