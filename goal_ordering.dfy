/** The goal list order `OrderBy(SortOrder).ThenBy(CreatedAt)`, as a stable
    insertion sort. */
module GoalOrdering {
  import opened GoalDtos
  import opened Seqs

  /** `a` may come before `b`: smaller sort order, or equal sort order and not later created. */
  predicate KeyLe(a: Goal, b: Goal)
  {
    a.sortOrder < b.sortOrder || (a.sortOrder == b.sortOrder && a.createdAt <= b.createdAt)
  }

  predicate Sorted(s: seq<Goal>)
  {
    forall i, j :: 0 <= i < j < |s| ==> KeyLe(s[i], s[j])
  }

  /** Inserts `x` after every element that may precede it. */
  function Insert(x: Goal, s: seq<Goal>): (r: seq<Goal>)
    ensures |r| == |s| + 1
  {
    if s == [] then [x]
    else if KeyLe(s[|s| - 1], x) then s + [x]
    else Insert(x, s[..|s| - 1]) + [s[|s| - 1]]
  }

  lemma {:induction false} InsertMultiset(x: Goal, s: seq<Goal>)
    ensures multiset(Insert(x, s)) == multiset(s) + multiset{x}
  {
    if s != [] && !KeyLe(s[|s| - 1], x) {
      InsertMultiset(x, s[..|s| - 1]);
      assert s == s[..|s| - 1] + [s[|s| - 1]];
    }
  }

  lemma {:induction false} InsertSorted(x: Goal, s: seq<Goal>)
    requires Sorted(s)
    ensures Sorted(Insert(x, s))
  {
    if s != [] && !KeyLe(s[|s| - 1], x) {
      var pre, last := s[..|s| - 1], s[|s| - 1];
      var front := Insert(x, pre);
      InsertSorted(x, pre);
      InsertMultiset(x, pre);
      forall i | 0 <= i < |front|
        ensures KeyLe(front[i], last)
      {
        assert front[i] in multiset(front);
        if front[i] != x {
          assert front[i] in multiset(pre);
          var k :| 0 <= k < |pre| && pre[k] == front[i];
          assert s[k] == front[i];
        }
      }
    }
  }

  /** The goals ordered by `(sortOrder, createdAt)`. */
  function OrderBySortOrder(s: seq<Goal>): (r: seq<Goal>)
    ensures Sorted(r)
    ensures multiset(r) == multiset(s)
    ensures |r| == |s|
  {
    if s == [] then []
    else
      var x := s[|s| - 1];
      var rest := OrderBySortOrder(s[..|s| - 1]);
      InsertSorted(x, rest);
      InsertMultiset(x, rest);
      MultisetSnoc(s);
      Insert(x, rest)
  }

  /** Ordering keeps exactly the same goals. */
  lemma OrderedMembers(s: seq<Goal>, g: Goal)
    ensures g in OrderBySortOrder(s) <==> g in s
  {
    var r := OrderBySortOrder(s);
    assert g in r <==> g in multiset(r);
    assert g in s <==> g in multiset(s);
  }

  /** Inserting one goal adds its own contribution to any count. */
  lemma {:induction false} CountInsert(x: Goal, s: seq<Goal>, p: Goal -> bool)
    ensures CountWhere(Insert(x, s), p) == CountWhere(s, p) + (if p(x) then 1 else 0)
  {
    if s == [] {
    } else if KeyLe(s[|s| - 1], x) {
      assert (s + [x])[..|s|] == s;
    } else {
      var last := s[|s| - 1];
      var front := Insert(x, s[..|s| - 1]);
      CountInsert(x, s[..|s| - 1], p);
      assert (front + [last])[..|front|] == front;
    }
  }

  /** Ordering does not change how many goals satisfy a predicate. */
  lemma {:induction false} CountOrdered(s: seq<Goal>, p: Goal -> bool)
    ensures CountWhere(OrderBySortOrder(s), p) == CountWhere(s, p)
  {
    if s != [] {
      CountOrdered(s[..|s| - 1], p);
      CountInsert(s[|s| - 1], OrderBySortOrder(s[..|s| - 1]), p);
    }
  }
}
