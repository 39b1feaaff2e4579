/** The display order of siblings: children are visited in ascending order of
    a fixed priority of their group, and children of equal priority keep their
    insertion order (the sort the source calls is stable). */
module Ordering {
  import opened Base
  import opened Nodes

  /** The priority levels in ascending order; every group falls on one. */
  const Levels: seq<int> := [-20, 0, 10, 15, 20, 25, 30]

  /** `priority.get(group, 30)`. */
  function Priority(group: string): (p: int)
    ensures p in Levels
  {
    if group == IncomeGroup then -20
    else if group == SavingsGroup then 0
    else if group == IntermediateGroup then 10
    else if group == HoldingGroup then 15
    else if group == ExpenseGroup then 20
    else if group == UnallocatedGroup then 25
    else 30
  }

  /** Every edge of the list leads to a live node. */
  ghost predicate InHeap(heap: Heap, edges: seq<Edge>) {
    forall e | e in edges :: e.child in heap
  }

  /** The sort key of an edge: the priority of its child's group. */
  function Rank(heap: Heap, e: Edge): int
    requires e.child in heap
  {
    Priority(heap[e.child].group)
  }

  /** The edges whose child has priority `p`, in their original order. */
  function AtLevel(heap: Heap, edges: seq<Edge>, p: int): (r: seq<Edge>)
    requires InHeap(heap, edges)
    ensures forall e | e in r :: e in edges && Rank(heap, e) == p
    ensures |r| <= |edges|
  {
    if edges == [] then []
    else (if Rank(heap, edges[0]) == p then [edges[0]] else []) + AtLevel(heap, edges[1..], p)
  }

  /** The levels one after the other. */
  function Buckets(heap: Heap, edges: seq<Edge>, levels: seq<int>): (r: seq<Edge>)
    requires InHeap(heap, edges)
    ensures forall e | e in r :: e in edges && Rank(heap, e) in levels
  {
    if levels == [] then [] else AtLevel(heap, edges, levels[0]) + Buckets(heap, edges, levels[1..])
  }

  /** `sorted(children, key=lambda item: priority.get(item[0].group, 30))`. */
  function SortChildren(heap: Heap, edges: seq<Edge>): (r: seq<Edge>)
    requires InHeap(heap, edges)
    ensures InHeap(heap, r)
    ensures |r| == |edges|
    ensures forall e :: e in r <==> e in edges
  {
    SortChildrenIsPermutation(heap, edges);
    assert forall e | e in edges :: e in multiset(edges);
    Buckets(heap, edges, Levels)
  }

  ghost predicate StrictlyIncreasing(s: seq<int>) {
    forall i, j | 0 <= i < j < |s| :: s[i] < s[j]
  }

  // ----- permutation -----

  lemma {:induction false} BucketsCons(heap: Heap, x: Edge, edges: seq<Edge>, levels: seq<int>)
    requires InHeap(heap, [x] + edges)
    requires StrictlyIncreasing(levels)
    ensures multiset(Buckets(heap, [x] + edges, levels))
         == (if Rank(heap, x) in levels then multiset{x} else multiset{}) + multiset(Buckets(heap, edges, levels))
  {
    if levels != [] {
      assert ([x] + edges)[1..] == edges;
      assert ([x] + edges)[0] == x;
      assert AtLevel(heap, [x] + edges, levels[0])
          == (if Rank(heap, x) == levels[0] then [x] else []) + AtLevel(heap, edges, levels[0]);
      BucketsCons(heap, x, edges, levels[1..]);
      if Rank(heap, x) == levels[0] {
        assert Rank(heap, x) !in levels[1..];
      }
    }
  }

  lemma {:induction false} BucketsOfNothing(heap: Heap, levels: seq<int>)
    ensures Buckets(heap, [], levels) == []
  {
    if levels != [] {
      BucketsOfNothing(heap, levels[1..]);
    }
  }

  /** The sorted list holds exactly the edges of the original list. */
  lemma {:induction false} SortChildrenIsPermutation(heap: Heap, edges: seq<Edge>)
    requires InHeap(heap, edges)
    ensures multiset(Buckets(heap, edges, Levels)) == multiset(edges)
  {
    if edges == [] {
      BucketsOfNothing(heap, Levels);
    } else {
      var x, rest := edges[0], edges[1..];
      assert edges == [x] + rest;
      BucketsCons(heap, x, rest, Levels);
      SortChildrenIsPermutation(heap, rest);
    }
  }

  // ----- sortedness -----

  /** Sorted by priority: a later sibling never has a lower priority. */
  lemma SortChildrenIsSorted(heap: Heap, edges: seq<Edge>)
    requires InHeap(heap, edges)
    ensures forall i, j | 0 <= i < j < |SortChildren(heap, edges)| ::
      Rank(heap, SortChildren(heap, edges)[i]) <= Rank(heap, SortChildren(heap, edges)[j])
  {
    BucketsSorted(heap, edges, Levels);
  }

  lemma {:induction false} BucketsSorted(heap: Heap, edges: seq<Edge>, levels: seq<int>)
    requires InHeap(heap, edges)
    requires StrictlyIncreasing(levels)
    ensures forall i, j | 0 <= i < j < |Buckets(heap, edges, levels)| ::
      Rank(heap, Buckets(heap, edges, levels)[i]) <= Rank(heap, Buckets(heap, edges, levels)[j])
  {
    if levels != [] {
      var head: seq<Edge> := AtLevel(heap, edges, levels[0]);
      var tail: seq<Edge> := Buckets(heap, edges, levels[1..]);
      assert Buckets(heap, edges, levels) == head + tail;
      BucketsSorted(heap, edges, levels[1..]);
      forall e | e in tail ensures Rank(heap, e) > levels[0] {
        var k :| 0 <= k < |levels[1..]| && levels[1..][k] == Rank(heap, e);
        assert levels[0] < levels[k + 1];
      }
      SortedConcat(heap, head, tail, levels[0]);
    }
  }

  /** A run of one rank followed by a sorted run of higher ranks is sorted. */
  lemma SortedConcat(heap: Heap, head: seq<Edge>, tail: seq<Edge>, lo: int)
    requires InHeap(heap, head) && InHeap(heap, tail)
    requires forall e | e in head :: Rank(heap, e) == lo
    requires forall e | e in tail :: Rank(heap, e) > lo
    requires forall i, j | 0 <= i < j < |tail| :: Rank(heap, tail[i]) <= Rank(heap, tail[j])
    ensures InHeap(heap, head + tail)
    ensures forall i, j | 0 <= i < j < |head + tail| :: Rank(heap, (head + tail)[i]) <= Rank(heap, (head + tail)[j])
  {
    InHeapAppend(heap, head, tail);
    forall i, j | 0 <= i < j < |head + tail|
      ensures Rank(heap, (head + tail)[i]) <= Rank(heap, (head + tail)[j])
    {
      if i < |head| {
        assert (head + tail)[i] in head;
        if j < |head| {
          assert (head + tail)[j] in head;
        } else {
          assert (head + tail)[j] in tail;
        }
      } else {
        assert (head + tail)[i] == tail[i - |head|];
        assert (head + tail)[j] == tail[j - |head|];
      }
    }
  }

  // ----- stability -----

  lemma InHeapAppend(heap: Heap, a: seq<Edge>, b: seq<Edge>)
    requires InHeap(heap, a) && InHeap(heap, b)
    ensures InHeap(heap, a + b)
  {
  }

  lemma {:induction false} AtLevelAppend(heap: Heap, a: seq<Edge>, b: seq<Edge>, p: int)
    requires InHeap(heap, a) && InHeap(heap, b)
    ensures InHeap(heap, a + b)
    ensures AtLevel(heap, a + b, p) == AtLevel(heap, a, p) + AtLevel(heap, b, p)
  {
    InHeapAppend(heap, a, b);
    if a == [] {
      assert a + b == b;
    } else {
      assert (a + b)[0] == a[0] && (a + b)[1..] == a[1..] + b;
      AtLevelAppend(heap, a[1..], b, p);
    }
  }

  lemma {:induction false} AtLevelAtLevel(heap: Heap, edges: seq<Edge>, q: int, p: int)
    requires InHeap(heap, edges)
    ensures InHeap(heap, AtLevel(heap, edges, q))
    ensures AtLevel(heap, AtLevel(heap, edges, q), p) == if p == q then AtLevel(heap, edges, p) else []
  {
    var r := AtLevel(heap, edges, q);
    if edges != [] {
      AtLevelAtLevel(heap, edges[1..], q, p);
      var head := if Rank(heap, edges[0]) == q then [edges[0]] else [];
      assert r == head + AtLevel(heap, edges[1..], q);
      AtLevelAppend(heap, head, AtLevel(heap, edges[1..], q), p);
      if Rank(heap, edges[0]) == q {
        assert AtLevel(heap, head, p) == (if p == q then [edges[0]] else []) + AtLevel(heap, [], p);
      }
    }
  }

  lemma {:induction false} AtLevelOutside(heap: Heap, edges: seq<Edge>, p: int)
    requires InHeap(heap, edges)
    requires forall e | e in edges :: Rank(heap, e) != p
    ensures AtLevel(heap, edges, p) == []
  {
    if edges != [] {
      AtLevelOutside(heap, edges[1..], p);
    }
  }

  lemma {:induction false} BucketsLevel(heap: Heap, edges: seq<Edge>, levels: seq<int>, p: int)
    requires InHeap(heap, edges)
    requires StrictlyIncreasing(levels)
    ensures InHeap(heap, Buckets(heap, edges, levels))
    ensures AtLevel(heap, Buckets(heap, edges, levels), p)
         == if p in levels then AtLevel(heap, edges, p) else []
  {
    var b := Buckets(heap, edges, levels);
    if levels == [] {
      assert b == [];
    } else {
      var head: seq<Edge> := AtLevel(heap, edges, levels[0]);
      var tail: seq<Edge> := Buckets(heap, edges, levels[1..]);
      assert b == head + tail;
      BucketsLevel(heap, edges, levels[1..], p);
      AtLevelAtLevel(heap, edges, levels[0], p);
      AtLevelAppend(heap, head, tail, p);
      if p == levels[0] {
        assert p !in levels[1..];
      }
    }
  }

  /** Stable: the siblings of any one priority keep their insertion order. */
  lemma SortChildrenIsStable(heap: Heap, edges: seq<Edge>, p: int)
    requires InHeap(heap, edges)
    ensures AtLevel(heap, SortChildren(heap, edges), p) == AtLevel(heap, edges, p)
  {
    BucketsLevel(heap, edges, Levels, p);
    if p !in Levels {
      AtLevelOutside(heap, edges, p);
    }
  }

  // ----- duplicate-free children stay duplicate-free -----

  /** No two edges of the list lead to the same child. */
  ghost predicate DistinctChildren(edges: seq<Edge>) {
    forall i, j | 0 <= i < j < |edges| :: edges[i].child != edges[j].child
  }

  lemma DistinctChildrenAppend(a: seq<Edge>, b: seq<Edge>)
    requires DistinctChildren(a) && DistinctChildren(b)
    requires forall x, y | x in a && y in b :: x.child != y.child
    ensures DistinctChildren(a + b)
  {
    forall i, j | 0 <= i < j < |a + b| ensures (a + b)[i].child != (a + b)[j].child {
      if i < |a| && j >= |a| {
        assert (a + b)[i] in a && (a + b)[j] in b;
      } else if i >= |a| {
        assert (a + b)[i] == b[i - |a|] && (a + b)[j] == b[j - |a|];
      }
    }
  }

  lemma {:induction false} AtLevelDistinct(heap: Heap, edges: seq<Edge>, p: int)
    requires InHeap(heap, edges) && DistinctChildren(edges)
    ensures DistinctChildren(AtLevel(heap, edges, p))
  {
    if edges != [] {
      var rest := edges[1..];
      AtLevelDistinct(heap, rest, p);
      var tail := AtLevel(heap, rest, p);
      var head: seq<Edge> := if Rank(heap, edges[0]) == p then [edges[0]] else [];
      assert AtLevel(heap, edges, p) == head + tail;
      forall x, y | x in head && y in tail ensures x.child != y.child {
        var k :| 0 <= k < |rest| && rest[k] == y;
        assert rest[k] == edges[k + 1];
      }
      DistinctChildrenAppend(head, tail);
    }
  }

  lemma {:induction false} BucketsDistinct(heap: Heap, edges: seq<Edge>, levels: seq<int>)
    requires InHeap(heap, edges) && DistinctChildren(edges)
    requires StrictlyIncreasing(levels)
    ensures DistinctChildren(Buckets(heap, edges, levels))
  {
    if levels != [] {
      var head: seq<Edge> := AtLevel(heap, edges, levels[0]);
      var tail: seq<Edge> := Buckets(heap, edges, levels[1..]);
      assert Buckets(heap, edges, levels) == head + tail;
      AtLevelDistinct(heap, edges, levels[0]);
      BucketsDistinct(heap, edges, levels[1..]);
      forall x, y | x in head && y in tail ensures x.child != y.child {
        var k :| 0 <= k < |levels[1..]| && levels[1..][k] == Rank(heap, y);
        assert levels[0] < levels[k + 1];
      }
      DistinctChildrenAppend(head, tail);
    }
  }

  /** Sorting keeps a duplicate-free children list duplicate-free. */
  lemma SortChildrenDistinct(heap: Heap, edges: seq<Edge>)
    requires InHeap(heap, edges) && DistinctChildren(edges)
    ensures DistinctChildren(SortChildren(heap, edges))
  {
    BucketsDistinct(heap, edges, Levels);
  }
}
