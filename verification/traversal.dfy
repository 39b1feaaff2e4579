/** `collect_nodes`: a pre-order depth-first walk from the root that visits the
    children of each node in priority order and, thanks to a visited set,
    appends each node at most once. */
module Traversal {
  import opened Base
  import opened Nodes
  import opened Ordering

  /** Every edge of every live node leads to a live node. */
  ghost predicate Closed(heap: Heap) {
    forall p | p in heap :: InHeap(heap, heap[p].children)
  }

  lemma SameChildIds(a: seq<Edge>, b: seq<Edge>)
    requires forall e :: e in a <==> e in b
    ensures forall c :: c in ChildIds(a) <==> c in ChildIds(b)
  {
    forall c | c in ChildIds(a) ensures c in ChildIds(b) {
      var i :| 0 <= i < |a| && ChildIds(a)[i] == c;
      assert a[i] in b;
      var j :| 0 <= j < |b| && b[j] == a[i];
      assert ChildIds(b)[j] == c;
    }
    forall c | c in ChildIds(b) ensures c in ChildIds(a) {
      var i :| 0 <= i < |b| && ChildIds(b)[i] == c;
      assert b[i] in a;
      var j :| 0 <= j < |a| && a[j] == b[i];
      assert ChildIds(a)[j] == c;
    }
  }

  /** One call of the inner `recurse(node)`: the nodes it appends, and the
      visited set when it returns. */
  ghost function Visit(heap: Heap, id: NodeId, visited: set<NodeId>): (r: (seq<NodeId>, set<NodeId>))
    requires Closed(heap) && id in heap
    ensures visited <= r.1 <= visited + heap.Keys
    decreases heap.Keys - visited, 0, 0
  {
    if id in visited then ([], visited)
    else
      var rest := VisitAll(heap, SortChildren(heap, heap[id].children), visited + {id});
      ([id] + rest.0, rest.1)
  }

  /** The loop `for child, _ in sorted_children: recurse(child)`. */
  ghost function VisitAll(heap: Heap, kids: seq<Edge>, visited: set<NodeId>): (r: (seq<NodeId>, set<NodeId>))
    requires Closed(heap) && InHeap(heap, kids)
    ensures visited <= r.1 <= visited + heap.Keys
    decreases heap.Keys - visited, 1, |kids|
  {
    if kids == [] then ([], visited)
    else
      var first := Visit(heap, kids[0].child, visited);
      var rest := VisitAll(heap, kids[1..], first.1);
      (first.0 + rest.0, rest.1)
  }

  /** A call appends exactly the nodes it newly marks visited, each once and
      all live; it appends its own node first unless that was visited
      already, in which case it appends nothing. */
  lemma {:induction false} VisitShape(heap: Heap, id: NodeId, visited: set<NodeId>)
    requires Closed(heap) && id in heap
    ensures Visit(heap, id, visited).1 == visited + Elems(Visit(heap, id, visited).0)
    ensures Distinct(Visit(heap, id, visited).0)
    ensures Elems(Visit(heap, id, visited).0) !! visited
    ensures Elems(Visit(heap, id, visited).0) <= heap.Keys
    ensures id in visited ==> Visit(heap, id, visited).0 == []
    ensures id !in visited ==> Visit(heap, id, visited).0 != [] && Visit(heap, id, visited).0[0] == id
    decreases heap.Keys - visited, 0, 0
  {
    if id !in visited {
      var rest := VisitAll(heap, SortChildren(heap, heap[id].children), visited + {id});
      VisitAllShape(heap, SortChildren(heap, heap[id].children), visited + {id});
      DistinctAppend([id], rest.0);
      ElemsAppend([id], rest.0);
    }
  }

  lemma {:induction false} VisitAllShape(heap: Heap, kids: seq<Edge>, visited: set<NodeId>)
    requires Closed(heap) && InHeap(heap, kids)
    ensures VisitAll(heap, kids, visited).1 == visited + Elems(VisitAll(heap, kids, visited).0)
    ensures Distinct(VisitAll(heap, kids, visited).0)
    ensures Elems(VisitAll(heap, kids, visited).0) !! visited
    ensures Elems(VisitAll(heap, kids, visited).0) <= heap.Keys
    decreases heap.Keys - visited, 1, |kids|
  {
    if kids != [] {
      var first := Visit(heap, kids[0].child, visited);
      var rest := VisitAll(heap, kids[1..], first.1);
      VisitShape(heap, kids[0].child, visited);
      VisitAllShape(heap, kids[1..], first.1);
      DistinctAppend(first.0, rest.0);
      ElemsAppend(first.0, rest.0);
    }
  }

  /** Walking `kids[i..]` from `seen` is visiting `kids[i]`, which takes the
      list from `before` to `after` and the visited set to `seen'`, then
      walking `kids[i + 1..]` from `seen'`. */
  lemma VisitAllStep(heap: Heap, kids: seq<Edge>, i: nat, before: seq<NodeId>, seen: set<NodeId>,
                     after: seq<NodeId>, seen': set<NodeId>)
    requires Closed(heap) && InHeap(heap, kids) && i < |kids|
    requires after == before + Visit(heap, kids[i].child, seen).0
    requires seen' == Visit(heap, kids[i].child, seen).1
    ensures after + VisitAll(heap, kids[i + 1..], seen').0 == before + VisitAll(heap, kids[i..], seen).0
    ensures VisitAll(heap, kids[i + 1..], seen').1 == VisitAll(heap, kids[i..], seen).1
  {
    VisitAllSplit(heap, kids, i, seen);
    AppendAssoc(before, Visit(heap, kids[i].child, seen).0, VisitAll(heap, kids[i + 1..], seen').0);
  }

  /** One step of the loop unfolded: the walk of `kids[i..]` is the visit of
      `kids[i]` followed by the walk of `kids[i + 1..]`. */
  lemma VisitAllSplit(heap: Heap, kids: seq<Edge>, i: nat, seen: set<NodeId>)
    requires Closed(heap) && InHeap(heap, kids) && i < |kids|
    ensures VisitAll(heap, kids[i..], seen) ==
      (Visit(heap, kids[i].child, seen).0 + VisitAll(heap, kids[i + 1..], Visit(heap, kids[i].child, seen).1).0,
       VisitAll(heap, kids[i + 1..], Visit(heap, kids[i].child, seen).1).1)
  {
    assert kids[i..][0] == kids[i] && kids[i..][1..] == kids[i + 1..];
  }

  /** What `collect_nodes(root)` returns: nothing without a root. */
  ghost function Collected(heap: Heap, root: Option<NodeId>): seq<NodeId>
    requires Closed(heap)
    requires root.Some? ==> root.value in heap
  {
    if root.None? then [] else Visit(heap, root.value, {}).0
  }

  /** `collect_nodes`, with the list and the visited set it accumulates. */
  method CollectNodes(heap: Heap, root: Option<NodeId>) returns (nodes: seq<NodeId>)
    requires Closed(heap)
    requires root.Some? ==> root.value in heap
    ensures nodes == Collected(heap, root)
  {
    nodes := [];
    if root.Some? {
      var visited: set<NodeId> := {};
      nodes, visited := Recurse(heap, root.value, nodes, visited);
    }
  }

  /** The inner `recurse(node)`: append `id` unless already visited, then
      recurse into its children in priority order. */
  method Recurse(heap: Heap, id: NodeId, nodes: seq<NodeId>, visited: set<NodeId>)
    returns (nodes': seq<NodeId>, visited': set<NodeId>)
    requires Closed(heap) && id in heap
    ensures nodes' == nodes + Visit(heap, id, visited).0
    ensures visited' == Visit(heap, id, visited).1
    decreases heap.Keys - visited, 0
  {
    if id in visited {
      return nodes, visited;
    }
    var sortedChildren := SortChildren(heap, heap[id].children);
    nodes', visited' := RecurseChildren(heap, sortedChildren, nodes + [id], visited + {id});
    AppendAssoc(nodes, [id], VisitAll(heap, sortedChildren, visited + {id}).0);
  }

  /** The loop of `recurse` over the sorted children. */
  method RecurseChildren(heap: Heap, kids: seq<Edge>, nodes: seq<NodeId>, visited: set<NodeId>)
    returns (nodes': seq<NodeId>, visited': set<NodeId>)
    requires Closed(heap) && InHeap(heap, kids)
    ensures nodes' == nodes + VisitAll(heap, kids, visited).0
    ensures visited' == VisitAll(heap, kids, visited).1
    decreases heap.Keys - visited, 1
  {
    nodes', visited' := nodes, visited;
    var i := 0;
    while i < |kids|
      invariant 0 <= i <= |kids|
      invariant visited <= visited' <= visited + heap.Keys
      invariant nodes' + VisitAll(heap, kids[i..], visited').0 == nodes + VisitAll(heap, kids, visited).0
      invariant VisitAll(heap, kids[i..], visited').1 == VisitAll(heap, kids, visited).1
    {
      ghost var before, seen := nodes', visited';
      nodes', visited' := Recurse(heap, kids[i].child, nodes', visited');
      VisitAllStep(heap, kids, i, before, seen, nodes', visited');
      i := i + 1;
    }
  }

  // ----- what the walk visits -----

  /** `c` is one of the children of the live node `p`. */
  ghost predicate ChildOf(heap: Heap, p: NodeId, c: NodeId) {
    p in heap && c in ChildIds(heap[p].children)
  }


  /** Closure: every child of a node the walk appended has been visited by
      the time the walk returns. */
  lemma {:induction false} VisitCovers(heap: Heap, id: NodeId, visited: set<NodeId>)
    requires Closed(heap) && id in heap
    ensures id in Visit(heap, id, visited).1
    ensures forall x, c | x in Visit(heap, id, visited).0 && ChildOf(heap, x, c) ::
      c in Visit(heap, id, visited).1
    decreases heap.Keys - visited, 0, 0
  {
    if id !in visited {
      var kids := SortChildren(heap, heap[id].children);
      VisitAllCovers(heap, kids, visited + {id});
      SameChildIds(kids, heap[id].children);
    }
  }

  lemma {:induction false} VisitAllCovers(heap: Heap, kids: seq<Edge>, visited: set<NodeId>)
    requires Closed(heap) && InHeap(heap, kids)
    ensures forall c | c in ChildIds(kids) :: c in VisitAll(heap, kids, visited).1
    ensures forall x, c | x in VisitAll(heap, kids, visited).0 && ChildOf(heap, x, c) ::
      c in VisitAll(heap, kids, visited).1
    decreases heap.Keys - visited, 1, |kids|
  {
    if kids != [] {
      var first := Visit(heap, kids[0].child, visited);
      VisitCovers(heap, kids[0].child, visited);
      VisitAllCovers(heap, kids[1..], first.1);
      assert ChildIds(kids) == [kids[0].child] + ChildIds(kids[1..]);
    }
  }

  /** The `k`-th node of `s` is a child of a node listed before it. */
  ghost predicate LinkedBefore(heap: Heap, s: seq<NodeId>, k: nat)
    requires k < |s|
  {
    exists j | 0 <= j < k :: ChildOf(heap, s[j], s[k])
  }

  lemma LinkedBeforeShift(heap: Heap, s: seq<NodeId>, t: seq<NodeId>, k: nat)
    requires k < |t| && LinkedBefore(heap, t, k)
    ensures LinkedBefore(heap, s + t, |s| + k)
  {
    var j :| 0 <= j < k && ChildOf(heap, t[j], t[k]);
    assert (s + t)[|s| + j] == t[j] && (s + t)[|s| + k] == t[k];
  }

  lemma LinkedBeforeKeep(heap: Heap, s: seq<NodeId>, t: seq<NodeId>, k: nat)
    requires k < |s| && LinkedBefore(heap, s, k)
    ensures LinkedBefore(heap, s + t, k)
  {
    var j :| 0 <= j < k && ChildOf(heap, s[j], s[k]);
    assert (s + t)[j] == s[j] && (s + t)[k] == s[k];
  }

  /** Putting a parent in front of a walk of its children's subtrees. */
  lemma ParentFirstCons(heap: Heap, id: NodeId, kids: seq<Edge>, rest: seq<NodeId>)
    requires forall k | 0 <= k < |rest| :: rest[k] in ChildIds(kids) || LinkedBefore(heap, rest, k)
    requires forall c | c in ChildIds(kids) :: ChildOf(heap, id, c)
    ensures forall k | 0 < k < |[id] + rest| :: LinkedBefore(heap, [id] + rest, k)
  {
    var r := [id] + rest;
    forall k | 0 < k < |r| ensures LinkedBefore(heap, r, k) {
      assert r[k] == rest[k - 1];
      if rest[k - 1] in ChildIds(kids) {
        assert ChildOf(heap, r[0], r[k]);
      } else {
        LinkedBeforeShift(heap, [id], rest, k - 1);
      }
    }
  }

  /** Joining the walk of the first child to the walk of the others. */
  lemma ParentFirstAppend(heap: Heap, kids: seq<Edge>, first: seq<NodeId>, rest: seq<NodeId>)
    requires kids != []
    requires first != [] ==> first[0] == kids[0].child
    requires forall k | 0 < k < |first| :: LinkedBefore(heap, first, k)
    requires forall k | 0 <= k < |rest| :: rest[k] in ChildIds(kids[1..]) || LinkedBefore(heap, rest, k)
    ensures forall k | 0 <= k < |first + rest| :: (first + rest)[k] in ChildIds(kids) || LinkedBefore(heap, first + rest, k)
  {
    assert ChildIds(kids) == [kids[0].child] + ChildIds(kids[1..]);
    ParentFirstLeft(heap, kids, first, rest);
    ParentFirstRight(heap, kids, first, rest);
  }

  lemma ParentFirstLeft(heap: Heap, kids: seq<Edge>, first: seq<NodeId>, rest: seq<NodeId>)
    requires kids != [] && ChildIds(kids) == [kids[0].child] + ChildIds(kids[1..])
    requires first != [] ==> first[0] == kids[0].child
    requires forall k | 0 < k < |first| :: LinkedBefore(heap, first, k)
    ensures forall k | 0 <= k < |first| :: (first + rest)[k] in ChildIds(kids) || LinkedBefore(heap, first + rest, k)
  {
    forall k | 0 <= k < |first| ensures (first + rest)[k] in ChildIds(kids) || LinkedBefore(heap, first + rest, k) {
      if k == 0 {
        assert (first + rest)[0] == ChildIds(kids)[0];
      } else {
        LinkedBeforeKeep(heap, first, rest, k);
      }
    }
  }

  lemma ParentFirstRight(heap: Heap, kids: seq<Edge>, first: seq<NodeId>, rest: seq<NodeId>)
    requires kids != [] && ChildIds(kids) == [kids[0].child] + ChildIds(kids[1..])
    requires forall k | 0 <= k < |rest| :: rest[k] in ChildIds(kids[1..]) || LinkedBefore(heap, rest, k)
    ensures forall k | |first| <= k < |first + rest| :: (first + rest)[k] in ChildIds(kids) || LinkedBefore(heap, first + rest, k)
  {
    forall k | |first| <= k < |first + rest| ensures (first + rest)[k] in ChildIds(kids) || LinkedBefore(heap, first + rest, k) {
      assert (first + rest)[k] == rest[k - |first|];
      if rest[k - |first|] !in ChildIds(kids[1..]) {
        LinkedBeforeShift(heap, first, rest, k - |first|);
      }
    }
  }

  /** Pre-order: every node but the first is a child of a node appended
      before it (so a node always comes before its descendants). */
  lemma {:induction false} VisitParentFirst(heap: Heap, id: NodeId, visited: set<NodeId>)
    requires Closed(heap) && id in heap
    ensures forall k | 0 < k < |Visit(heap, id, visited).0| :: LinkedBefore(heap, Visit(heap, id, visited).0, k)
    decreases heap.Keys - visited, 0, 0
  {
    if id !in visited {
      var kids := SortChildren(heap, heap[id].children);
      var rest := VisitAll(heap, kids, visited + {id});
      assert Visit(heap, id, visited).0 == [id] + rest.0;
      VisitAllParentFirst(heap, kids, visited + {id});
      SameChildIds(kids, heap[id].children);
      ParentFirstCons(heap, id, kids, rest.0);
    }
  }

  lemma {:induction false} VisitAllParentFirst(heap: Heap, kids: seq<Edge>, visited: set<NodeId>)
    requires Closed(heap) && InHeap(heap, kids)
    ensures forall k | 0 <= k < |VisitAll(heap, kids, visited).0| ::
      VisitAll(heap, kids, visited).0[k] in ChildIds(kids) || LinkedBefore(heap, VisitAll(heap, kids, visited).0, k)
    decreases heap.Keys - visited, 1, |kids|
  {
    if kids != [] {
      var first := Visit(heap, kids[0].child, visited);
      var rest := VisitAll(heap, kids[1..], first.1);
      assert VisitAll(heap, kids, visited).0 == first.0 + rest.0;
      VisitShape(heap, kids[0].child, visited);
      VisitParentFirst(heap, kids[0].child, visited);
      VisitAllParentFirst(heap, kids[1..], first.1);
      ParentFirstAppend(heap, kids, first.0, rest.0);
    }
  }

  /** From the root, the walk lists exactly the nodes reachable from it, each
      once: the root first, every other node after a node that has it as a
      child, and every child of a listed node listed too. */
  lemma CollectedIsReachableSet(heap: Heap, root: NodeId)
    requires Closed(heap) && root in heap
    ensures Collected(heap, Some(root)) != [] && Collected(heap, Some(root))[0] == root
    ensures Distinct(Collected(heap, Some(root)))
    ensures forall x, c | x in Collected(heap, Some(root)) && ChildOf(heap, x, c) ::
      c in Collected(heap, Some(root))
    ensures forall k | 0 < k < |Collected(heap, Some(root))| :: LinkedBefore(heap, Collected(heap, Some(root)), k)
  {
    VisitShape(heap, root, {});
    VisitCovers(heap, root, {});
    VisitParentFirst(heap, root, {});
  }
}
