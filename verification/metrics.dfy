/** The numbers the program derives from a budget tree: the over-allocation
    warnings of `check_over_allocations`, and the inflow table, display values,
    index-based links, category totals and savings projection that
    `get_visualization_data` (and the desktop `build_sankey_data` /
    `update_diagram`) hand to the charts. */
module Metrics {
  import opened Base
  import opened Nodes
  import opened Ordering
  import opened Traversal
  import opened Forest

  /** The slack allowed before a node counts as over-allocated. */
  const Tolerance: real := 0.01

  /** The entry that reports the root's edges exceeding the planned income. */
  const OverallBudget: string := "Overall budget"

  /** Sum of the amounts on the edges of `edges` that lead to `c`. */
  function AmountTo(edges: seq<Edge>, c: NodeId): real {
    if edges == [] then 0.0
    else (if edges[0].child == c then edges[0].amount else 0.0) + AmountTo(edges[1..], c)
  }

  lemma {:induction false} AmountToAbsent(edges: seq<Edge>, c: NodeId)
    requires c !in ChildIds(edges)
    ensures AmountTo(edges, c) == 0.0
  {
    if edges != [] {
      assert ChildIds(edges) == [edges[0].child] + ChildIds(edges[1..]);
      AmountToAbsent(edges[1..], c);
    }
  }

  /** With no repeated child, the amount sent to a child is its edge's. */
  lemma {:induction false} AmountToUnique(edges: seq<Edge>, e: Edge)
    requires DistinctChildren(edges) && e in edges
    ensures AmountTo(edges, e.child) == e.amount
  {
    if edges[0] == e {
      forall k | 0 <= k < |edges[1..]| ensures edges[1..][k].child != e.child {
        assert edges[1..][k] == edges[k + 1];
      }
      assert e.child !in ChildIds(edges[1..]);
      AmountToAbsent(edges[1..], e.child);
    } else {
      assert edges[0].child != e.child;
      AmountToUnique(edges[1..], e);
    }
  }

  lemma {:induction false} AmountToAppend(a: seq<Edge>, b: seq<Edge>, c: NodeId)
    ensures AmountTo(a + b, c) == AmountTo(a, c) + AmountTo(b, c)
  {
    if a == [] {
      assert a + b == b;
    } else {
      assert (a + b)[0] == a[0] && (a + b)[1..] == a[1..] + b;
      AmountToAppend(a[1..], b, c);
    }
  }

  // ----- check_over_allocations -----

  /** The nodes the inner `recurse(node)` of `check_over_allocations` flags,
      in visiting order, when `node` receives `inflow`: itself if its outflow
      exceeds `inflow + 0.01`, then what each child flags when it receives its
      own edge's amount. */
  ghost function FlaggedFrom(heap: Heap, a: NodeId, inflow: real): (r: seq<NodeId>)
    requires Forward(heap) && a in heap
    ensures forall n | n in r :: n in heap
    decreases Above(heap, a), 1, 0
  {
    (if Total(heap[a].children) > inflow + Tolerance then [a] else []) + FlaggedAll(heap, a, heap[a].children)
  }

  ghost function FlaggedAll(heap: Heap, a: NodeId, kids: seq<Edge>): (r: seq<NodeId>)
    requires Forward(heap) && a in heap
    requires forall e | e in kids :: e.child in heap && a < e.child
    ensures forall n | n in r :: n in heap
    decreases Above(heap, a), 0, |kids|
  {
    if kids == [] then []
    else
      AboveShrinks(heap, a, kids[0].child);
      FlaggedFrom(heap, kids[0].child, kids[0].amount) + FlaggedAll(heap, a, kids[1..])
  }

  /** The labels `recurse(node)` appends, in order. */
  ghost function FlaggedLabels(heap: Heap, a: NodeId, inflow: real): seq<string>
    requires Forward(heap) && a in heap
    decreases Above(heap, a), 1, 0
  {
    (if Total(heap[a].children) > inflow + Tolerance then [heap[a].name] else [])
    + FlaggedLabelsAll(heap, a, heap[a].children)
  }

  ghost function FlaggedLabelsAll(heap: Heap, a: NodeId, kids: seq<Edge>): seq<string>
    requires Forward(heap) && a in heap
    requires forall e | e in kids :: e.child in heap && a < e.child
    decreases Above(heap, a), 0, |kids|
  {
    if kids == [] then []
    else
      AboveShrinks(heap, a, kids[0].child);
      FlaggedLabels(heap, kids[0].child, kids[0].amount) + FlaggedLabelsAll(heap, a, kids[1..])
  }

  /** The labels appended are those of the flagged nodes, in the same order. */
  lemma {:induction false} FlaggedLabelsAreNames(heap: Heap, a: NodeId, inflow: real)
    requires Forward(heap) && a in heap
    ensures FlaggedLabels(heap, a, inflow) == Names(heap, FlaggedFrom(heap, a, inflow))
    decreases Above(heap, a), 1
  {
    var self: seq<NodeId> := if Total(heap[a].children) > inflow + Tolerance then [a] else [];
    NamesAppend(heap, self, FlaggedAll(heap, a, heap[a].children));
    FlaggedLabelsAllAreNames(heap, a, heap[a].children);
  }

  lemma {:induction false} FlaggedLabelsAllAreNames(heap: Heap, a: NodeId, kids: seq<Edge>)
    requires Forward(heap) && a in heap
    requires forall e | e in kids :: e.child in heap && a < e.child
    ensures FlaggedLabelsAll(heap, a, kids) == Names(heap, FlaggedAll(heap, a, kids))
    decreases Above(heap, a), 0, |kids|
  {
    if kids != [] {
      AboveShrinks(heap, a, kids[0].child);
      FlaggedLabelsAreNames(heap, kids[0].child, kids[0].amount);
      FlaggedLabelsAllAreNames(heap, a, kids[1..]);
      NamesAppend(heap, FlaggedFrom(heap, kids[0].child, kids[0].amount), FlaggedAll(heap, a, kids[1..]));
    }
  }

  /** What `check_over_allocations` returns: "Overall budget" when the root's
      edges exceed the planned income, then the labels of the flagged nodes. */
  ghost function OverAllocations(heap: Heap, root: Option<NodeId>, planned: real): seq<string>
    requires root.Some? ==> Forward(heap) && root.value in heap
  {
    if root.None? then []
    else
      (if Total(heap[root.value].children) > planned + Tolerance then [OverallBudget] else [])
      + Names(heap, FlaggedFrom(heap, root.value, planned))
  }

  /** `check_over_allocations`: the root is measured against the planned
      income, every other node against the amount on its incoming edge. */
  method CheckOverAllocations(heap: Heap, root: Option<NodeId>, planned: real) returns (over: seq<string>)
    requires root.Some? ==> Forward(heap) && root.value in heap
    ensures over == OverAllocations(heap, root, planned)
  {
    if root.None? {
      return [];
    }
    over := [];
    var totalAllocated := Total(heap[root.value].children);
    if totalAllocated > planned + Tolerance {
      over := over + [OverallBudget];
    }
    over := FlagRecurse(heap, root.value, planned, over);
    FlaggedLabelsAreNames(heap, root.value, planned);
  }

  /** The inner `recurse(node)`; the `inflow` dictionary entry it reads is the
      one its caller has just written, so it is passed as an argument. */
  method FlagRecurse(heap: Heap, id: NodeId, inflow: real, over: seq<string>) returns (over': seq<string>)
    requires Forward(heap) && id in heap
    ensures over' == over + FlaggedLabels(heap, id, inflow)
    decreases Above(heap, id), 1
  {
    var nodeOut := Total(heap[id].children);
    over' := over;
    if nodeOut > inflow + Tolerance {
      over' := over' + [heap[id].name];
    }
    over' := FlagChildren(heap, id, heap[id].children, over');
  }

  /** `for child, val in node.children: inflow[child] = val; recurse(child)`. */
  method FlagChildren(heap: Heap, a: NodeId, kids: seq<Edge>, over: seq<string>) returns (over': seq<string>)
    requires Forward(heap) && a in heap
    requires forall e | e in kids :: e.child in heap && a < e.child
    ensures over' == over + FlaggedLabelsAll(heap, a, kids)
    decreases Above(heap, a), 0
  {
    over' := over;
    var i := 0;
    while i < |kids|
      invariant 0 <= i <= |kids|
      invariant over' + FlaggedLabelsAll(heap, a, kids[i..]) == over + FlaggedLabelsAll(heap, a, kids)
    {
      assert kids[i..][0] == kids[i] && kids[i..][1..] == kids[i + 1..];
      assert kids[i] in kids;
      AboveShrinks(heap, a, kids[i].child);
      ghost var before := over';
      over' := FlagRecurse(heap, kids[i].child, kids[i].amount, over');
      assert over' + FlaggedLabelsAll(heap, a, kids[i + 1..]) == before + FlaggedLabelsAll(heap, a, kids[i..]);
      i := i + 1;
    }
  }

  /** What a node of a tree receives: the planned income for the root, the
      amount on its incoming edge for any other node. */
  ghost function InflowOf(heap: Heap, root: NodeId, up: map<NodeId, NodeId>, planned: real, n: NodeId): real
    requires IsTree(heap, root, up) && n in heap
  {
    if n == root then planned else AmountTo(heap[up[n]].children, n)
  }

  /** A node sends out more than it receives, beyond the tolerance. */
  ghost predicate OverAllocated(heap: Heap, root: NodeId, up: map<NodeId, NodeId>, planned: real, n: NodeId)
    requires IsTree(heap, root, up) && n in heap
  {
    Total(heap[n].children) > InflowOf(heap, root, up, planned, n) + Tolerance
  }

  lemma {:induction false} FlaggedFromIff(heap: Heap, root: NodeId, up: map<NodeId, NodeId>, planned: real, a: NodeId)
    requires IsTree(heap, root, up) && a in heap
    ensures forall n :: n in FlaggedFrom(heap, a, InflowOf(heap, root, up, planned, a)) <==>
      n in Subtree(heap, a) && OverAllocated(heap, root, up, planned, n)
    decreases Above(heap, a), 1
  {
    var inA := InflowOf(heap, root, up, planned, a);
    var self: seq<NodeId> := if Total(heap[a].children) > inA + Tolerance then [a] else [];
    var rest := FlaggedAll(heap, a, heap[a].children);
    assert FlaggedFrom(heap, a, inA) == self + rest;
    assert Subtree(heap, a) == [a] + SubtreeAll(heap, a, heap[a].children);
    FlaggedAllIff(heap, root, up, planned, a, heap[a].children);
    forall n ensures n in self + rest <==> n in Subtree(heap, a) && OverAllocated(heap, root, up, planned, n) {
      if n == a {
        assert a !in SubtreeAll(heap, a, heap[a].children);
      }
    }
  }

  lemma {:induction false} FlaggedAllIff(heap: Heap, root: NodeId, up: map<NodeId, NodeId>, planned: real,
                                         a: NodeId, kids: seq<Edge>)
    requires IsTree(heap, root, up) && a in heap
    requires forall e | e in kids :: e in heap[a].children
    ensures forall n :: n in FlaggedAll(heap, a, kids) <==>
      n in SubtreeAll(heap, a, kids) && OverAllocated(heap, root, up, planned, n)
    decreases Above(heap, a), 0, |kids|
  {
    if kids != [] {
      var c := kids[0].child;
      assert kids[0] in heap[a].children;
      assert up[c] == a;
      AmountToUnique(heap[a].children, kids[0]);
      AboveShrinks(heap, a, c);
      FlaggedFromIff(heap, root, up, planned, c);
      FlaggedAllIff(heap, root, up, planned, a, kids[1..]);
    }
  }

  /** On a tree, a node is flagged exactly when it is over-allocated. */
  lemma OverAllocatedIff(heap: Heap, root: NodeId, up: map<NodeId, NodeId>, planned: real, n: NodeId)
    requires IsTree(heap, root, up) && n in heap
    ensures n in FlaggedFrom(heap, root, planned) <==> OverAllocated(heap, root, up, planned, n)
  {
    FlaggedFromIff(heap, root, up, planned, root);
    SubtreeOfRoot(heap, root, up);
  }

  /** "Overall budget" is reported exactly when the root's edges exceed the
      planned income by more than the tolerance, and then always followed by
      the root's own label, since the root is measured the same way. */
  lemma OverallBudgetThenRoot(heap: Heap, root: NodeId, planned: real)
    requires Forward(heap) && root in heap
    ensures var r := OverAllocations(heap, Some(root), planned);
      && (Total(heap[root].children) > planned + Tolerance <==> |r| == |FlaggedFrom(heap, root, planned)| + 1)
      && (Total(heap[root].children) > planned + Tolerance ==> |r| >= 2 && r[0] == OverallBudget && r[1] == heap[root].name)
  {
    var f := FlaggedFrom(heap, root, planned);
    if Total(heap[root].children) > planned + Tolerance {
      assert f[0] == root;
    }
  }

  // ----- the inflow table -----

  /** `inflow[child] += val` over the edges of every listed node. */
  ghost function InflowSum(heap: Heap, order: seq<NodeId>, n: NodeId): real
    requires forall x | x in order :: x in heap
  {
    if order == [] then 0.0 else AmountTo(heap[order[0]].children, n) + InflowSum(heap, order[1..], n)
  }

  lemma {:induction false} InflowSumSnoc(heap: Heap, order: seq<NodeId>, i: nat, n: NodeId)
    requires i < |order| && forall x | x in order :: x in heap
    ensures InflowSum(heap, order[..i + 1], n) == InflowSum(heap, order[..i], n) + AmountTo(heap[order[i]].children, n)
  {
    if i > 0 {
      assert order[..i + 1][1..] == order[1..][..i];
      assert order[..i][1..] == order[1..][..i - 1];
      InflowSumSnoc(heap, order[1..], i - 1, n);
    } else {
      assert order[..1][1..] == [];
    }
  }

  /** `inflow.get(node, 0)`. */
  function Get<K>(m: map<K, real>, k: K): real {
    if k in m then m[k] else 0.0
  }

  /** The inflow table: `{node: 0.0 for node in all_nodes}`, then every edge
      of every listed node adds its amount to its child's entry. */
  method InflowTable(heap: Heap, order: seq<NodeId>) returns (inflow: map<NodeId, real>)
    requires forall x | x in order :: x in heap
    requires forall x, c | x in order && ChildOf(heap, x, c) :: c in order
    ensures inflow.Keys == Elems(order)
    ensures forall n | n in inflow :: inflow[n] == InflowSum(heap, order, n)
  {
    inflow := map x | x in order :: 0.0;
    var i := 0;
    while i < |order|
      invariant 0 <= i <= |order|
      invariant inflow.Keys == Elems(order)
      invariant forall n | n in inflow :: inflow[n] == InflowSum(heap, order[..i], n)
    {
      var edges := heap[order[i]].children;
      var j := 0;
      while j < |edges|
        invariant 0 <= j <= |edges|
        invariant inflow.Keys == Elems(order)
        invariant forall n | n in inflow :: inflow[n] == InflowSum(heap, order[..i], n) + AmountTo(edges[..j], n)
      {
        assert edges[..j + 1] == edges[..j] + [edges[j]];
        forall n ensures AmountTo(edges[..j + 1], n) ==
          AmountTo(edges[..j], n) + (if edges[j].child == n then edges[j].amount else 0.0) {
          AmountToAppend(edges[..j], [edges[j]], n);
          assert [edges[j]][1..] == [];
        }
        EdgeIsChild(edges, edges[j]);
        assert order[i] in order && ChildOf(heap, order[i], edges[j].child);
        var child := edges[j].child;
        inflow := inflow[child := inflow[child] + edges[j].amount];
        j := j + 1;
      }
      assert edges[..j] == edges;
      forall n ensures InflowSum(heap, order[..i + 1], n) == InflowSum(heap, order[..i], n) + AmountTo(edges, n) {
        InflowSumSnoc(heap, order, i, n);
      }
      i := i + 1;
    }
    assert order[..i] == order;
  }

  lemma {:induction false} InflowSumSingle(heap: Heap, order: seq<NodeId>, n: NodeId, p: NodeId)
    requires forall x | x in order :: x in heap
    requires Distinct(order)
    requires forall x | x in order && x != p :: AmountTo(heap[x].children, n) == 0.0
    ensures InflowSum(heap, order, n) == if p in order then AmountTo(heap[p].children, n) else 0.0
  {
    if order != [] {
      InflowSumSingle(heap, order[1..], n, p);
      if order[0] == p {
        assert p !in order[1..];
      }
    }
  }

  /** On a tree, with every node listed once, the table holds for each node
      the amount on its incoming edge, and 0 for the root. */
  lemma InflowOnTree(heap: Heap, root: NodeId, up: map<NodeId, NodeId>, order: seq<NodeId>, n: NodeId)
    requires IsTree(heap, root, up) && Distinct(order) && Elems(order) == heap.Keys && n in heap
    ensures InflowSum(heap, order, n) == if n == root then 0.0 else InflowOf(heap, root, up, 0.0, n)
  {
    var p := if n == root then root else up[n];
    forall x | x in order && x != p ensures AmountTo(heap[x].children, n) == 0.0 {
      ChildOfIsUp(heap, root, up, x, n);
      AmountToAbsent(heap[x].children, n);
    }
    if n == root {
      ChildOfIsUp(heap, root, up, root, n);
      AmountToAbsent(heap[root].children, n);
    }
    InflowSumSingle(heap, order, n, p);
  }
}
