/** The tree edits that the library manager and the desktop window share:
    the reverse parent lookup, the in-place rewrite of one edge amount, the
    creation of a node, and the removal of a whole subtree (the edge filter,
    the pre-order `collect` of labels and the deletion loop). */
module Edits {
  import opened Base
  import opened Nodes
  import opened Ordering
  import opened Traversal
  import opened Forest

  /** How an operation ends: normally, or with the message of the error it
      raises (the library) or warns about (the desktop window). */
  datatype Outcome = Done | Failed(message: string)

  // ----- find_parent / find_parent_node -----

  /** The reverse lookup: scan the labelled nodes for one that lists `child`
      among its children; nothing when none does. The order of the scan is the
      dictionary's, which the model leaves open. */
  method FindParent(heap: Heap, nodes: map<string, NodeId>, child: NodeId) returns (parent: Option<NodeId>)
    requires forall l | l in nodes :: nodes[l] in heap
    ensures parent.Some? ==> parent.value in nodes.Values && ChildOf(heap, parent.value, child)
    ensures parent.None? ==> forall l | l in nodes :: !ChildOf(heap, nodes[l], child)
  {
    var pending := nodes.Values;
    while pending != {}
      invariant pending <= nodes.Values
      invariant forall l | l in nodes && nodes[l] !in pending :: !ChildOf(heap, nodes[l], child)
      decreases |pending|
    {
      var p :| p in pending;
      if child in ChildIds(heap[p].children) {
        return Some(p);
      }
      pending := pending - {p};
    }
    return None;
  }

  /** On a well-formed budget the lookup is exact: it finds the recorded
      parent of every node but the root, and nothing for the root. */
  lemma FoundParent(heap: Heap, root: NodeId, nodes: map<string, NodeId>, up: map<NodeId, NodeId>, next: NodeId,
                    child: NodeId, parent: Option<NodeId>)
    requires Wf(heap, Some(root), nodes, up, next)
    requires parent.Some? ==> parent.value in nodes.Values && ChildOf(heap, parent.value, child)
    requires parent.None? ==> forall l | l in nodes :: !ChildOf(heap, nodes[l], child)
    ensures parent == if child in up then Some(up[child]) else None
  {
    if child in up {
      var p := up[child];
      assert ChildOf(heap, p, child);
      assert heap[p].name in nodes && nodes[heap[p].name] == p;
    }
    if parent.Some? {
      ChildOfIsUp(heap, root, up, parent.value, child);
    }
  }

  // ----- parent.children[i] = (child, new_amount) -----

  /** The edge list with its first edge to `c` carrying `amount`. */
  function Reamounted(edges: seq<Edge>, c: NodeId, amount: real): (r: seq<Edge>)
    ensures ChildIds(r) == ChildIds(edges)
  {
    if edges == [] then []
    else if edges[0].child == c then [Edge(c, amount)] + edges[1..]
    else [edges[0]] + Reamounted(edges[1..], c, amount)
  }

  /** With distinct children, the rewrite gives the edge to `c` the new
      amount and keeps every other edge; without an edge to `c` it changes
      nothing. */
  lemma {:induction false} ReamountedEdges(edges: seq<Edge>, c: NodeId, amount: real)
    requires DistinctChildren(edges)
    ensures c !in ChildIds(edges) ==> Reamounted(edges, c, amount) == edges
    ensures forall e :: e in Reamounted(edges, c, amount) <==>
      (e == Edge(c, amount) && c in ChildIds(edges)) || (e in edges && e.child != c)
  {
    if edges != [] {
      assert ChildIds(edges) == [edges[0].child] + ChildIds(edges[1..]);
      assert DistinctChildren(edges[1..]);
      ReamountedEdges(edges[1..], c, amount);
      if edges[0].child == c {
        assert c !in ChildIds(edges[1..]);
        forall e | e in edges[1..] ensures e.child != c {
          EdgeIsChild(edges[1..], e);
        }
      }
    }
  }

  /** When no edge before `i` leads to `c`, the rewrite touches index `i` if
      that edge leads to `c`, and nothing when the list ends at `i`. */
  lemma {:induction false} ReamountedFrom(edges: seq<Edge>, c: NodeId, amount: real, i: nat)
    requires i <= |edges| && forall k | 0 <= k < i :: edges[k].child != c
    ensures i < |edges| && edges[i].child == c ==> Reamounted(edges, c, amount) == edges[i := Edge(c, amount)]
    ensures i == |edges| ==> Reamounted(edges, c, amount) == edges
  {
    if i > 0 {
      ReamountedFrom(edges[1..], c, amount, i - 1);
      assert edges == [edges[0]] + edges[1..];
      if i < |edges| {
        assert edges[i := Edge(c, amount)] == [edges[0]] + edges[1..][i - 1 := Edge(c, amount)];
      }
    }
  }

  /** The loop of `edit_node` / `process_node_dialog` that rewrites the
      amount of the first edge to `c`, in place, and stops. */
  method RewriteAmount(edges: seq<Edge>, c: NodeId, amount: real) returns (r: seq<Edge>)
    ensures r == Reamounted(edges, c, amount)
  {
    r := edges;
    var i := 0;
    while i < |r|
      invariant 0 <= i <= |edges| && r == edges
      invariant forall k | 0 <= k < i :: edges[k].child != c
    {
      if r[i].child == c {
        r := r[i := Edge(c, amount)];
        ReamountedFrom(edges, c, amount, i);
        return;
      }
      i := i + 1;
    }
    ReamountedFrom(edges, c, amount, i);
  }

  /** The budget with the amount on `p`'s edge to `x` replaced. */
  function AmountEdited(heap: Heap, p: NodeId, x: NodeId, amount: real): Heap
    requires p in heap
  {
    heap[p := heap[p].(children := Reamounted(heap[p].children, x, amount))]
  }

  /** Rewriting the amount on an edge keeps every label, group, identity and
      child list, and keeps every amount positive. */
  lemma AmountEditedShape(heap: Heap, p: NodeId, x: NodeId, amount: real)
    requires p in heap && DistinctChildren(heap[p].children) && Positive(heap) && amount > 0.0
    ensures AmountEdited(heap, p, x, amount).Keys == heap.Keys
    ensures forall y | y in heap :: AmountEdited(heap, p, x, amount)[y].name == heap[y].name
    ensures forall y | y in heap :: AmountEdited(heap, p, x, amount)[y].group == heap[y].group
    ensures forall y | y in heap :: ChildIds(AmountEdited(heap, p, x, amount)[y].children) == ChildIds(heap[y].children)
    ensures Positive(AmountEdited(heap, p, x, amount))
  {
    var h := AmountEdited(heap, p, x, amount);
    ReamountedEdges(heap[p].children, x, amount);
    forall y, e | y in h && e in h[y].children ensures e.amount > 0.0 {
      if y != p {
        assert e in heap[y].children;
      }
    }
  }

  lemma AmountEditedPreserves(heap: Heap, root: NodeId, nodes: map<string, NodeId>, up: map<NodeId, NodeId>,
                              next: NodeId, x: NodeId, amount: real)
    requires Wf(heap, Some(root), nodes, up, next) && x in up && amount > 0.0
    ensures up[x] in heap
    ensures Wf(AmountEdited(heap, up[x], x, amount), Some(root), nodes, up, next)
    ensures Edge(x, amount) in AmountEdited(heap, up[x], x, amount)[up[x]].children
  {
    var p := up[x];
    var h := AmountEdited(heap, p, x, amount);
    assert ChildOf(heap, p, x);
    ReamountedEdges(heap[p].children, x, amount);
    AmountEditedShape(heap, p, x, amount);
    SameNamesIndexed(heap, h, nodes);
    SameShapePreserves(heap, root, nodes, up, next, h, nodes);
  }


  // ----- Node(label, group) with the savings properties -----

  /** The node `add_node` and the dialog's add mode create: only a savings
      node gets its `apr` and `current_balance` properties. */
  function Created(name: string, group: string, apr: real, balance: real): (n: Node)
    ensures n.name == name && n.group == group && n.children == []
    ensures group == SavingsGroup ==> n.properties == map[AprKey := apr, BalanceKey := balance]
    ensures group != SavingsGroup ==> n.properties == map[]
  {
    var n := NewNode(name, group);
    if group == SavingsGroup then n.(properties := n.properties[AprKey := apr][BalanceKey := balance]) else n
  }

  // ----- remove_node / remove_selected_node -----

  /** The recursive `collect(n)`: the label of `n`, then those of each
      child's subtree in insertion order. */
  method Collect(heap: Heap, n: NodeId, toRemove: seq<string>) returns (toRemove': seq<string>)
    requires Forward(heap) && n in heap
    ensures toRemove' == toRemove + Names(heap, Subtree(heap, n))
    decreases Above(heap, n), 1
  {
    toRemove' := toRemove + [heap[n].name];
    toRemove' := CollectChildren(heap, n, heap[n].children, toRemove');
    NamesAppend(heap, [n], SubtreeAll(heap, n, heap[n].children));
    AppendAssoc(toRemove, [heap[n].name], Names(heap, SubtreeAll(heap, n, heap[n].children)));
  }

  /** `for c, _ in n.children: collect(c)`. */
  method CollectChildren(heap: Heap, a: NodeId, kids: seq<Edge>, toRemove: seq<string>) returns (toRemove': seq<string>)
    requires Forward(heap) && a in heap
    requires forall e | e in kids :: e.child in heap && a < e.child
    ensures toRemove' == toRemove + Names(heap, SubtreeAll(heap, a, kids))
    decreases Above(heap, a), 0
  {
    toRemove' := toRemove;
    var i := 0;
    while i < |kids|
      invariant 0 <= i <= |kids|
      invariant toRemove' + Names(heap, SubtreeAll(heap, a, kids[i..])) == toRemove + Names(heap, SubtreeAll(heap, a, kids))
    {
      assert kids[i] in kids;
      AboveShrinks(heap, a, kids[i].child);
      ghost var before := toRemove';
      toRemove' := Collect(heap, kids[i].child, toRemove');
      CollectStep(heap, a, kids, i, before, toRemove');
      i := i + 1;
    }
  }

  /** One turn of the loop: collecting `kids[i]` and then the rest is
      collecting `kids[i..]`. */
  lemma CollectStep(heap: Heap, a: NodeId, kids: seq<Edge>, i: nat, before: seq<string>, after: seq<string>)
    requires Forward(heap) && a in heap && i < |kids|
    requires forall e | e in kids :: e.child in heap && a < e.child
    requires after == before + Names(heap, Subtree(heap, kids[i].child))
    ensures after + Names(heap, SubtreeAll(heap, a, kids[i + 1..])) == before + Names(heap, SubtreeAll(heap, a, kids[i..]))
  {
    assert kids[i..][0] == kids[i] && kids[i..][1..] == kids[i + 1..];
    var first := Subtree(heap, kids[i].child);
    var rest := SubtreeAll(heap, a, kids[i + 1..]);
    assert SubtreeAll(heap, a, kids[i..]) == first + rest;
    NamesAppend(heap, first, rest);
    AppendAssoc(before, Names(heap, first), Names(heap, rest));
  }

  /** The identities the labels of `labels` stand for. */
  function Identities(nodes: map<string, NodeId>, labels: set<string>): set<NodeId>
    requires labels <= nodes.Keys
  {
    set l | l in labels :: nodes[l]
  }

  /** `for l in to_remove: del self.nodes[l]`. A `del` of a missing key
      would raise, so every label must be present and listed once. Each
      node whose label goes is dropped from the arena: nothing refers to it
      any more. */
  method DeleteLabels(heap: Heap, nodes: map<string, NodeId>, toRemove: seq<string>)
    returns (heap': Heap, nodes': map<string, NodeId>)
    requires Distinct(toRemove) && Elems(toRemove) <= nodes.Keys
    ensures nodes' == nodes - Elems(toRemove)
    ensures heap' == heap - Identities(nodes, Elems(toRemove))
  {
    heap', nodes' := heap, nodes;
    var i := 0;
    while i < |toRemove|
      invariant 0 <= i <= |toRemove|
      invariant nodes' == nodes - Elems(toRemove[..i])
      invariant heap' == heap - Identities(nodes, Elems(toRemove[..i]))
    {
      var l := toRemove[i];
      assert l !in Elems(toRemove[..i]);
      assert toRemove[..i + 1] == toRemove[..i] + [l];
      ElemsAppend(toRemove[..i], [l]);
      heap' := heap' - {nodes'[l]};
      nodes' := nodes' - {l};
      i := i + 1;
    }
    assert toRemove[..i] == toRemove;
  }

  /** The deletion loop removes exactly the subtree: its labels from the
      dictionary and its nodes from the arena. */
  lemma DeletedSubtree(heap: Heap, nodes: map<string, NodeId>, sub: seq<NodeId>)
    requires Indexed(heap, nodes) && forall i | i in sub :: i in heap
    ensures Elems(Names(heap, sub)) <= nodes.Keys
    ensures Identities(nodes, Elems(Names(heap, sub))) == Elems(sub)
  {
    var names := Names(heap, sub);
    forall l | l in Elems(names) ensures l in nodes && nodes[l] in Elems(sub) {
      var k :| 0 <= k < |names| && names[k] == l;
      assert nodes[l] == sub[k];
    }
    forall id | id in Elems(sub) ensures id in Identities(nodes, Elems(names)) {
      var k :| 0 <= k < |sub| && sub[k] == id;
      assert names[k] == heap[id].name;
    }
  }

  /** The labels a removal collects on a tree: one per node of the subtree,
      each once. */
  lemma CollectedDistinct(heap: Heap, root: NodeId, nodes: map<string, NodeId>, up: map<NodeId, NodeId>, a: NodeId)
    requires IsTree(heap, root, up) && Indexed(heap, nodes) && a in heap
    ensures Distinct(Names(heap, Subtree(heap, a)))
  {
    SubtreeDistinct(heap, root, up, a);
    NamesDistinct(heap, nodes, Subtree(heap, a));
  }

  /** Detaching `a` from its parent leaves the labels of every node as they were. */
  lemma DetachedNames(heap: Heap, p: NodeId, a: NodeId, sub: seq<NodeId>)
    requires p in heap && forall i | i in sub :: i in heap
    ensures Names(Detached(heap, p, a), sub) == Names(heap, sub)
  {
  }

  /** What `remove_node` relies on: the node has a parent, its subtree survives
      the detaching, and the labels collected from it are distinct, indexed and
      name exactly the subtree. */
  lemma RemovalPlan(heap: Heap, root: NodeId, nodes: map<string, NodeId>, up: map<NodeId, NodeId>,
                    next: NodeId, x: NodeId)
    requires Wf(heap, Some(root), nodes, up, next) && x in heap && x != root
    ensures x in up && up[x] in heap && Forward(Detached(heap, up[x], x))
    ensures Subtree(Detached(heap, up[x], x), x) == Subtree(heap, x)
    ensures Names(Detached(heap, up[x], x), Subtree(heap, x)) == Names(heap, Subtree(heap, x))
    ensures Distinct(Names(heap, Subtree(heap, x))) && Elems(Names(heap, Subtree(heap, x))) <= nodes.Keys
    ensures Identities(nodes, Elems(Names(heap, Subtree(heap, x)))) == Elems(Subtree(heap, x))
  {
    RemovePreserves(heap, root, nodes, up, next, x);
    assert ChildOf(heap, up[x], x);
    DetachedSubtree(heap, up[x], x);
    DetachedNames(heap, up[x], x, Subtree(heap, x));
    CollectedDistinct(heap, root, nodes, up, x);
    DeletedSubtree(heap, nodes, Subtree(heap, x));
  }

  /** The body of `remove_node` after its guards, shared with the desktop's
      `remove_selected_node`: drop the parent's edge to `x`, collect the
      labels of `x`'s subtree in pre-order, delete them. */
  method RemoveSubtree(heap: Heap, nodes: map<string, NodeId>, ghost root: NodeId, ghost up: map<NodeId, NodeId>,
                       ghost next: NodeId, x: NodeId)
    returns (heap': Heap, nodes': map<string, NodeId>)
    requires Wf(heap, Some(root), nodes, up, next) && x in heap && x != root
    ensures x in up && up[x] in heap
    ensures heap' == Pruned(heap, up, x)
    ensures nodes' == nodes - Elems(Names(heap, Subtree(heap, x)))
    ensures Wf(heap', Some(root), nodes', up - Elems(Subtree(heap, x)), next)
  {
    var parent := FindParent(heap, nodes, x);
    FoundParent(heap, root, nodes, up, next, x, parent);
    RemovalPlan(heap, root, nodes, up, next, x);
    var detached := heap;
    if parent.Some? {
      var p := parent.value;
      detached := heap[p := heap[p].(children := Without(heap[p].children, x))];
    }
    assert detached == Detached(heap, up[x], x);
    var toRemove := Collect(detached, x, []);
    assert toRemove == Names(heap, Subtree(heap, x));
    heap', nodes' := DeleteLabels(detached, nodes, toRemove);
    RemovePreserves(heap, root, nodes, up, next, x);
  }


  // ----- starting, relabelling and the node properties -----

  /** The state right after `start`: a lone "Income" root. */
  lemma StartWf(id: NodeId)
    ensures Wf(map[id := NewNode(RootName, IncomeGroup)], Some(id), map[RootName := id], map[], id + 1)
  {
  }

  /** The label dictionary after a node labelled `from` takes the label `to`. */
  function Relabelled(nodes: map<string, NodeId>, from: string, to: string, x: NodeId): (r: map<string, NodeId>)
    ensures to in r && r[to] == x
    ensures r.Keys == nodes.Keys - {from} + {to}
    ensures from != to ==> from !in r
    ensures forall l | l in nodes && l != from && l != to :: l in r && r[l] == nodes[l]
  {
    if to == from then nodes[to := x] else (nodes - {from})[to := x]
  }

  /** Replacing a node by one with either the same label or an unused one
      keeps the dictionary valid once it is relabelled. */
  lemma RelabelIndexed(heap: Heap, nodes: map<string, NodeId>, x: NodeId, n: Node)
    requires Indexed(heap, nodes) && x in heap
    requires n.name == heap[x].name || n.name !in nodes
    ensures Indexed(heap[x := n], Relabelled(nodes, heap[x].name, n.name, x))
  {
    var h := heap[x := n];
    var nodes' := Relabelled(nodes, heap[x].name, n.name, x);
    if n.name == heap[x].name {
      assert nodes' == nodes;
      SameNamesIndexed(heap, h, nodes);
    } else {
      RenameIndexed(heap, nodes, x, n.name);
      SameNamesIndexed(heap[x := heap[x].(name := n.name)], h, nodes');
    }
  }

  /** Replacing a node by one with the same children keeps every amount
      positive. */
  lemma ReplacedPositive(heap: Heap, x: NodeId, n: Node)
    requires Positive(heap) && x in heap && n.children == heap[x].children
    ensures Positive(heap[x := n])
  {
    var h := heap[x := n];
    forall y, e | y in h && e in h[y].children ensures e.amount > 0.0 {
      assert e in heap[y].children;
    }
  }

  /** Replacing a non-root node by one with the same children and either the
      same label or an unused one keeps the budget well formed. */
  lemma RelabelPreserves(heap: Heap, root: NodeId, nodes: map<string, NodeId>, up: map<NodeId, NodeId>,
                         next: NodeId, x: NodeId, n: Node)
    requires Wf(heap, Some(root), nodes, up, next) && x in heap && x != root
    requires n.children == heap[x].children
    requires n.name == heap[x].name || n.name !in nodes
    ensures Wf(heap[x := n], Some(root), Relabelled(nodes, heap[x].name, n.name, x), up, next)
  {
    RelabelIndexed(heap, nodes, x, n);
    ReplacedPositive(heap, x, n);
    SameShapePreserves(heap, root, nodes, up, next, heap[x := n], Relabelled(nodes, heap[x].name, n.name, x));
  }

  /** Only savings nodes carry properties, and only the interest rate and the
      balance. */
  predicate NodeFits(n: Node) {
    && n.properties.Keys <= {AprKey, BalanceKey}
    && (n.group != SavingsGroup ==> n.properties == map[])
  }

  ghost predicate Fits(heap: Heap) {
    forall id | id in heap :: NodeFits(heap[id])
  }

  lemma CreatedFits(name: string, group: string, apr: real, balance: real)
    ensures NodeFits(Created(name, group, apr, balance))
  {
  }

  /** Linking a new node that fits keeps every node fitting. */
  lemma AddedFits(heap: Heap, p: NodeId, next: NodeId, n: Node, amount: real)
    requires p in heap && Fits(heap) && NodeFits(n)
    ensures Fits(Added(heap, p, next, n, amount))
  {
  }

  /** Edits that touch only edges keep every node fitting, and so does
      dropping nodes. */
  lemma PrunedFits(heap: Heap, up: map<NodeId, NodeId>, a: NodeId)
    requires Forward(heap) && a in up && up[a] in heap && a in heap && Fits(heap)
    ensures Fits(Pruned(heap, up, a))
  {
  }

  lemma AmountEditedFits(heap: Heap, p: NodeId, x: NodeId, amount: real)
    requires p in heap && Fits(heap)
    ensures Fits(AmountEdited(heap, p, x, amount))
  {
  }
}
