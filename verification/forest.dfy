/** The invariants a budget tree keeps between operations, the subtree walk of
    `remove_node`, and the facts about both that the operations rely on.

    The parent of every non-root node is recorded in a ghost map `up`; edges
    always point from an older node to a newer one (a smaller arena id to a
    larger one), which is what makes the unguarded recursions of the source
    terminate. */
module Forest {
  import opened Base
  import opened Nodes
  import opened Ordering
  import opened Traversal

  /** The label of the root node that `start` creates. */
  const RootName: string := "Income"

  /** Every edge leads to a live node created after its parent. */
  ghost predicate Forward(heap: Heap) {
    forall p, e | p in heap && e in heap[p].children :: e.child in heap && p < e.child
  }

  /** Every edge's child records the edge's source as its parent. */
  ghost predicate EdgesUp(heap: Heap, up: map<NodeId, NodeId>) {
    forall p, e | p in heap && e in heap[p].children :: e.child in up && up[e.child] == p
  }

  /** Every recorded parent is live and has the node among its children. */
  ghost predicate UpIsParent(heap: Heap, up: map<NodeId, NodeId>) {
    forall c | c in up :: ChildOf(heap, up[c], c)
  }

  /** No node lists the same child twice. */
  ghost predicate DistinctEdges(heap: Heap) {
    forall p | p in heap :: DistinctChildren(heap[p].children)
  }

  /** A single tree rooted at `root`: every other live node has exactly one
      parent, recorded in `up`, and no node lists the same child twice. */
  ghost predicate IsTree(heap: Heap, root: NodeId, up: map<NodeId, NodeId>) {
    && root in heap && root !in up
    && up.Keys == heap.Keys - {root}
    && Forward(heap)
    && EdgesUp(heap, up)
    && UpIsParent(heap, up)
    && DistinctEdges(heap)
  }

  /** The label dictionary is exactly the live nodes by their labels. */
  ghost predicate Indexed(heap: Heap, nodes: map<string, NodeId>) {
    && (forall l | l in nodes :: nodes[l] in heap && heap[nodes[l]].name == l)
    && (forall id | id in heap :: heap[id].name in nodes && nodes[heap[id].name] == id)
  }

  /** Every edge carries a positive amount. */
  ghost predicate Positive(heap: Heap) {
    forall p, e | p in heap && e in heap[p].children :: e.amount > 0.0
  }

  /** The state of a budget between operations: nothing before `start`;
      afterwards a tree under an "Income" root, indexed by label, with positive
      edges, and every identity below the allocator's next one. */
  ghost predicate Wf(heap: Heap, root: Option<NodeId>, nodes: map<string, NodeId>,
                     up: map<NodeId, NodeId>, next: NodeId)
  {
    && (root.None? ==> heap == map[] && nodes == map[] && up == map[])
    && (root.Some? ==> && IsTree(heap, root.value, up)
                       && heap[root.value].name == RootName
                       && heap[root.value].group == IncomeGroup)
    && Indexed(heap, nodes)
    && Positive(heap)
    && (forall id | id in heap :: id < next)
  }

  lemma EdgeIsChild(edges: seq<Edge>, e: Edge)
    requires e in edges
    ensures e.child in ChildIds(edges)
  {
    var i :| 0 <= i < |edges| && edges[i] == e;
    assert ChildIds(edges)[i] == e.child;
  }

  lemma ChildHasEdge(edges: seq<Edge>, c: NodeId) returns (e: Edge)
    requires c in ChildIds(edges)
    ensures e in edges && e.child == c
  {
    var i :| 0 <= i < |edges| && ChildIds(edges)[i] == c;
    e := edges[i];
  }

  /** A tree is closed: the walk of `collect_nodes` may run on it. */
  lemma TreeIsClosed(heap: Heap, root: NodeId, up: map<NodeId, NodeId>)
    requires IsTree(heap, root, up)
    ensures Closed(heap)
  {
  }

  /** In a tree, `c` is a child of `p` exactly when `p` is its recorded
      parent. */
  lemma ChildOfIsUp(heap: Heap, root: NodeId, up: map<NodeId, NodeId>, p: NodeId, c: NodeId)
    requires IsTree(heap, root, up) && p in heap
    ensures ChildOf(heap, p, c) <==> c in up && up[c] == p
  {
    if ChildOf(heap, p, c) {
      var e := ChildHasEdge(heap[p].children, c);
    }
  }

  /** A set that holds the root and every child of its members holds every
      node of the tree. */
  lemma {:induction false} ClosedSetCoversTree(heap: Heap, root: NodeId, up: map<NodeId, NodeId>, s: set<NodeId>, y: NodeId)
    requires IsTree(heap, root, up) && root in s
    requires forall x, c | x in s && ChildOf(heap, x, c) :: c in s
    requires y in heap
    ensures y in s
    decreases y
  {
    if y != root {
      var e := ChildHasEdge(heap[up[y]].children, y);
      ClosedSetCoversTree(heap, root, up, s, up[y]);
    }
  }

  // ----- the subtree collected by remove_node -----

  /** The live nodes with identity at least `id`. */
  function Above(heap: Heap, id: NodeId): set<NodeId> {
    set k | k in heap && id <= k
  }

  lemma AboveShrinks(heap: Heap, a: NodeId, c: NodeId)
    requires a in heap && a < c
    ensures Above(heap, c) < Above(heap, a)
  {
    assert a in Above(heap, a);
  }

  /** The inner `collect(n)` of `remove_node`: `n`, then the subtree of each
      child in insertion order (no sorting, no visited set). */
  ghost function Subtree(heap: Heap, a: NodeId): (s: seq<NodeId>)
    requires Forward(heap) && a in heap
    ensures s != [] && s[0] == a
    ensures forall y | y in s :: y in heap && a <= y
    decreases Above(heap, a), 1, 0
  {
    [a] + SubtreeAll(heap, a, heap[a].children)
  }

  /** `for c, _ in n.children: collect(c)`. */
  ghost function SubtreeAll(heap: Heap, a: NodeId, kids: seq<Edge>): (s: seq<NodeId>)
    requires Forward(heap) && a in heap
    requires forall e | e in kids :: e.child in heap && a < e.child
    ensures forall y | y in s :: y in heap && a < y
    decreases Above(heap, a), 0, |kids|
  {
    if kids == [] then []
    else
      AboveShrinks(heap, a, kids[0].child);
      Subtree(heap, kids[0].child) + SubtreeAll(heap, a, kids[1..])
  }

  lemma {:induction false} SubtreeAllMember(heap: Heap, a: NodeId, kids: seq<Edge>, y: NodeId) returns (i: nat)
    requires Forward(heap) && a in heap
    requires forall e | e in kids :: e.child in heap && a < e.child
    requires y in SubtreeAll(heap, a, kids)
    ensures i < |kids| && y in Subtree(heap, kids[i].child)
    decreases |kids|
  {
    if y in Subtree(heap, kids[0].child) {
      i := 0;
    } else {
      var j := SubtreeAllMember(heap, a, kids[1..], y);
      i := j + 1;
    }
  }

  lemma {:induction false} SubtreeAllIncludes(heap: Heap, a: NodeId, kids: seq<Edge>, i: nat, y: NodeId)
    requires Forward(heap) && a in heap
    requires forall e | e in kids :: e.child in heap && a < e.child
    requires i < |kids| && y in Subtree(heap, kids[i].child)
    ensures y in SubtreeAll(heap, a, kids)
    decreases |kids|
  {
    if i > 0 {
      SubtreeAllIncludes(heap, a, kids[1..], i - 1, y);
    }
  }

  /** The subtree holds every child of its members. */
  lemma {:induction false} SubtreeClosed(heap: Heap, a: NodeId, x: NodeId, c: NodeId)
    requires Forward(heap) && a in heap
    requires x in Subtree(heap, a) && ChildOf(heap, x, c)
    ensures c in Subtree(heap, a)
    decreases Above(heap, a)
  {
    var kids := heap[a].children;
    if x == a {
      var e := ChildHasEdge(kids, c);
      var i :| 0 <= i < |kids| && kids[i] == e;
      SubtreeAllIncludes(heap, a, kids, i, c);
    } else {
      var i := SubtreeAllMember(heap, a, kids, x);
      AboveShrinks(heap, a, kids[i].child);
      SubtreeClosed(heap, kids[i].child, x, c);
      SubtreeAllIncludes(heap, a, kids, i, c);
    }
  }

  /** Every member of the subtree but its top has its parent in the
      subtree. */
  lemma {:induction false} SubtreeUp(heap: Heap, root: NodeId, up: map<NodeId, NodeId>, a: NodeId, y: NodeId)
    requires IsTree(heap, root, up) && a in heap
    requires y in Subtree(heap, a) && y != a
    ensures y in up && up[y] in Subtree(heap, a)
    decreases Above(heap, a)
  {
    var kids := heap[a].children;
    var i := SubtreeAllMember(heap, a, kids, y);
    var c := kids[i].child;
    assert kids[i] in heap[a].children;
    if y == c {
      assert up[y] == a;
    } else {
      AboveShrinks(heap, a, c);
      SubtreeUp(heap, root, up, c, y);
      SubtreeAllIncludes(heap, a, kids, i, up[y]);
    }
  }

  /** The subtrees of two different children of a node share no member. */
  lemma {:induction false} SiblingsDisjoint(heap: Heap, root: NodeId, up: map<NodeId, NodeId>,
                                            a: NodeId, c1: NodeId, c2: NodeId, y: NodeId)
    requires IsTree(heap, root, up) && a in heap
    requires c1 in up && up[c1] == a && c2 in up && up[c2] == a && c1 != c2
    ensures !(y in Subtree(heap, c1) && y in Subtree(heap, c2))
    decreases y
  {
    if y in Subtree(heap, c1) && y in Subtree(heap, c2) {
      var e1 := ChildHasEdge(heap[a].children, c1);
      var e2 := ChildHasEdge(heap[a].children, c2);
      if y == c1 {
        SubtreeUp(heap, root, up, c2, y);
        assert false;
      } else if y == c2 {
        SubtreeUp(heap, root, up, c1, y);
        assert false;
      } else {
        SubtreeUp(heap, root, up, c1, y);
        SubtreeUp(heap, root, up, c2, y);
        var e := ChildHasEdge(heap[up[y]].children, y);
        SiblingsDisjoint(heap, root, up, a, c1, c2, up[y]);
      }
    }
  }

  lemma {:induction false} SubtreeAllDistinct(heap: Heap, root: NodeId, up: map<NodeId, NodeId>, a: NodeId, kids: seq<Edge>)
    requires IsTree(heap, root, up) && a in heap
    requires forall e | e in kids :: e in heap[a].children
    requires DistinctChildren(kids)
    ensures Distinct(SubtreeAll(heap, a, kids))
    decreases Above(heap, a), 0, |kids|
  {
    if kids != [] {
      var c := kids[0].child;
      assert kids[0] in heap[a].children;
      AboveShrinks(heap, a, c);
      SubtreeDistinct(heap, root, up, c);
      SubtreeAllDistinct(heap, root, up, a, kids[1..]);
      forall y | y in Subtree(heap, c) && y in SubtreeAll(heap, a, kids[1..]) ensures false {
        var j := SubtreeAllMember(heap, a, kids[1..], y);
        assert kids[1..][j] == kids[j + 1] && kids[j + 1] in heap[a].children;
        SiblingsDisjoint(heap, root, up, a, c, kids[j + 1].child, y);
      }
      DistinctAppend(Subtree(heap, c), SubtreeAll(heap, a, kids[1..]));
    }
  }

  /** `collect` lists each node of the subtree once. */
  lemma {:induction false} SubtreeDistinct(heap: Heap, root: NodeId, up: map<NodeId, NodeId>, a: NodeId)
    requires IsTree(heap, root, up) && a in heap
    ensures Distinct(Subtree(heap, a))
    decreases Above(heap, a), 1, 0
  {
    SubtreeAllDistinct(heap, root, up, a, heap[a].children);
    DistinctAppend([a], SubtreeAll(heap, a, heap[a].children));
  }

  /** From the root, `collect` reaches every node of the tree. */
  lemma SubtreeOfRoot(heap: Heap, root: NodeId, up: map<NodeId, NodeId>)
    requires IsTree(heap, root, up)
    ensures Elems(Subtree(heap, root)) == heap.Keys
  {
    var s := Elems(Subtree(heap, root));
    forall x, c | x in s && ChildOf(heap, x, c) ensures c in s {
      SubtreeClosed(heap, root, x, c);
    }
    forall y | y in heap ensures y in s {
      ClosedSetCoversTree(heap, root, up, s, y);
    }
  }

  /** The subtree depends only on the nodes at or above its top. */
  lemma {:induction false} SubtreeFrame(heap: Heap, heap': Heap, a: NodeId)
    requires Forward(heap) && Forward(heap') && a in heap
    requires forall k | k in heap && a <= k :: k in heap' && heap'[k] == heap[k]
    ensures Subtree(heap', a) == Subtree(heap, a)
    decreases Above(heap, a)
  {
    SubtreeAllFrame(heap, heap', a, heap[a].children);
  }

  lemma {:induction false} SubtreeAllFrame(heap: Heap, heap': Heap, a: NodeId, kids: seq<Edge>)
    requires Forward(heap) && Forward(heap') && a in heap
    requires forall k | k in heap && a <= k :: k in heap' && heap'[k] == heap[k]
    requires forall e | e in kids :: e.child in heap && a < e.child
    ensures SubtreeAll(heap', a, kids) == SubtreeAll(heap, a, kids)
    decreases Above(heap, a), |kids|
  {
    if kids != [] {
      AboveShrinks(heap, a, kids[0].child);
      SubtreeFrame(heap, heap', kids[0].child);
      SubtreeAllFrame(heap, heap', a, kids[1..]);
    }
  }

  /** The labels of a sequence of live nodes, in order. */
  function Names(heap: Heap, ids: seq<NodeId>): (r: seq<string>)
    requires forall i | i in ids :: i in heap
    ensures |r| == |ids|
    ensures forall k | 0 <= k < |ids| :: r[k] == heap[ids[k]].name
  {
    if ids == [] then [] else [heap[ids[0]].name] + Names(heap, ids[1..])
  }

  lemma NamesAppend(heap: Heap, a: seq<NodeId>, b: seq<NodeId>)
    requires forall i | i in a + b :: i in heap
    ensures Names(heap, a + b) == Names(heap, a) + Names(heap, b)
  {
  }

  /** Distinct nodes of an indexed heap have distinct labels. */
  lemma NamesDistinct(heap: Heap, nodes: map<string, NodeId>, ids: seq<NodeId>)
    requires Indexed(heap, nodes) && Distinct(ids)
    requires forall i | i in ids :: i in heap
    ensures Distinct(Names(heap, ids))
  {
    var r := Names(heap, ids);
    forall i, j | 0 <= i < j < |r| ensures r[i] != r[j] {
      assert nodes[r[i]] == ids[i] && nodes[r[j]] == ids[j];
    }
  }

  // ----- the walk of collect_nodes on a tree -----

  /** On a tree, `collect_nodes(root)` lists every live node exactly once. */
  lemma CollectedCoversTree(heap: Heap, root: NodeId, up: map<NodeId, NodeId>)
    requires IsTree(heap, root, up)
    ensures Closed(heap)
    ensures Elems(Collected(heap, Some(root))) == heap.Keys
    ensures Distinct(Collected(heap, Some(root)))
    ensures |Collected(heap, Some(root))| == |heap|
  {
    VisitRootCovers(heap, root, up);
    var r := Visit(heap, root, {});
    VisitShape(heap, root, {});
    DistinctCard(r.0);
  }

  /** The walk from the root ends having visited every live node. */
  lemma VisitRootCovers(heap: Heap, root: NodeId, up: map<NodeId, NodeId>)
    requires IsTree(heap, root, up)
    ensures Closed(heap)
    ensures Visit(heap, root, {}).1 == heap.Keys
  {
    TreeIsClosed(heap, root, up);
    var r := Visit(heap, root, {});
    VisitShape(heap, root, {});
    VisitCovers(heap, root, {});
    forall y | y in heap ensures y in r.1 {
      ClosedSetCoversTree(heap, root, up, r.1, y);
    }
  }

  /** ... so its labels are exactly the keys of the label dictionary, each
      once. */
  lemma CollectedLabels(heap: Heap, root: NodeId, up: map<NodeId, NodeId>, nodes: map<string, NodeId>)
    requires IsTree(heap, root, up) && Indexed(heap, nodes)
    ensures Closed(heap)
    ensures Elems(Collected(heap, Some(root))) == heap.Keys
    ensures Elems(Names(heap, Collected(heap, Some(root)))) == nodes.Keys
    ensures Distinct(Names(heap, Collected(heap, Some(root))))
  {
    CollectedCoversTree(heap, root, up);
    var r := Collected(heap, Some(root));
    NamesDistinct(heap, nodes, r);
    NamesCover(heap, nodes, r);
  }

  lemma NamesCover(heap: Heap, nodes: map<string, NodeId>, ids: seq<NodeId>)
    requires Indexed(heap, nodes) && Elems(ids) == heap.Keys
    ensures Elems(Names(heap, ids)) == nodes.Keys
  {
    var names := Names(heap, ids);
    forall l | l in nodes ensures l in Elems(names) {
      var k :| 0 <= k < |ids| && ids[k] == nodes[l];
      assert names[k] == l;
    }
  }

  // ----- the edge filter of remove_node -----

  /** `[c for c in parent.children if c[0] is not node]`. */
  function Without(edges: seq<Edge>, c: NodeId): (r: seq<Edge>)
    ensures forall e :: e in r <==> e in edges && e.child != c
    ensures c !in ChildIds(edges) ==> r == edges
  {
    if edges == [] then []
    else
      var rest := Without(edges[1..], c);
      assert ChildIds(edges) == [edges[0].child] + ChildIds(edges[1..]);
      if edges[0].child == c then rest else [edges[0]] + rest
  }

  /** With distinct children the filter keeps them distinct and drops
      exactly one edge when `c` is a child. */
  lemma {:induction false} WithoutDistinct(edges: seq<Edge>, c: NodeId)
    requires DistinctChildren(edges)
    ensures DistinctChildren(Without(edges, c))
    ensures c in ChildIds(edges) ==> |Without(edges, c)| == |edges| - 1
  {
    if edges != [] {
      WithoutDistinct(edges[1..], c);
      assert ChildIds(edges) == [edges[0].child] + ChildIds(edges[1..]);
      var rest := Without(edges[1..], c);
      if edges[0].child != c {
        assert edges[0].child !in ChildIds(edges[1..]);
        forall e | e in rest ensures e.child != edges[0].child {
          EdgeIsChild(edges[1..], e);
        }
        DistinctChildrenAppend([edges[0]], rest);
      }
    }
  }

  lemma DistinctChildrenIds(edges: seq<Edge>)
    ensures DistinctChildren(edges) <==> Distinct(ChildIds(edges))
  {
  }

  // ----- what the operations keep -----

  /** The heap after `add_node` links a new node `next` under `p`. */
  function Added(heap: Heap, p: NodeId, next: NodeId, n: Node, amount: real): Heap
    requires p in heap
  {
    heap[p := AddChild(heap[p], next, amount)][next := n]
  }

  lemma AddEdges(heap: Heap, root: NodeId, up: map<NodeId, NodeId>, next: NodeId, p: NodeId, n: Node, amount: real)
    requires IsTree(heap, root, up) && p in heap && n.children == []
    requires forall id | id in heap :: id < next
    ensures Forward(Added(heap, p, next, n, amount)) && EdgesUp(Added(heap, p, next, n, amount), up[next := p])
  {
    AddForward(heap, up, next, p, n, amount);
    AddEdgesUp(heap, up, next, p, n, amount);
  }

  lemma AddForward(heap: Heap, up: map<NodeId, NodeId>, next: NodeId, p: NodeId, n: Node, amount: real)
    requires Forward(heap) && p in heap && n.children == []
    requires forall id | id in heap :: id < next
    ensures Forward(Added(heap, p, next, n, amount))
  {
    var h := Added(heap, p, next, n, amount);
    var ch := heap[p].children;
    assert h[p].children == ch + [Edge(next, amount)];
    forall x, e | x in h && e in h[x].children ensures e.child in h && x < e.child {
      if x == p && e !in ch {
        assert e == Edge(next, amount);
      }
    }
  }

  lemma AddEdgesUp(heap: Heap, up: map<NodeId, NodeId>, next: NodeId, p: NodeId, n: Node, amount: real)
    requires Forward(heap) && EdgesUp(heap, up) && p in heap && n.children == []
    requires forall id | id in heap :: id < next
    ensures EdgesUp(Added(heap, p, next, n, amount), up[next := p])
  {
    var h := Added(heap, p, next, n, amount);
    var ch := heap[p].children;
    assert h[p].children == ch + [Edge(next, amount)];
    forall x, e | x in h && e in h[x].children ensures e.child in up[next := p] && up[next := p][e.child] == x {
      if x == p && e !in ch {
        assert e == Edge(next, amount);
      }
    }
  }

  lemma AddParents(heap: Heap, root: NodeId, up: map<NodeId, NodeId>, next: NodeId, p: NodeId, n: Node, amount: real)
    requires IsTree(heap, root, up) && p in heap && n.children == []
    requires forall id | id in heap :: id < next
    ensures UpIsParent(Added(heap, p, next, n, amount), up[next := p])
  {
    var h := Added(heap, p, next, n, amount);
    var up' := up[next := p];
    forall c | c in up' ensures ChildOf(h, up'[c], c) {
      if c == next {
        EdgeIsChild(h[p].children, Edge(next, amount));
      } else {
        var e := ChildHasEdge(heap[up[c]].children, c);
        EdgeIsChild(h[up[c]].children, e);
      }
    }
  }

  lemma AddDistinct(heap: Heap, root: NodeId, up: map<NodeId, NodeId>, next: NodeId, p: NodeId, n: Node, amount: real)
    requires DistinctEdges(heap) && Forward(heap) && p in heap && n.children == []
    requires forall id | id in heap :: id < next
    ensures DistinctEdges(Added(heap, p, next, n, amount))
  {
    var h := Added(heap, p, next, n, amount);
    var ch := heap[p].children;
    forall x, y | x in ch && y in [Edge(next, amount)] ensures x.child != y.child {
      assert x.child in heap;
    }
    DistinctChildrenAppend(ch, [Edge(next, amount)]);
    forall x | x in h ensures DistinctChildren(h[x].children) {
      if x == p {
        assert h[x].children == ch + [Edge(next, amount)];
      } else if x != next {
        assert h[x] == heap[x];
      }
    }
  }

  /** Linking a new leaf under a live node keeps the tree. */
  lemma AddTree(heap: Heap, root: NodeId, up: map<NodeId, NodeId>, next: NodeId, p: NodeId, n: Node, amount: real)
    requires IsTree(heap, root, up) && p in heap && n.children == []
    requires forall id | id in heap :: id < next
    ensures IsTree(Added(heap, p, next, n, amount), root, up[next := p])
  {
    var h := Added(heap, p, next, n, amount);
    assert up[next := p].Keys == h.Keys - {root};
    AddEdges(heap, root, up, next, p, n, amount);
    AddParents(heap, root, up, next, p, n, amount);
    AddDistinct(heap, root, up, next, p, n, amount);
  }

  lemma AddIndexed(heap: Heap, nodes: map<string, NodeId>, next: NodeId, p: NodeId, n: Node, amount: real)
    requires Indexed(heap, nodes) && p in heap && n.name !in nodes && next !in heap
    ensures Indexed(Added(heap, p, next, n, amount), nodes[n.name := next])
  {
  }

  lemma AddPositive(heap: Heap, next: NodeId, p: NodeId, n: Node, amount: real)
    requires Positive(heap) && p in heap && n.children == [] && amount > 0.0 && next !in heap
    ensures Positive(Added(heap, p, next, n, amount))
  {
    var h := Added(heap, p, next, n, amount);
    forall x, e | x in h && e in h[x].children ensures e.amount > 0.0 {
      if x == p && e !in heap[p].children {
        assert e == h[p].children[|heap[p].children|];
      }
    }
  }

  /** `add_node`: a new node under a live parent with a fresh identity, a
      fresh label and a positive amount keeps the budget well formed. */
  lemma AddPreserves(heap: Heap, root: NodeId, nodes: map<string, NodeId>, up: map<NodeId, NodeId>, next: NodeId,
                     p: NodeId, n: Node, amount: real)
    requires Wf(heap, Some(root), nodes, up, next)
    requires p in heap && n.name !in nodes && n.children == [] && amount > 0.0
    ensures Wf(Added(heap, p, next, n, amount), Some(root), nodes[n.name := next], up[next := p], next + 1)
  {
    var h := Added(heap, p, next, n, amount);
    assert next !in heap;
    AddTree(heap, root, up, next, p, n, amount);
    AddIndexed(heap, nodes, next, p, n, amount);
    AddPositive(heap, next, p, n, amount);
    assert h[root].name == RootName && h[root].group == IncomeGroup;
    assert forall id | id in h :: id < next + 1;
  }

  /** An edit that keeps every node's children in order (only amounts,
      labels, groups and properties change) keeps the tree. */
  lemma SameShapeTree(heap: Heap, root: NodeId, up: map<NodeId, NodeId>, heap': Heap)
    requires IsTree(heap, root, up)
    requires heap'.Keys == heap.Keys
    requires forall x | x in heap :: ChildIds(heap'[x].children) == ChildIds(heap[x].children)
    ensures IsTree(heap', root, up)
  {
    forall x, e | x in heap' && e in heap'[x].children
      ensures e.child in heap' && x < e.child && e.child in up && up[e.child] == x
    {
      EdgeIsChild(heap'[x].children, e);
      var e0 := ChildHasEdge(heap[x].children, e.child);
    }
    assert Forward(heap') && EdgesUp(heap', up);
    assert UpIsParent(heap', up);
    forall x | x in heap' ensures DistinctChildren(heap'[x].children) {
      DistinctChildrenIds(heap[x].children);
      DistinctChildrenIds(heap'[x].children);
    }
    assert DistinctEdges(heap');
  }

  lemma SameShapePreserves(heap: Heap, root: NodeId, nodes: map<string, NodeId>, up: map<NodeId, NodeId>, next: NodeId,
                           heap': Heap, nodes': map<string, NodeId>)
    requires Wf(heap, Some(root), nodes, up, next)
    requires heap'.Keys == heap.Keys
    requires forall x | x in heap :: ChildIds(heap'[x].children) == ChildIds(heap[x].children)
    requires Positive(heap') && Indexed(heap', nodes')
    requires heap'[root].name == RootName && heap'[root].group == IncomeGroup
    ensures Wf(heap', Some(root), nodes', up, next)
  {
    SameShapeTree(heap, root, up, heap');
  }

  /** Renaming a node to an unused label: the node moves to the new key of
      the dictionary and nothing else changes. */
  lemma RenameIndexed(heap: Heap, nodes: map<string, NodeId>, x: NodeId, newName: string)
    requires Indexed(heap, nodes) && x in heap && newName !in nodes
    ensures Indexed(heap[x := heap[x].(name := newName)], (nodes - {heap[x].name})[newName := x])
  {
  }

  /** An update that keeps every label keeps the dictionary valid. */
  lemma SameNamesIndexed(heap: Heap, heap': Heap, nodes: map<string, NodeId>)
    requires Indexed(heap, nodes)
    requires heap'.Keys == heap.Keys && forall x | x in heap :: heap'[x].name == heap[x].name
    ensures Indexed(heap', nodes)
  {
  }

  /** The heap after `remove_node` drops the parent's edge to `a`. */
  function Detached(heap: Heap, p: NodeId, a: NodeId): Heap
    requires p in heap
  {
    heap[p := heap[p].(children := Without(heap[p].children, a))]
  }

  lemma DetachedSubtree(heap: Heap, p: NodeId, a: NodeId)
    requires Forward(heap) && p in heap && a in heap && p < a
    ensures Forward(Detached(heap, p, a))
    ensures Subtree(Detached(heap, p, a), a) == Subtree(heap, a)
  {
    SubtreeFrame(heap, Detached(heap, p, a), a);
  }

  /** What is left after `remove_node`. */
  ghost function Pruned(heap: Heap, up: map<NodeId, NodeId>, a: NodeId): Heap
    requires Forward(heap) && a in up && up[a] in heap && a in heap
  {
    Detached(heap, up[a], a) - Elems(Subtree(heap, a))
  }

  lemma RemoveEdges(heap: Heap, root: NodeId, up: map<NodeId, NodeId>, a: NodeId)
    requires IsTree(heap, root, up) && a in up
    ensures Forward(Pruned(heap, up, a)) && EdgesUp(Pruned(heap, up, a), up - Elems(Subtree(heap, a)))
  {
    var p := up[a];
    var s := Elems(Subtree(heap, a));
    var h := Pruned(heap, up, a);
    var up' := up - s;
    forall x, e | x in h && e in h[x].children
      ensures e.child in h && x < e.child && e.child in up' && up'[e.child] == x
    {
      assert e in heap[x].children;
      if e.child in s && e.child != a {
        SubtreeUp(heap, root, up, a, e.child);
      }
    }
  }

  lemma RemoveParents(heap: Heap, root: NodeId, up: map<NodeId, NodeId>, a: NodeId)
    requires IsTree(heap, root, up) && a in up
    ensures UpIsParent(Pruned(heap, up, a), up - Elems(Subtree(heap, a)))
  {
    var s := Elems(Subtree(heap, a));
    var h := Pruned(heap, up, a);
    var up' := up - s;
    forall c | c in up' ensures ChildOf(h, up'[c], c) {
      if up[c] in s {
        SubtreeClosed(heap, a, up[c], c);
      }
      var e := ChildHasEdge(heap[up[c]].children, c);
      EdgeIsChild(h[up[c]].children, e);
    }
  }

  /** Dropping the parent's edge and then the subtree keeps the tree. */
  lemma RemoveTree(heap: Heap, root: NodeId, up: map<NodeId, NodeId>, a: NodeId)
    requires IsTree(heap, root, up) && a in up
    ensures IsTree(Pruned(heap, up, a), root, up - Elems(Subtree(heap, a)))
  {
    RemoveKeys(heap, root, up, a);
    RemoveEdges(heap, root, up, a);
    RemoveParents(heap, root, up, a);
    RemoveDistinct(heap, up, a);
  }

  lemma RemoveKeys(heap: Heap, root: NodeId, up: map<NodeId, NodeId>, a: NodeId)
    requires IsTree(heap, root, up) && a in up
    ensures root in Pruned(heap, up, a) && root !in up - Elems(Subtree(heap, a))
    ensures (up - Elems(Subtree(heap, a))).Keys == Pruned(heap, up, a).Keys - {root}
  {
    if root in Subtree(heap, a) {
      SubtreeUp(heap, root, up, a, root);
    }
  }

  lemma RemoveDistinct(heap: Heap, up: map<NodeId, NodeId>, a: NodeId)
    requires DistinctEdges(heap) && Forward(heap) && a in up && up[a] in heap && a in heap
    ensures DistinctEdges(Pruned(heap, up, a))
  {
    var h := Pruned(heap, up, a);
    forall x | x in h ensures DistinctChildren(h[x].children) {
      if x == up[a] {
        WithoutDistinct(heap[x].children, a);
      } else {
        assert h[x] == heap[x];
      }
    }
  }

  /** `remove_node`: dropping the parent's edge to `a` and then every node of
      `a`'s subtree (and their labels) keeps the budget well formed. */
  lemma RemovePreserves(heap: Heap, root: NodeId, nodes: map<string, NodeId>, up: map<NodeId, NodeId>, next: NodeId,
                        a: NodeId)
    requires Wf(heap, Some(root), nodes, up, next) && a in heap && a != root
    ensures a in up && up[a] in heap && up[a] < a
    ensures Wf(Pruned(heap, up, a), Some(root), nodes - Elems(Names(heap, Subtree(heap, a))), up - Elems(Subtree(heap, a)), next)
  {
    var sub := Subtree(heap, a);
    var h := Pruned(heap, up, a);
    var e := ChildHasEdge(heap[up[a]].children, a);
    RemoveTree(heap, root, up, a);
    RemoveIndexed(heap, nodes, sub);
    RemovePositive(heap, up, a);
    SameNamesIndexed(heap - Elems(sub), h, nodes - Elems(Names(heap, sub)));
    WfIntro(h, root, nodes - Elems(Names(heap, sub)), up - Elems(sub), next);
  }

  lemma WfIntro(heap: Heap, root: NodeId, nodes: map<string, NodeId>, up: map<NodeId, NodeId>, next: NodeId)
    requires IsTree(heap, root, up) && heap[root].name == RootName && heap[root].group == IncomeGroup
    requires Indexed(heap, nodes) && Positive(heap) && forall id | id in heap :: id < next
    ensures Wf(heap, Some(root), nodes, up, next)
  {
  }

  lemma RemovePositive(heap: Heap, up: map<NodeId, NodeId>, a: NodeId)
    requires Positive(heap) && Forward(heap) && a in up && up[a] in heap && a in heap
    ensures Positive(Pruned(heap, up, a))
    ensures Pruned(heap, up, a).Keys == (heap - Elems(Subtree(heap, a))).Keys
    ensures forall id | id in Pruned(heap, up, a) ::
      Pruned(heap, up, a)[id].name == heap[id].name && Pruned(heap, up, a)[id].group == heap[id].group
  {
    var h := Pruned(heap, up, a);
    forall x, e | x in h && e in h[x].children ensures e.amount > 0.0 {
      assert e in heap[x].children;
    }
  }

  lemma RemoveIndexed(heap: Heap, nodes: map<string, NodeId>, sub: seq<NodeId>)
    requires Indexed(heap, nodes) && forall i | i in sub :: i in heap
    ensures Indexed(heap - Elems(sub), nodes - Elems(Names(heap, sub)))
  {
    var names := Names(heap, sub);
    forall id | id in Elems(sub) ensures heap[id].name in Elems(names) {
      var k :| 0 <= k < |sub| && sub[k] == id;
      assert names[k] == heap[id].name;
    }
    forall l | l in Elems(names) ensures l in nodes && nodes[l] in Elems(sub) {
      var k :| 0 <= k < |names| && names[k] == l;
      assert nodes[l] == sub[k];
    }
  }
}
