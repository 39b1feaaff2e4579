/** The numeric and index data that `get_visualization_data` (library) and
    `build_sankey_data` / `update_diagram` (desktop) hand to the chart library:
    node order, inflow and display tables, index-based links, category totals
    and the savings projection, with the transient surplus node. */
module Visual {
  import opened Base
  import opened Nodes
  import opened Ordering
  import opened Traversal
  import opened Forest
  import opened Metrics

  /** The label and group of the transient surplus node. */
  const SurplusName: string := "Unallocated Surplus"

  // ----- node_index and the link lists -----

  /** `{node: i for i, node in enumerate(order)}`. */
  function IndexOf(order: seq<NodeId>): (index: map<NodeId, nat>)
    ensures index.Keys == Elems(order)
    ensures forall n | n in index :: index[n] < |order| && order[index[n]] == n
  {
    if order == [] then map[]
    else
      var k := |order| - 1;
      assert order == order[..k] + [order[k]];
      ElemsAppend(order[..k], [order[k]]);
      IndexOf(order[..k])[order[k] := k]
  }

  /** One entry of the parallel `sources`, `targets` and `values` lists. */
  datatype Link = Link(source: nat, target: nat, value: real)

  /** A listed node whose children can all be looked up in the index. */
  ghost predicate Indexable(heap: Heap, index: map<NodeId, nat>, x: NodeId) {
    && x in heap && x in index
    && forall k | 0 <= k < |heap[x].children| :: heap[x].children[k].child in index
  }

  /** The links of one node's edges, in edge order. */
  function EdgeLinks(src: nat, edges: seq<Edge>, index: map<NodeId, nat>): seq<Link>
    requires forall k | 0 <= k < |edges| :: edges[k].child in index
  {
    if edges == [] then []
    else
      var k := |edges| - 1;
      EdgeLinks(src, edges[..k], index) + [Link(src, index[edges[k].child], edges[k].amount)]
  }

  /** The links of every listed node, in list order. */
  ghost function LinksOf(heap: Heap, order: seq<NodeId>, index: map<NodeId, nat>): seq<Link>
    requires forall i | 0 <= i < |order| :: Indexable(heap, index, order[i])
  {
    if order == [] then []
    else
      var k := |order| - 1;
      var x := order[k];
      assert Indexable(heap, index, x);
      LinksOf(heap, order[..k], index) + EdgeLinks(index[x], heap[x].children, index)
  }

  /** The link loop: for each listed node, one link per edge. */
  method BuildLinks(heap: Heap, order: seq<NodeId>, index: map<NodeId, nat>) returns (links: seq<Link>)
    requires forall i | 0 <= i < |order| :: Indexable(heap, index, order[i])
    ensures links == LinksOf(heap, order, index)
  {
    links := [];
    var i := 0;
    while i < |order|
      invariant 0 <= i <= |order|
      invariant links == LinksOf(heap, order[..i], index)
    {
      var node := order[i];
      assert Indexable(heap, index, node);
      var edges := heap[node].children;
      var j := 0;
      while j < |edges|
        invariant 0 <= j <= |edges|
        invariant links == LinksOf(heap, order[..i], index) + EdgeLinks(index[node], edges[..j], index)
      {
        assert edges[..j + 1][..j] == edges[..j];
        links := links + [Link(index[node], index[edges[j].child], edges[j].amount)];
        j := j + 1;
      }
      assert edges[..j] == edges;
      assert order[..i + 1][..i] == order[..i];
      i := i + 1;
    }
    assert order[..i] == order;
  }

  lemma {:induction false} EdgeLinksAreEdges(src: nat, edges: seq<Edge>, index: map<NodeId, nat>, full: seq<NodeId>)
    requires forall k | 0 <= k < |edges| :: edges[k].child in index
    requires forall x | x in index :: index[x] < |full| && full[index[x]] == x
    ensures forall l | l in EdgeLinks(src, edges, index) ::
      l.source == src && l.target < |full| && Edge(full[l.target], l.value) in edges
  {
    if edges != [] {
      var k := |edges| - 1;
      EdgeLinksAreEdges(src, edges[..k], index, full);
      assert forall e | e in edges[..k] :: e in edges;
      assert edges[k] in edges;
    }
  }

  /** Every link joins the indices of a listed node and one of its children,
      and carries that edge's amount. */
  lemma {:induction false} LinksAreEdges(heap: Heap, order: seq<NodeId>, index: map<NodeId, nat>, full: seq<NodeId>)
    requires forall i | 0 <= i < |order| :: Indexable(heap, index, order[i])
    requires forall x | x in index :: index[x] < |full| && full[index[x]] == x
    ensures forall l | l in LinksOf(heap, order, index) ::
      && l.source < |full| && l.target < |full| && full[l.source] in heap
      && Edge(full[l.target], l.value) in heap[full[l.source]].children
  {
    if order != [] {
      var k := |order| - 1;
      var x := order[k];
      assert Indexable(heap, index, x);
      LinksAreEdges(heap, order[..k], index, full);
      EdgeLinksAreEdges(index[x], heap[x].children, index, full);
    }
  }

  /** One link per edge: an edge of the list has its link. */
  lemma {:induction false} EdgeLinksComplete(src: nat, edges: seq<Edge>, index: map<NodeId, nat>, e: Edge)
    requires forall k | 0 <= k < |edges| :: edges[k].child in index
    requires e in edges && e.child in index
    ensures Link(src, index[e.child], e.amount) in EdgeLinks(src, edges, index)
  {
    var k := |edges| - 1;
    if edges[k] != e {
      assert e in edges[..k];
      EdgeLinksComplete(src, edges[..k], index, e);
    }
  }

  /** Every edge of a listed node shows up as a link. */
  lemma {:induction false} LinksComplete(heap: Heap, order: seq<NodeId>, index: map<NodeId, nat>, i: nat, e: Edge)
    requires forall j | 0 <= j < |order| :: Indexable(heap, index, order[j])
    requires i < |order| && order[i] in heap && e in heap[order[i]].children && e.child in index
    ensures order[i] in index
    ensures Link(index[order[i]], index[e.child], e.amount) in LinksOf(heap, order, index)
  {
    var k := |order| - 1;
    assert Indexable(heap, index, order[k]);
    if i == k {
      EdgeLinksComplete(index[order[k]], heap[order[k]].children, index, e);
    } else {
      assert order[..k][i] == order[i];
      LinksComplete(heap, order[..k], index, i, e);
    }
  }

  /** In a list without repeats, a node's index is its position. */
  lemma IndexOfPosition(order: seq<NodeId>, i: nat)
    requires Distinct(order) && i < |order|
    ensures order[i] in IndexOf(order) && IndexOf(order)[order[i]] == i
  {
    assert order[i] in Elems(order);
  }

  // ----- display values -----

  /** `outflow if outflow > 0 else inflow.get(node, 0)`. */
  function DisplayOf(heap: Heap, inflow: map<NodeId, real>, n: NodeId): real
    requires n in heap
  {
    var outflow := Total(heap[n].children);
    if outflow > 0.0 then outflow else Get(inflow, n)
  }

  /** The display-value loop over the listed nodes. */
  method DisplayValues(heap: Heap, order: seq<NodeId>, inflow: map<NodeId, real>) returns (display: map<NodeId, real>)
    requires forall x | x in order :: x in heap
    ensures display.Keys == Elems(order)
    ensures forall n | n in display :: display[n] == DisplayOf(heap, inflow, n)
  {
    display := map[];
    var i := 0;
    while i < |order|
      invariant 0 <= i <= |order|
      invariant display.Keys == Elems(order[..i])
      invariant forall n | n in display :: n in heap && display[n] == DisplayOf(heap, inflow, n)
    {
      var node := order[i];
      var outflow := Total(heap[node].children);
      display := display[node := if outflow > 0.0 then outflow else Get(inflow, node)];
      assert order[..i + 1] == order[..i] + [node];
      ElemsAppend(order[..i], [node]);
      i := i + 1;
    }
    assert order[..i] == order;
  }

  // ----- category totals -----

  /** What `cat_recurse(a)` adds to `category_totals[g]`: the amount of every
      edge into a leaf of group `g` below `a`. */
  ghost function CategoryAdds(heap: Heap, a: NodeId, g: string): real
    requires Forward(heap) && a in heap
    decreases Above(heap, a), 1, 0
  {
    CategoryAddsAll(heap, a, heap[a].children, g)
  }

  ghost function CategoryAddsAll(heap: Heap, a: NodeId, kids: seq<Edge>, g: string): real
    requires Forward(heap) && a in heap
    requires forall e | e in kids :: e.child in heap && a < e.child
    decreases Above(heap, a), 0, |kids|
  {
    if kids == [] then 0.0
    else
      var c := kids[0].child;
      AboveShrinks(heap, a, c);
      (if IsLeaf(heap[c]) && heap[c].group == g then kids[0].amount else 0.0)
      + CategoryAdds(heap, c, g) + CategoryAddsAll(heap, a, kids[1..], g)
  }

  /** `cat_recurse`, with `category_totals` (a `defaultdict(float)`, read
      through `Get`) threaded through. */
  method CatRecurse(heap: Heap, a: NodeId, totals: map<string, real>) returns (totals': map<string, real>)
    requires Forward(heap) && a in heap
    ensures forall g :: Get(totals', g) == Get(totals, g) + CategoryAdds(heap, a, g)
    decreases Above(heap, a), 1
  {
    totals' := totals;
    var kids := heap[a].children;
    var i := 0;
    while i < |kids|
      invariant 0 <= i <= |kids|
      invariant forall g ::
        Get(totals, g) + CategoryAddsAll(heap, a, kids, g) == Get(totals', g) + CategoryAddsAll(heap, a, kids[i..], g)
    {
      assert kids[i..][0] == kids[i] && kids[i..][1..] == kids[i + 1..];
      var child := kids[i].child;
      assert kids[i] in kids;
      ghost var before := totals';
      if IsLeaf(heap[child]) {
        totals' := totals'[heap[child].group := Get(totals', heap[child].group) + kids[i].amount];
      }
      AboveShrinks(heap, a, child);
      totals' := CatRecurse(heap, child, totals');
      assert forall g ::
        Get(totals', g) + CategoryAddsAll(heap, a, kids[i + 1..], g) == Get(before, g) + CategoryAddsAll(heap, a, kids[i..], g);
      i := i + 1;
    }
  }

  /** What a node contributes to category `g` in a tree: its incoming amount
      when it is a leaf of group `g` other than the root. */
  ghost function LeafShare(heap: Heap, root: NodeId, up: map<NodeId, NodeId>, n: NodeId, g: string): real
    requires IsTree(heap, root, up) && n in heap
  {
    if n != root && IsLeaf(heap[n]) && heap[n].group == g then InflowOf(heap, root, up, 0.0, n) else 0.0
  }

  ghost function LeafShares(heap: Heap, root: NodeId, up: map<NodeId, NodeId>, ids: seq<NodeId>, g: string): real
    requires IsTree(heap, root, up) && forall n | n in ids :: n in heap
  {
    if ids == [] then 0.0 else LeafShare(heap, root, up, ids[0], g) + LeafShares(heap, root, up, ids[1..], g)
  }

  lemma {:induction false} LeafSharesAppend(heap: Heap, root: NodeId, up: map<NodeId, NodeId>, a: seq<NodeId>, b: seq<NodeId>, g: string)
    requires IsTree(heap, root, up) && forall n | n in a + b :: n in heap
    ensures LeafShares(heap, root, up, a + b, g) == LeafShares(heap, root, up, a, g) + LeafShares(heap, root, up, b, g)
  {
    if a == [] {
      assert a + b == b;
    } else {
      assert (a + b)[0] == a[0] && (a + b)[1..] == a[1..] + b;
      LeafSharesAppend(heap, root, up, a[1..], b, g);
    }
  }

  lemma {:induction false} CategoryAddsIs(heap: Heap, root: NodeId, up: map<NodeId, NodeId>, a: NodeId, g: string)
    requires IsTree(heap, root, up) && a in heap
    ensures CategoryAdds(heap, a, g) == LeafShares(heap, root, up, SubtreeAll(heap, a, heap[a].children), g)
    decreases Above(heap, a), 1
  {
    CategoryAddsAllIs(heap, root, up, a, heap[a].children, g);
  }

  lemma {:induction false} CategoryAddsAllIs(heap: Heap, root: NodeId, up: map<NodeId, NodeId>, a: NodeId, kids: seq<Edge>, g: string)
    requires IsTree(heap, root, up) && a in heap
    requires forall e | e in kids :: e in heap[a].children
    ensures CategoryAddsAll(heap, a, kids, g) == LeafShares(heap, root, up, SubtreeAll(heap, a, kids), g)
    decreases Above(heap, a), 0, |kids|
  {
    if kids != [] {
      var c := kids[0].child;
      assert kids[0] in heap[a].children;
      ShareOfChild(heap, root, up, a, kids[0], g);
      AboveShrinks(heap, a, c);
      CategoryAddsIs(heap, root, up, c, g);
      CategoryAddsAllIs(heap, root, up, a, kids[1..], g);
      SharesSplit(heap, root, up, a, kids, g);
    }
  }

  /** A child's share is the amount on its edge when it is a leaf of `g`. */
  lemma ShareOfChild(heap: Heap, root: NodeId, up: map<NodeId, NodeId>, a: NodeId, e: Edge, g: string)
    requires IsTree(heap, root, up) && a in heap && e in heap[a].children
    ensures e.child in heap
    ensures LeafShare(heap, root, up, e.child, g) == if IsLeaf(heap[e.child]) && heap[e.child].group == g then e.amount else 0.0
  {
    assert up[e.child] == a;
    AmountToUnique(heap[a].children, e);
  }

  lemma SharesSplit(heap: Heap, root: NodeId, up: map<NodeId, NodeId>, a: NodeId, kids: seq<Edge>, g: string)
    requires IsTree(heap, root, up) && a in heap && kids != []
    requires forall e | e in kids :: e in heap[a].children
    ensures kids[0].child in heap
    ensures LeafShares(heap, root, up, SubtreeAll(heap, a, kids), g) ==
      LeafShare(heap, root, up, kids[0].child, g)
      + LeafShares(heap, root, up, SubtreeAll(heap, kids[0].child, heap[kids[0].child].children), g)
      + LeafShares(heap, root, up, SubtreeAll(heap, a, kids[1..]), g)
  {
    var c := kids[0].child;
    assert kids[0] in heap[a].children;
    var below := SubtreeAll(heap, c, heap[c].children);
    var rest := SubtreeAll(heap, a, kids[1..]);
    assert SubtreeAll(heap, a, kids) == [c] + below + rest;
    LeafSharesAppend(heap, root, up, [c] + below, rest, g);
    LeafSharesAppend(heap, root, up, [c], below, g);
    assert [c][1..] == [];
  }

  /** On a tree, the total of category `g` is the sum, over every node once,
      of what that node receives when it is a leaf of group `g`; the root
      contributes nothing. */
  lemma CategoryTotalsOnTree(heap: Heap, root: NodeId, up: map<NodeId, NodeId>, g: string)
    requires IsTree(heap, root, up)
    ensures Elems(Subtree(heap, root)) == heap.Keys && Distinct(Subtree(heap, root))
    ensures CategoryAdds(heap, root, g) == LeafShares(heap, root, up, Subtree(heap, root), g)
  {
    SubtreeOfRoot(heap, root, up);
    SubtreeDistinct(heap, root, up, root);
    CategoryAddsIs(heap, root, up, root, g);
    assert Subtree(heap, root)[1..] == SubtreeAll(heap, root, heap[root].children);
  }

  // ----- the savings projection -----

  /** `round(x, 2)`: to the nearest hundredth, ties to the even hundredth. */
  function Round2(x: real): (r: real)
    ensures -0.005 <= r - x <= 0.005
    ensures (r * 100.0).Floor as real == r * 100.0
  {
    var y := x * 100.0;
    var f := y.Floor;
    var d := y - f as real;
    var n := if d < 0.5 then f else if d > 0.5 then f + 1 else if f % 2 == 0 then f else f + 1;
    n as real / 100.0
  }

  /** One month: `bal * (1 + rate) + contrib`. */
  function Step(bal: real, rate: real, contrib: real): real {
    bal * (1.0 + rate) + contrib
  }

  /** The unrounded balance after `t` months. */
  function Balance(current: real, rate: real, contrib: real, t: nat): real {
    if t == 0 then current else Step(Balance(current, rate, contrib, t - 1), rate, contrib)
  }

  /** With no interest the balance grows by the contribution each month. */
  lemma {:induction false} FlatRate(current: real, contrib: real, t: nat)
    ensures Balance(current, 0.0, contrib, t) == current + t as real * contrib
  {
    if t > 0 {
      FlatRate(current, contrib, t - 1);
    }
  }

  /** With a non-negative balance, rate and contribution the balance never
      falls from one month to the next. */
  lemma {:induction false} BalanceGrows(current: real, rate: real, contrib: real, t: nat)
    requires current >= 0.0 && rate >= 0.0 && contrib >= 0.0
    ensures current <= Balance(current, rate, contrib, t) <= Balance(current, rate, contrib, t + 1)
  {
    if t > 0 {
      BalanceGrows(current, rate, contrib, t - 1);
    }
    var b := Balance(current, rate, contrib, t);
    assert b * rate >= 0.0;
    assert Balance(current, rate, contrib, t + 1) == b + b * rate + contrib;
  }

  /** The rounded balances of months `0` to `months`. */
  function Trajectory(current: real, rate: real, contrib: real, months: nat): (r: seq<real>)
    ensures |r| == months + 1
  {
    if months == 0 then [Round2(current)]
    else Trajectory(current, rate, contrib, months - 1) + [Round2(Balance(current, rate, contrib, months))]
  }

  /** Month `t` of a trajectory is the rounded balance after `t` months. */
  lemma {:induction false} TrajectoryAt(current: real, rate: real, contrib: real, months: nat, t: nat)
    requires t <= months
    ensures Trajectory(current, rate, contrib, months)[t] == Round2(Balance(current, rate, contrib, t))
  {
    if t < months {
      TrajectoryAt(current, rate, contrib, months - 1, t);
    }
  }

  /** One node's series: `balances = [round(bal, 2)]`, then one rounded value
      per month; the running balance itself is never rounded. */
  method Series(current: real, rate: real, contrib: real, months: nat) returns (balances: seq<real>)
    ensures balances == Trajectory(current, rate, contrib, months)
    ensures forall t | 0 <= t <= months :: balances[t] == Round2(Balance(current, rate, contrib, t))
  {
    var bal := current;
    balances := [Round2(bal)];
    var i := 0;
    while i < months
      invariant 0 <= i <= months
      invariant bal == Balance(current, rate, contrib, i)
      invariant balances == Trajectory(current, rate, contrib, i)
    {
      bal := Step(bal, rate, contrib);
      balances := balances + [Round2(bal)];
      i := i + 1;
    }
    forall t | 0 <= t <= months
      ensures balances[t] == Round2(Balance(current, rate, contrib, t))
    {
      TrajectoryAt(current, rate, contrib, months, t);
    }
  }

  /** `[n for n in order if not n.children and n.group == "savings"]`. */
  function Accumulating(heap: Heap, order: seq<NodeId>): (r: seq<NodeId>)
    requires forall x | x in order :: x in heap
    ensures forall n :: n in r <==> n in order && IsLeaf(heap[n]) && heap[n].group == SavingsGroup
    ensures |r| <= |order|
  {
    if order == [] then []
    else
      var n := order[0];
      (if IsLeaf(heap[n]) && heap[n].group == SavingsGroup then [n] else []) + Accumulating(heap, order[1..])
  }

  /** The monthly rate of a node: `apr / 100 / 12`. */
  function MonthlyRate(n: Node): real {
    Property(n, AprKey) / 100.0 / 12.0
  }

  /** The value shown for savings leaf `n` after `t` months. */
  function Projected(heap: Heap, inflow: map<NodeId, real>, n: NodeId, t: nat): real
    requires n in heap
  {
    Round2(Balance(Property(heap[n], BalanceKey), MonthlyRate(heap[n]), Get(inflow, n), t))
  }

  /** The rounded balances of savings leaf `n` over the first `months` months. */
  function NodeTrajectory(heap: Heap, inflow: map<NodeId, real>, n: NodeId, months: nat): (r: seq<real>)
    requires n in heap
    ensures |r| == months + 1
  {
    Trajectory(Property(heap[n], BalanceKey), MonthlyRate(heap[n]), Get(inflow, n), months)
  }

  /** `[a + b for a, b in zip(xs, ys)]`. */
  function ZipAdd(xs: seq<real>, ys: seq<real>): (r: seq<real>)
    ensures |r| == if |xs| <= |ys| then |xs| else |ys|
    ensures forall t | 0 <= t < |r| :: r[t] == xs[t] + ys[t]
  {
    if xs == [] || ys == [] then [] else [xs[0] + ys[0]] + ZipAdd(xs[1..], ys[1..])
  }

  /** The sum of the `t`-th values of a list of series. */
  function ColumnSum(series: seq<seq<real>>, t: nat): real
    requires forall k | 0 <= k < |series| :: t < |series[k]|
  {
    if series == [] then 0.0
    else ColumnSum(series[..|series| - 1], t) + series[|series| - 1][t]
  }

  /** Adding one more series adds its `t`-th value to the column sum. */
  lemma ColumnSumSnoc(series: seq<seq<real>>, balances: seq<real>, t: nat)
    requires forall k | 0 <= k < |series| :: t < |series[k]|
    requires t < |balances|
    ensures ColumnSum(series + [balances], t) == ColumnSum(series, t) + balances[t]
  {
    assert (series + [balances])[..|series|] == series;
  }

  /** Month `t` of a leaf's trajectory is the value projected for it. */
  lemma NodeTrajectoryAt(heap: Heap, inflow: map<NodeId, real>, n: NodeId, months: nat, t: nat)
    requires n in heap && t <= months
    ensures NodeTrajectory(heap, inflow, n, months)[t] == Projected(heap, inflow, n, t)
  {
    TrajectoryAt(Property(heap[n], BalanceKey), MonthlyRate(heap[n]), Get(inflow, n), months, t);
  }

  /** The series of one savings leaf: `contrib = inflow.get(node, 0)`, the
      starting balance and the rate from its properties. */
  method NodeSeries(heap: Heap, inflow: map<NodeId, real>, node: NodeId, months: nat) returns (balances: seq<real>)
    requires node in heap
    ensures balances == NodeTrajectory(heap, inflow, node, months)
  {
    var contrib := Get(inflow, node);
    var current := Property(heap[node], BalanceKey);
    var rate := MonthlyRate(heap[node]);
    balances := Series(current, rate, contrib, months);
  }

  datatype Projection = Projection(nodes: seq<NodeId>, series: seq<seq<real>>, total: seq<real>)

  /** The loop over the savings leaves: one series per leaf, in order, and
      the running elementwise total starting from zeros. */
  method AccumulateSeries(heap: Heap, inflow: map<NodeId, real>, nodes: seq<NodeId>, months: nat)
    returns (series: seq<seq<real>>, total: seq<real>)
    requires forall x | x in nodes :: x in heap
    ensures |series| == |nodes| && |total| == months + 1
    ensures forall k | 0 <= k < |series| :: |series[k]| == months + 1
    ensures forall k | 0 <= k < |series| :: series[k] == NodeTrajectory(heap, inflow, nodes[k], months)
    ensures forall t | 0 <= t <= months :: total[t] == ColumnSum(series, t)
  {
    total := seq(months + 1, _ => 0.0);
    series := [];
    var k := 0;
    while k < |nodes|
      invariant 0 <= k <= |nodes|
      invariant |series| == k && |total| == months + 1
      invariant forall j | 0 <= j < k :: series[j] == NodeTrajectory(heap, inflow, nodes[j], months)
      invariant forall t | 0 <= t <= months :: total[t] == ColumnSum(series, t)
    {
      var balances := NodeSeries(heap, inflow, nodes[k], months);
      total := ZipAdd(total, balances);
      forall t | 0 <= t <= months ensures total[t] == ColumnSum(series + [balances], t) {
        ColumnSumSnoc(series, balances, t);
      }
      series := series + [balances];
      k := k + 1;
    }
  }

  /** The projection: none unless some months are asked for and some savings
      leaf exists; then one series per such leaf and their elementwise sum. */
  method Project(heap: Heap, order: seq<NodeId>, inflow: map<NodeId, real>, months: int) returns (p: Option<Projection>)
    requires forall x | x in order :: x in heap
    ensures p.Some? <==> months > 0 && Accumulating(heap, order) != []
    ensures p.Some? ==> p.value.nodes == Accumulating(heap, order)
    ensures p.Some? ==> |p.value.series| == |p.value.nodes| && |p.value.total| == months + 1
    ensures p.Some? ==> forall k | 0 <= k < |p.value.series| :: |p.value.series[k]| == months + 1
    ensures p.Some? ==> forall k, t | 0 <= k < |p.value.series| && 0 <= t <= months ::
      p.value.series[k][t] == Projected(heap, inflow, p.value.nodes[k], t)
    ensures p.Some? ==> forall t | 0 <= t <= months :: p.value.total[t] == ColumnSum(p.value.series, t)
  {
    if months <= 0 {
      return None;
    }
    var accumulating := Accumulating(heap, order);
    if accumulating == [] {
      return None;
    }
    var series, total := AccumulateSeries(heap, inflow, accumulating, months);
    forall j, t | 0 <= j < |series| && 0 <= t <= months
      ensures series[j][t] == Projected(heap, inflow, accumulating[j], t)
    {
      NodeTrajectoryAt(heap, inflow, accumulating[j], months, t);
    }
    p := Some(Projection(accumulating, series, total));
  }

  // ----- the whole pipeline -----

  /** `order` lists the nodes after the re-collect, `view` is the arena once
      the surplus edge is popped, `allocation` is the sum of the root's edges. */
  datatype Visualization = Visualization(
    order: seq<NodeId>, view: Heap, inflow: map<NodeId, real>, display: map<NodeId, real>,
    links: seq<Link>, totals: map<string, real>, projection: Option<Projection>,
    over: seq<string>, allocation: real)

  /** The arena while the surplus edge is attached: a new "Unallocated
      Surplus" leaf under the root, carrying what is left of the income. */
  function WithSurplus(heap: Heap, root: NodeId, next: NodeId, surplus: real): Heap
    requires root in heap
  {
    Added(heap, root, next, NewNode(SurplusName, UnallocatedGroup), surplus)
  }

  /** Popping the surplus edge gives the root back its own children; the
      surplus node stays listed. */
  lemma PopRestores(heap: Heap, root: NodeId, next: NodeId, surplus: real)
    requires root in heap && next !in heap
    ensures WithSurplus(heap, root, next, surplus)[root := heap[root]] == heap[next := NewNode(SurplusName, UnallocatedGroup)]
  {
  }

  /** The arena the link loop walks: with the surplus edge attached when
      more than the tolerance of the income is left unallocated. */
  function Drawn(heap: Heap, root: NodeId, next: NodeId, planned: real): Heap
    requires root in heap
  {
    if planned - Total(heap[root].children) > Tolerance
    then WithSurplus(heap, root, next, planned - Total(heap[root].children))
    else heap
  }

  /** With income left over, the arena drawn is the budget with the surplus
      edge attached. */
  lemma DrawnOrder(heap: Heap, root: NodeId, next: NodeId, planned: real, surplus: real, order: seq<NodeId>)
    requires root in heap && surplus == planned - Total(heap[root].children) > Tolerance
    requires Closed(WithSurplus(heap, root, next, surplus))
    requires order == Collected(WithSurplus(heap, root, next, surplus), Some(root))
    ensures Drawn(heap, root, next, planned) == WithSurplus(heap, root, next, surplus)
    ensures order == Collected(Drawn(heap, root, next, planned), Some(root))
  {
    var work := WithSurplus(heap, root, next, surplus);
    assert planned - Total(heap[root].children) > Tolerance;
    assert Drawn(heap, root, next, planned) == work;
  }

  /** The two `collect_nodes` calls around the transient surplus edge: the
      node order with the surplus node, and the arena once the edge is
      popped again. */
  method SurplusOrder(heap: Heap, root: NodeId, ghost up: map<NodeId, NodeId>, planned: real, next: NodeId)
    returns (order: seq<NodeId>, view: Heap)
    requires IsTree(heap, root, up) && forall id | id in heap :: id < next
    ensures planned - Total(heap[root].children) > Tolerance ==> view == heap[next := NewNode(SurplusName, UnallocatedGroup)]
    ensures !(planned - Total(heap[root].children) > Tolerance) ==> view == heap
    ensures Drawn(heap, root, next, planned).Keys == view.Keys && Closed(Drawn(heap, root, next, planned))
    ensures order == Collected(Drawn(heap, root, next, planned), Some(root))
    ensures Distinct(order) && Elems(order) == view.Keys && order != [] && order[0] == root
  {
    var allocation := Total(heap[root].children);
    if planned - allocation > Tolerance {
      var surplus := planned - allocation;
      AddTree(heap, root, up, next, root, NewNode(SurplusName, UnallocatedGroup), surplus);
      order := TreeOrder(WithSurplus(heap, root, next, surplus), root, up[next := root]);
      DrawnOrder(heap, root, next, planned, surplus, order);
      PopRestores(heap, root, next, surplus);
      view := WithSurplus(heap, root, next, surplus)[root := heap[root]];
    } else {
      order := TreeOrder(Drawn(heap, root, next, planned), root, up);
      view := heap;
    }
  }

  /** One `collect_nodes` walk of a tree: the root first, then every node
      once. */
  method TreeOrder(heap: Heap, root: NodeId, ghost up: map<NodeId, NodeId>) returns (order: seq<NodeId>)
    requires IsTree(heap, root, up)
    ensures order == Collected(heap, Some(root))
    ensures Closed(heap) && Distinct(order) && Elems(order) == heap.Keys
    ensures order != [] && order[0] == root
  {
    CollectedCoversTree(heap, root, up);
    CollectedIsReachableSet(heap, root);
    order := CollectNodes(heap, Some(root));
  }

  /** Every edge of the viewed arena is an edge of the budget: the surplus
      node has no children and every other node is unchanged. */
  lemma ViewEdges(heap: Heap, root: NodeId, up: map<NodeId, NodeId>, view: Heap, next: NodeId)
    requires IsTree(heap, root, up) && next !in heap
    requires view == heap || view == heap[next := NewNode(SurplusName, UnallocatedGroup)]
    ensures forall x, e | x in view && e in view[x].children :: x in heap && e in heap[x].children && e.child in heap
  {
  }

  /** The inflow table of `get_visualization_data`, from the first walk. */
  method TreeInflow(heap: Heap, root: NodeId, ghost up: map<NodeId, NodeId>) returns (inflow: map<NodeId, real>)
    requires IsTree(heap, root, up)
    ensures inflow.Keys == heap.Keys
    ensures forall n | n in heap :: inflow[n] == if n == root then 0.0 else InflowOf(heap, root, up, 0.0, n)
  {
    CollectedCoversTree(heap, root, up);
    var first := CollectNodes(heap, Some(root));
    forall x, c | x in first && ChildOf(heap, x, c) ensures c in first {
      ChildOfIsUp(heap, root, up, x, c);
    }
    inflow := InflowTable(heap, first);
    forall n | n in heap ensures inflow[n] == if n == root then 0.0 else InflowOf(heap, root, up, 0.0, n) {
      InflowOnTree(heap, root, up, first, n);
    }
  }

  /** The link loop as written: it runs over the listed nodes once the
      surplus edge is popped, so the links are exactly the edges of the
      listed nodes in the budget, one link per edge in list order, and no
      link reaches the surplus node. */
  method TreeLinks(heap: Heap, root: NodeId, ghost up: map<NodeId, NodeId>, order: seq<NodeId>, view: Heap, next: NodeId)
    returns (links: seq<Link>)
    requires IsTree(heap, root, up) && next !in heap
    requires view == heap || view == heap[next := NewNode(SurplusName, UnallocatedGroup)]
    requires Distinct(order) && Elems(order) == view.Keys
    ensures forall i | 0 <= i < |order| :: Indexable(view, IndexOf(order), order[i])
    ensures links == LinksOf(view, order, IndexOf(order))
    ensures forall l | l in links ::
      && l.source < |order| && l.target < |order| && order[l.source] in heap
      && Edge(order[l.target], l.value) in heap[order[l.source]].children && order[l.target] in heap
    ensures forall i, e | 0 <= i < |order| && e in view[order[i]].children ::
      e.child in IndexOf(order) && Link(i, IndexOf(order)[e.child], e.amount) in links
    ensures forall l | l in links :: order[l.target] != next
  {
    ViewEdges(heap, root, up, view, next);
    links := AllLinks(view, order);
  }

  /** The link loop over an arena whose listed nodes are closed under
      children: one link per edge of the listed nodes, node by node in
      list order. */
  method AllLinks(work: Heap, order: seq<NodeId>) returns (links: seq<Link>)
    requires Distinct(order) && Elems(order) == work.Keys && Closed(work)
    ensures forall i | 0 <= i < |order| :: Indexable(work, IndexOf(order), order[i])
    ensures links == LinksOf(work, order, IndexOf(order))
    ensures forall l | l in links ::
      && l.source < |order| && l.target < |order|
      && Edge(order[l.target], l.value) in work[order[l.source]].children
    ensures forall i, e | 0 <= i < |order| && e in work[order[i]].children ::
      e.child in IndexOf(order) && Link(i, IndexOf(order)[e.child], e.amount) in links
  {
    var index := IndexOf(order);
    forall i | 0 <= i < |order| ensures Indexable(work, index, order[i]) {
      var x := order[i];
      assert x in Elems(order);
      forall k | 0 <= k < |work[x].children| ensures work[x].children[k].child in index {
        assert work[x].children[k] in work[x].children;
      }
    }
    links := BuildLinks(work, order, index);
    LinksAreEdges(work, order, index, order);
    forall i, e | 0 <= i < |order| && e in work[order[i]].children
      ensures e.child in index && Link(i, index[e.child], e.amount) in links
    {
      assert Indexable(work, index, order[i]);
      IndexOfPosition(order, i);
      LinksComplete(work, order, index, i, e);
    }
  }

  /** With income left over, the arena the links are drawn from gives the
      root one more edge, to the surplus node, carrying what is left. */
  lemma SurplusEdge(heap: Heap, root: NodeId, next: NodeId, planned: real)
    requires root in heap && next !in heap
    requires planned - Total(heap[root].children) > Tolerance
    ensures root in Drawn(heap, root, next, planned)
    ensures Edge(next, planned - Total(heap[root].children)) in Drawn(heap, root, next, planned)[root].children
  {
    var surplus := planned - Total(heap[root].children);
    var work := Drawn(heap, root, next, planned);
    assert work[root] == AddChild(heap[root], next, surplus);
    assert work[root].children[|heap[root].children|] == Edge(next, surplus);
  }

  /** So the complete link list of that arena draws the surplus flow: a link
      from the root, listed first, to the surplus node. */
  lemma SurplusLinked(heap: Heap, root: NodeId, next: NodeId, planned: real, order: seq<NodeId>,
                       index: map<NodeId, nat>, links: seq<Link>)
    requires root in heap && next !in heap && order != [] && order[0] == root
    requires planned - Total(heap[root].children) > Tolerance
    requires Elems(order) == Drawn(heap, root, next, planned).Keys
    requires forall i, e | 0 <= i < |order| && e in Drawn(heap, root, next, planned)[order[i]].children ::
      e.child in index && Link(i, index[e.child], e.amount) in links
    ensures next in index && Link(0, index[next], planned - Total(heap[root].children)) in links
  {
    SurplusEdge(heap, root, next, planned);
  }

  /** The link loop as evidently intended: run while the surplus edge is
      still attached, so every edge of a listed node is a link, every link
      is such an edge, and with income left over the surplus flow is among
      them. The operations draw the links as written (`TreeLinks`). */
  method FlowLinks(heap: Heap, root: NodeId, next: NodeId, planned: real, order: seq<NodeId>) returns (links: seq<Link>)
    requires root in heap && next !in heap && order != [] && order[0] == root
    requires Distinct(order) && Elems(order) == Drawn(heap, root, next, planned).Keys
    requires Closed(Drawn(heap, root, next, planned))
    ensures forall i | 0 <= i < |order| :: Indexable(Drawn(heap, root, next, planned), IndexOf(order), order[i])
    ensures links == LinksOf(Drawn(heap, root, next, planned), order, IndexOf(order))
    ensures forall l | l in links ::
      && l.source < |order| && l.target < |order|
      && Edge(order[l.target], l.value) in Drawn(heap, root, next, planned)[order[l.source]].children
    ensures forall i, e | 0 <= i < |order| && e in Drawn(heap, root, next, planned)[order[i]].children ::
      e.child in IndexOf(order) && Link(i, IndexOf(order)[e.child], e.amount) in links
    ensures planned - Total(heap[root].children) > Tolerance ==>
      next in IndexOf(order) && Link(0, IndexOf(order)[next], planned - Total(heap[root].children)) in links
  {
    links := AllLinks(Drawn(heap, root, next, planned), order);
    if planned - Total(heap[root].children) > Tolerance {
      SurplusLinked(heap, root, next, planned, order, IndexOf(order), links);
    }
  }

  /** What the Sankey data of a started budget is: the nodes listed once
      each, the root first, the surplus node among them while income is left
      over; the inflow of every budget node is the amount on its incoming
      edge (none for the root); each listed node shows its outflow, or its
      inflow when it sends nothing on; and the links are exactly the edges
      of the listed nodes in the budget, one link each in list order, so
      none reaches the surplus node. */
  ghost predicate SankeyChart(heap: Heap, root: NodeId, up: map<NodeId, NodeId>, planned: real, next: NodeId,
                              order: seq<NodeId>, view: Heap, inflow: map<NodeId, real>,
                              display: map<NodeId, real>, links: seq<Link>)
    requires IsTree(heap, root, up) && forall id | id in heap :: id < next
  {
    && (planned - Total(heap[root].children) > Tolerance ==> view == heap[next := NewNode(SurplusName, UnallocatedGroup)])
    && (!(planned - Total(heap[root].children) > Tolerance) ==> view == heap)
    && Closed(Drawn(heap, root, next, planned))
    && order == Collected(Drawn(heap, root, next, planned), Some(root))
    && order != [] && order[0] == root && Distinct(order) && Elems(order) == view.Keys
    && inflow.Keys == heap.Keys
    && (forall n | n in heap :: inflow[n] == if n == root then 0.0 else InflowOf(heap, root, up, 0.0, n))
    && display.Keys == view.Keys
    && (forall n | n in view :: display[n] == DisplayOf(view, inflow, n))
    && (forall i | 0 <= i < |order| :: Indexable(view, IndexOf(order), order[i]))
    && links == LinksOf(view, order, IndexOf(order))
    && (forall l | l in links ::
         && l.source < |order| && l.target < |order| && order[l.source] in heap
         && Edge(order[l.target], l.value) in heap[order[l.source]].children)
    && (forall i, e | 0 <= i < |order| && e in view[order[i]].children ::
         e.child in IndexOf(order) && Link(i, IndexOf(order)[e.child], e.amount) in links)
    && (forall l | l in links :: order[l.target] != next)
  }

  /** The numeric part of `build_sankey_data` (and of the same lines in
      `get_visualization_data`). */
  method SankeyData(heap: Heap, root: NodeId, ghost up: map<NodeId, NodeId>, planned: real, next: NodeId)
    returns (order: seq<NodeId>, view: Heap, inflow: map<NodeId, real>, display: map<NodeId, real>, links: seq<Link>)
    requires IsTree(heap, root, up) && forall id | id in heap :: id < next
    ensures SankeyChart(heap, root, up, planned, next, order, view, inflow, display, links)
  {
    inflow := TreeInflow(heap, root, up);
    order, view := SurplusOrder(heap, root, up, planned, next);
    display := DisplayValues(view, order, inflow);
    links := TreeLinks(heap, root, up, order, view, next);
  }

  /** What the projection of the listed savings leaves is: none unless the
      horizon is positive and there is such a leaf; otherwise one rounded
      trajectory per leaf, in list order, and their month-by-month sum. */
  ghost predicate ProjectionOf(heap: Heap, order: seq<NodeId>, inflow: map<NodeId, real>, months: int,
                               p: Option<Projection>)
    requires forall x | x in order :: x in heap
  {
    && (p.Some? <==> months > 0 && Accumulating(heap, order) != [])
    && (p.Some? ==> p.value.nodes == Accumulating(heap, order))
    && (p.Some? ==> |p.value.series| == |p.value.nodes| && |p.value.total| == months + 1)
    && (p.Some? ==> forall k | 0 <= k < |p.value.series| :: |p.value.series[k]| == months + 1)
    && (p.Some? ==> forall k, t | 0 <= k < |p.value.series| && 0 <= t <= months ::
         p.value.series[k][t] == Projected(heap, inflow, p.value.nodes[k], t))
    && (p.Some? ==> forall t | 0 <= t <= months :: p.value.total[t] == ColumnSum(p.value.series, t))
  }

  /** `get_visualization_data` / `build_sankey_data` + `update_diagram` on a
      started budget. `next` is an identity no live node has, used for the surplus
      node. */
  method Visualize(heap: Heap, root: NodeId, ghost up: map<NodeId, NodeId>, planned: real, months: int, next: NodeId)
    returns (v: Visualization)
    requires IsTree(heap, root, up) && forall id | id in heap :: id < next
    ensures v.allocation == Total(heap[root].children)
    ensures SankeyChart(heap, root, up, planned, next, v.order, v.view, v.inflow, v.display, v.links)
    ensures forall g :: Get(v.totals, g) == CategoryAdds(heap, root, g)
    ensures (forall x | x in v.order :: x in v.view) && ProjectionOf(v.view, v.order, v.inflow, months, v.projection)
    ensures v.over == OverAllocations(heap, Some(root), planned)
  {
    var allocation := Total(heap[root].children);
    var order, view, inflow, display, links := SankeyData(heap, root, up, planned, next);
    var totals := CatRecurse(heap, root, map[]);
    var projection := Project(view, order, inflow, months);
    var over := CheckOverAllocations(heap, Some(root), planned);
    v := Visualization(order, view, inflow, display, links, totals, projection, over, allocation);
  }
}
