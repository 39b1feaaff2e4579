/** The library's budget manager: the planned income, the tree of nodes under
    the "Income" root, the label dictionary and the standalone assets, with
    the operations the web service calls. Every operation either raises an
    error (a `Failed` outcome, the message as in the library) before changing
    anything, or performs its whole update; the one exception is `EditNode`,
    which keeps a rewritten amount when the rename that follows it is
    refused. */
module Manager {
  import opened Base
  import opened Nodes
  import opened Traversal
  import opened Forest
  import opened Metrics
  import opened Visual
  import opened Edits
  import opened Assets

  /** Python truthiness of an optional text: present and not empty. */
  predicate Given(s: Option<string>) {
    s.Some? && s.value != ""
  }

  /** `edit_node` renames when a non-empty new label differs from the old. */
  predicate Renames(name: string, newName: Option<string>) {
    Given(newName) && newName.value != name
  }

  /** The group and property step of `edit_node` on one node: a given group
      replaces the old one and, unless it is "savings", clears the
      properties; a savings node then takes the interest rate and the balance
      that were passed. */
  function Regrouped(n: Node, newGroup: Option<string>, apr: Option<real>, balance: Option<real>): (r: Node)
    ensures r.name == n.name && r.children == n.children
    ensures Given(newGroup) ==> r.group == newGroup.value
    ensures !Given(newGroup) ==> r.group == n.group
    ensures r.group != SavingsGroup && Given(newGroup) ==> r.properties == map[]
    ensures r.group != SavingsGroup && !Given(newGroup) ==> r.properties == n.properties
    ensures r.group == SavingsGroup && apr.Some? ==> AprKey in r.properties && r.properties[AprKey] == apr.value
    ensures r.group == SavingsGroup && balance.Some? ==> BalanceKey in r.properties && r.properties[BalanceKey] == balance.value
    ensures r.group == SavingsGroup ==>
      forall k | k in n.properties && !(k == AprKey && apr.Some?) && !(k == BalanceKey && balance.Some?) ::
        k in r.properties && r.properties[k] == n.properties[k]
    ensures NodeFits(n) ==> NodeFits(r)
  {
    var g := if !Given(newGroup) then n
             else if newGroup.value != SavingsGroup then n.(group := newGroup.value, properties := map[])
             else n.(group := newGroup.value);
    if g.group != SavingsGroup then g
    else
      var withApr := if apr.Some? then g.properties[AprKey := apr.value] else g.properties;
      g.(properties := if balance.Some? then withApr[BalanceKey := balance.value] else withApr)
  }

  /** The arena after the amount step of `edit_node`: the edge from `p` to
      `x` carries the new amount, when one was given. */
  function AfterAmount(heap: Heap, p: NodeId, x: NodeId, newAmount: Option<real>): (r: Heap)
    requires p in heap
    ensures r.Keys == heap.Keys
    ensures forall y | y in heap && y != p :: r[y] == heap[y]
  {
    if newAmount.Some? then AmountEdited(heap, p, x, newAmount.value) else heap
  }

  /** The manager's invariant on plain values: a well-formed tree whose nodes
      carry only the properties the library gives them, and assets with
      distinct names. */
  ghost predicate Sound(heap: Heap, root: Option<NodeId>, nodes: map<string, NodeId>, up: map<NodeId, NodeId>,
                        next: NodeId, assets: seq<Asset>)
  {
    Wf(heap, root, nodes, up, next) && Fits(heap) && UniqueNames(assets)
  }

  /** The amount step of `edit_node` on plain values: a positive new amount
      on the edge from the parent `p` to `x` keeps the budget sound. */
  method AmountStep(heap: Heap, ghost nodes: map<string, NodeId>, ghost root: NodeId, ghost up: map<NodeId, NodeId>,
                    ghost next: NodeId, x: NodeId, p: NodeId, newAmount: Option<real>) returns (heap': Heap)
    requires Wf(heap, Some(root), nodes, up, next) && Fits(heap)
    requires x in up && up[x] == p && (newAmount.Some? ==> newAmount.value > 0.0)
    ensures p in heap
    ensures heap' == AfterAmount(heap, p, x, newAmount)
    ensures Wf(heap', Some(root), nodes, up, next) && Fits(heap')
  {
    assert ChildOf(heap, p, x);
    heap' := heap;
    if newAmount.Some? {
      AmountEditedPreserves(heap, root, nodes, up, next, x, newAmount.value);
      AmountEditedFits(heap, p, x, newAmount.value);
      var edges := RewriteAmount(heap[p].children, x, newAmount.value);
      heap' := heap[p := heap[p].(children := edges)];
      assert heap' == AmountEdited(heap, p, x, newAmount.value);
    }
  }

  /** The label, group and property step of `edit_node` keeps the budget
      sound when the new label is the old one or is free. */
  lemma RegroupPreserves(heap: Heap, root: NodeId, nodes: map<string, NodeId>, up: map<NodeId, NodeId>, next: NodeId,
                         name: string, newLabel: string, newGroup: Option<string>, apr: Option<real>, balance: Option<real>)
    requires Wf(heap, Some(root), nodes, up, next) && Fits(heap)
    requires name in nodes && nodes[name] != root
    requires newLabel == name || newLabel !in nodes
    ensures var x := nodes[name];
      var h := heap[x := Regrouped(heap[x].(name := newLabel), newGroup, apr, balance)];
      Wf(h, Some(root), Relabelled(nodes, name, newLabel, x), up, next) && Fits(h)
  {
    var x := nodes[name];
    var n := Regrouped(heap[x].(name := newLabel), newGroup, apr, balance);
    assert heap[x].name == name;
    RelabelPreserves(heap, root, nodes, up, next, x, n);
    assert NodeFits(heap[x]);
  }

  /** Everything `get_visualization_data` computes that the model keeps: the
      cash-flow chart and the asset pie. */
  datatype Dashboard = Dashboard(chart: Visualization, pieLabels: seq<string>, pieValues: seq<real>)

  class BudgetManager {
    var plannedIncome: real
    var root: Option<NodeId>
    /** The label dictionary. */
    var nodes: map<string, NodeId>
    /** The live nodes by identity. */
    var heap: Heap
    /** The identity the next new node receives. */
    var next: NodeId
    var assets: seq<Asset>
    /** The parent of every node but the root. */
    ghost var up: map<NodeId, NodeId>

    ghost predicate Valid()
      reads this
    {
      Sound(heap, root, nodes, up, next, assets)
    }

    /** Replaces the tree, the dictionary and the parent record by a sound
        new triple; the income, the root and the assets stay. */
    method Install(h: Heap, n: map<string, NodeId>, ghost u: map<NodeId, NodeId>)
      requires Sound(h, root, n, u, next, assets)
      modifies this
      ensures Valid()
      ensures plannedIncome == old(plannedIncome) && root == old(root) && next == old(next) && assets == old(assets)
      ensures heap == h && nodes == n && up == u
    {
      heap, nodes, up := h, n, u;
    }

    /** A manager before `start`: no tree, no labels, no assets. */
    constructor ()
      ensures Valid()
      ensures plannedIncome == 0.0 && root == None && nodes == map[] && heap == map[] && assets == []
    {
      plannedIncome := 0.0;
      root := None;
      nodes := map[];
      heap := map[];
      next := 0;
      assets := [];
      up := map[];
    }

    /** `start`: a positive income replaces any tree by a lone "Income" root;
        the assets stay. */
    method Start(income: real) returns (outcome: Outcome)
      requires Valid()
      modifies this
      ensures Valid()
      ensures assets == old(assets)
      ensures income <= 0.0 ==> outcome == Failed("Income must be positive") && unchanged(this)
      ensures income > 0.0 ==>
        && outcome == Done && plannedIncome == income && root == Some(old(next))
        && heap == map[old(next) := NewNode(RootName, IncomeGroup)] && nodes == map[RootName := old(next)]
    {
      if income <= 0.0 {
        return Failed("Income must be positive");
      }
      var id := next;
      StartWf(id);
      root := Some(id);
      heap := map[id := NewNode(RootName, IncomeGroup)];
      nodes := map[RootName := id];
      up := map[];
      next := id + 1;
      plannedIncome := income;
      outcome := Done;
    }

    /** `edit_income`: only the planned income changes. */
    method EditIncome(income: real) returns (outcome: Outcome)
      requires Valid()
      modifies this
      ensures Valid()
      ensures heap == old(heap) && nodes == old(nodes) && root == old(root) && assets == old(assets)
      ensures income <= 0.0 ==> outcome == Failed("Income must be positive") && plannedIncome == old(plannedIncome)
      ensures income > 0.0 ==> outcome == Done && plannedIncome == income
    {
      if income <= 0.0 {
        return Failed("Income must be positive");
      }
      plannedIncome := income;
      outcome := Done;
    }

    /** `add_node`: the checks in the library's order, then a new node linked
        last under its parent and entered in the dictionary. */
    method AddNode(parentLabel: string, name: string, amount: real, group: string, apr: real, balance: real)
      returns (outcome: Outcome)
      requires Valid()
      modifies this
      ensures Valid()
      ensures plannedIncome == old(plannedIncome) && root == old(root) && assets == old(assets)
      ensures name in old(nodes) ==> outcome == Failed("Node name already exists") && unchanged(this)
      ensures name !in old(nodes) && amount <= 0.0 ==> outcome == Failed("Amount must be positive") && unchanged(this)
      ensures name !in old(nodes) && amount > 0.0 && parentLabel !in old(nodes) ==>
        outcome == Failed("Parent not found") && unchanged(this)
      ensures name !in old(nodes) && amount > 0.0 && parentLabel in old(nodes) ==>
        && outcome == Done
        && old(nodes)[parentLabel] in old(heap)
        && heap == Added(old(heap), old(nodes)[parentLabel], old(next), Created(name, group, apr, balance), amount)
        && nodes == old(nodes)[name := old(next)]
        && up == old(up)[old(next) := old(nodes)[parentLabel]]
        && next == old(next) + 1
    {
      if name in nodes {
        return Failed("Node name already exists");
      }
      if amount <= 0.0 {
        return Failed("Amount must be positive");
      }
      if parentLabel !in nodes {
        return Failed("Parent not found");
      }
      var p := nodes[parentLabel];
      var n := Created(name, group, apr, balance);
      AddPreserves(heap, root.value, nodes, up, next, p, n, amount);
      CreatedFits(name, group, apr, balance);
      AddedFits(heap, p, next, n, amount);
      var id := next;
      next := id + 1;
      Install(heap[p := AddChild(heap[p], id, amount)][id := n], nodes[name := id], up[id := p]);
      outcome := Done;
    }

    /** `edit_node`: amount, then label, then group and properties. A refused
        rename leaves the new amount in place. */
    method EditNode(name: string, newName: Option<string>, newAmount: Option<real>, newGroup: Option<string>,
                    apr: Option<real>, balance: Option<real>) returns (outcome: Outcome)
      requires Valid()
      modifies this
      ensures Valid()
      ensures plannedIncome == old(plannedIncome) && root == old(root) && next == old(next)
      ensures up == old(up) && assets == old(assets)
      ensures name !in old(nodes) ==> outcome == Failed("Node not found") && unchanged(this)
      ensures name in old(nodes) && name == RootName ==>
        outcome == Failed("Cannot edit root Income node directly") && unchanged(this)
      ensures name in old(nodes) && name != RootName && newAmount.Some? && newAmount.value <= 0.0 ==>
        outcome == Failed("Amount must be positive") && unchanged(this)
      ensures name in old(nodes) && name != RootName && !(newAmount.Some? && newAmount.value <= 0.0) ==>
        var x := old(nodes)[name];
        && x in up && up[x] in old(heap) && x in old(heap)
        && var h := AfterAmount(old(heap), up[x], x, newAmount);
           if Renames(name, newName) && newName.value in old(nodes) then
             outcome == Failed("New name already exists") && heap == h && nodes == old(nodes)
           else
             var newLabel := if Renames(name, newName) then newName.value else name;
             && outcome == Done
             && heap == h[x := Regrouped(h[x].(name := newLabel), newGroup, apr, balance)]
             && nodes == Relabelled(old(nodes), name, newLabel, x)
    {
      if name !in nodes {
        return Failed("Node not found");
      }
      if name == RootName {
        return Failed("Cannot edit root Income node directly");
      }
      var x := nodes[name];
      ghost var r := root.value;
      assert x != r;
      var parent := FindParent(x);
      if parent.None? {
        return Failed("Parent not found");
      }
      if newAmount.Some? && newAmount.value <= 0.0 {
        return Failed("Amount must be positive");
      }
      var h := AmountStep(heap, nodes, r, up, next, x, parent.value, newAmount);
      if Renames(name, newName) && newName.value in nodes {
        Install(h, nodes, up);
        return Failed("New name already exists");
      }
      var newLabel := if Renames(name, newName) then newName.value else name;
      RegroupPreserves(h, r, nodes, up, next, name, newLabel, newGroup, apr, balance);
      Install(h[x := Regrouped(h[x].(name := newLabel), newGroup, apr, balance)], Relabelled(nodes, name, newLabel, x), up);
      outcome := Done;
    }

    /** `remove_node`: the node loses its parent's edge, and it and every
        node below it leave the arena and the dictionary. */
    method RemoveNode(name: string) returns (outcome: Outcome)
      requires Valid()
      modifies this
      ensures Valid()
      ensures plannedIncome == old(plannedIncome) && root == old(root) && next == old(next) && assets == old(assets)
      ensures name !in old(nodes) ==> outcome == Failed("Node not found") && unchanged(this)
      ensures name in old(nodes) && name == RootName ==> outcome == Failed("Cannot remove root") && unchanged(this)
      ensures name in old(nodes) && name != RootName ==>
        var x := old(nodes)[name];
        && outcome == Done
        && x in old(up) && old(up)[x] in old(heap) && x in old(heap) && Forward(old(heap))
        && heap == Pruned(old(heap), old(up), x)
        && nodes == old(nodes) - Elems(Names(old(heap), Subtree(old(heap), x)))
        && up == old(up) - Elems(Subtree(old(heap), x))
    {
      if name !in nodes {
        return Failed("Node not found");
      }
      if name == RootName {
        return Failed("Cannot remove root");
      }
      var x := nodes[name];
      PrunedFits(heap, up, x);
      var h, n := RemoveSubtree(heap, nodes, root.value, up, next, x);
      Install(h, n, up - Elems(Subtree(heap, x)));
      outcome := Done;
    }

    /** `find_parent`: the recorded parent, or nothing for the root and for
        identities that are not live. */
    method FindParent(child: NodeId) returns (parent: Option<NodeId>)
      requires Valid()
      ensures parent == if child in up then Some(up[child]) else None
    {
      parent := Edits.FindParent(heap, nodes, child);
      if root.Some? {
        FoundParent(heap, root.value, nodes, up, next, child, parent);
      }
    }

    /** `check_over_allocations` on the current tree and income. */
    method CheckOverAllocations() returns (over: seq<string>)
      requires Valid()
      ensures over == OverAllocations(heap, root, plannedIncome)
    {
      over := Metrics.CheckOverAllocations(heap, root, plannedIncome);
    }

    /** `get_visualization_data`: refused before `start`; otherwise the chart
        of the tree (with the surplus leaf while income is left over) and the
        pie of the assets. Nothing changes. */
    method GetVisualizationData(months: int) returns (r: Result<Dashboard>)
      requires Valid()
      ensures root.None? ==> r == Err("Budget not started")
      ensures root.Some? ==> r.Ok?
      ensures root.Some? ==> (r.value.pieLabels, r.value.pieValues) == PieData(assets)
      ensures root.Some? ==> r.value.chart.over == OverAllocations(heap, root, plannedIncome)
      ensures root.Some? ==> r.value.chart.allocation == Total(heap[root.value].children)
      ensures root.Some? ==>
        && r.value.chart.order != [] && r.value.chart.order[0] == root.value
        && Distinct(r.value.chart.order) && Elems(r.value.chart.order) == r.value.chart.view.Keys
        && heap.Keys <= r.value.chart.view.Keys
      ensures root.Some? ==> (r.value.chart.projection.Some? <==> months > 0 && Accumulating(r.value.chart.view, r.value.chart.order) != [])
      ensures root.Some? ==> SankeyChart(heap, root.value, up, plannedIncome, next, r.value.chart.order, r.value.chart.view,
                                  r.value.chart.inflow, r.value.chart.display, r.value.chart.links)
      ensures root.Some? ==> forall grp :: Get(r.value.chart.totals, grp) == CategoryAdds(heap, root.value, grp)
      ensures root.Some? ==>
        && (forall x | x in r.value.chart.order :: x in r.value.chart.view)
        && ProjectionOf(r.value.chart.view, r.value.chart.order, r.value.chart.inflow, months, r.value.chart.projection)
    {
      if root.None? {
        return Err("Budget not started");
      }
      var chart := Visualize(heap, root.value, up, plannedIncome, months, next);
      var pie := PieData(assets);
      r := Ok(Dashboard(chart, pie.0, pie.1));
    }
  }
}
