/** The desktop window's budget logic: the same tree of nodes under an
    "Income" root and the same standalone assets as the library manager,
    driven by buttons and dialogs. The dialogs are parameters here: whether
    one was accepted, and the text or number each of its fields held. A
    refused input shows a warning box, whose message the operations return;
    a cancelled dialog or an empty selection changes nothing and shows
    nothing. */
module Desktop {
  import opened Base
  import opened Nodes
  import opened Forest
  import opened Metrics
  import opened Visual
  import opened Edits
  import opened Assets
  import opened Manager

  /** What the node dialog holds when it is accepted: the parent picked in
      the combo box (ignored in edit mode), the name as typed, the amount
      (`None` when the text is not a number), the group picked, and the two
      savings fields (`None` when left empty). */
  datatype NodeForm = NodeForm(parent: string, name: string, amount: Option<real>, group: string,
                               apr: Option<real>, balance: Option<real>)

  /** `float(text or 0)`: an empty savings field counts as zero. */
  function FieldValue(field: Option<real>): real {
    if field.Some? then field.value else 0.0
  }

  /** The node after the dialog's edit mode: its new label and group, and
      either both savings properties or none. */
  function DialogEdited(n: Node, newLabel: string, group: string, apr: real, balance: real): Node {
    var props := if group == SavingsGroup then n.properties[AprKey := apr][BalanceKey := balance] else map[];
    n.(name := newLabel, group := group, properties := props)
  }

  /** On a node that carries only the savings properties, the edit mode
      rebuilds it as the add mode would have created it, keeping its edges. */
  lemma DialogEditRecreates(n: Node, newLabel: string, group: string, apr: real, balance: real)
    requires NodeFits(n)
    ensures DialogEdited(n, newLabel, group, apr, balance) == Created(newLabel, group, apr, balance).(children := n.children)
  {
    if group == SavingsGroup {
      var props := n.properties[AprKey := apr][BalanceKey := balance];
      assert props.Keys == {AprKey, BalanceKey};
      assert props == map[AprKey := apr, BalanceKey := balance];
    }
  }

  /** The edit mode agrees with the library's `edit_node` when the latter is
      given a group and both savings values. */
  lemma DialogEditAgrees(n: Node, newLabel: string, group: string, apr: real, balance: real)
    requires group != ""
    ensures DialogEdited(n, newLabel, group, apr, balance) == Regrouped(n.(name := newLabel), Some(group), Some(apr), Some(balance))
  {
  }

  /** Every node the dialog edits keeps fitting. */
  lemma DialogEditedFits(n: Node, newLabel: string, group: string, apr: real, balance: real)
    requires NodeFits(n)
    ensures NodeFits(DialogEdited(n, newLabel, group, apr, balance))
  {
    DialogEditRecreates(n, newLabel, group, apr, balance);
    CreatedFits(newLabel, group, apr, balance);
  }

  /** The label, group and property step of the edit mode keeps the budget
      sound when the new label is the old one or is free. */
  lemma DialogEditPreserves(heap: Heap, root: NodeId, nodes: map<string, NodeId>, up: map<NodeId, NodeId>,
                            next: NodeId, name: string, newLabel: string, group: string, apr: real, balance: real)
    requires Wf(heap, Some(root), nodes, up, next) && Fits(heap)
    requires name in nodes && nodes[name] != root
    requires newLabel == name || newLabel !in nodes
    ensures var x := nodes[name];
      var h := heap[x := DialogEdited(heap[x], newLabel, group, apr, balance)];
      Wf(h, Some(root), Relabelled(nodes, name, newLabel, x), up, next) && Fits(h)
  {
    var x := nodes[name];
    assert heap[x].name == name && NodeFits(heap[x]);
    DialogEditedFits(heap[x], newLabel, group, apr, balance);
    RelabelPreserves(heap, root, nodes, up, next, x, DialogEdited(heap[x], newLabel, group, apr, balance));
  }

  /** The window's state: `started` is set by the first accepted income and
      goes with the root. */
  class MainWindow {
    var started: bool
    var plannedIncome: real
    var root: Option<NodeId>
    /** The label dictionary. */
    var nodes: map<string, NodeId>
    /** The live nodes by identity. */
    var heap: Heap
    /** The identity the next new node receives. */
    var next: NodeId
    var assets: seq<Asset>
    /** The parent of every node but the root. */
    ghost var up: map<NodeId, NodeId>

    ghost predicate Valid()
      reads this
    {
      Sound(heap, root, nodes, up, next, assets) && (started <==> root.Some?)
    }

    /** The window before the income is entered. */
    constructor ()
      ensures Valid()
      ensures !started && plannedIncome == 0.0 && root == None && nodes == map[] && heap == map[] && assets == []
    {
      started := false;
      plannedIncome := 0.0;
      root := None;
      nodes := map[];
      heap := map[];
      next := 0;
      assets := [];
      up := map[];
    }

    /** Replaces the tree, the dictionary and the parent record by a sound
        new triple; everything else stays. */
    method Install(h: Heap, n: map<string, NodeId>, ghost u: map<NodeId, NodeId>)
      requires Valid() && Sound(h, root, n, u, next, assets)
      modifies this
      ensures Valid()
      ensures started == old(started) && plannedIncome == old(plannedIncome) && root == old(root)
      ensures next == old(next) && assets == old(assets)
      ensures heap == h && nodes == n && up == u
    {
      heap, nodes, up := h, n, u;
    }

    /** `start_budget`: an accepted positive income replaces any tree by a
        lone "Income" root; the assets stay. */
    method StartBudget(ok: bool, amount: real)
      requires Valid()
      modifies this
      ensures Valid()
      ensures assets == old(assets)
      ensures !ok || amount <= 0.0 ==> unchanged(this)
      ensures ok && amount > 0.0 ==>
        && started && plannedIncome == amount && root == Some(old(next))
        && heap == map[old(next) := NewNode(RootName, IncomeGroup)] && nodes == map[RootName := old(next)]
    {
      if !ok || amount <= 0.0 {
        return;
      }
      var id := next;
      StartWf(id);
      root := Some(id);
      heap := map[id := NewNode(RootName, IncomeGroup)];
      nodes := map[RootName := id];
      up := map[];
      next := id + 1;
      plannedIncome := amount;
      started := true;
    }

    /** `edit_planned_income`: an accepted positive income replaces the
        planned one and nothing else. */
    method EditPlannedIncome(ok: bool, amount: real)
      requires Valid()
      modifies this
      ensures Valid()
      ensures started == old(started) && root == old(root) && heap == old(heap) && nodes == old(nodes)
      ensures assets == old(assets)
      ensures plannedIncome == if ok && amount > 0.0 then amount else old(plannedIncome)
    {
      if ok && amount > 0.0 {
        plannedIncome := amount;
      }
    }

    /** `find_parent_node`: the node whose edges reach `child`, if any. */
    method FindParentNode(child: NodeId) returns (parent: Option<NodeId>)
      requires Valid()
      ensures parent == if child in up then Some(up[child]) else None
    {
      parent := FindParent(heap, nodes, child);
      if root.Some? {
        FoundParent(heap, root.value, nodes, up, next, child, parent);
      }
    }

    /** `process_node_dialog` on an accepted dialog, in add mode (`edit` is
        `None`) or in edit mode for the node labelled `edit.value`. The
        name, uniqueness and amount checks come first; the edit mode then
        rewrites the amount, the label, the group and the savings
        properties; the add mode links a new node last under the parent. */
    method ProcessNodeDialog(form: NodeForm, edit: Option<string>) returns (warning: Option<string>)
      requires Valid() && started
      requires edit.Some? ==> edit.value in nodes && edit.value != RootName
      requires edit.None? ==> form.parent in nodes
      modifies this
      ensures Valid()
      ensures started && plannedIncome == old(plannedIncome) && root == old(root) && assets == old(assets)
      ensures Strip(form.name) == "" ==> warning == Some("Name required.") && unchanged(this)
      ensures Strip(form.name) != "" && (edit.None? || Strip(form.name) != edit.value) && Strip(form.name) in old(nodes) ==>
        warning == Some("Name already exists.") && unchanged(this)
      ensures Strip(form.name) != "" && !((edit.None? || Strip(form.name) != edit.value) && Strip(form.name) in old(nodes))
              && (form.amount.None? || form.amount.value <= 0.0) ==>
        warning == Some("Valid positive amount required.") && unchanged(this)
      ensures Strip(form.name) != "" && !((edit.None? || Strip(form.name) != edit.value) && Strip(form.name) in old(nodes))
              && form.amount.Some? && form.amount.value > 0.0 ==>
        && warning == None
        && var newLabel := Strip(form.name);
           var apr := FieldValue(form.apr);
           var balance := FieldValue(form.balance);
           if edit.Some? then
             var x := old(nodes)[edit.value];
             && x in old(up) && old(up)[x] in old(heap) && x in old(heap)
             && var h := AmountEdited(old(heap), old(up)[x], x, form.amount.value);
                && heap == h[x := DialogEdited(h[x], newLabel, form.group, apr, balance)]
                && nodes == Relabelled(old(nodes), edit.value, newLabel, x)
                && up == old(up) && next == old(next)
           else
             var p := old(nodes)[form.parent];
             && p in old(heap)
             && heap == Added(old(heap), p, old(next), Created(newLabel, form.group, apr, balance), form.amount.value)
             && nodes == old(nodes)[newLabel := old(next)]
             && up == old(up)[old(next) := p]
             && next == old(next) + 1
    {
      var newLabel := Strip(form.name);
      if newLabel == "" {
        return Some("Name required.");
      }
      if (edit.None? || newLabel != edit.value) && newLabel in nodes {
        return Some("Name already exists.");
      }
      if form.amount.None? || form.amount.value <= 0.0 {
        return Some("Valid positive amount required.");
      }
      if edit.Some? {
        EditMode(edit.value, newLabel, form.amount.value, form.group, FieldValue(form.apr), FieldValue(form.balance));
      } else {
        AddMode(form.parent, newLabel, form.amount.value, form.group, FieldValue(form.apr), FieldValue(form.balance));
      }
      warning := None;
    }

    /** The edit mode of `process_node_dialog` once its checks passed: the
        amount on the parent's edge, then the label, the group and the
        savings properties. */
    method EditMode(name: string, newLabel: string, amount: real, group: string, apr: real, balance: real)
      requires Valid() && started && name in nodes && name != RootName
      requires newLabel == name || newLabel !in nodes
      requires amount > 0.0
      modifies this
      ensures Valid()
      ensures started && plannedIncome == old(plannedIncome) && root == old(root) && assets == old(assets)
      ensures up == old(up) && next == old(next)
      ensures var x := old(nodes)[name];
        && x in old(up) && old(up)[x] in old(heap) && x in old(heap)
        && var h := AmountEdited(old(heap), old(up)[x], x, amount);
           && heap == h[x := DialogEdited(h[x], newLabel, group, apr, balance)]
           && nodes == Relabelled(old(nodes), name, newLabel, x)
    {
      var x := nodes[name];
      var parent := FindParentNode(x);
      assert parent.Some?;
      var h := AmountStep(heap, nodes, root.value, up, next, x, parent.value, Some(amount));
      DialogEditPreserves(h, root.value, nodes, up, next, name, newLabel, group, apr, balance);
      Install(h[x := DialogEdited(h[x], newLabel, group, apr, balance)], Relabelled(nodes, name, newLabel, x), up);
    }

    /** The add mode of `process_node_dialog` once its checks passed: a new
        node linked last under the parent and entered in the dictionary. */
    method AddMode(parentLabel: string, newLabel: string, amount: real, group: string, apr: real, balance: real)
      requires Valid() && started && parentLabel in nodes && newLabel !in nodes && amount > 0.0
      modifies this
      ensures Valid()
      ensures started && plannedIncome == old(plannedIncome) && root == old(root) && assets == old(assets)
      ensures var p := old(nodes)[parentLabel];
        && p in old(heap)
        && heap == Added(old(heap), p, old(next), Created(newLabel, group, apr, balance), amount)
        && nodes == old(nodes)[newLabel := old(next)]
        && up == old(up)[old(next) := p]
        && next == old(next) + 1
    {
      var p := nodes[parentLabel];
      var n := Created(newLabel, group, apr, balance);
      AddPreserves(heap, root.value, nodes, up, next, p, n, amount);
      CreatedFits(newLabel, group, apr, balance);
      AddedFits(heap, p, next, n, amount);
      var id := next;
      next := id + 1;
      Install(heap[p := AddChild(heap[p], id, amount)][id := n], nodes[newLabel := id], up[id := p]);
    }

    /** `remove_selected_node`: with a line selected and the removal
        confirmed, the node loses its parent's edge and it and every node
        below it leave the arena and the dictionary; the root is refused. */
    method RemoveSelectedNode(selected: Option<string>, confirmed: bool) returns (warning: Option<string>)
      requires Valid()
      requires selected.Some? ==> selected.value in nodes
      modifies this
      ensures Valid()
      ensures started == old(started) && plannedIncome == old(plannedIncome) && root == old(root)
      ensures next == old(next) && assets == old(assets)
      ensures selected.None? ==> warning == None && unchanged(this)
      ensures selected == Some(RootName) ==> warning == Some("Cannot remove root 'Income'.") && unchanged(this)
      ensures selected.Some? && selected.value != RootName && !confirmed ==> warning == None && unchanged(this)
      ensures selected.Some? && selected.value != RootName && confirmed ==>
        var x := old(nodes)[selected.value];
        && warning == None
        && x in old(up) && old(up)[x] in old(heap) && x in old(heap) && Forward(old(heap))
        && heap == Pruned(old(heap), old(up), x)
        && nodes == old(nodes) - Elems(Names(old(heap), Subtree(old(heap), x)))
        && up == old(up) - Elems(Subtree(old(heap), x))
    {
      if selected.None? {
        return None;
      }
      var name := selected.value;
      if name == RootName {
        return Some("Cannot remove root 'Income'.");
      }
      if !confirmed {
        return None;
      }
      var x := nodes[name];
      PrunedFits(heap, up, x);
      var h, n := RemoveSubtree(heap, nodes, root.value, up, next, x);
      Install(h, n, up - Elems(Subtree(heap, x)));
      warning := None;
    }

    /** `show_add_asset_dialog`: an accepted dialog adds the asset under its
        stripped name, unless the name is empty or taken or the value is not
        a number at least zero. */
    method ShowAddAssetDialog(accepted: bool, rawName: string, value: Option<real>) returns (warning: Option<string>)
      requires Valid()
      modifies this
      ensures Valid()
      ensures started == old(started) && plannedIncome == old(plannedIncome) && root == old(root)
      ensures heap == old(heap) && nodes == old(nodes) && next == old(next)
      ensures !accepted ==> warning == None && assets == old(assets)
      ensures accepted && (Strip(rawName) == "" || HasName(old(assets), Strip(rawName))) ==>
        warning == Some("Valid unique name required.") && assets == old(assets)
      ensures accepted && Strip(rawName) != "" && !HasName(old(assets), Strip(rawName)) && (value.None? || value.value < 0.0) ==>
        warning == Some("Valid value required.") && assets == old(assets)
      ensures accepted && Strip(rawName) != "" && !HasName(old(assets), Strip(rawName)) && value.Some? && value.value >= 0.0 ==>
        warning == None && assets == old(assets) + [Asset(Strip(rawName), value.value)]
    {
      if !accepted {
        return None;
      }
      var name := Strip(rawName);
      if name == "" || HasName(assets, name) {
        return Some("Valid unique name required.");
      }
      if value.None? || value.value < 0.0 {
        return Some("Valid value required.");
      }
      AppendUnique(assets, Asset(name, value.value));
      assets := assets + [Asset(name, value.value)];
      warning := None;
    }

    /** `remove_selected_asset`: the name is read back from the selected
        line, whose value part is the formatted text `shown`, and every
        asset of that name goes. For a stripped name without a colon that is
        exactly the selected entry; see `Assets.ColonNameSurvives` for a name
        with one. */
    method RemoveSelectedAsset(selected: Option<nat>, shown: string)
      requires Valid()
      requires selected.Some? ==> selected.value < |assets|
      modifies this
      ensures Valid()
      ensures started == old(started) && plannedIncome == old(plannedIncome) && root == old(root)
      ensures heap == old(heap) && nodes == old(nodes) && next == old(next)
      ensures selected.None? ==> assets == old(assets)
      ensures selected.Some? ==>
        assets == Filtered(old(assets), ItemName(ItemText(old(assets)[selected.value], shown)))
      ensures selected.Some? && ':' !in old(assets)[selected.value].name && StripFixed(old(assets)[selected.value].name) ==>
        assets == old(assets)[..selected.value] + old(assets)[selected.value + 1..]
    {
      if selected.None? {
        return;
      }
      var i := selected.value;
      var name := Strip(BeforeColon(ItemText(assets[i], shown)));
      if ':' !in assets[i].name && StripFixed(assets[i].name) {
        AsWrittenAgrees(assets, i, shown);
        SelectedRemovedExact(assets, i);
      }
      FilteredUnique(assets, name);
      assets := Filtered(assets, name);
    }

    /** `check_over_allocations` on the current tree and income. */
    method CheckOverAllocations() returns (over: seq<string>)
      requires Valid()
      ensures over == OverAllocations(heap, root, plannedIncome)
    {
      over := Metrics.CheckOverAllocations(heap, root, plannedIncome);
    }

    /** `update_diagram`: the welcome page (`None`) before the income is
        entered; otherwise the chart of the tree and the pie of the
        assets, as the library computes them. Nothing changes. */
    method UpdateDiagram(months: int) returns (view: Option<Dashboard>)
      requires Valid()
      ensures !started ==> view == None
      ensures started ==> view.Some? && root.Some?
      ensures started ==> (view.value.pieLabels, view.value.pieValues) == PieData(assets)
      ensures started ==> view.value.chart.over == OverAllocations(heap, root, plannedIncome)
      ensures started ==> view.value.chart.allocation == Total(heap[root.value].children)
      ensures started ==>
        && view.value.chart.order != [] && view.value.chart.order[0] == root.value
        && Distinct(view.value.chart.order) && Elems(view.value.chart.order) == view.value.chart.view.Keys
        && heap.Keys <= view.value.chart.view.Keys
      ensures started ==> (view.value.chart.projection.Some? <==>
                           months > 0 && Accumulating(view.value.chart.view, view.value.chart.order) != [])
      ensures started ==> SankeyChart(heap, root.value, up, plannedIncome, next, view.value.chart.order, view.value.chart.view,
                                  view.value.chart.inflow, view.value.chart.display, view.value.chart.links)
      ensures started ==> forall grp :: Get(view.value.chart.totals, grp) == CategoryAdds(heap, root.value, grp)
      ensures started ==>
        && (forall x | x in view.value.chart.order :: x in view.value.chart.view)
        && ProjectionOf(view.value.chart.view, view.value.chart.order, view.value.chart.inflow, months, view.value.chart.projection)
    {
      if !started {
        return None;
      }
      var chart := Visualize(heap, root.value, up, plannedIncome, months, next);
      var pie := PieData(assets);
      view := Some(Dashboard(chart, pie.0, pie.1));
    }
  }
}
