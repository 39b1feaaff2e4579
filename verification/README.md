# Cash-flow budget tree, modelled in Dafny

The program models a monthly budget as a tree of cash flows. The root node, "Income", stands for the planned monthly income. Every other node is an allocation:
- an intermediate pot;
- a holding;
- an expense;
- a savings account, which carries an annual rate (`apr`) and a current balance.

Each node keeps an ordered list of `(child, amount)` edges. A label dictionary maps every label to its node. Beside the tree sits a list of standalone assets, each a name and a value.

There are two front ends over the same logic:
- the library `BudgetManager`, which the web service calls;
- the desktop window.

Both front ends support the same operations:
- start a budget;
- change the planned income;
- add, edit and remove nodes (removing a node takes its whole subtree with it);
- add and remove assets;
- flag over-allocated nodes;
- compute the chart data:
  - the node order of the flow diagram (a priority-ordered pre-order walk);
  - each node's inflow and display value;
  - the index-based links;
  - the per-group leaf totals;
  - the compound-interest projection of the savings leaves, with a transient "Unallocated Surplus" node while income is left over.

## How the model is built

- **Nodes are values in an arena.** A node is a `datatype` value in a map from identity to node (`Heap`). An edge names its child by identity. When the source mutates a node object in place, the model overwrites its slot in the arena.
- **Tree invariant.** A ghost map `up` records every non-root node's parent. Edges always lead from an older node to a newer one. This is what makes the source's unguarded recursions terminate: `collect` in `remove_node`, the recursion in `check_over_allocations`, and `cat_recurse`.
- **Well-formedness.** `Forest.Wf` ties together:
  - the arena;
  - the label dictionary, where every label names the node carrying it;
  - `up`;
  - positive amounts on every edge.
- **`Edits.Fits`** adds one more condition: only savings nodes carry properties, and only `apr` and `current_balance`. Every operation of both front ends keeps `Wf` and `Fits`.
- **The two classes.** `Manager.BudgetManager` and `Desktop.MainWindow` are classes whose fields the operations update. Their methods state the whole new state, the error cases included. Most of the proof work lives in value-level functions and lemmas, which the methods install.
- **`collect_nodes` keeps its visited set.** It is proved equal to a specification walk (`Traversal.Collected`). On a well-formed tree, that walk lists every live node exactly once, the root first, and every node after the node that links to it.
- **Errors.** An error the library raises is a `Failed(message)` outcome, or an `Err(message)` result in the web routes. The message is the source's own. Every library operation checks all its guards before it changes anything. The one exception is `edit_node`: a refused rename keeps the amount rewritten just before it, and the model does the same.
- **Desktop messages.** A desktop warning box is the `Some(message)` that an operation returns. A cancelled dialog or an empty selection returns `None` and changes nothing.
- **Projection rounding.** The projection keeps the unrounded running balance and rounds only the values it appends (`src/cashflow/core/manager.py:278-282`, `main.py:677-683`). `Visual.Series` models exactly that.
- **The operations follow the code as written**, including the two defects listed under "## Findings". The chart links are built after the surplus edge is popped (`Visual.TreeLinks`), and the desktop removes assets by the name read back from the list line. The evidently intended behaviour is modelled beside them, in `Visual.FlowLinks` and `Assets.SelectedRemoved`, and is not used by the operations.

## Model

| member | source | states |
|---|---|---|
| Nodes.NewNode | src/cashflow/models/node.py:8-12 | A new node has the given label and group ("intermediate" by default), no children and no properties. cashflow/node.py:4-8 and main.py:19-24 are the same constructor. |
| Nodes.AddChild | src/cashflow/models/node.py:14-15 | `add_child` appends exactly one edge `(child, amount)` at the end. The earlier edges, the label, the group and the properties are unchanged. cashflow/node.py:10-11 and main.py:26-27 are the same. |
| Nodes.TotalAppend | src/cashflow/core/manager.py:142 | The sum of an edge list's amounts splits over concatenation. |
| Ordering.Priority | src/cashflow/core/manager.py:13-20 | Every group, named or not, sorts at one of the seven levels -20, 0, 10, 15, 20, 25 and 30. |
| Ordering.SortChildren | src/cashflow/core/manager.py:30-33 | The sorted children have the same length and the same edges as the original list. |
| Ordering.SortChildrenIsPermutation | src/cashflow/core/manager.py:30-33 | The sorted children are a permutation (equal multisets) of the original list. |
| Ordering.SortChildrenIsSorted | src/cashflow/core/manager.py:30-33 | The sorted children are in non-decreasing priority of their child's group. |
| Ordering.SortChildrenIsStable | src/cashflow/core/manager.py:30-33 | Children of equal priority keep their original relative order, so the sort is stable. |
| Ordering.SortChildrenDistinct | src/cashflow/core/manager.py:30-33 | Sorting does not duplicate a child. |
| Traversal.Visit | cashflow/node.py:25-35 | One call of `recurse` only grows the visited set, and only by live nodes. |
| Traversal.VisitShape | cashflow/node.py:25-35 | A visit appends each newly visited node exactly once and nothing already visited. It appends nothing when the node was visited before, and otherwise starts with the node itself. |
| Traversal.VisitAllShape | cashflow/node.py:34-35 | The loop over the sorted children appends each newly visited node exactly once. |
| Traversal.CollectNodes | cashflow/node.py:13-38 | `collect_nodes` returns the specification walk `Collected`: empty without a root, otherwise the visit of the root with an empty visited set. |
| Traversal.Recurse | cashflow/node.py:25-35 | `recurse` appends exactly the visit's new nodes and leaves the visit's visited set. |
| Traversal.RecurseChildren | cashflow/node.py:34-35 | The loop over the sorted children appends exactly the nodes the children's visits add. |
| Traversal.VisitCovers | cashflow/node.py:25-35 | After a visit, every child of every appended node has been visited. |
| Traversal.VisitParentFirst | cashflow/node.py:29-35 | Every appended node after the first comes after a node that links to it (pre-order). |
| Traversal.CollectedIsReachableSet | main.py:30-56 | The walk from a root lists the root first, lists no node twice, is closed under children, and lists every node after a node that links to it. |
| Forest.ChildOfIsUp | src/cashflow/core/manager.py:132-136 | On a tree, a node lists `c` among its children exactly when it is `c`'s recorded parent. |
| Forest.Subtree | src/cashflow/core/manager.py:124-128 | `collect(n)` visits `n` first, and only live nodes no older than `n`. |
| Forest.SubtreeClosed | src/cashflow/core/manager.py:124-128 | The nodes `collect(n)` visits are closed under children. |
| Forest.SubtreeUp | src/cashflow/core/manager.py:124-128 | Every node below `n` that `collect(n)` visits has its parent in the same subtree. |
| Forest.SubtreeDistinct | src/cashflow/core/manager.py:124-128 | On a tree, `collect(n)` visits no node twice. |
| Forest.SubtreeOfRoot | src/cashflow/core/manager.py:124-128 | `collect` from the root reaches exactly the live nodes. |
| Forest.Names | src/cashflow/core/manager.py:125 | The labels `collect` gathers are the labels of the visited nodes, in visit order. |
| Forest.CollectedCoversTree | src/cashflow/core/manager.py:9-38 | On a tree, `collect_nodes` lists every live node exactly once. |
| Forest.CollectedLabels | src/cashflow/core/manager.py:9-38 | On a well-formed budget, the labels of the listed nodes are exactly the keys of the label dictionary, each once. |
| Forest.Without | src/cashflow/core/manager.py:122 | The edge filter keeps exactly the edges to other children. It is the identity when the child is absent. |
| Forest.WithoutDistinct | src/cashflow/core/manager.py:122 | Filtering an edge list with distinct children removes exactly one edge when the child is present. |
| Forest.AddPreserves | src/cashflow/core/manager.py:60-74 | Adding a fresh node under a live parent keeps a well-formed budget well formed, with the new label and parent recorded. |
| Forest.AddTree | src/cashflow/core/manager.py:69-74 | Attaching a new childless node under a live parent keeps the arena a tree, with the parent recorded for the new node. |
| Forest.SameShapePreserves | src/cashflow/core/manager.py:88-112 | Edits that keep every node's children and labels keep the budget well formed. |
| Forest.RenameIndexed | src/cashflow/core/manager.py:99-101 | After a rename, the dictionary maps the new label, and no longer the old one, to the renamed node. |
| Forest.DetachedSubtree | src/cashflow/core/manager.py:121-122 | Cutting a node from its parent leaves the node's own subtree as it was. |
| Forest.RemovePreserves | src/cashflow/core/manager.py:114-130 | Removing a non-root node's subtree leaves a well-formed budget without that subtree's labels and nodes. |
| Forest.RemoveTree | src/cashflow/core/manager.py:121-130 | Cutting a non-root node from its parent and dropping its subtree leaves a tree over the remaining nodes. |
| Forest.RemoveIndexed | src/cashflow/core/manager.py:129-130 | Dropping a set of nodes and their labels keeps every remaining label naming the node that carries it. |
| Forest.RemoveKeys | src/cashflow/core/manager.py:114-130 | After a removal the root survives, and the remaining parent records are exactly those of the surviving non-root nodes. |
| Metrics.AmountToUnique | src/cashflow/core/manager.py:151-152 | With distinct children, the amount an edge list sends to a child is that child's edge amount. |
| Metrics.FlaggedFrom | src/cashflow/core/manager.py:146-153 | Every node the recursion flags is live. |
| Metrics.FlaggedLabelsAreNames | src/cashflow/core/manager.py:150 | The flagged labels are the labels of the flagged nodes, in order. |
| Metrics.CheckOverAllocations | src/cashflow/core/manager.py:138-155 | `check_over_allocations` returns the specification list `OverAllocations`. |
| Metrics.FlagRecurse | src/cashflow/core/manager.py:146-153 | One call of `recurse` appends exactly the labels flagged in that node's subtree. |
| Metrics.FlagChildren | src/cashflow/core/manager.py:151-153 | The loop over the children appends exactly the labels flagged below them, in order. |
| Metrics.FlaggedFromIff | src/cashflow/core/manager.py:146-153 | A node in a subtree is flagged exactly when it sends out more than its inflow plus 0.01. |
| Metrics.FlaggedAllIff | src/cashflow/core/manager.py:151-153 | A node below a list of children is flagged exactly when it is in one of their subtrees and over-allocated. |
| Metrics.OverAllocatedIff | src/cashflow/core/manager.py:146-153 | On a tree, a node is flagged exactly when its outflow exceeds its inflow by more than 0.01. The root's inflow is the planned income; every other node's inflow is the amount on its incoming edge. |
| Metrics.OverallBudgetThenRoot | src/cashflow/core/manager.py:142-145 | "Overall budget" comes first exactly when the root's edges exceed the planned income by more than 0.01. |
| Metrics.InflowTable | src/cashflow/core/manager.py:164-167 | The inflow table has a key for every listed node, and each value is the sum of the amounts the listed nodes send to it. |
| Metrics.InflowOnTree | src/cashflow/core/manager.py:164-167 | On a tree, a node's table inflow is the amount on its one incoming edge, or 0 for the root. |
| Visual.IndexOf | src/cashflow/core/manager.py:177 | `node_index` maps every listed node, and only those, to a position that holds it. |
| Visual.BuildLinks | src/cashflow/core/manager.py:211-216 | The link loop produces one link per edge of each listed node, in list order. |
| Visual.LinksAreEdges | src/cashflow/core/manager.py:211-216 | Every link joins the positions of a listed node and of one of its children, and carries that edge's amount. |
| Visual.LinksComplete | src/cashflow/core/manager.py:211-216 | Every edge of a listed node appears as a link. |
| Visual.DisplayValues | src/cashflow/core/manager.py:181-184 | Every listed node shows its outflow, or its inflow (default 0) when it sends nothing on. |
| Visual.CatRecurse | src/cashflow/core/manager.py:234-240 | `cat_recurse` adds to each group's total exactly that group's share of the subtree. |
| Visual.CategoryAddsIs | src/cashflow/core/manager.py:234-240 | Below a node, what `cat_recurse` adds to a group is the sum of the incoming amounts of that group's leaves in the subtree. |
| Visual.CategoryTotalsOnTree | src/cashflow/core/manager.py:234-240 | On a tree, a group's total is the sum, over all leaves of that group, of the amount on each leaf's incoming edge. |
| Visual.Round2 | src/cashflow/core/manager.py:279 | `round(x, 2)` is within half a hundredth of `x` and is a whole number of hundredths. |
| Visual.FlatRate | src/cashflow/core/manager.py:281 | With a zero rate, the balance after `t` months is the current balance plus `t` contributions. |
| Visual.BalanceGrows | src/cashflow/core/manager.py:281 | With a non-negative rate and contribution, the balance never falls from month to month. |
| Visual.Trajectory | src/cashflow/core/manager.py:278-282 | The projected series has one value per month from 0 to the horizon. |
| Visual.TrajectoryAt | src/cashflow/core/manager.py:278-282 | Month `t` of the series is the rounded recurrence balance after `t` months. |
| Visual.Series | src/cashflow/core/manager.py:278-282 | The balance loop returns the trajectory. Each value is the rounded balance of the unrounded recurrence. |
| Visual.Accumulating | src/cashflow/core/manager.py:269 | The projected nodes are exactly the listed savings leaves, in list order. |
| Visual.NodeTrajectory | src/cashflow/core/manager.py:274-282 | A node's series has one value per month. |
| Visual.NodeSeries | src/cashflow/core/manager.py:274-282 | A savings leaf's series is the trajectory that starts from its balance, at its monthly rate, with its inflow as the contribution. |
| Visual.NodeTrajectoryAt | src/cashflow/core/manager.py:274-282 | Month `t` of a node's series is its projected balance after `t` months. |
| Visual.ZipAdd | src/cashflow/core/manager.py:283 | `zip` then add: the length is the shorter length, and each value is the sum of the two values. |
| Visual.AccumulateSeries | src/cashflow/core/manager.py:272-283 | One series per projected node, each that node's trajectory, and the total is their month-by-month sum. |
| Visual.Project | src/cashflow/core/manager.py:267-290 | There is a projection exactly when the horizon is positive and some listed savings leaf exists. It then has one trajectory per such leaf, and their month-by-month sum as the total. |
| Visual.PopRestores | src/cashflow/core/manager.py:174-179 | Popping the surplus edge gives the root back its own children and leaves only the surplus node added. |
| Visual.DrawnOrder | src/cashflow/core/manager.py:171-177 | With income left over, the arena the second walk sees is the budget with the surplus edge attached. |
| Visual.SurplusOrder | src/cashflow/core/manager.py:169-179 | The order is `collect_nodes` of the budget with the surplus edge attached exactly when more than 0.01 of the income is unallocated. It lists every node once, the root first, the surplus node included. Afterwards the budget is back as it was, with only the surplus node added to the arena. |
| Visual.TreeOrder | src/cashflow/core/manager.py:161 | One walk of a tree is `collect_nodes` of it: the root first and every node exactly once. |
| Visual.ViewEdges | src/cashflow/core/manager.py:211-216 | After the pop, every edge of the listed arena is an edge of the budget. |
| Visual.TreeInflow | src/cashflow/core/manager.py:161-167 | The inflow table of a tree holds, for every node, its incoming edge's amount, or 0 for the root. |
| Visual.TreeLinks | src/cashflow/core/manager.py:176-216 | As written, the links are built after the pop. Every edge of a listed node in the budget is a link, and every link is such an edge, so no link reaches the surplus node. The list is exactly `LinksOf` the listed arena: one link per edge, node by node in list order and edge by edge within a node. |
| Visual.AllLinks | src/cashflow/core/manager.py:211-216 | Over an arena closed under children, the links are exactly the edges of the listed nodes: each link is such an edge, and each such edge is a link. The list is exactly `LinksOf`: one link per edge, node by node in list order and edge by edge within a node, so no link is repeated or reordered. |
| Visual.SurplusEdge | src/cashflow/core/manager.py:171-174 | With income left over, the root's last edge goes to the surplus node and carries what is left. |
| Visual.FlowLinks | src/cashflow/core/manager.py:171-216 | The corrected links, built with the surplus edge still attached. They are exactly the edges of the listed nodes, and include a link from the root to the surplus node that carries what is left. The list is exactly `LinksOf` the augmented arena, one link per edge in list order. The operations do not use it. |
| Visual.SurplusLinked | src/cashflow/core/manager.py:171-216 | A complete link list of the arena with the surplus edge attached contains the surplus flow. |
| Visual.SankeyData | main.py:504-580 | The order is `collect_nodes` of the budget with the surplus edge attached while income is left over. The inflow is each node's incoming amount. The display value is the outflow, or else the inflow (0 when missing). The links are the list `LinksOf` the listed arena: one link per budget edge between listed nodes, in list order, none to the surplus node. |
| Visual.Visualize | src/cashflow/core/manager.py:157-290 | The chart data satisfies `SankeyChart`. The allocation is the sum of the root's edges. Each group's total is what `cat_recurse` adds over the whole tree. The projection satisfies `ProjectionOf`: one rounded trajectory per listed savings leaf, and their month-by-month sum, when the horizon is positive. The over-allocation list is `check_over_allocations`'s. |
| Edits.FindParent | src/cashflow/core/manager.py:132-136 | The scan returns a labelled node that lists the child, or `None` only when no labelled node does. |
| Edits.FoundParent | src/cashflow/core/manager.py:132-136 | On a well-formed budget, the scan finds exactly the recorded parent, or `None` for the root. |
| Edits.Reamounted | src/cashflow/core/manager.py:91-94 | Rewriting an amount keeps the edge list's children, in order. |
| Edits.ReamountedEdges | src/cashflow/core/manager.py:91-94 | With distinct children, the rewrite gives the edge to `c` the new amount and leaves every other edge alone. An absent child changes nothing. |
| Edits.RewriteAmount | src/cashflow/core/manager.py:91-94 | The loop with `break` rewrites the first edge to the child. |
| Edits.AmountEditedShape | src/cashflow/core/manager.py:88-94 | Rewriting an amount with a positive one keeps every identity, label, group and child list, and keeps every amount positive. |
| Edits.AmountEditedPreserves | src/cashflow/core/manager.py:88-94 | On a well-formed budget, the rewrite keeps it well formed, and the parent's edge to the node carries the new amount. |
| Edits.Created | src/cashflow/core/manager.py:69-74 | A created node has the label and group, no children, and both savings properties exactly when it is a savings node. |
| Edits.Collect | src/cashflow/core/manager.py:124-128 | `collect` appends the labels of the node's subtree, in visit order. |
| Edits.CollectChildren | src/cashflow/core/manager.py:126-127 | The loop over the children appends the labels of their subtrees, in order. |
| Edits.DeleteLabels | src/cashflow/core/manager.py:129-130 | The deletion loop removes exactly the collected labels from the dictionary, and their nodes from the arena. |
| Edits.DeletedSubtree | src/cashflow/core/manager.py:129-130 | The labels of a subtree are all in the dictionary, and they stand for exactly the subtree's nodes. |
| Edits.CollectedDistinct | src/cashflow/core/manager.py:124-128 | The labels a removal collects are distinct. |
| Edits.RemoveSubtree | src/cashflow/core/manager.py:119-130 | Removal detaches the node from its parent and drops its whole subtree from the arena, and the subtree's labels from the dictionary. The result is well formed. |
| Edits.StartWf | src/cashflow/core/manager.py:51-53 | A lone "Income" root is a well-formed budget. |
| Edits.Relabelled | src/cashflow/core/manager.py:99-101 | After a rename, the dictionary's labels are the old ones without the old label, plus the new one, which maps to the node. Every other entry is unchanged. |
| Edits.RelabelPreserves | src/cashflow/core/manager.py:96-112 | Replacing a node by one with the same children under its own label or an unused one keeps the budget well formed. |
| Edits.CreatedFits | src/cashflow/core/manager.py:72-74 | A created node carries only the savings properties, and only when it is a savings node. |
| Edits.AddedFits | src/cashflow/core/manager.py:69-74 | Adding a fitting node keeps every node's properties fitting. |
| Edits.AmountEditedFits | src/cashflow/core/manager.py:91-94 | Rewriting an amount leaves every node's properties as they were. |
| Edits.PrunedFits | src/cashflow/core/manager.py:121-130 | Removing a subtree keeps every remaining node's properties fitting. |
| Manager.Regrouped | src/cashflow/core/manager.py:103-112 | Regrouping keeps the label and children. A non-empty new group replaces the group and, unless it is "savings", clears the properties. A savings node takes the `apr` and balance that are given, and keeps the other properties. |
| Manager.AfterAmount | src/cashflow/core/manager.py:88-94 | Only the parent's slot changes. |
| Manager.AmountStep | src/cashflow/core/manager.py:88-94 | The amount step keeps the budget well formed and fitting. |
| Manager.RegroupPreserves | src/cashflow/core/manager.py:96-112 | A rename and regroup after the amount step keeps the budget well formed and fitting. |
| Manager.BudgetManager.constructor | src/cashflow/core/manager.py:42-46 | A new manager has income 0, no root, no nodes and no assets. |
| Manager.BudgetManager.Start | src/cashflow/core/manager.py:48-53 | A non-positive income fails with "Income must be positive" and changes nothing. Otherwise the budget is a lone "Income" root with that income, and the assets are kept. |
| Manager.BudgetManager.EditIncome | src/cashflow/core/manager.py:55-58 | Only the income changes, and only when it is positive; otherwise the call fails. |
| Manager.BudgetManager.AddNode | src/cashflow/core/manager.py:60-74 | The guards are checked in the source's order: a taken name, a non-positive amount, an unknown parent. Otherwise the node is added as the parent's last edge under a fresh identity, with savings properties for a savings node. |
| Manager.BudgetManager.EditNode | src/cashflow/core/manager.py:76-112 | The errors come in the source's order: "Node not found", root, "Amount must be positive". Otherwise the amount is rewritten. A rename to a taken label then fails and keeps the new amount; else the rename and regroup are applied. |
| Manager.BudgetManager.RemoveNode | src/cashflow/core/manager.py:114-130 | An unknown label or the root fails. Otherwise the whole subtree leaves the arena and the dictionary. |
| Manager.BudgetManager.FindParent | src/cashflow/core/manager.py:132-136 | The lookup returns the recorded parent, or `None` for the root. |
| Manager.BudgetManager.CheckOverAllocations | src/cashflow/core/manager.py:138-155 | The result is `OverAllocations` of the current tree and income, and empty before `start`. |
| Manager.BudgetManager.GetVisualizationData | src/cashflow/core/manager.py:157-312 | Before `start` the result is "Budget not started". Otherwise the chart satisfies `SankeyChart`: the `collect_nodes` order, inflow, display values and as-written links. The category totals are `cat_recurse`'s, and the projection satisfies `ProjectionOf`. The allocation is the sum of the root's edges, and the over-allocations are `check_over_allocations`'s. The pie is `PieData` of the assets. The method changes nothing. |
| Assets.Filtered | src/cashflow/api/v1/asset_routes.py:18 | The filter keeps exactly the assets with other names, in order. |
| Assets.FilteredAbsent | src/cashflow/api/v1/asset_routes.py:18 | Removing an absent name changes nothing. |
| Assets.FilteredUnique | src/cashflow/api/v1/asset_routes.py:16-19 | Removal keeps names unique and leaves no asset of the name. |
| Assets.AddThenRemove | src/cashflow/api/v1/asset_routes.py:9-19 | Adding an asset under a new name and then removing that name restores the list. |
| Assets.AppendUnique | src/cashflow/api/v1/asset_routes.py:11-13 | Appending under a new name keeps names unique. |
| Assets.PieData | src/cashflow/core/manager.py:257-262 | Without assets the pie is "No assets yet" with value 1. Otherwise it has one slice per asset, with that asset's name and value, in list order. |
| Assets.Strip | main.py:433 | `strip()` returns a contiguous piece of the text with no white space at either end, and everything cut off before and after it is white space. |
| Assets.BeforeColon | main.py:452 | `split(":")[0]` is the longest colon-free prefix, and is followed by a colon when it is shorter than the text. |
| Assets.ItemNameRecovers | main.py:452 | A stripped name without a colon is read back exactly from its list line. |
| Assets.ColonCut | main.py:448-453 | A name with a colon is read back only up to its first colon. |
| Assets.ColonNameSurvives | main.py:448-453 | Removing the selected asset as written leaves an asset named "A:B" in place. |
| Assets.SelectedRemoved | main.py:448-453 | The corrected removal drops the selected asset and keeps every asset with another name. |
| Assets.SelectedRemovedExact | main.py:448-453 | With unique names, the corrected removal drops exactly the selected entry, keeping the rest in order. |
| Assets.FilteredAround | main.py:453 | Filtering out a name carried by one entry only removes exactly that entry and keeps the others in order. |
| Assets.AsWrittenAgrees | main.py:448-453 | For names without a colon and without outer whitespace, the removal as written agrees with the corrected one. |
| AssetRoutes.AddAsset | src/cashflow/api/v1/asset_routes.py:9-14 | A taken name is refused with "Asset name exists" and the list is unchanged. Otherwise the asset is appended and the result is "added". Nothing else changes. |
| AssetRoutes.RemoveAsset | src/cashflow/api/v1/asset_routes.py:16-19 | The list becomes the filter by name, and no asset of the name remains. An unknown name is not an error. The result is "removed". |
| AssetRoutes.ListAssets | src/cashflow/api/v1/asset_routes.py:21-23 | Listing returns the stored assets, whose names are unique. |
| Desktop.DialogEditRecreates | main.py:386-399 | On a fitting node, the dialog's edit gives the node the add mode would create, with the node's own edges. |
| Desktop.DialogEditAgrees | main.py:386-391 | The dialog's edit is the library regroup with both savings values given. |
| Desktop.DialogEditedFits | main.py:386-391 | After the dialog's edit, the node carries only the savings properties. |
| Desktop.DialogEditPreserves | main.py:381-391 | A dialog edit under the node's own label or an unused one keeps the budget well formed and fitting. |
| Desktop.MainWindow.constructor | main.py:263-267 | A new window is not started, with income 0, no root, no nodes and no assets. |
| Desktop.MainWindow.StartBudget | main.py:278-295 | A cancelled or non-positive entry changes nothing. Otherwise the window starts with a lone "Income" root and that income. |
| Desktop.MainWindow.EditPlannedIncome | main.py:307-319 | The income becomes the entry when the dialog is accepted and the entry is positive. Nothing else changes. |
| Desktop.MainWindow.FindParentNode | main.py:272-276 | The lookup returns the recorded parent, or `None` for the root. |
| Desktop.MainWindow.ProcessNodeDialog | main.py:350-402 | The warnings come in the source's order: "Name required.", "Name already exists." (its own name is allowed in edit mode), "Valid positive amount required.". Otherwise the edit mode or add mode update applies. |
| Desktop.MainWindow.EditMode | main.py:371-391 | The amount on the node's edge, its label and its group are replaced. Savings properties are set from the fields (empty counts as 0) or cleared. |
| Desktop.MainWindow.AddMode | main.py:392-399 | The node is added as the picked parent's last edge, with savings properties from the fields. |
| Desktop.MainWindow.RemoveSelectedNode | main.py:404-428 | No selection or no confirmation changes nothing. The root is refused with "Cannot remove root 'Income'.". Otherwise the subtree is removed as in the library. |
| Desktop.MainWindow.ShowAddAssetDialog | main.py:430-446 | A cancelled dialog changes nothing. An empty or taken stripped name is refused first; a missing or negative value is refused next. Otherwise the asset is appended. |
| Desktop.MainWindow.RemoveSelectedAsset | main.py:448-455 | As written: the name is read back from the selected line (`split(":")[0].strip()`), and every asset of that name is filtered out. For a stripped name without a colon this removes exactly the selected entry, and the others keep their order. |
| Desktop.MainWindow.CheckOverAllocations | main.py:457-475 | The result is `OverAllocations` of the current tree and income. |
| Desktop.MainWindow.UpdateDiagram | main.py:587-695 | Before the start the result is the welcome page (`None`). Otherwise the chart satisfies `SankeyChart`: the `collect_nodes` order, inflow, display values and as-written links. The category totals are `cat_recurse`'s, and the projection satisfies `ProjectionOf`. The allocation is the sum of the root's edges, and the over-allocations are `check_over_allocations`'s. The pie is `PieData` of the assets. The method changes nothing. |

## Left out

- **Qt and Plotly.** The Qt widgets, dialogs and message boxes become parameters and returned messages. Plotly figures, colours, label text, the summary HTML, the warning text and the gauge percentage are not modelled.
- **Numbers.** Floating-point numbers are modelled as exact reals, so there is no NaN, infinity or binary rounding error.
- Visual.Round2: `round(x, 2)` is modelled on exact reals, with ties going to the even hundredth. Python rounds the binary value of the float, which can differ at a tie.
- **Number formats.** The desktop dialogs' text-to-number parsing, including an unparsable savings field, is modelled as an optional number (`Desktop.NodeForm`). A savings field that holds text that is not a number (the source would raise) is not modelled.
- **Object identity.** Python object identity is an arena identity. Garbage collection of detached nodes is modelled by dropping them from the arena, which is the only observable effect.
- **The surplus node.** Its append and pop are modelled on a working copy of the root's edge list (`Visual.WithSurplus`, `Visual.PopRestores`), not as an in-place change of the stored tree.
- **Link lists.** The parallel `sources`, `targets` and `values` lists are one list of `Link` triples. The link colours are not modelled.
- **Parent lookup.** `find_parent` scans the dictionary in insertion order. The model proves that on a well-formed budget exactly one node can match, so the order does not matter. The "Parent not found" error of `edit_node` cannot happen on a well-formed budget and is absent from `Manager.BudgetManager.EditNode`.
- **The desktop edit mode ignores the parent picked in the dialog**, as the source does.
- **Desktop.MainWindow.ProcessNodeDialog:** it requires the add-mode parent to be a current label. The combo box offers only current labels; any other text would raise a `KeyError` in the source.
- **Desktop.MainWindow.RemoveSelectedNode:** it requires a selected label to be a current label. The list shows only current labels.
- **Desktop.MainWindow.RemoveSelectedAsset:** the value part of the list line, formatted with thousands separators and no decimals, is a parameter (`shown`). The number formatting itself is not modelled.
- **Web layer.** HTTP status codes are error messages. The FastAPI and pydantic plumbing and the module-level singleton manager are not modelled: `AssetRoutes` takes the manager as an argument.
- **Assets.IsSpace:** it covers ASCII and the common Unicode spaces, not every code point Python's `str.strip` removes.
- **Persistence, threads and the command-line entry points** (`main.py` start-up, `cashflow/__main__.py`) are outside the model.

## Findings

| source | as written | input that shows it | evidently intended | confidence | as-written member | corrected member |
|---|---|---|---|---|---|---|
| main.py:448-455 | The selected asset's name is read back from its list line with `split(":")[0].strip()`, so a name containing a colon is cut at the colon and the filter removes nothing (or removes another asset named like the prefix). | Assets `[("A:B", 1)]`, select line 0: the line reads "A:B: $1", the name read is "A", and "A:B" stays. | Remove the selected asset. | not executed | Assets.ColonNameSurvives | Assets.SelectedRemovedExact |
| src/cashflow/core/manager.py:171-216 | The surplus edge is popped (line 179) before the link loop (lines 211-216). The "Unallocated Surplus" node is listed, but no link reaches it. The same holds in main.py:518-569. | Income 5000 with one 1500 expense: the surplus node is listed, but the links hold only the 1500 edge. | Draw the surplus flow: a link from the root to the surplus node carrying the unallocated income. The link colour for "unallocated" children exists for it. | not executed | Visual.TreeLinks | Visual.FlowLinks |
