/** The budget node: a label, a group tag, an ordered list of (child, amount)
    edges and a properties map (used only by savings nodes, for `apr` and
    `current_balance`).

    Nodes are stored by identity in an arena (`Heap`), so an edge names its
    child by `NodeId`; a node that the source mutates in place is a slot of the
    arena that its owner overwrites. */
module Nodes {

  type NodeId = nat

  /** One `(child, amount)` pair of a node's `children` list. */
  datatype Edge = Edge(child: NodeId, amount: real)

  datatype Node = Node(name: string, group: string, children: seq<Edge>, properties: map<string, real>)

  /** Live nodes by identity. */
  type Heap = map<NodeId, Node>

  // The group tags the program gives a meaning to.
  const IncomeGroup: string := "income"
  const SavingsGroup: string := "savings"
  const IntermediateGroup: string := "intermediate"
  const HoldingGroup: string := "holding"
  const ExpenseGroup: string := "expense"
  const UnallocatedGroup: string := "unallocated"

  // The two property keys of a savings node.
  const AprKey: string := "apr"
  const BalanceKey: string := "current_balance"

  /** `Node(label, group)`: no children and no properties yet; the group
      defaults to "intermediate". */
  function NewNode(name: string, group: string := IntermediateGroup): (n: Node)
    ensures n.name == name && n.group == group
    ensures n.children == [] && n.properties == map[]
  {
    Node(name, group, [], map[])
  }

  /** `add_child`: the pair goes to the end; everything before it is kept. */
  function AddChild(n: Node, child: NodeId, value: real): (r: Node)
    ensures |r.children| == |n.children| + 1
    ensures r.children[..|n.children|] == n.children
    ensures r.children[|n.children|] == Edge(child, value)
    ensures r.name == n.name && r.group == n.group && r.properties == n.properties
  {
    n.(children := n.children + [Edge(child, value)])
  }

  /** The child identities of an edge list, in order. */
  function ChildIds(edges: seq<Edge>): (ids: seq<NodeId>)
    ensures |ids| == |edges|
    ensures forall i | 0 <= i < |edges| :: ids[i] == edges[i].child
  {
    if edges == [] then [] else [edges[0].child] + ChildIds(edges[1..])
  }

  /** `sum(val for _, val in edges)`. */
  function Total(edges: seq<Edge>): real {
    if edges == [] then 0.0 else edges[0].amount + Total(edges[1..])
  }

  lemma {:induction false} TotalAppend(a: seq<Edge>, b: seq<Edge>)
    ensures Total(a + b) == Total(a) + Total(b)
  {
    if a == [] {
      assert a + b == b;
    } else {
      assert (a + b)[0] == a[0] && (a + b)[1..] == a[1..] + b;
      TotalAppend(a[1..], b);
    }
  }

  /** A node is a leaf when its children list is empty. */
  predicate IsLeaf(n: Node) {
    n.children == []
  }

  /** `properties.get(key, 0.0)`. */
  function Property(n: Node, key: string): real {
    if key in n.properties then n.properties[key] else 0.0
  }
}
