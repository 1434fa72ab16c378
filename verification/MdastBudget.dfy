/**
 * The complexity check on a freshly parsed Markdown tree
 * (ui/markdown/source/parser.ts): a depth-first walk with an explicit stack.
 */
module MdastBudget {
  const MAXIMUM_NODES: nat := 100_000
  const MAXIMUM_DEPTH: nat := 64

  /** A parsed node; a node without a list of children is one with no children. */
  datatype Node = Node(children: seq<Node>)

  function Size(node: Node): (n: nat)
    ensures n >= 1
    decreases node, 1
  {
    1 + SizeAll(node.children)
  }

  function SizeAll(nodes: seq<Node>): nat
    decreases nodes, 0
  {
    if nodes == [] then 0 else Size(nodes[0]) + SizeAll(nodes[1..])
  }

  /** Every node below a node at the given depth is at most 64 deep. */
  predicate Shallow(node: Node, depth: nat)
    decreases node, 1
  {
    depth <= MAXIMUM_DEPTH && AllShallow(node.children, depth + 1)
  }

  predicate AllShallow(nodes: seq<Node>, depth: nat)
    decreases nodes, 0
  {
    nodes != [] ==> Shallow(nodes[0], depth) && AllShallow(nodes[1..], depth)
  }

  /** An entry of the walk's stack. */
  datatype Visit = Visit(depth: nat, node: Node)

  function PendingSize(pending: seq<Visit>): nat {
    if pending == [] then 0
    else PendingSize(pending[..|pending| - 1]) + Size(pending[|pending| - 1].node)
  }

  predicate PendingShallow(pending: seq<Visit>) {
    pending != [] ==>
      PendingShallow(pending[..|pending| - 1])
      && Shallow(pending[|pending| - 1].node, pending[|pending| - 1].depth)
  }

  lemma PushOne(pending: seq<Visit>, visit: Visit)
    ensures PendingSize(pending + [visit]) == PendingSize(pending) + Size(visit.node)
    ensures PendingShallow(pending + [visit]) <==> PendingShallow(pending) && Shallow(visit.node, visit.depth)
  {
    assert (pending + [visit])[..|pending|] == pending;
  }

  /** Pushing the children of a node adds their sizes and asks each of them to be shallow. */
  method PushAll(pending: seq<Visit>, children: seq<Node>, depth: nat) returns (r: seq<Visit>)
    ensures PendingSize(r) == PendingSize(pending) + SizeAll(children)
    ensures PendingShallow(r) <==> PendingShallow(pending) && AllShallow(children, depth)
  {
    r := pending;
    var k := 0;
    while k < |children|
      invariant 0 <= k <= |children|
      invariant PendingSize(r) + SizeAll(children[k..]) == PendingSize(pending) + SizeAll(children)
      invariant PendingShallow(r) && AllShallow(children[k..], depth)
        <==> PendingShallow(pending) && AllShallow(children, depth)
    {
      assert children[k..][0] == children[k] && children[k..][1..] == children[k + 1..];
      PushOne(r, Visit(depth, children[k]));
      r := r + [Visit(depth, children[k])];
      k := k + 1;
    }
  }

  /** MdastWithinBudget: the walk accepts iff the whole tree is shallow and small. */
  method MdastWithinBudget(root: Node) returns (ok: bool)
    ensures ok <==> Shallow(root, 0) && Size(root) <= MAXIMUM_NODES
  {
    var pending := [Visit(0, root)];
    PushOne([], Visit(0, root));
    assert [] + pending == pending;
    var nodes: nat := 0;
    while |pending| > 0
      invariant nodes <= MAXIMUM_NODES && nodes + PendingSize(pending) == Size(root)
      invariant PendingShallow(pending) <==> Shallow(root, 0)
      decreases PendingSize(pending)
    {
      var current := pending[|pending| - 1];
      pending := pending[..|pending| - 1];
      if current.depth > MAXIMUM_DEPTH { return false; }
      nodes := nodes + 1;
      if nodes > MAXIMUM_NODES { return false; }
      pending := PushAll(pending, current.node.children, current.depth + 1);
    }
    return true;
  }
}
