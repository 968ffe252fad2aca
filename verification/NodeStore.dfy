// What a table does to its store of nodes, and that it never moves a node down from the top of the tree.
module NodeStore {
  import opened Base
  import opened TreeView

  datatype StoreOp = Mark(a: Addr, n: Node) | SetRoot(a: Addr)

  /** n, at a, is the root or one of its children. */
  predicate AtTop(root: Addr, a: Addr, n: Node) { a == root || n.parent == root }

  /** If what is at a is at the top of the tree, so is n. */
  predicate KeepsTop(nodes: map<Addr, Node>, root: Addr, a: Addr, n: Node) {
    a in nodes && AtTop(root, a, nodes[a]) ==> AtTop(root, a, n)
  }

  function NodesAfter(ops: seq<StoreOp>): map<Addr, Node> {
    if ops == [] then map[]
    else match Last(ops) case Mark(a, n) => NodesAfter(ops[..|ops| - 1])[a := n] case SetRoot(_) => NodesAfter(ops[..|ops| - 1])
  }

  function RootAfter(ops: seq<StoreOp>): Addr {
    if ops == [] then 0
    else match Last(ops) case Mark(_, _) => RootAfter(ops[..|ops| - 1]) case SetRoot(a) => a
  }

  /** Every node that is marked stays at the top if it was there, as the tree then stood. */
  predicate Orderly(ops: seq<StoreOp>) {
    ops != [] ==>
      var before := ops[..|ops| - 1];
      Orderly(before) && (Last(ops).Mark? ==> KeepsTop(NodesAfter(before), RootAfter(before), Last(ops).a, Last(ops).n))
  }

  // ---- what steps between two stores do to parent pointers

  predicate SameParents(before: map<Addr, Node>, after: map<Addr, Node>) {
    after.Keys == before.Keys && forall x {:trigger after[x]} :: x in before ==> after[x].parent == before[x].parent
  }

  /** Some nodes have been given b as their parent. */
  predicate TurnedTo(before: map<Addr, Node>, after: map<Addr, Node>, b: Addr) {
    after.Keys == before.Keys && forall x {:trigger after[x]} :: x in before ==> after[x].parent == before[x].parent || after[x].parent == b
  }

  predicate NoneUnder(nodes: map<Addr, Node>, children: seq<Addr>, a: Addr) {
    forall i {:trigger children[i]} :: 0 <= i < |children| && children[i] in nodes ==> nodes[children[i]].parent != a
  }

  lemma SameOne(nodes: map<Addr, Node>, root: Addr, a: Addr, n: Node)
    requires a in nodes && n.parent == nodes[a].parent
    ensures SameParents(nodes, nodes[a := n]) && KeepsTop(nodes, root, a, n)
  {
  }

  lemma SameAfter(x: map<Addr, Node>, y: map<Addr, Node>, z: map<Addr, Node>)
    requires SameParents(x, y) && SameParents(y, z)
    ensures SameParents(x, z)
  {
  }

  /** A node that some were given as their parent can be stored under the parent it had, if it isn't the root. */
  lemma TurnedTop(x: map<Addr, Node>, y: map<Addr, Node>, z: map<Addr, Node>, b: Addr, root: Addr, a: Addr, n: Node)
    requires TurnedTo(x, y, b) && SameParents(y, z) && b != root && a in x && n.parent == x[a].parent
    ensures z.Keys == x.Keys && KeepsTop(z, root, a, n)
  {
  }

  // ---- runs

  lemma OneMore(ops: seq<StoreOp>, op: StoreOp)
    ensures NodesAfter(ops + [op]) == if op.Mark? then NodesAfter(ops)[op.a := op.n] else NodesAfter(ops)
    ensures RootAfter(ops + [op]) == if op.Mark? then RootAfter(ops) else op.a
    ensures Orderly(ops + [op]) <==> Orderly(ops) && (op.Mark? ==> KeepsTop(NodesAfter(ops), RootAfter(ops), op.a, op.n))
  {
    assert (ops + [op])[..|ops|] == ops;
  }

  lemma {:induction false} OrderlyFront(ops: seq<StoreOp>, n: nat)
    requires Orderly(ops) && n <= |ops|
    ensures Orderly(ops[..n])
    decreases |ops|
  {
    if n < |ops| {
      OrderlyFront(ops[..|ops| - 1], n);
      assert ops[..|ops| - 1][..n] == ops[..n];
    } else {
      assert ops[..n] == ops;
    }
  }

  /** While the root stays the same, what is at the top of the tree stays there. */
  lemma {:induction false} TopsStay(ops: seq<StoreOp>, k: nat)
    requires Orderly(ops) && k <= |ops| && forall i :: k <= i < |ops| ==> ops[i].Mark?
    ensures RootAfter(ops) == RootAfter(ops[..k])
    ensures forall a {:trigger a in NodesAfter(ops[..k])} :: a in NodesAfter(ops[..k]) && AtTop(RootAfter(ops), a, NodesAfter(ops[..k])[a]) ==>
              a in NodesAfter(ops) && AtTop(RootAfter(ops), a, NodesAfter(ops)[a])
    decreases |ops|
  {
    if k == |ops| {
      assert ops[..k] == ops;
    } else {
      TopsStay(ops[..|ops| - 1], k);
      assert ops[..|ops| - 1][..k] == ops[..k];
    }
  }
}
