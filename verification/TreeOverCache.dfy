// What the tree stores is what the node cache allows.
module TreeOverCache {
  import opened Base
  import opened TreeView
  import opened NodeStore
  import opened Pending
  import opened CacheRuns
  import BPlus

  /** What has been done to the nodes and the root, and what had been when the statement being tracked began. */
  datatype Thread = Thread(trace: seq<StoreOp>, active: bool, begun: seq<StoreOp>)

  function Follow(t: Thread, op: Operation): Thread {
    match op
    case Begin => if t.active then t else t.(active := true, begun := t.trace)
    case End => t.(active := false)
    case Rollback => if t.active then t.(trace := t.begun, active := false) else t
    case StoreNode(a, n) => t.(trace := t.trace + [Mark(a, n)])
    case ChangeRoot(a) => t.(trace := t.trace + [SetRoot(a)])
    case _ => t
  }

  function ThreadOf(ops: seq<Operation>): Thread {
    if ops == [] then Thread([], false, []) else Follow(ThreadOf(ops[..|ops| - 1]), Last(ops))
  }

  /** Nodes are stored as the tree stores them, statement by statement, and committed between statements. */
  predicate TreeLike(ops: seq<Operation>) {
    ops != [] ==>
      var t := ThreadOf(ops[..|ops| - 1]);
      TreeLike(ops[..|ops| - 1]) && Orderly(ThreadOf(ops).trace) && (Last(ops).Commit? ==> !t.active)
  }

  function NewStore(): State { State(Nothing(), map[], map[], false, Nothing()) }

  /** The nodes seen are those the trace stored, but perhaps for some that are gone. */
  ghost predicate Agrees(seen: map<Addr, Node>, root: Addr, trace: seq<StoreOp>, gone: set<Addr>) {
    && root == RootAfter(trace)
    && (forall a {:trigger a in seen} :: a in seen ==> a in NodesAfter(trace) && NodesAfter(trace)[a] == seen[a])
    && (forall a {:trigger a in NodesAfter(trace)} :: a in NodesAfter(trace) && a !in gone ==> a in seen)
  }

  ghost predicate Along(s: State, t: Thread, gone: set<Addr>) {
    && s.active == t.active && Agrees(Visible(s), s.now.root, t.trace, gone) && s.now.deletes <= gone
    && (s.active ==> Agrees(s.nodeFile + s.begun.nodes, s.begun.root, t.begun, gone) && s.begun.deletes <= gone)
  }

  lemma StepAlong(s: State, t: Thread, op: Operation, gone: set<Addr>)
    requires Along(s, t, gone) && Orderly(t.trace) && Orderly(Follow(t, op).trace) && (op.Commit? ==> !t.active)
    requires op.Delete? ==> op.a in gone
    ensures Allowed(s, op) && Along(Next(s, op), Follow(t, op), gone)
  {
    hide Orderly, NodesAfter, RootAfter;
    match op {
      case StoreNode(a, n) => MarkAllowed(t.trace, a, n);
      case ChangeRoot(a) => RootChanged(t.trace, a);
      case Begin =>
      case Commit =>
      case _ => hide Agrees;
    }
  }

  lemma RootChanged(trace: seq<StoreOp>, a: Addr)
    ensures NodesAfter(trace + [SetRoot(a)]) == NodesAfter(trace) && RootAfter(trace + [SetRoot(a)]) == a
  {
    OneMore(trace, SetRoot(a));
  }

  lemma MarkAllowed(trace: seq<StoreOp>, a: Addr, n: Node)
    requires Orderly(trace + [Mark(a, n)])
    ensures KeepsTop(NodesAfter(trace), RootAfter(trace), a, n)
    ensures NodesAfter(trace + [Mark(a, n)]) == NodesAfter(trace)[a := n] && RootAfter(trace + [Mark(a, n)]) == RootAfter(trace)
  {
    OneMore(trace, Mark(a, n));
  }

  /** Whatever is read, rolled back and committed meanwhile, what the tree stores is permitted. */
  lemma {:induction false} TreePermitted(ops: seq<Operation>, gone: set<Addr>)
    requires TreeLike(ops) && forall op :: op in ops && op.Delete? ==> op.a in gone
    ensures Permitted(NewStore(), ops) && Along(After(NewStore(), ops), ThreadOf(ops), gone) && Orderly(ThreadOf(ops).trace)
  {
    if ops != [] {
      var front := ops[..|ops| - 1];
      assert forall op :: op in front ==> op in ops;
      assert Last(ops) in ops;
      TreePermitted(front, gone);
      StepAlong(After(NewStore(), front), ThreadOf(front), Last(ops), gone);
    }
  }

  /** Without rollbacks, what is stored up to any point is where what is stored altogether begins. */
  lemma {:induction false} TracesGrow(ops: seq<Operation>, whole: seq<StoreOp>)
    requires Rollback !in ops && ThreadOf(ops).trace <= whole && Orderly(whole)
    requires CommitsApart(ops)
    ensures TreeLike(ops)
  {
    hide Orderly, TreeLike, ThreadOf;
    if ops == [] {
      NothingDone();
    } else {
      var front, op := ops[..|ops| - 1], Last(ops);
      assert ops == front + [op] && op in ops;
      forall o | o in front ensures o in ops {}
      FrontGrows(front, op);
      TracesGrow(front, whole);
      PrefixOrderly(ThreadOf(ops).trace, whole);
      OneDone(front, op);
    }
  }

  lemma NothingDone()
    ensures TreeLike([])
  {
  }

  lemma OneDone(front: seq<Operation>, op: Operation)
    requires TreeLike(front) && Orderly(ThreadOf(front + [op]).trace) && (op.Commit? ==> !ThreadOf(front).active)
    ensures TreeLike(front + [op])
  {
    hide Orderly, ThreadOf;
    assert (front + [op])[..|front|] == front;
  }

  lemma PrefixOrderly(trace: seq<StoreOp>, whole: seq<StoreOp>)
    requires trace <= whole && Orderly(whole)
    ensures Orderly(trace)
  {
    OrderlyFront(whole, |trace|);
    assert whole[..|trace|] == trace;
  }

  lemma FrontGrows(front: seq<Operation>, op: Operation)
    requires op != Rollback
    ensures ThreadOf(front).trace <= ThreadOf(front + [op]).trace
  {
    assert (front + [op])[..|front|] == front;
  }

  predicate CommitsApart(ops: seq<Operation>) {
    ops != [] ==> CommitsApart(ops[..|ops| - 1]) && (Last(ops).Commit? ==> !ThreadOf(ops[..|ops| - 1]).active)
  }

  /** A table whose nodes are kept in a store with a cache: after everything the table has stored, with reads, statements and commits
      anywhere between, a node is read as the table has it, if the table hasn't marked it for deletion, and the cache is the top of
      its tree. */
  method Run(t: BPlus.Table, p: PendingTable, ops: seq<Operation>) returns (answers: seq<Option<Node>>)
    requires t.Valid() && Ready(p) && StateOf(p) == NewStore() && p as object != t
    requires Rollback !in ops && CommitsApart(ops) && ThreadOf(ops).trace == t.trace
    requires forall op :: op in ops && op.Delete? ==> op.a in t.deleted
    modifies p, p.cache`count, p.cache`contents, p.cache.slots
    ensures Ready(p) && TopOfTree(p) && p.root == t.root && Answered(NewStore(), ops, answers)
    ensures forall a :: a in t.nodes && a !in t.deleted ==> p.NodeAt(a) == Some(t.nodes[a])
  {
    hide Orderly, TreeLike, Permitted, Ready, BPlus.Table.Valid, CommitsApart, NodesAfter, RootAfter;
    t.ValidParts();
    TableTrace(t);
    TracesGrow(ops, t.trace);
    TreePermitted(ops, t.deleted);
    answers := CacheRuns.Run(p, ops);
    forall a | a in t.nodes && a !in t.deleted ensures p.NodeAt(a) == Some(t.nodes[a]) { assert a in Visible(StateOf(p)); }
  }

  lemma TableTrace(t: BPlus.Table)
    requires t.Traced()
    ensures Orderly(t.trace) && NodesAfter(t.trace) == t.nodes && RootAfter(t.trace) == t.root
  {
  }
}
