// Any run of operations on a table's store is what it would be without the node cache, and the cache never holds more than the
// top of the tree, so long as no node is moved down from there. The tree never does that.
module CacheRuns {
  import opened Base
  import opened Records
  import opened TreeView
  import opened NodeStore
  import opened Pending
  import Stripes

  datatype Operation =
    | Begin | End | Rollback | Commit
    | StorePage(a: Addr, p: seq<Record>) | StoreNode(a: Addr, n: Node) | Delete(a: Addr) | ChangeRoot(a: Addr)
    | NewPage | NewNode | Read(a: Addr)

  /** What is pending, but for the addresses given out. */
  datatype Changes = Changes(pages: map<Addr, seq<Record>>, nodes: map<Addr, Node>, deletes: set<Addr>, root: Addr)

  /** A store without a cache: what is pending, the file, and what the statement being tracked, if any, began with. */
  datatype State = State(now: Changes, pageFile: map<Addr, seq<Record>>, nodeFile: map<Addr, Node>, active: bool, begun: Changes)

  ghost function StateOf(p: PendingTable): State
    reads p
  {
    State(Changes(p.pageDirty, p.nodeDirty, p.deletes, p.root), p.pageFile, p.nodeFile, p.active,
          if p.active then Changes(p.begun.pages, p.begun.nodes, p.begun.deletes, p.begun.root) else Nothing())
  }

  function Nothing(): Changes { Changes(map[], map[], {}, 0) }

  /** The nodes as they are read. */
  function Visible(s: State): map<Addr, Node> { s.nodeFile + s.now.nodes }

  function Next(s: State, op: Operation): State {
    match op
    case Begin => if s.active then s else s.(active := true, begun := s.now)
    case End => s.(active := false, begun := Nothing())
    case Rollback => if s.active then s.(now := s.begun, active := false, begun := Nothing()) else s
    case Commit => s.(now := Changes(map[], map[], {}, s.now.root), pageFile := s.pageFile + s.now.pages - s.now.deletes,
                      nodeFile := s.nodeFile + s.now.nodes - s.now.deletes)
    case StorePage(a, p) => s.(now := s.now.(pages := s.now.pages[a := p]))
    case StoreNode(a, n) => s.(now := s.now.(nodes := s.now.nodes[a := n]))
    case Delete(a) => s.(now := s.now.(deletes := s.now.deletes + {a}))
    case ChangeRoot(a) => s.(now := s.now.(root := a))
    case _ => s
  }

  function After(s: State, ops: seq<Operation>): State {
    if ops == [] then s else Next(After(s, ops[..|ops| - 1]), Last(ops))
  }

  /** No statement is being tracked when the store is written to the file, and no node that is stored moves down from the top. */
  predicate Allowed(s: State, op: Operation) {
    match op
    case Commit => !s.active
    case StoreNode(a, n) => KeepsTop(Visible(s), s.now.root, a, n)
    case _ => true
  }

  predicate Permitted(s: State, ops: seq<Operation>) {
    ops != [] ==> Permitted(s, ops[..|ops| - 1]) && Allowed(After(s, ops[..|ops| - 1]), Last(ops))
  }

  /** What a read gives. */
  function Answer(s: State, op: Operation): Option<Node> {
    if op.Read? then Lookup(Visible(s), op.a) else None
  }

  ghost predicate Answered(s: State, ops: seq<Operation>, answers: seq<Option<Node>>) {
    |answers| == |ops| && forall i {:trigger answers[i]} :: 0 <= i < |ops| ==> answers[i] == Answer(After(s, ops[..i]), ops[i])
  }

  /** The cache holds nothing but the root and its children, as the file has them. */
  ghost predicate TopOfTree(p: PendingTable)
    reads p, p.cache
  {
    forall a {:trigger a in p.cache.contents} :: a in p.cache.contents ==>
      a in p.nodeFile && p.cache.contents[a] == p.nodeFile[a] && AtTop(p.root, a, p.nodeFile[a])
  }

  ghost predicate Ready(p: PendingTable)
    reads p, p.cache, p.cache.slots
  {
    p.Valid() && Stripes.Valid(p.layout, p.cursor) && (p.active ==> Stripes.Valid(p.layout, p.begun.cursor))
  }

  /** The operations that begin or end a statement or a transaction. */
  method Settle(p: PendingTable, op: Operation)
    requires Ready(p) && Allowed(StateOf(p), op) && (op.Begin? || op.End? || op.Rollback? || op.Commit?)
    modifies p, p.cache`count, p.cache`contents, p.cache.slots
    ensures Ready(p) && StateOf(p) == Next(old(StateOf(p)), op)
  {
    hide PendingTable.Valid, Stripes.Valid, Stripes.Used;
    match op {
      case Begin => p.BeginStatement();
      case End => p.EndStatement();
      case Rollback => p.RollbackStatement();
      case Commit => p.ApplyTable();
    }
  }

  method Perform(p: PendingTable, op: Operation) returns (answer: Option<Node>)
    requires Ready(p) && Allowed(StateOf(p), op)
    modifies p, p.cache`count, p.cache`contents, p.cache.slots
    ensures Ready(p) && StateOf(p) == Next(old(StateOf(p)), op) && answer == Answer(old(StateOf(p)), op)
  {
    hide PendingTable.Valid, Stripes.Valid, Stripes.Used;
    answer := None;
    match op {
      case Begin | End | Rollback | Commit => Settle(p, op);
      case StorePage(a, q) => p.MarkPage(a, q);
      case StoreNode(a, n) => p.MarkNode(a, n);
      case Delete(a) => p.MarkDelete(a);
      case ChangeRoot(a) => p.SetRoot(a);
      case NewPage => var a := p.AllocPage();
      case NewNode => var a := p.AllocNode();
      case Read(a) => answer := p.ReadNode(a);
    }
  }

  /** Over any run the reads give what they would without the cache, and the cache is the top of the tree as the file has it. */
  method Run(p: PendingTable, ops: seq<Operation>) returns (answers: seq<Option<Node>>)
    requires Ready(p) && Permitted(StateOf(p), ops)
    modifies p, p.cache`count, p.cache`contents, p.cache.slots
    ensures Ready(p) && TopOfTree(p)
    ensures StateOf(p) == After(old(StateOf(p)), ops) && Answered(old(StateOf(p)), ops, answers)
  {
    hide Ready, Next, Allowed, Answer;
    ghost var s := StateOf(p);
    answers := [];
    for i := 0 to |ops|
      invariant Ready(p) && StateOf(p) == After(s, ops[..i]) && Answered(s, ops[..i], answers)
    {
      FirstOps(s, ops, i);
      var answer := Perform(p, ops[i]);
      assert forall j :: 0 <= j < i ==> ops[..i + 1][..j] == ops[..i][..j];
      answers := answers + [answer];
    }
    assert ops[..|ops|] == ops;
    CacheIsTop(p);
  }

  lemma CacheIsTop(p: PendingTable)
    requires Ready(p)
    ensures TopOfTree(p)
  {
  }

  lemma {:induction false} FirstOps(s: State, ops: seq<Operation>, i: nat)
    requires Permitted(s, ops) && i < |ops|
    ensures ops[..i + 1][..i] == ops[..i] && Allowed(After(s, ops[..i]), ops[i]) && After(s, ops[..i + 1]) == Next(After(s, ops[..i]), ops[i])
    decreases |ops|
  {
    if i < |ops| - 1 {
      FirstOps(s, ops[..|ops| - 1], i);
      assert ops[..|ops| - 1][..i + 1] == ops[..i + 1] && ops[..|ops| - 1][..i] == ops[..i];
    } else {
      assert ops[..i + 1] == ops;
    }
  }
}
