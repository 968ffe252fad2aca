// The B+ tree of a table: its nodes, and the pages its leaves file, read and written by address.
module BPlus {
  import opened Base
  import opened Records
  import opened TreeView
  import opened NodeStore
  import opened TreeEdit
  import opened TreeSearch
  import opened TreeSplit
  import opened TreePages
  import opened TreeLeaves
  import opened TreeInner
  import opened TreeChanges
  import opened TreeGrowth
  import opened TableState
  import opened LeafPages
  import opened PageSearch
  import opened TableContents
  import opened TreeShrink
  import opened PageSplit
  import Stripes

  class Table {
    const M: nat            // the most children a node can have
    const keySize: nat      // the bytes a key takes on disk
    const capacity: nat     // the bytes of records a page holds
    const layout: Stripes.Layout

    var nodes: map<Addr, Node>            // what readNode finds: the pending version, or the file's
    var pages: map<Addr, seq<Record>>     // what readPage finds
    var deleted: set<Addr>                // the objects marked for deletion
    var root: Addr
    var cursor: Stripes.Cursor            // the header fields allocation moves on

    ghost var spans: map<Addr, Span>      // what each node reachable from the root covers
    ghost var filed: map<Addr, Filed>     // where each page is filed
    ghost var contents: map<Key, Record>  // the records the tree holds
    ghost var held: set<Addr>             // pages that have an address but aren't stored yet
    ghost var trace: seq<StoreOp>         // every node stored so far, and every change of root

    ghost function V(): View
      reads this`nodes, this`root, this`spans, this`filed
    {
      View(nodes, root, spans, filed)
    }

    ghost function Paged(): set<Addr>
      reads this`pages, this`held
    {
      pages.Keys + held
    }

    ghost predicate Shaped(exc: Addr)
      reads this`nodes, this`root, this`spans, this`filed, this`cursor, this`pages, this`deleted, this`held
    {
      && M >= 4 && capacity < 0xFFFF_FFFF
      && Structure(V(), 0) && Filled(V(), M, exc)
      && Placed(layout, cursor, V(), Paged(), deleted)
    }

    /** The nodes and the root are what the trace made them, and no step of it moved a node down from the top of the tree. */
    ghost predicate Traced()
      reads this`trace, this`nodes, this`root
    {
      Orderly(trace) && NodesAfter(trace) == nodes && RootAfter(trace) == root
    }

    lemma ShapedTree(exc: Addr)
      requires Shaped(exc)
      ensures M >= 4 && capacity < 0xFFFF_FFFF && Structure(V(), 0) && Filled(V(), M, exc) && Placed(layout, cursor, V(), Paged(), deleted)
      ensures spans.Keys <= nodes.Keys && root in spans && 0 !in spans
    {
    }

    /** A new table: a root that is a leaf with one empty page, filed under the smallest key. */
    constructor NewTree(order: nat, keySize: nat, capacity: nat, layout: Stripes.Layout)
      requires order >= 4 && capacity < 0xFFFF_FFFF && layout.Valid()
      ensures Valid() && contents == map[]
      ensures M == order && this.keySize == keySize && this.capacity == capacity && this.layout == layout
    {
      M, this.keySize, this.capacity, this.layout := order, keySize, capacity, layout;
      nodes, pages, deleted, root, cursor := map[], map[], {}, 0, Stripes.NewCursor(layout);
      spans, filed, contents, held, trace := map[], map[], map[], {}, [];
      new;
      Stripes.NewCursorValid(layout);
      assert Placed(layout, cursor, V(), Paged(), deleted);
      hide Structure, Stored, Filled, AllFit, Placed, Stripes.Used, Stripes.Valid;
      var rootAddr := AllocNode();
      var pageAddr := AllocPage();
      PlacedCursor(layout, cursor, V(), Paged(), deleted);
      assert Stripes.Used(layout, cursor, rootAddr);
      FirstPage(rootAddr, pageAddr);
      IsValid();
    }

    /** Stores a new tree's only node and only page. */
    method FirstPage(rootAddr: Addr, pageAddr: Addr)
      requires M >= 4 && capacity < 0xFFFF_FFFF && nodes == map[] && pages == map[] && held == {pageAddr} && deleted == {}
      requires rootAddr != 0 && pageAddr != 0 && rootAddr != pageAddr && contents == map[]
      requires Stripes.Valid(layout, cursor) && Stripes.Used(layout, cursor, rootAddr) && Stripes.Used(layout, cursor, pageAddr)
      requires Traced()
      modifies this`nodes, this`trace, this`pages, this`root, this`spans, this`filed
      ensures Traced()
      ensures Shaped(0) && Stored(pages, filed, contents) && AllFit(keySize, capacity, pages, filed, -1)
    {
      hide Shaped, Stored, AllFit, Traced, Stripes.Used, Stripes.Valid;
      var n := Node([pageAddr], [0], 0, 0, 0, 0, true);
      ChangeRoot(rootAddr);
      MarkNode(rootAddr, n);
      pages := map[pageAddr := []];
      spans, filed := map[rootAddr := Span(0, -1, KEY_LIMIT)], map[pageAddr := Filed(rootAddr, -1, 0)];
      NewTreeIs(rootAddr, pageAddr);
    }

    lemma NewTreeIs(a: Addr, q: Addr)
      requires M >= 4 && capacity < 0xFFFF_FFFF && a != 0 && q != 0 && a != q
      requires nodes == map[a := Node([q], [0], 0, 0, 0, 0, true)] && root == a && spans == map[a := Span(0, -1, KEY_LIMIT)]
      requires pages == map[q := []] && held == {q} && deleted == {} && filed == map[q := Filed(a, -1, 0)] && contents == map[]
      requires Stripes.Valid(layout, cursor) && Stripes.Used(layout, cursor, a) && Stripes.Used(layout, cursor, q)
      ensures Shaped(0) && Stored(pages, filed, contents) && AllFit(keySize, capacity, pages, filed, -1)
    {
      hide Structure, Stored, Filled, AllFit, Placed, Stripes.Used, Stripes.Valid;
      NewTreeShape(layout, cursor, V(), a, q, M);
      NewTreeStored(pages, filed, q, keySize, capacity);
      assert Paged() == {q};
    }

    // ---- storing nodes and giving out addresses

    /** Stores a node, which stays at the top of the tree if it was there. */
    method MarkNode(a: Addr, n: Node)
      requires Traced() && KeepsTop(nodes, root, a, n)
      modifies this`nodes, this`trace
      ensures Traced() && trace == old(trace) + [Mark(a, n)]
      ensures nodes == old(nodes)[a := n]
    {
      hide Orderly, NodesAfter, RootAfter;
      OneMore(trace, Mark(a, n));
      nodes, trace := nodes[a := n], trace + [Mark(a, n)];
    }

    /** Makes the node at a the root. */
    method ChangeRoot(a: Addr)
      requires Traced()
      modifies this`root, this`trace
      ensures Traced() && trace == old(trace) + [SetRoot(a)]
      ensures root == a
    {
      hide Orderly, NodesAfter, RootAfter;
      OneMore(trace, SetRoot(a));
      root, trace := a, trace + [SetRoot(a)];
    }

    method AllocNode() returns (a: Addr)
      requires Placed(layout, cursor, V(), Paged(), deleted)
      modifies this`cursor
      ensures Placed(layout, cursor, V(), Paged(), deleted) && Stripes.Used(layout, cursor, a)
      ensures a != 0 && a !in nodes && a !in pages && a !in held && a !in filed && a !in deleted
    {
      ghost var before := cursor;
      ghost var slot;
      cursor, a, slot := Stripes.AllocNode(layout, cursor);
      Stripes.FreshAddress(layout, before, cursor, slot);
      assert !Stripes.Used(layout, before, a);
    }

    method AllocPage() returns (a: Addr)
      requires Placed(layout, cursor, V(), Paged(), deleted)
      modifies this`cursor, this`held
      ensures Placed(layout, cursor, V(), Paged(), deleted) && held == old(held) + {a}
      ensures Stripes.Used(layout, cursor, a) && !Stripes.Used(layout, old(cursor), a)
      ensures forall x {:trigger Stripes.Used(layout, cursor, x)} :: Stripes.Used(layout, old(cursor), x) ==> Stripes.Used(layout, cursor, x)
      ensures old(Shaped(0)) ==> Shaped(0)
      ensures a != 0 && a !in nodes && a !in pages && a !in old(held) && a !in filed && a !in deleted
    {
      ghost var before := cursor;
      ghost var slot;
      cursor, a, slot := Stripes.AllocPage(layout, cursor);
      Stripes.FreshAddress(layout, before, cursor, slot);
      assert !Stripes.Used(layout, before, a);
      held := held + {a};
    }

    method MarkPage(a: Addr, p: seq<Record>)
      requires Shaped(0) && a in Paged()
      modifies this`pages
      ensures Shaped(0) && pages == old(pages)[a := p] && Paged() == old(Paged())
    {
      hide Structure, Filled, Placed;
      pages := pages[a := p];
      assert Paged() == old(Paged());
    }

    // ---- insertion

    /** Tells a's ancestors of its new largest key. up has the nodes from a upwards, no higher than top. */
    method PropagateMaxKeyUp(a: Addr, k: Key, ghost up: map<Addr, Span>, ghost top: nat, ghost fuel: nat)
      requires Climbable(nodes, up, top) && a in up && fuel + up[a].h >= top
      requires Traced()
      modifies this`nodes, this`trace
      ensures Traced()
      ensures SameParents(old(nodes), nodes)
      ensures nodes == PropagateUp(old(nodes), a, k, fuel)
      decreases fuel
    {
      hide Traced, Climbable, SameParents, KeepsTop;
      ClimbParts(nodes, up, top, a);
      SameOne(nodes, root, a, nodes[a]);
      assert nodes[a := nodes[a]] == nodes;
      ghost var before := nodes;
      var n := nodes[a];
      if n.parent == 0 || n.parent !in nodes { return; }
      var parent := nodes[n.parent];
      var i := 0;
      while i < |parent.children| && parent.children[i] != a
        invariant 0 <= i <= |parent.children|
        invariant forall j :: 0 <= j < i ==> parent.children[j] != a
      {
        i := i + 1;
      }
      IndexFound(parent.children, a, i);
      if i == |parent.children| { return; }
      if i < |parent.children| - 1 {
        parent := parent.(keys := parent.keys[i := k]);
        SameOne(nodes, root, n.parent, parent);
        MarkNode(n.parent, parent);
      } else {
        parent := parent.(maxKey := k);
        SameOne(nodes, root, n.parent, parent);
        ClimbableStill(nodes, up, top, n.parent, parent);
        MarkNode(n.parent, parent);
        ghost var marked := nodes;
        PropagateMaxKeyUp(n.parent, k, up, top, fuel - 1);
        SameAfter(before, marked, nodes);
      }
    }

    /** Files child, new at childAddr and a sibling of the child that ends at newKey, under its parent. */
    method SplitUpdateParent(parent: Node, child: Node, childAddr: Addr, newKey: Key,
                             ghost up: map<Addr, Span>, ghost top: nat)
      requires Climbable(nodes, up, top) && child.parent in up && up[child.parent].h > 0
      requires nodes[child.parent] == parent && |parent.children| < M
      requires Traced()
      modifies this`nodes, this`trace
      ensures Traced()
      ensures SameParents(old(nodes), nodes)
      ensures |parent.children| == |parent.keys| + 1
      ensures var told := old(nodes)[child.parent := WithSibling(parent, newKey, childAddr, child.maxKey)];
              nodes == if Above(parent.keys, newKey) < |parent.keys| then told
                       else PropagateUp(told, child.parent, child.maxKey, top)
    {
      hide Traced, Climbable, Above, SameParents, KeepsTop, PropagateUp;
      ClimbHere(nodes, up, top, child.parent);
      ghost var before := nodes;
      if |parent.children| >= M {
        assert false; // the callers split a full parent first
      }
      var i := 0;
      while i < |parent.children| - 1 && parent.keys[i] <= newKey
        invariant 0 <= i <= |parent.keys|
        invariant forall j :: 0 <= j < i ==> parent.keys[j] <= newKey
      {
        i := i + 1;
      }
      AboveFound(parent.keys, newKey, i);
      if i < |parent.children| - 1 {
        SameOne(nodes, root, child.parent, parent.(keys := InsertAt(parent.keys, i, newKey), children := InsertAt(parent.children, i + 1, childAddr)));
        MarkNode(child.parent, parent.(keys := InsertAt(parent.keys, i, newKey), children := InsertAt(parent.children, i + 1, childAddr)));
        return;
      }
      assert InsertAt(parent.keys, i, newKey) == parent.keys + [newKey];
      assert InsertAt(parent.children, i + 1, childAddr) == parent.children + [childAddr];
      var updated := parent.(keys := parent.keys + [newKey], children := parent.children + [childAddr], maxKey := child.maxKey);
      ClimbableStill(nodes, up, top, child.parent, updated);
      SameOne(nodes, root, child.parent, updated);
      MarkNode(child.parent, updated);
      ghost var marked := nodes;
      PropagateMaxKeyUp(child.parent, child.maxKey, up, top, top);
      SameAfter(before, marked, nodes);
    }

    /** Gives the children n is about to hand to its new sibling their new parent, or links the sibling in
        before the leaf after n. */
    method TellKin(n: Node, keepCount: nat, newAddr: Addr)
      requires keepCount <= |n.children|
      requires n.isLeaf && n.next != 0 ==> n.next in nodes
      requires Traced()
      requires newAddr != root && (!n.isLeaf ==> NoneUnder(nodes, n.children, root))
      modifies this`nodes, this`trace
      ensures Traced()
      ensures TurnedTo(old(nodes), nodes, newAddr)
      ensures nodes == KinTold(old(nodes), n, keepCount, newAddr)
    {
      hide Reparent, Traced;
      if !n.isLeaf {
        ghost var before, cs := nodes, n.children[keepCount..];
        var i := keepCount;
        NoneReparented(before, newAddr);
        assert cs[..0] == [];
        while i < |n.children|
          invariant keepCount <= i <= |n.children|
          invariant nodes == Reparent(before, cs[..i - keepCount], newAddr)
          invariant Traced() && TurnedTo(before, nodes, newAddr)
        {
          var childAddr := n.children[i];
          ReparentNext(before, cs, i - keepCount, newAddr);
          if childAddr in nodes {
            MarkNode(childAddr, nodes[childAddr].(parent := newAddr));
          }
          i := i + 1;
        }
        assert cs[..i - keepCount] == cs;
      } else if n.next != 0 {
        MarkNode(n.next, nodes[n.next].(prev := newAddr));
      }
    }

    /** The two halves of n, which keeps the first keepCount children. */
    method CutNode(n0: Node, keepCount: nat, addr: Addr, newAddr: Addr) returns (n: Node, new_: Node)
      requires 0 < keepCount < |n0.children| == |n0.keys| + if n0.isLeaf then 0 else 1
      requires !n0.isLeaf ==> n0.children[keepCount - 1] in nodes
      ensures n == LowerHalf(n0, keepCount, newAddr,
                             if n0.isLeaf then n0.keys[keepCount - 1] else nodes[n0.children[keepCount - 1]].maxKey)
      ensures new_ == UpperHalf(n0, keepCount, addr)
    {
      n := n0;
      new_ := Node(n.children[keepCount..], n.keys[keepCount..], n.parent, 0, 0, n.maxKey, n.isLeaf);
      // an inner node's separator at the cut goes up to the parent
      n := n.(children := n.children[..keepCount], keys := n.keys[..if n.isLeaf then keepCount else keepCount - 1]);
      if n.isLeaf {
        new_ := new_.(prev := addr, next := n.next);
        n := n.(next := newAddr);
        n := n.(maxKey := Last(n.keys));
      } else {
        n := n.(maxKey := nodes[Last(n.children)].maxKey);
      }
    }

    /** Stores n's halves, and tells their parent and n's kin. */
    method StoreHalves(n0: Node, addr: Addr, newAddr: Addr) returns (n: Node, new_: Node)
      requires addr in nodes && nodes[addr] == n0 && |n0.children| == M && M >= 4
      requires CanSplit(V(), addr, newAddr, M - M / 2) && |nodes[n0.parent].children| < M
      requires Traced()
      modifies this`nodes, this`trace
      ensures Traced()
      ensures nodes == SplitNodes(old(V()), addr, newAddr, M - M / 2)
      ensures nodes[addr] == n && nodes[newAddr] == new_
    {
      hide Traced, SameParents, TurnedTo, NoneUnder, Structure, Climbable, SpansAbove, KinTold, Above, WithSibling, LowerHalf, UpperHalf, PropagateUp;
      ghost var v := V();
      NodeShape(v, addr);
      var middleKid := |n0.children| / 2;
      var keepCount := |n0.children| - middleKid;
      RootStored(v);
      KinToldClimbable(v, addr, newAddr, keepCount);
      HalfFields(n0, keepCount, addr);
      TellKin(n0, keepCount, newAddr);
      ghost var told := nodes;
      n, new_ := CutNode(n0, keepCount, addr, newAddr);
      SplitUpdateParent(nodes[n0.parent], new_, newAddr, n0.keys[keepCount - 1], SpansAbove(v, v.spans[addr].h), v.spans[v.root].h);
      TurnedTop(v.nodes, told, nodes, newAddr, root, addr, n);
      MarkNode(addr, n);
      MarkNode(newAddr, new_);
    }

    /** Splits n, at addr, in two; its parent isn't full. */
    method SplitNode(n0: Node, addr: Addr, ghost exc: Addr) returns (n: Node, new_: Node, newAddr: Addr)
      requires Shaped(exc) && addr in spans && addr != root && nodes[addr] == n0 && |n0.children| == M
      requires n0.parent in nodes && |nodes[n0.parent].children| < M
      requires exc == 0 || (exc == root && n0.parent == exc)
      requires Traced()
      modifies this`nodes, this`trace, this`cursor, this`spans, this`filed
      ensures Traced()
      ensures Shaped(0)
      ensures Halves(old(V()), V(), addr, newAddr, M - M / 2) && nodes[addr] == n && nodes[newAddr] == new_
    {
      hide Stripes.Used, Stripes.Valid, Traced;
      ghost var v := V();
      newAddr := AllocNode();
      NodeShape(v, addr);
      assert CanSplit(v, addr, newAddr, M - M / 2);
      hide Structure, Filled, Halves, SplitView, SplitNodes, Above, Placed, CanSplit;
      n, new_ := StoreHalves(n0, addr, newAddr);
      FinishSplit(v, addr, newAddr, exc);
    }

    ghost method FinishSplit(v: View, addr: Addr, newAddr: Addr, exc: Addr)
      requires M >= 4 && capacity < 0xFFFF_FFFF && CanSplit(v, addr, newAddr, M - M / 2) && Filled(v, M, exc)
      requires Placed(layout, cursor, v, Paged(), deleted)
      requires exc == 0 || (exc == v.root && v.nodes[addr].parent == exc)
      requires |v.nodes[addr].children| == M && |v.nodes[v.nodes[addr].parent].children| < M
      requires Stripes.Used(layout, cursor, newAddr) && newAddr !in Paged() && newAddr !in deleted && newAddr !in v.filed
      requires nodes == SplitNodes(v, addr, newAddr, M - M / 2) && root == v.root
      modifies this`spans, this`filed
      ensures Shaped(0)
      ensures Halves(v, V(), addr, newAddr, M - M / 2)
    {
      hide Structure, Filled, Placed, Halves, SplitNodes, CanSplit, AfterSplit, Stripes.Used;
      ghost var w, paged := AfterSplit(v, addr, newAddr, M - M / 2), Paged();
      SplitKeepsShape(layout, cursor, v, addr, newAddr, M, exc, paged, deleted, w);
      spans, filed := w.spans, w.filed;
      assert V() == w && Paged() == paged;
    }

    /** Puts a new root above the old one, child. */
    method NewRoot(child0: Node, childAddr: Addr) returns (child: Node)
      requires Shaped(0) && childAddr == root && nodes[root] == child0 && |child0.children| == M
      requires Traced()
      modifies this`nodes, this`trace, this`cursor, this`root, this`spans
      ensures Traced()
      ensures Shaped(root)
      ensures childAddr in nodes && nodes[childAddr] == child == child0.(parent := root) && childAddr in spans && childAddr != root
      ensures root in nodes && |nodes[root].children| == 1
      ensures Carried(old(V()), V(), childAddr)
    {
      hide Structure, Filled, Placed, Carried, Stripes.Used, Stripes.Valid, Traced;
      ghost var v := V();
      RootStored(v);
      var rootAddr := AllocNode();
      child := child0.(parent := rootAddr);
      MarkNode(childAddr, child);
      MarkNode(rootAddr, Node([childAddr], [], 0, 0, 0, child.maxKey, false));
      ChangeRoot(rootAddr);
      spans := spans[rootAddr := Span(spans[childAddr].h + 1, -1, KEY_LIMIT)];
      assert Grown(v, V(), rootAddr);
      GrowKeeps(v, V(), rootAddr);
      GrowKeepsShape(layout, cursor, v, V(), rootAddr, M, Paged(), deleted);
    }

    /** Splits n's parent, which is full, so that it has room for a sibling of n. */
    method SplitParent(n0: Node, addr: Addr, parent0: Node) returns (n: Node)
      requires Shaped(0) && addr in spans && addr != root && nodes[addr] == n0
      requires n0.parent in spans && spans[n0.parent].h == spans[addr].h + 1 <= spans[root].h
      requires nodes[n0.parent] == parent0 && |parent0.children| == M
      requires Traced()
      modifies this`nodes, this`trace, this`cursor, this`root, this`spans, this`filed
      ensures Traced()
      ensures Shaped(0) && Carried(old(V()), V(), addr)
      ensures addr in spans && addr != root && addr in nodes && nodes[addr] == n && n.children == n0.children
      ensures n.parent in nodes && |nodes[n.parent].children| < M
      decreases spans[root].h - spans[addr].h, 0
    {
      hide Traced;
      ghost var v := V();
      ShapedTree(0);
      hide *;
      var parent, dummy, dummyAddr := BalanceTreeAdd(parent0, n0.parent);
      ShapedTree(0);
      HalvesChild(v, V(), n0.parent, dummyAddr, M - M / 2, addr);
      n := nodes[addr];
    }

    /** Splits n, a full node, first making sure that its parent has room for its new sibling. */
    method BalanceTreeAdd(n0: Node, addr: Addr) returns (n: Node, new_: Node, newAddr: Addr)
      requires Shaped(0) && addr in spans && nodes[addr] == n0 && |n0.children| == M
      requires Traced()
      modifies this`nodes, this`trace, this`cursor, this`root, this`spans, this`filed
      ensures Traced()
      ensures Shaped(0)
      ensures Halves(old(V()), V(), addr, newAddr, M - M / 2) && nodes[addr] == n && nodes[newAddr] == new_
      decreases spans[root].h - spans[addr].h, 1
    {
      hide Structure, Filled, Placed, Shaped, Halves, Counted, Carried, NodeOK, Traced;
      n := n0;
      ghost var v := V();
      ShapedTree(0);
      NodeShape(v, addr);
      RootIsTop(v, 0, addr);
      CarriedSelf(v, addr);
      ParentCount(v, M, addr);
      ghost var exc := 0;
      if n.parent == 0 && |n.children| > 0 {
        n := NewRoot(n, addr);
        exc := root;
      } else {
        var parent := nodes[n.parent];
        if |parent.children| >= M {
          n := SplitParent(n, addr, parent);
        }
      }
      ghost var u := V();
      n, new_, newAddr := SplitNode(n, addr, exc);
      HalvesAfter(v, u, V(), addr, newAddr, M - M / 2);
    }

    /** Files the page at pageAddr, with keys in (lo, key], in leaf n, which isn't full. */
    method InsertPageIntoChildren(n: Node, nodeAddr: Addr, key: Key, pageAddr: Addr, ghost lo: int)
      requires Shaped(0) && nodeAddr in nodes && nodes[nodeAddr] == n && RoomFor(V(), nodeAddr, lo, key)
      requires |n.children| < M && pageAddr !in filed && pageAddr in Paged() && pageAddr !in deleted
      requires Traced()
      modifies this`nodes, this`trace, this`filed
      ensures Traced()
      ensures Shaped(0) && filed == old(filed)[pageAddr := Filed(nodeAddr, lo, key)]
    {
      hide Traced, SameParents, Structure, Filled, Placed, RoomFor, Climbable, PropagateUp, InsertAt;
      ghost var v, paged := V(), Paged();
      ShapedTree(0);
      RoomLeaf(v, nodeAddr, lo, key);
      RootStored(v);
      FiledIn(v, nodeAddr);
      StructureRises(v, 0);
      LeafClimbs(v, nodeAddr, WithPage(n, key, pageAddr));
      var i := 0;
      while i < |n.children| && n.keys[i] <= key
        invariant 0 <= i <= |n.children|
        invariant forall j :: 0 <= j < i ==> n.keys[j] <= key
      {
        i := i + 1;
      }
      AboveFound(n.keys, key, i);
      var m := n.(keys := InsertAt(n.keys, i, key), children := InsertAt(n.children, i, pageAddr));
      if i < |n.children| {
        MarkNode(nodeAddr, m);
      } else {
        m := m.(maxKey := key);
        MarkNode(nodeAddr, m);
        PropagateMaxKeyUp(nodeAddr, m.maxKey, spans, v.spans[v.root].h, v.spans[v.root].h);
      }
      assert m == WithPage(n, key, pageAddr);
      ghost var w := v.(nodes := nodes, filed := filed[pageAddr := Filed(nodeAddr, lo, key)]);
      assert Filing(v, w, nodeAddr, lo, key, pageAddr);
      hide *;
      filed := filed[pageAddr := Filed(nodeAddr, lo, key)];
      assert V() == w && Paged() == paged;
      FilingShape(layout, cursor, v, w, nodeAddr, lo, key, pageAddr, M, paged, deleted);
    }

    /** Files a page in leaf n, splitting the leaf if it is full. */
    method AddPage(n0: Node, nodeAddr: Addr, key: Key, pageAddr: Addr, ghost lo: int)
      requires Shaped(0) && nodeAddr in nodes && nodes[nodeAddr] == n0 && RoomFor(V(), nodeAddr, lo, key)
      requires pageAddr !in filed && pageAddr in Paged() && pageAddr !in deleted
      requires Traced()
      modifies this`nodes, this`trace, this`cursor, this`root, this`spans, this`filed
      ensures Traced()
      ensures Shaped(0)
      ensures pageAddr in filed && filed[pageAddr].lo == lo && filed[pageAddr].hi == key
      ensures SameBounds(old(filed)[pageAddr := filed[pageAddr]], filed)
    {
      hide Traced;
      var n := n0;
      ghost var v := V();
      ShapedTree(0);
      assert Counted(v, M, nodeAddr);
      hide Structure, Filled, Placed, Halves, Shaped, RoomFor;
      if |n.children| >= M {
        var new_, newNodeAddr;
        n, new_, newNodeAddr := BalanceTreeAdd(n, nodeAddr);
        ShapedTree(0);
        HalvesOf(v, V(), nodeAddr, newNodeAddr, M - M / 2);
        HalfRoom(v, V(), nodeAddr, newNodeAddr, M - M / 2, lo, key);
        if key > n.maxKey {
          InsertPageIntoChildren(new_, newNodeAddr, key, pageAddr, lo);
          ShapedTree(0);
          FiledHolder(V(), pageAddr, key);
          if key > nodes[root].maxKey {
            assert false; // the ancestors have been told of the new key
          }
          return;
        }
      }
      InsertPageIntoChildren(n, nodeAddr, key, pageAddr, lo);
    }

    // ---- finding a key's page

    /** Walks from the root to the leaf whose pages cover key. */
    method FindLeaf(key: Key) returns (addr: Addr, leaf: Node)
      requires Shaped(0)
      ensures addr == LeafFor(V(), key) && addr in spans && addr in nodes && nodes[addr] == leaf && leaf.isLeaf
      ensures |leaf.children| == |leaf.keys| > 0 && Sorted(leaf.keys)
    {
      addr := root;
      RootStored(V());
      leaf := nodes[addr];
      while !leaf.isLeaf
        invariant addr in spans && addr in nodes && leaf == nodes[addr]
        invariant Descend(nodes, addr, key, spans[addr].h) == LeafFor(V(), key)
        decreases spans[addr].h
      {
        var i := 0;
        assert NodeOK(V(), addr, 0);
        while i < |leaf.children| - 1 && key > leaf.keys[i]
          invariant 0 <= i <= |leaf.keys|
          invariant forall j :: 0 <= j < i ==> leaf.keys[j] < key
        {
          i := i + 1;
        }
        RouteFound(leaf.keys, key, i);
        assert ChildOK(V(), addr, i, 0);
        addr := leaf.children[i];
        leaf := nodes[addr];
      }
      assert NodeOK(V(), addr, 0);
    }

    /** The first page of a leaf that is filed under key or more, by binary search. */
    method FindPageInLeaf(leaf: Node, key: Key) returns (lo: nat)
      requires |leaf.children| == |leaf.keys| && Sorted(leaf.keys)
      ensures lo == Route(leaf.keys, key)
    {
      lo := 0;
      var hi := |leaf.children|;
      while lo < hi
        invariant lo <= hi <= |leaf.keys|
        invariant forall j :: 0 <= j < lo ==> leaf.keys[j] < key
        invariant hi < |leaf.keys| ==> key <= leaf.keys[hi]
      {
        var mid := lo + (hi - lo) / 2;
        if leaf.keys[mid] < key {
          lo := mid + 1;
        } else {
          hi := mid;
        }
      }
      RouteFound(leaf.keys, key, lo);
    }

    /** Files a new page directly after the page at pageAddr, which keeps the keys up to lowerKey. */
    method AddPageAfter(pageAddr: Addr, lowerKey: Key, newAddr: Addr, newKey: Key) returns (ok: bool)
      requires Shaped(0) && pageAddr in filed && filed[pageAddr].lo < lowerKey <= filed[pageAddr].hi && lowerKey < newKey
      requires newKey <= filed[pageAddr].hi || PastEnd(V(), pageAddr, newKey)
      requires newAddr !in filed && newAddr in Paged() && newAddr !in deleted
      requires Traced()
      modifies this`nodes, this`trace, this`cursor, this`root, this`spans, this`filed
      ensures Traced()
      ensures ok && Shaped(0)
      ensures SameBounds(CutBounds(old(filed), pageAddr, newAddr, lowerKey, Max(old(filed)[pageAddr].hi, newKey)), filed)
    {
      hide Traced, Structure, Filled, Placed, RoomFor, PastEnd, SameBounds, CutBounds, Stripes.Used, Stripes.Valid;
      ghost var v, paged := V(), Paged();
      ShapedTree(0);
      var leafAddr, leaf := FindLeaf(lowerKey);
      var i := FindPageInLeaf(leaf, lowerKey);
      FindsPage(v, pageAddr, lowerKey);
      assert PageIn(v, leafAddr, i, pageAddr);
      if i == |leaf.children| || leaf.children[i] != pageAddr {
        assert false; // a page is where its keys lead
      }
      PageBound(v, leafAddr, i, pageAddr);
      var bound := leaf.keys[i];
      leaf := leaf.(keys := leaf.keys[i := lowerKey]);
      ghost var w := v.(nodes := nodes[leafAddr := leaf], filed := filed[pageAddr := filed[pageAddr].(hi := lowerKey)]);
      AddPageAfterRoom(layout, cursor, v, w, leafAddr, i, pageAddr, lowerKey, newKey, M, paged, deleted);
      MarkNode(leafAddr, leaf);
      filed := filed[pageAddr := filed[pageAddr].(hi := lowerKey)];
      assert V() == w && Paged() == paged;
      ghost var before := filed;
      AddPage(leaf, leafAddr, if newKey > bound then newKey else bound, newAddr, lowerKey);
      SameBoundsAfter(v.filed, before, filed, pageAddr, lowerKey, newAddr, Max(bound, newKey));
      ok := true;
    }

    // ---- inserting a record

    /** What every table operation keeps: the tree is sound, and its pages hold exactly the table's contents. */
    ghost predicate Valid()
      reads this
    {
      Shaped(0) && Traced() && Stored(pages, filed, contents) && AllFit(keySize, capacity, pages, filed, -1)
    }

    lemma ValidParts()
      requires Valid()
      ensures Traced()
      ensures Shaped(0) && Stored(pages, filed, contents) && AllFit(keySize, capacity, pages, filed, -1) && Structure(V(), 0)
    {
    }

    lemma IsValid()
      requires Traced()
      requires Shaped(0) && Stored(pages, filed, contents) && AllFit(keySize, capacity, pages, filed, -1)
      ensures Valid()
    {
    }

    /** Settles the bounds so that there is a place for k. */
    ghost method WidenFor(k: Key)
      requires Valid()
      modifies this`spans, this`filed
      ensures Valid() && PlaceFor(V(), k) && BoundsKept(old(filed), filed)
    {
      ghost var v, paged := V(), Paged();
      ghost var w := Widen(v, k);
      WidenedShape(layout, cursor, v, w, M, paged, deleted);
      WiderBounds(pages, v.filed, w.filed, contents, keySize, capacity, -1);
      hide Structure, Filled, Placed, Stored, AllFit, PlaceFor, Widened, BoundsKept;
      spans, filed := w.spans, w.filed;
      assert V() == w && Paged() == paged;
    }

    /** Files the last page of a leaf under key, past all its keys, and tells the leaf's ancestors. */
    method StretchLeaf(leafAddr: Addr, leaf0: Node, i: nat, key: Key)
      requires Shaped(0) && leafAddr in spans && nodes[leafAddr] == leaf0 && leaf0.isLeaf
      requires |leaf0.children| == |leaf0.keys| == i + 1 && PastEnd(V(), leaf0.children[i], key)
      requires leaf0.children[i] in filed && filed[leaf0.children[i]].hi < key <= spans[leafAddr].hi
      requires Traced()
      modifies this`nodes, this`trace, this`filed
      ensures Traced()
      ensures Shaped(0) && filed == Stretch(old(filed), leaf0.children[i], key)
    {
      hide Traced, SameParents, Filled, Placed, Structure, Stripes.Used, Climbable, PropagateUp;
      ghost var v, paged := V(), Paged();
      ShapedTree(0);
      var leaf := leaf0.(keys := leaf0.keys[i := key], maxKey := key);
      LeafClimbs(v, leafAddr, leaf);
      MarkNode(leafAddr, leaf);
      PropagateMaxKeyUp(leafAddr, key, spans, v.spans[v.root].h, v.spans[v.root].h);
      ghost var w := v.(nodes := nodes, filed := Stretch(filed, leaf.children[i], key));
      assert Stretching(v, w, leafAddr, leaf.children[i], key);
      StretchingShape(layout, cursor, v, w, leafAddr, leaf.children[i], key, M, paged, deleted);
      filed := w.filed;
      assert V() == w && Paged() == paged;
    }

    /** Adds a record to a page that has room for it, the i-th of its leaf. */
    method AddToPage(record: Record, leafAddr: Addr, leaf: Node, i: nat, pastEnd: bool)
      requires Valid() && PlaceFor(V(), record.key) && leafAddr == LeafFor(V(), record.key)
      requires leafAddr in nodes && nodes[leafAddr] == leaf && |leaf.children| == |leaf.keys| > 0
      requires i == Target(leaf, record.key) && pastEnd == (Route(leaf.keys, record.key) == |leaf.children|)
      requires leaf.children[i] in pages && record.key !in contents
      requires Used(keySize, pages[leaf.children[i]]) + RecordBytes(keySize, record) <= capacity
      modifies this`pages, this`trace, this`nodes, this`filed, this`contents
      ensures Valid() && contents == old(contents)[record.key := record]
    {
      ValidParts();
      var pageAddr := leaf.children[i];
      ghost var q := KeyPlace(V(), record.key, pages, contents);
      InsertStored(pages, filed, contents, q, record, keySize, capacity);
      ghost var stretched := Stretch(filed, q, record.key);
      var p := pages[pageAddr];
      hide Stored, AllFit, PlaceFor, Position, InsertAt, Used, Filled, Placed, PageSound, Route, Structure;
      pages := pages[pageAddr := InsertAt(p, Position(p, record.key), record)];
      assert Paged() == old(Paged());
      if pastEnd {
        StretchLeaf(leafAddr, leaf, i, record.key);
      } else {
        assert stretched == filed;
      }
      contents := contents[record.key := record];
    }

    /** Stores the two pages a page has been divided into, the upper one under a new address. */
    method FileCut(pageAddr: Addr, lower: seq<Record>, upper: seq<Record>) returns (upperAddr: Addr)
      requires Shaped(0) && pageAddr in filed && pageAddr in pages && lower != [] && upper != []
      requires filed[pageAddr].lo < Last(lower).key <= filed[pageAddr].hi && Last(lower).key < Last(upper).key
      requires Last(upper).key <= filed[pageAddr].hi || PastEnd(V(), pageAddr, Last(upper).key)
      requires Traced()
      modifies this`nodes, this`trace, this`cursor, this`root, this`spans, this`filed, this`held, this`pages
      ensures Traced()
      ensures Shaped(0) && upperAddr !in old(filed) && upperAddr != pageAddr && upperAddr !in old(pages)
      ensures pages == old(pages)[pageAddr := lower][upperAddr := upper]
      ensures SameBounds(CutBounds(old(filed), pageAddr, upperAddr, Last(lower).key, Max(old(filed)[pageAddr].hi, Last(upper).key)), filed)
    {
      hide Traced;
      ShapedTree(0);
      hide Shaped, Structure, Filled, Placed, SameBounds, CutBounds, Max, PastEnd;
      upperAddr := AllocPage();
      MarkPage(pageAddr, lower);
      MarkPage(upperAddr, upper);
      var ok := AddPageAfter(pageAddr, Last(lower).key, upperAddr, Last(upper).key);
    }

    /** Divides a full page in two to make room for a record, and adds the record if it can. */
    method InsertSplitting(record: Record, pageAddr: Addr) returns (inserted: bool)
      requires Valid() && Insertable(pages, filed, contents, pageAddr, record)
      requires record.key <= filed[pageAddr].hi || PastEnd(V(), pageAddr, record.key)
      requires pages[pageAddr] != [] && RecordBytes(keySize, record) <= capacity
      modifies this
      ensures Valid() && contents == if inserted then old(contents)[record.key := record] else old(contents)
      ensures old(Position(pages[pageAddr], record.key)) == 0 ==> inserted
      ensures !inserted ==> ReadyFor(pages, filed, record.key)
    {
      hide Stored, AllFit, Position, InsertAt, Used, Structure, Placed, Filled, PastEnd, SameBounds, CutBounds, RecordBytes, ReadyFor, SortedRecords, Shaped;
      ValidParts();
      FitsAt(pages, filed, pageAddr, keySize, capacity);
      var p, pos := pages[pageAddr], Position(pages[pageAddr], record.key);
      assert Used(keySize, p) <= capacity && capacity < 0xFFFF_FFFF;
      var lower, upper;
      lower, upper, inserted := DividePage(p, record, pos);
      ghost var before, f, v, c := pages, filed, V(), contents;
      CutOrder(pages, f, pageAddr, record, inserted, lower, upper);
      assert Last(upper).key <= f[pageAddr].hi || PastEnd(v, pageAddr, Last(upper).key);
      assert pageAddr in filed && pageAddr in pages && PageSound(pages, f, pageAddr);
      contents := if inserted then c[record.key := record] else c;
      var upperAddr := FileCut(pageAddr, lower, upper);
      InsertCut(before, f, c, pageAddr, upperAddr, record, inserted, lower, upper, filed, keySize, capacity);
      CutReady(before, f, pages, filed, pageAddr, upperAddr, pos, record.key, lower, upper);
      IsValid();
      if !inserted { IsReady(pages, filed, upperAddr, record.key); }
    }

    /** The records of the two pages a full page is divided into. */
    method DividePage(p: seq<Record>, record: Record, pos: nat) returns (lower: seq<Record>, upper: seq<Record>, inserted: bool)
      requires p != [] && pos == Position(p, record.key) && capacity < 0xFFFF_FFFF
      requires Used(keySize, p) <= capacity && RecordBytes(keySize, record) <= capacity
      ensures lower != [] && upper != [] && Used(keySize, lower) <= capacity && Used(keySize, upper) <= capacity
      ensures lower + upper == if inserted then InsertAt(p, pos, record) else p
      ensures !inserted ==> 0 < pos < |p| && lower == p[..pos] && upper == p[pos..]
    {
      inserted := true;
      hide Used, InsertAt, RecordBytes;
      if pos == |p| {
        lower, upper := p, [record];
        StartsNewPage(keySize, p, record);
      } else {
        var found, keep, recordInUpper := ChooseSplit(keySize, capacity, p, Incoming(pos, RecordBytes(keySize, record)));
        if found {
          lower, upper := p[..keep], p[keep..];
          LegalCuts(keySize, capacity, p, record, keep, recordInUpper);
          hide Position;
          if recordInUpper {
            upper := InsertAt(upper, Position(upper, record.key), record);
          } else {
            lower := InsertAt(lower, Position(lower, record.key), record);
          }
        } else {
          if pos == 0 { FirstAlwaysSplits(keySize, capacity, p, RecordBytes(keySize, record)); }
          lower, upper := p[..pos], p[pos..];
          UsedCut(keySize, p, pos);
          inserted := false;
        }
      }
    }

    /** One round of inserting a record: 0 inserted, 1 its key is there already, 3 it is too large for a page.
        The round may only divide the page where the record belongs; the next one then finishes. */
    method InsertRound(record: Record) returns (out: nat, done: bool)
      requires Valid()
      modifies this
      ensures Valid()
      ensures old(ReadyFor(pages, filed, record.key)) ==> done
      ensures !done ==> ReadyFor(pages, filed, record.key) && contents == old(contents)
      ensures !done ==> RecordBytes(keySize, record) <= capacity && record.key !in contents
      ensures done ==> out == Outcome(old(contents), record)
      ensures done ==> contents == if out == 0 then old(contents)[record.key := record] else old(contents)
      ensures done && out != 0 ==> nodes == old(nodes) && pages == old(pages) && root == old(root) && deleted == old(deleted) && cursor == old(cursor)
    {
      ValidParts();
      hide Structure, Stored, AllFit, Filled, Placed, Position, Used, RecordBytes, InsertAt, PlaceFor, Route, PageSound;
      var key := record.key;
      ghost var before := filed;
      WidenFor(key);
      StillReady(pages, before, filed, key);
      ValidParts();
      var leafAddr, leaf := FindLeaf(key);
      var i := FindPageInLeaf(leaf, key);
      // past all keys filed in its leaf, the record is appended to the leaf's last page
      var pastEnd := i == |leaf.children|;
      if pastEnd { i := |leaf.children| - 1; }
      var pageAddr := leaf.children[i];
      ghost var q := KeyPlace(V(), key, pages, contents);
      ReadyHere(V(), pages, q, key);
      var p := pages[pageAddr];
      var needed := RecordBytes(keySize, record);
      if needed > capacity { return 3, true; }
      if Holds(p, key) { return 1, true; }
      EmptyUses(keySize, p);
      if Used(keySize, p) + needed <= capacity {
        AddToPage(record, leafAddr, leaf, i, pastEnd);
        return 0, true;
      }
      if |p| == 0 {
        assert false; // an empty page has room for any record that fits in a page
      }
      out := 0;
      done := InsertSplitting(record, pageAddr);
    }

    ghost function Outcome(before: map<Key, Record>, record: Record): nat {
      if RecordBytes(keySize, record) > capacity then 3 else if record.key in before then 1 else 0
    }

    /** Inserts a record: 0 inserted, 1 its key is there already, 3 it is too large for a page. */
    method InsertRecord(record: Record) returns (out: nat)
      requires Valid()
      modifies this
      ensures Valid() && out == Outcome(old(contents), record)
      ensures contents == if out == 0 then old(contents)[record.key := record] else old(contents)
      ensures out != 0 ==> nodes == old(nodes) && pages == old(pages) && root == old(root) && deleted == old(deleted) && cursor == old(cursor)
    {
      var attempt := 0;
      hide *;
      while attempt < 3
        invariant attempt <= 1 && Valid() && contents == old(contents)
        invariant attempt == 0 ==> nodes == old(nodes) && pages == old(pages) && root == old(root) && deleted == old(deleted) && cursor == old(cursor)
        invariant attempt == 1 ==> ReadyFor(pages, filed, record.key) && Outcome(contents, record) == 0
      {
        var done;
        out, done := InsertRound(record);
        if done { return; }
        WouldFit(record);
        attempt := attempt + 1;
      }
      assert false; // the second round always finishes
    }

    lemma WouldFit(record: Record)
      ensures RecordBytes(keySize, record) <= capacity && record.key !in contents ==> Outcome(contents, record) == 0
    {
    }

    /** The page that covers key and the leaf it is in, or 0 if key is above every key in the tree. */
    method FindPage(key: Key) returns (addr: Addr, leafAddr: Addr)
      requires Valid()
      ensures addr == 0 ==> key !in contents
      ensures addr != 0 ==> addr in filed && filed[addr].leaf == leafAddr && Looked(pages, filed, contents, addr, key)
    {
      ValidParts();
      NotAddressed();
      hide Structure, Stored, AllFit, Filled, Placed;
      var leaf;
      leafAddr, leaf := FindLeaf(key);
      var i := FindPageInLeaf(leaf, key);
      KeyLookup(V(), key, pages, contents);
      addr := if i == |leaf.children| then 0 else leaf.children[i];
    }

    /** No page is at address 0, where the file's header is. */
    lemma NotAddressed()
      requires Shaped(0)
      ensures 0 !in filed && 0 !in pages
    {
      hide Structure, Filled;
      if 0 in filed || 0 in pages { Stripes.NeverZero(layout, cursor); }
    }

    /** Whether the table holds a record with this key. */
    method SearchRecord(key: Key) returns (found: bool)
      requires Valid()
      ensures found == (key in contents)
    {
      var addr, leafAddr := FindPage(key);
      if addr == 0 { return false; }
      found := Holds(pages[addr], key);
    }

    /** The record with this key, if there is one. */
    method ReadRecord(key: Key) returns (r: Option<Record>)
      requires Valid()
      ensures r == if key in contents then Some(contents[key]) else None
    {
      ValidParts();
      var addr, leafAddr := FindPage(key);
      if addr == 0 { return None; }
      var p := pages[addr];
      r := if Holds(p, key) then Some(p[Position(p, key)]) else None;
    }

    // ---- changing a record

    /** The cut is the most even of those that leave two pages that fit or, if there is none, leaves all the first page has room for. */
    ghost predicate CutWell(current: seq<Record>, keep: nat) {
      && 0 < keep < |current|
      && if exists k: nat :: Legal(keySize, capacity, current, Nobody, k, false)
         then Legal(keySize, capacity, current, Nobody, keep, false)
              && forall k: nat {:trigger Legal(keySize, capacity, current, Nobody, k, false)} :: Legal(keySize, capacity, current, Nobody, k, false) ==>
                   Uneven(keySize, current, Nobody, keep, false) <= Uneven(keySize, current, Nobody, k, false)
         else Used(keySize, current[..keep + 1]) > capacity
    }

    /** Where an over-full page is cut: as evenly as can be or, if no two pages can hold its records, after as
        many as one page can. */
    method ChooseCut(current: seq<Record>) returns (keep: nat)
      requires capacity < 0xFFFF_FFFF && Used(keySize, current) > capacity
      requires forall i {:trigger current[i]} :: 0 <= i < |current| ==> RecordBytes(keySize, current[i]) <= capacity
      ensures 0 < keep < |current| && Used(keySize, current[..keep]) <= capacity
      ensures CutWell(current, keep)
    {
      var found, unused;
      found, keep, unused := ChooseSplit(keySize, capacity, current, Nobody);
      if found {
        UsedAny(keySize, current[..keep]);
        UsedAny(keySize, current[keep..]);
        return;
      }
      hide RecordBytes;
      var room := 0;
      keep := 0;
      UsedCut(keySize, current, 0);
      while keep < |current|
        invariant keep <= |current| && room == Used(keySize, current[..keep]) <= capacity
      {
        UsedCut(keySize, current, keep);
        room := room + RecordBytes(keySize, current[keep]);
        if room > capacity { break; }
        keep := keep + 1;
      }
      assert current[..|current|] == current;
      if keep == 0 {
        assert false; // every record fits in a page on its own
      }
    }

    /** The table, were page a to hold recs, holds its contents, in pages that all fit but perhaps a. */
    ghost predicate WouldHold(a: Addr, recs: seq<Record>)
      reads this
    {
      && Shaped(0) && Traced() && a in filed && a in Paged() && recs != []
      && Stored(pages[a := recs], filed, contents) && AllFit(keySize, capacity, pages[a := recs], filed, a)
    }

    /** Cuts an over-full page in memory in two, and stores the lower part. */
    method CutOff(current: seq<Record>, currentAddr: Addr, keep: nat) returns (upper: seq<Record>, upperAddr: Addr)
      requires WouldHold(currentAddr, current) && 0 < keep < |current| && Used(keySize, current[..keep]) <= capacity
      modifies this`nodes, this`trace, this`cursor, this`root, this`spans, this`filed, this`held, this`pages
      ensures upper == current[keep..] && WouldHold(upperAddr, upper)
    {
      hide Structure, Stored, AllFit, Filled, Placed, Shaped, WouldHold, SameBounds, CutBounds, SortedRecords, Used, PageSound;
      ghost var f, lower, p := filed, current[..keep], pages;
      upper := current[keep..];
      assert current == lower + upper;
      HoldsNow(currentAddr, current);
      CutKeys(p[currentAddr := current], f, currentAddr, lower, upper);
      upperAddr := AllocPage();
      MarkPage(currentAddr, current[..keep]);
      var ok := AddPageAfter(currentAddr, Last(current[..keep]).key, upperAddr, Last(upper).key);
      CutOffHolds(p, f, currentAddr, upperAddr, lower, upper, filed, contents, keySize, capacity);
      WillHold(upperAddr, upper);
    }

    lemma HoldsNow(a: Addr, recs: seq<Record>)
      requires WouldHold(a, recs)
      ensures Shaped(0) && Traced() && M >= 4 && capacity < 0xFFFF_FFFF && a in filed && a in Paged() && recs != []
      ensures Placed(layout, cursor, V(), Paged(), deleted)
      ensures Stored(pages[a := recs], filed, contents) && AllFit(keySize, capacity, pages[a := recs], filed, a)
      ensures PageSound(pages[a := recs], filed, a)
    {
      assert PageSound(pages[a := recs], filed, a);
    }

    lemma WillHold(a: Addr, recs: seq<Record>)
      requires Shaped(0) && Traced() && a in filed && a in Paged() && recs != []
      requires Stored(pages[a := recs], filed, contents) && AllFit(keySize, capacity, pages[a := recs], filed, a)
      ensures WouldHold(a, recs)
    {
    }

    /** Stores a page whose records have been changed in memory, in as many pages as it takes. */
    method StorePage(p: seq<Record>, pageAddr: Addr) returns (ok: bool, split: bool)
      requires WouldHold(pageAddr, p)
      modifies this`nodes, this`trace, this`cursor, this`root, this`spans, this`filed, this`held, this`pages
      ensures ok <==> AllSmall(keySize, capacity, p)
      ensures ok ==> Valid()
      ensures split <==> ok && Used(keySize, p) > capacity
      ensures ok && !split ==> V() == old(V()) && pages == old(pages)[pageAddr := p] && cursor == old(cursor)
      ensures !ok ==> V() == old(V()) && pages == old(pages) && cursor == old(cursor) && held == old(held) && trace == old(trace)
    {
      HoldsNow(pageAddr, p);
      split := false;
      if Used(keySize, p) <= capacity {
        EachSmall(keySize, capacity, p);
        MarkFitting(p, pageAddr);
        return true, false;
      }
      // nothing has been stored yet if one of the records fits no page
      var i := 0;
      while i < |p|
        invariant 0 <= i <= |p| && forall j {:trigger p[j]} :: 0 <= j < i ==> RecordBytes(keySize, p[j]) <= capacity
      {
        if RecordBytes(keySize, p[i]) > capacity { return false, false; }
        i := i + 1;
      }
      split := true;
      var current, currentAddr := p, pageAddr;
      while Used(keySize, current) > capacity
        invariant WouldHold(currentAddr, current) && AllSmall(keySize, capacity, current)
        decreases |current|
      {
        HoldsNow(currentAddr, current);
        var keep := ChooseCut(current);
        current, currentAddr := CutOff(current, currentAddr, keep);
      }
      MarkFitting(current, currentAddr);
      ok := true;
    }

    method MarkFitting(p: seq<Record>, pageAddr: Addr)
      requires WouldHold(pageAddr, p) && Used(keySize, p) <= capacity
      modifies this`pages
      ensures Valid() && pages == old(pages)[pageAddr := p]
    {
      HoldsNow(pageAddr, p);
      FitsToo(pages[pageAddr := p], filed, pageAddr, keySize, capacity);
      hide *;
      MarkPage(pageAddr, p);
      IsValid();
    }

    /** Replaces the first entries of the record with this key, if there is one with that many and the new ones fit. */
    method UpdateRecord(record: Record) returns (out: bool)
      requires Valid()
      modifies this
      ensures Valid() && out == CanUpdate(old(contents), record)
      ensures contents == if out then old(contents)[record.key := Updated(old(contents), record)] else old(contents)
      ensures !out ==> nodes == old(nodes) && pages == old(pages) && root == old(root) && deleted == old(deleted) && cursor == old(cursor)
    {
      var key := record.key;
      out := false;
      var addr, leafAddr := FindPage(key);
      if addr == 0 { return; }
      ValidParts();
      var p := pages[addr];
      var index := Position(p, key);
      if index < |p| && p[index].key == key && |p[index].entries| >= |record.entries| {
        var size := UpdatedSize(p[index].entries, record.entries);
        if keySize + 12 + 6 * |p[index].entries| + size <= capacity {
          var r := Record(key, Overwrite(p[index].entries, record.entries));
          UpdateHolds(V(), pages, contents, addr, index, r, keySize, capacity);
          UpdateSmall(pages, filed, addr, index, r, keySize, capacity);
          ghost var c := contents[key := r];
          hide Structure, Stored, AllFit, Shaped, AllSmall, Filled, Placed, Overwrite, Position, Used;
          contents := c;
          WillHold(addr, p[index := r]);
          var split;
          out, split := StorePage(p[index := r], addr);
        }
      }
    }

    method UpdatedSize(entries: seq<Entry>, new_: seq<Entry>) returns (size: nat)
      requires |new_| <= |entries|
      ensures size == Size(Overwrite(entries, new_))
    {
      size := Size(entries);
      assert Overwrite(entries, new_[..0]) == entries;
      var i := 0;
      while i < |new_|
        invariant 0 <= i <= |new_| && size == Size(Overwrite(entries, new_[..i]))
      {
        OverwriteNext(entries, new_, i);
        size := size + |new_[i].data| - |entries[i].data|;
        i := i + 1;
      }
      assert new_[..i] == new_;
    }

    ghost predicate CanUpdate(before: map<Key, Record>, record: Record) {
      && record.key in before && |record.entries| <= |before[record.key].entries|
      && RecordBytes(keySize, Updated(before, record)) <= capacity
    }

    /** The record as an update leaves it: entries the update doesn't reach stay as they were. */
    ghost function Updated(before: map<Key, Record>, record: Record): Record
      requires record.key in before && |record.entries| <= |before[record.key].entries|
    {
      Record(record.key, Overwrite(before[record.key].entries, record.entries))
    }

    // ---- deletion

    /** The child after n in its parent, or 0. */
    method GetNextInternal(n: Node, nAddr: Addr) returns (out: Addr)
      requires n.parent != 0 ==> n.parent in nodes
      ensures out == NextOf(nodes, n.parent, nAddr)
    {
      if n.parent == 0 { return 0; }
      var parent := nodes[n.parent];
      var i := 0;
      while i < |parent.children| - 1
        invariant 0 <= i <= |parent.children|
        invariant forall j :: 0 <= j < i && j < |parent.children| ==> parent.children[j] != nAddr
      {
        if parent.children[i] == nAddr {
          IndexFound(parent.children, nAddr, i);
          return parent.children[i + 1];
        }
        i := i + 1;
      }
      out := 0;
    }

    /** The child before n in its parent, or 0. */
    method GetPrevInternal(n: Node, nAddr: Addr) returns (out: Addr)
      requires n.parent != 0 ==> n.parent in nodes && |nodes[n.parent].children| > 0
      ensures out == PrevOf(nodes, n.parent, nAddr)
    {
      if n.parent == 0 { return 0; }
      var parent := nodes[n.parent];
      var i := 1;
      while i < |parent.children|
        invariant 1 <= i <= |parent.children|
        invariant forall j :: 0 <= j < i - 1 ==> parent.children[1..][j] != nAddr
      {
        if parent.children[i] == nAddr {
          IndexFound(parent.children[1..], nAddr, i - 1);
          return parent.children[i - 1];
        }
        assert parent.children[1..][i - 1] == parent.children[i];
        i := i + 1;
      }
      out := 0;
    }

    /** Where a is among the children. It is no earlier than from. */
    method SeekChild(children: seq<Addr>, a: Addr, from: nat, end: nat) returns (i: nat)
      requires from <= IndexIn(children, a) <= end <= |children|
      ensures i == IndexIn(children, a)
    {
      i := from;
      while i < end && children[i] != a
        invariant from <= i <= IndexIn(children, a)
      {
        i := i + 1;
      }
    }

    /** Stores two siblings that share their children anew, and their parent with the separator between them. */
    method MarkSharers(nAddr: Addr, n: Node, sibAddr: Addr, sib: Node, parent: Node)
      requires Traced() && nAddr in nodes && sibAddr in nodes && n.parent in nodes && nAddr != sibAddr && n.parent !in {nAddr, sibAddr}
      requires n.parent == nodes[nAddr].parent && sib.parent == nodes[sibAddr].parent && parent.parent == nodes[n.parent].parent
      modifies this`nodes, this`trace
      ensures Traced() && nodes == old(nodes)[nAddr := n][sibAddr := sib][n.parent := parent]
    {
      hide Traced;
      MarkNode(nAddr, n);
      MarkNode(sibAddr, sib);
      MarkNode(n.parent, parent);
    }

    /** What sharing the pages of sibling leaves does to the table. */
    lemma SharedLeavesShape(v: View, p: Addr, i: nat, x: Addr, y: Addr, m: nat)
      requires M >= 4 && capacity < 0xFFFF_FFFF && Structure(v, 0) && LeavesShared(v, V(), p, i, x, y, m)
      requires Filled(v, M, 0) && Placed(layout, cursor, v, Paged(), deleted) && nodes.Keys == v.nodes.Keys
      requires M / 2 <= m <= M && M / 2 <= |v.nodes[x].children| + |v.nodes[y].children| - m <= M
      ensures Shaped(0)
      ensures m > |v.nodes[x].children| ==> TakesOver(v, V(), x, x) && |V().nodes[x].children| == m
      ensures m < |v.nodes[x].children| ==> TakesOver(v, V(), y, y) && |V().nodes[y].children| == |v.nodes[x].children| + |v.nodes[y].children| - m
    {
      ghost var w := V();
      ShareLeavesKeeps(v, w, p, i, x, y, m);
      LeavesSharedState(v, w, p, i, x, y, m, M);
      SharedTakesOver(v, w, p, i, x, y, m);
      hide Structure, Filled, LeavesShared, TakesOver, Stripes.Used, Stripes.Valid;
      assert Placed(layout, cursor, w, Paged(), deleted);
    }

    /** Moves the next leaf's first page to n, as its last. */
    method BorrowNext(n0: Node, nAddr: Addr, next0: Node, nextAddr: Addr, ghost j: nat)
      requires Shaped(0) && n0.isLeaf && |n0.children| == M / 2 && |next0.children| > M / 2
      requires Beside(V(), nodes, n0.parent, j, nAddr, nextAddr, nAddr, M) && nodes[nAddr] == n0 && nodes[nextAddr] == next0
      requires Traced()
      modifies this`nodes, this`trace, this`spans, this`filed
      ensures Traced()
      ensures Shaped(0) && TakesOver(old(V()), V(), nAddr, nAddr) && nAddr in nodes && |nodes[nAddr].children| > M / 2
      ensures LeavesShared(old(V()), V(), n0.parent, j, nAddr, nextAddr, |n0.children| + 1)
    {
      hide Structure, Siblings, Shaped, Filled, Placed, LeavesShared, TakesOver, IndexIn, Traced, KeepsTop;
      ghost var v := V();
      ShapedTree(0);
      ghost var w := NextReady(v, n0.parent, j, nAddr, nextAddr);
      var borrowedAddr := next0.children[0];
      var n := n0.(children := n0.children + [borrowedAddr], keys := n0.keys + [next0.keys[0]]);
      n := n.(maxKey := Last(n.keys));
      var next := next0.(children := next0.children[1..], keys := next0.keys[1..]);
      // the separator to lower is the one after n, wherever n is among the children
      var parent := nodes[n.parent];
      var i := SeekChild(parent.children, nAddr, 0, |parent.children| - 1);
      parent := parent.(keys := parent.keys[i := n.maxKey]);
      MarkSharers(nAddr, n, nextAddr, next, parent);
      spans, filed := w.spans, w.filed;
      assert V() == w;
      SharedLeavesShape(v, n0.parent, j, nAddr, nextAddr, |n0.children| + 1);
    }

    /** Moves the previous leaf's last page to n, as its first. */
    method BorrowPrev(n0: Node, nAddr: Addr, prev0: Node, prevAddr: Addr, ghost j: nat)
      requires Shaped(0) && n0.isLeaf && |n0.children| == M / 2 && |prev0.children| > M / 2
      requires Beside(V(), nodes, n0.parent, j, prevAddr, nAddr, nAddr, M) && nodes[nAddr] == n0 && nodes[prevAddr] == prev0
      requires Traced()
      modifies this`nodes, this`trace, this`spans, this`filed
      ensures Traced()
      ensures Shaped(0) && TakesOver(old(V()), V(), nAddr, nAddr) && nAddr in nodes && |nodes[nAddr].children| > M / 2
      ensures LeavesShared(old(V()), V(), n0.parent, j, prevAddr, nAddr, |prev0.children| - 1)
    {
      hide Structure, Siblings, Shaped, Filled, Placed, LeavesShared, TakesOver, IndexIn, Traced, KeepsTop;
      ghost var v := V();
      ShapedTree(0);
      ghost var w := PrevReady(v, n0.parent, j, prevAddr, nAddr);
      var last := |prev0.children| - 1;
      var n := n0.(children := [prev0.children[last]] + n0.children, keys := [prev0.keys[last]] + n0.keys);
      var prev := prev0.(children := prev0.children[..last], keys := prev0.keys[..last]);
      // what is left of prev ends at its new last key
      prev := prev.(maxKey := Last(prev.keys));
      var parent := nodes[n.parent];
      var i := SeekChild(parent.children, prevAddr, 0, |parent.children| - 1);
      parent := parent.(keys := parent.keys[i := prev.maxKey]);
      MarkSharers(nAddr, n, prevAddr, prev, parent);
      spans, filed := w.spans, w.filed;
      assert V() == w;
      SharedLeavesShape(v, n0.parent, j, prevAddr, nAddr, |prev0.children| - 1);
    }

    /** The tree with n in place of what is stored at a. */
    ghost function With(a: Addr, n: Node): View
      reads this`nodes, this`root, this`spans, this`filed
    {
      View(nodes[a := n], root, spans, filed)
    }

    /** Moves the next inner node's first child to n, as its last. n is ahead of what is stored. */
    method BorrowNextThroughParent(n0: Node, nAddr: Addr, next0: Node, nextAddr: Addr, ghost j: nat)
      requires Shrunk(nAddr, n0) && !n0.isLeaf && |n0.children| == M / 2 - 1
      requires Beside(With(nAddr, n0), nodes, n0.parent, j, nAddr, nextAddr, nAddr, M) && nodes[nextAddr] == next0 && |next0.children| > M / 2
      requires Traced()
      modifies this`nodes, this`trace, this`spans
      ensures Traced()
      ensures Shaped(0) && Beneath(old(With(nAddr, n0)), V(), old(spans[nAddr].h))
      ensures InnersShared(old(With(nAddr, n0)), V(), n0.parent, j, nAddr, nextAddr, |n0.children| + 1)
    {
      hide Structure, Siblings, Shrunk, Shaped, Filled, Placed, InnersShared, Beneath, IndexIn, LendFirst, Traced;
      ghost var v := With(nAddr, n0);
      ShrunkParts(nAddr, n0);
      ghost var w := LendFirstReady(v, nodes, n0, n0.parent, j, nAddr, nextAddr);
      var n, next := n0, next0;
      var parent := nodes[n.parent];
      var i := SeekChild(parent.children, nAddr, 0, |parent.children|);
      n := n.(keys := n.keys + [parent.keys[i]]);
      parent := parent.(keys := parent.keys[i := next.keys[0]]);
      var borrowedAddr := next.children[0];
      n := n.(children := n.children + [borrowedAddr]);
      var borrowed := nodes[borrowedAddr];
      n := n.(maxKey := borrowed.maxKey);
      borrowed := borrowed.(parent := nAddr);
      MarkNode(borrowedAddr, borrowed);
      next := next.(keys := next.keys[1..], children := next.children[1..]);
      MarkSharers(nAddr, n, nextAddr, next, parent);
      spans := w.spans;
      assert V() == w;
      SharedInnersShape(v, n0.parent, j, nAddr, nextAddr, |n0.children| + 1, nAddr);
    }

    /** Moves the previous inner node's last child to n, as its first. n is ahead of what is stored. */
    method BorrowPrevThroughParent(n0: Node, nAddr: Addr, prev0: Node, prevAddr: Addr, ghost j: nat)
      requires Shrunk(nAddr, n0) && !n0.isLeaf && |n0.children| == M / 2 - 1
      requires Beside(With(nAddr, n0), nodes, n0.parent, j, prevAddr, nAddr, nAddr, M) && nodes[prevAddr] == prev0 && |prev0.children| > M / 2
      requires Traced()
      modifies this`nodes, this`trace, this`spans
      ensures Traced()
      ensures Shaped(0) && Beneath(old(With(nAddr, n0)), V(), old(spans[nAddr].h))
      ensures InnersShared(old(With(nAddr, n0)), V(), n0.parent, j, prevAddr, nAddr, |prev0.children| - 1)
    {
      hide Structure, Siblings, Shrunk, Shaped, Filled, Placed, InnersShared, Beneath, IndexIn, LendLast, Traced;
      ghost var v := With(nAddr, n0);
      ShrunkParts(nAddr, n0);
      ghost var w := LendLastReady(v, nodes, n0, n0.parent, j, prevAddr, nAddr);
      var n, prev := n0, prev0;
      var parent := nodes[n.parent];
      var i := SeekChild(parent.children, nAddr, 1, |parent.children|);
      n := n.(keys := [parent.keys[i - 1]] + n.keys);
      var last := |prev.children| - 1;
      var borrowedAddr := prev.children[last];
      n := n.(children := [borrowedAddr] + n.children);
      parent := parent.(keys := parent.keys[i - 1 := prev.keys[last - 1]]);
      // what is left of prev ends at its new last key
      prev := prev.(maxKey := prev.keys[last - 1], children := prev.children[..last], keys := prev.keys[..last - 1]);
      if borrowedAddr in nodes { MarkNode(borrowedAddr, nodes[borrowedAddr].(parent := nAddr)); }
      MarkSharers(nAddr, n, prevAddr, prev, parent);
      spans := w.spans;
      assert V() == w;
      SharedInnersShape(v, n0.parent, j, prevAddr, nAddr, |prev0.children| - 1, nAddr);
    }

    /** Empties source, whose children survivor has taken over, and takes it out of its parent, which isn't stored yet. */
    method DropSource(survivor0: Node, survAddr: Addr, source0: Node, sourceAddr: Addr, ghost j: nat, ghost up: map<Addr, Span>, ghost top: nat)
      returns (parent: Node)
      requires survivor0.parent in nodes && survivor0.parent != 0 && survAddr != sourceAddr && survivor0.parent !in {survAddr, sourceAddr}
      requires var p := nodes[survivor0.parent];
               |p.children| == |p.keys| + 1 && j + 1 < |p.children| && IndexIn(p.children, survAddr) == j && IndexIn(p.children, sourceAddr) == j + 1
      requires Climbable(nodes[sourceAddr := Emptied(source0)][survAddr := survivor0.(maxKey := source0.maxKey)], up, top) && survAddr in up && top > 0
      requires Traced()
      requires KeepsTop(nodes, root, sourceAddr, source0) && KeepsTop(nodes, root, survAddr, survivor0)
      modifies this`nodes, this`trace, this`deleted
      ensures Traced()
      ensures survivor0.parent in nodes && nodes[survivor0.parent].parent == parent.parent
      ensures var p := old(nodes)[survivor0.parent];
              && parent == p.(children := RemoveAt(p.children, j + 1), keys := RemoveAt(p.keys, j))
              && survivor0.parent in nodes
              && nodes[survivor0.parent := parent] ==
                   old(nodes)[sourceAddr := Emptied(source0)][survAddr := survivor0.(maxKey := source0.maxKey)][survivor0.parent := parent]
      ensures deleted == old(deleted) + {sourceAddr}
    {
      hide Traced;
      var survivor := survivor0;
      ghost var pAddr := survivor0.parent;
      MarkNode(sourceAddr, Emptied(source0));
      survivor := survivor.(maxKey := source0.maxKey);
      MarkNode(survAddr, survivor);
      ghost var before := nodes;
      MergePropagates(nodes, survAddr, survivor.maxKey, top, pAddr, j);
      hide Climbable, PropagateUp;
      PropagateMaxKeyUp(survAddr, survivor.maxKey, up, top, top);
      parent := nodes[survivor.parent];
      var i := SeekChild(parent.children, sourceAddr, 0, |parent.children|);
      // source is never the first child, whose separator would have been the one at its own index
      parent := parent.(children := RemoveAt(parent.children, i), keys := RemoveAt(parent.keys, i - 1));
      deleted := deleted + {sourceAddr};
      RemoveChanged(old(nodes)[pAddr].keys, j, survivor.maxKey);
    }

    /** The table is sound with n in place of what is stored at a, but n may have too few children. */
    ghost predicate Shrunk(a: Addr, n: Node)
      reads this`nodes, this`root, this`spans, this`filed, this`cursor, this`pages, this`deleted, this`held
    {
      && M >= 4 && capacity < 0xFFFF_FFFF && a in nodes && a in spans && nodes[a].parent == n.parent
      && Structure(With(a, n), 0) && Filled(With(a, n), M, a)
      && Placed(layout, cursor, With(a, n), Paged(), deleted)
    }

    lemma ShrunkParts(a: Addr, n: Node)
      requires Shrunk(a, n)
      ensures M >= 4 && capacity < 0xFFFF_FFFF && a in nodes && a in spans && nodes[a].parent == n.parent
      ensures Structure(With(a, n), 0) && Filled(With(a, n), M, a) && Placed(layout, cursor, With(a, n), Paged(), deleted)
    {
    }

    /** Stores a node that has enough children after all. */
    method StoreShrunk(a: Addr, n: Node)
      requires Shrunk(a, n) && Counted(With(a, n), M, a)
      requires Traced()
      modifies this`nodes, this`trace
      ensures Traced()
      ensures Shaped(0) && V() == old(With(a, n))
    {
      hide Traced;
      ghost var w := With(a, n);
      FilledAgain(w, M, a);
      hide Structure, Filled, Placed, Counted;
      MarkNode(a, n);
      assert V() == w;
    }

    /** What sharing the children of siblings does to the table. */
    lemma SharedInnersShape(v: View, p: Addr, i: nat, x: Addr, y: Addr, m: nat, exc: Addr)
      requires M >= 4 && capacity < 0xFFFF_FFFF && Structure(v, 0) && InnersShared(v, V(), p, i, x, y, m)
      requires Filled(v, M, exc) && (exc == x || exc == y) && Placed(layout, cursor, v, Paged(), deleted) && nodes.Keys == v.nodes.Keys
      requires M / 2 <= m <= M && M / 2 <= |v.nodes[x].children| + |v.nodes[y].children| - m <= M
      ensures Shaped(0) && v.spans[x].h == v.spans[y].h && Beneath(v, V(), v.spans[x].h)
    {
      ghost var w := V();
      SiblingFacts(v, p, i, x, y);
      ShareInnersKeeps(v, w, p, i, x, y, m);
      InnersSharedState(v, w, p, i, x, y, m, M, exc);
      assert w.filed == v.filed;
      hide Structure, Filled, InnersShared, Beneath, Stripes.Used, Stripes.Valid;
      assert Placed(layout, cursor, w, Paged(), deleted);
    }

    /** Gives an inner node that has lost a child its balance back: n, not stored yet, has fewer children than it
        should, or is the root and has one. */
    method BalanceInner(n: Node, addr: Addr) returns (out: Addr)
      requires Shrunk(addr, n) && !n.isLeaf && (if addr == root then |n.children| == 1 else |n.children| == M / 2 - 1)
      requires Traced()
      modifies this`nodes, this`trace, this`root, this`deleted, this`spans, this`filed
      ensures Traced() && old(deleted) <= deleted
      ensures Shaped(0) && Beneath(old(With(addr, n)), V(), old(spans[addr].h))
      ensures if addr == old(root) then root == out == n.children[0] else InnerBalanced(old(With(addr, n)), old(nodes), V(), deleted, addr, out, M)
      decreases spans[root].h - spans[addr].h, 2
    {
      hide Traced, Structure, Filled, Placed, NextOf, PrevOf, Beneath, InnersShared, Shrunk, Shaped, IndexIn, Siblings;
      ghost var v := With(addr, n);
      ShrunkParts(addr, n);
      if addr == root && |n.children| == 1 {
        CollapseRoot(n, addr);
        return n.children[0];
      }
      SiblingPlan(v, nodes, n, addr, M);
      ghost var p, i := n.parent, IndexIn(nodes[n.parent].children, addr);
      var nextAddr := GetNextInternal(n, addr);
      if nextAddr != 0 && |nodes[nextAddr].children| > M / 2 {
        BorrowNextThroughParent(n, addr, nodes[nextAddr], nextAddr, i);
        return addr;
      }
      var prevAddr := GetPrevInternal(n, addr);
      if prevAddr != 0 && |nodes[prevAddr].children| > M / 2 {
        BorrowPrevThroughParent(n, addr, nodes[prevAddr], prevAddr, i - 1);
        return addr;
      }
      out := MergeInner(n, addr);
    }

    /** Gives up a root with one child for that child. */
    method CollapseRoot(n: Node, addr: Addr)
      requires Shrunk(addr, n) && addr == root && !n.isLeaf && |n.children| == 1
      requires Traced()
      modifies this`nodes, this`trace, this`root, this`spans
      ensures Traced()
      ensures root == n.children[0]
      ensures Shaped(0) && Beneath(old(With(addr, n)), V(), old(spans[addr].h))
    {
      hide Traced;
      ghost var v := With(addr, n);
      ShrunkParts(addr, n);
      ChildFacts(v, addr);
      var rAddr := n.children[0];
      var r := nodes[rAddr];
      ghost var w := v.(root := rAddr, nodes := nodes[rAddr := r.(parent := 0)], spans := spans - {root});
      CollapsedShape(layout, cursor, v, w, M, Paged(), deleted);
      hide Structure, Filled, Placed, Beneath;
      ChangeRoot(rAddr);
      r := r.(parent := 0);
      MarkNode(rAddr, r);
      spans := w.spans;
      assert V() == w;
    }

    /** Gives survivor the children of source and, between its own and those, the separator between the two nodes. */
    method TakeChildren(survivor0: Node, survAddr: Addr, source: Node, sourceAddr: Addr, mergeParent: Node, ghost j: nat) returns (survivor: Node)
      requires |mergeParent.children| == |mergeParent.keys| + 1 && j + 1 < |mergeParent.children|
      requires mergeParent.children[j] == survAddr && mergeParent.children[j + 1] == sourceAddr
      requires IndexIn(mergeParent.children, survAddr) == j
      requires |source.children| == |source.keys| + 1
      requires Traced()
      requires survAddr != root && NoneUnder(nodes, source.children, root)
      modifies this`nodes, this`trace
      ensures Traced()
      ensures TurnedTo(old(nodes), nodes, survAddr)
      ensures nodes == Reparent(old(nodes), source.children, survAddr)
      ensures survivor == survivor0.(children := survivor0.children + source.children,
                                     keys := survivor0.keys + [mergeParent.keys[j]] + source.keys)
    {
      hide Traced, Reparent;
      NoneReparented(nodes, survAddr);
      assert source.children[..0] == [];
      var boundaryKey := 0;
      var i := 0;
      while i < |mergeParent.children| - 1
        invariant 0 <= i <= j
      {
        if mergeParent.children[i] == survAddr && mergeParent.children[i + 1] == sourceAddr {
          boundaryKey := mergeParent.keys[i];
          break;
        }
        i := i + 1;
      }
      survivor := survivor0;
      i := 0;
      while i < |source.children|
        invariant 0 <= i <= |source.children| && nodes == Reparent(old(nodes), source.children[..i], survAddr)
        invariant Traced() && TurnedTo(old(nodes), nodes, survAddr)
        invariant survivor == survivor0.(children := survivor0.children + source.children[..i],
                                         keys := survivor0.keys + if i == 0 then [] else [boundaryKey] + source.keys[..i - 1])
      {
        ReparentNext(old(nodes), source.children, i, survAddr);
        survivor := survivor.(keys := survivor.keys + [if i == 0 then boundaryKey else source.keys[i - 1]]);
        var childAddr := source.children[i];
        survivor := survivor.(children := survivor.children + [childAddr]);
        if childAddr in nodes { MarkNode(childAddr, nodes[childAddr].(parent := survAddr)); }
        i := i + 1;
      }
      assert source.children[..|source.children|] == source.children && source.keys[..|source.keys|] == source.keys;
    }

    /** Moves the children of an inner node to its previous sibling, or its next sibling's to it, together with the
        separator between them, and takes the emptied one out of the tree. */
    method MergeInner(n: Node, addr: Addr) returns (survAddr: Addr)
      requires Shrunk(addr, n) && !n.isLeaf && addr != root && |n.children| == M / 2 - 1 && n.parent in nodes && |nodes[n.parent].children| > 0
      requires NextOf(nodes, n.parent, addr) != 0 && NextOf(nodes, n.parent, addr) in nodes ==> |nodes[NextOf(nodes, n.parent, addr)].children| <= M / 2
      requires PrevOf(nodes, n.parent, addr) != 0 && PrevOf(nodes, n.parent, addr) in nodes ==> |nodes[PrevOf(nodes, n.parent, addr)].children| <= M / 2
      requires Traced()
      modifies this`nodes, this`trace, this`root, this`deleted, this`spans, this`filed
      ensures Traced() && old(deleted) <= deleted
      ensures Shaped(0) && Beneath(old(With(addr, n)), V(), old(spans[addr].h))
      ensures if PrevOf(old(nodes), n.parent, addr) != 0 then survAddr == PrevOf(old(nodes), n.parent, addr) && addr in deleted
              else survAddr == addr && NextOf(old(nodes), n.parent, addr) in deleted
      decreases spans[root].h - spans[addr].h, 1
    {
      hide Traced;
      ghost var v := With(addr, n);
      ShrunkParts(addr, n);
      SiblingPlan(v, nodes, n, addr, M);
      hide Structure, Filled, Placed, NextOf, PrevOf, Beneath, Shrunk, Shaped, IndexIn, Siblings;
      ghost var p, j := n.parent, IndexIn(nodes[n.parent].children, addr);
      var survivor, sourceAddr, source := n, addr, n;
      survAddr := addr;
      var prevAddr := GetPrevInternal(n, addr);
      if prevAddr != 0 {
        survivor, survAddr := nodes[prevAddr], prevAddr;
        j := j - 1;
      } else {
        sourceAddr := GetNextInternal(n, addr);
        source := nodes[sourceAddr];
      }
      MergeInto(v, n, addr, survivor, survAddr, source, sourceAddr, j);
    }

    method MergeInto(ghost v: View, n: Node, addr: Addr, survivor0: Node, survAddr: Addr, source: Node, sourceAddr: Addr, ghost j: nat)
      requires Shrunk(addr, n) && v == With(addr, n) && !n.isLeaf && addr != root && |n.children| == M / 2 - 1
      requires n.parent in nodes && n.parent in spans && spans[n.parent].h == spans[addr].h + 1 <= spans[root].h
      requires Beside(v, nodes, n.parent, j, survAddr, sourceAddr, addr, M) && addr in {survAddr, sourceAddr}
      requires survivor0 == v.nodes[survAddr] && source == v.nodes[sourceAddr]
      requires |survivor0.children| + |source.children| <= M && !nodes[n.parent].isLeaf
      requires 2 <= |nodes[n.parent].children| <= M && (n.parent == root || |nodes[n.parent].children| >= M / 2)
      requires Traced()
      modifies this`nodes, this`trace, this`root, this`deleted, this`spans, this`filed
      ensures Traced() && old(deleted) + {sourceAddr} <= deleted
      ensures Shaped(0) && Beneath(v, V(), v.spans[addr].h)
      decreases spans[root].h - spans[addr].h, 0
    {
      hide Structure, Filled, Placed, Beneath, Shrunk, Shaped, IndexIn, Siblings, Climbable, Reparent, Beside, MergeInners, RemoveAt, UpFrom, Traced;
      ShrunkParts(addr, n);
      ghost var p, paged := n.parent, Paged();
      ghost var merged, left, w := MergeReady(layout, cursor, v, nodes, addr, n, p, j, survAddr, sourceAddr, M, paged, deleted);
      var mergeParent := nodes[n.parent];
      var survivor := TakeChildren(survivor0, survAddr, source, sourceAddr, mergeParent, j);
      var parent := DropSource(survivor, survAddr, source, sourceAddr, j, UpFrom(v, survAddr), v.spans[v.root].h);
      assert parent == left && nodes[p := parent] == w.nodes;
      AdoptView(p, parent, w, paged);
      FinishMerge(parent, n.parent);
      BeneathAfter(v, w, V(), v.spans[addr].h, w.spans[p].h);
    }

    /** Moves the pages of a leaf to its previous sibling, or its next sibling's to it, and takes the emptied one out of
        the tree. */
    method MergeLeaf(n: Node, addr: Addr) returns (survAddr: Addr)
      requires Shaped(0) && addr in spans && addr != root && nodes[addr] == n && n.isLeaf && |n.children| == M / 2
      requires n.parent in nodes && |nodes[n.parent].children| > 0
      requires NextOf(nodes, n.parent, addr) != 0 && NextOf(nodes, n.parent, addr) in nodes ==> |nodes[NextOf(nodes, n.parent, addr)].children| <= M / 2
      requires PrevOf(nodes, n.parent, addr) != 0 && PrevOf(nodes, n.parent, addr) in nodes ==> |nodes[PrevOf(nodes, n.parent, addr)].children| <= M / 2
      requires Traced()
      modifies this`nodes, this`trace, this`root, this`deleted, this`spans, this`filed
      ensures Traced() && old(deleted) <= deleted
      ensures Shaped(0) && TakesOver(old(V()), V(), addr, survAddr) && survAddr in nodes && |nodes[survAddr].children| > M / 2
      ensures if PrevOf(old(nodes), n.parent, addr) != 0 then survAddr == PrevOf(old(nodes), n.parent, addr) && addr in deleted
              else survAddr == addr && NextOf(old(nodes), n.parent, addr) in deleted
    {
      hide Traced;
      ghost var v := V();
      ShapedTree(0);
      LeafPlan(v, addr, M);
      hide Structure, Filled, Placed, NextOf, PrevOf, Shaped, IndexIn, Siblings, TakesOver;
      ghost var j := IndexIn(nodes[n.parent].children, addr);
      var survivor, sourceAddr, source := n, addr, n;
      survAddr := addr;
      var prevAddr := GetPrevInternal(n, addr);
      if prevAddr != 0 {
        survivor, survAddr := nodes[prevAddr], prevAddr;
        j := j - 1;
      } else {
        sourceAddr := GetNextInternal(n, addr);
        source := nodes[sourceAddr];
      }
      MergeLeafInto(n, addr, survivor, survAddr, source, sourceAddr, j);
    }

    ghost method AdoptView(a: Addr, n: Node, w: View, paged: set<Addr>)
      requires M >= 4 && capacity < 0xFFFF_FFFF && a in nodes && a in w.spans && nodes[a].parent == n.parent
      requires nodes[a := n] == w.nodes && root == w.root && Paged() == paged
      requires Structure(w, 0) && Filled(w, M, a) && Placed(layout, cursor, w, paged, deleted)
      modifies this`spans, this`filed
      ensures Shrunk(a, n) && With(a, n) == w && spans == w.spans && filed == w.filed
    {
      hide Structure, Filled, Placed;
      spans, filed := w.spans, w.filed;
    }

    method MergeLeafInto(n: Node, addr: Addr, survivor0: Node, survAddr: Addr, source: Node, sourceAddr: Addr, ghost j: nat)
      requires Shaped(0) && addr in {survAddr, sourceAddr} && n.isLeaf && addr in nodes && nodes[addr] == n
      requires n.parent in nodes && n.parent in spans && !nodes[n.parent].isLeaf
      requires 2 <= |nodes[n.parent].children| <= M && (n.parent == root || |nodes[n.parent].children| >= M / 2)
      requires Beside(V(), nodes, n.parent, j, survAddr, sourceAddr, addr, M)
      requires survivor0 == nodes[survAddr] && source == nodes[sourceAddr] && M / 2 < |survivor0.children| + |source.children| <= M
      requires Traced()
      modifies this`nodes, this`trace, this`root, this`deleted, this`spans, this`filed
      ensures Traced() && old(deleted) + {sourceAddr} <= deleted
      ensures Shaped(0) && TakesOver(old(V()), V(), addr, survAddr) && survAddr in nodes && |nodes[survAddr].children| > M / 2
    {
      hide Structure, Filled, Placed, Shaped, IndexIn, Siblings, Climbable, MergeLeaves, RemoveAt, UpFrom, TakesOver, Beneath, Relink, Traced, Shrunk;
      ghost var v, paged := V(), Paged();
      ShapedTree(0);
      ghost var p := n.parent;
      ghost var merged, left, w := MergeLeafReady(layout, cursor, v, addr, p, j, survAddr, sourceAddr, M, paged, deleted);
      var survivor := TakePages(survivor0, survAddr, source);
      var parent := DropSource(survivor, survAddr, source, sourceAddr, j, UpFrom(v, survAddr), v.spans[v.root].h);
      assert parent == left && nodes[p := parent] == w.nodes;
      AdoptView(p, parent, w, paged);
      FinishMerge(parent, n.parent);
      TakenOver(v, w, V(), addr, survAddr, w.spans[p].h);
    }

    /** Gives survivor the pages of source, and links it to the leaf after that. */
    method TakePages(survivor0: Node, survAddr: Addr, source: Node) returns (survivor: Node)
      requires |source.children| == |source.keys| && (source.next != 0 ==> source.next in nodes)
      requires Traced()
      modifies this`nodes, this`trace
      ensures Traced()
      ensures SameParents(old(nodes), nodes)
      ensures nodes == Relink(old(nodes), source.next, survAddr)
      ensures survivor == survivor0.(children := survivor0.children + source.children, keys := survivor0.keys + source.keys, next := source.next)
    {
      hide Traced;
      survivor := survivor0;
      var i := 0;
      while i < |source.children|
        invariant 0 <= i <= |source.children|
        invariant survivor == survivor0.(children := survivor0.children + source.children[..i], keys := survivor0.keys + source.keys[..i])
      {
        survivor := survivor.(keys := survivor.keys + [source.keys[i]]);
        survivor := survivor.(children := survivor.children + [source.children[i]]);
        i := i + 1;
      }
      assert source.children[..i] == source.children && source.keys[..i] == source.keys;
      survivor := survivor.(next := source.next);
      if source.next != 0 {
        var tmp := nodes[source.next];
        MarkNode(survivor.next, tmp.(prev := survAddr));
      }
    }

    /** Gives a leaf that is about to lose a page one more page, or merges it with a sibling. */
    method BalanceLeaf(n: Node, addr: Addr) returns (out: Addr)
      requires Shaped(0) && addr in spans && addr != root && nodes[addr] == n && n.isLeaf && |n.children| == M / 2
      requires Traced()
      modifies this`nodes, this`trace, this`root, this`deleted, this`spans, this`filed
      ensures Traced() && old(deleted) <= deleted
      ensures Shaped(0) && TakesOver(old(V()), V(), addr, out) && out in nodes && |nodes[out].children| > M / 2
      ensures LeafBalanced(old(V()), V(), deleted, addr, out, M)
    {
      hide Traced, Structure, Filled, Placed, NextOf, PrevOf, Shaped, IndexIn, Siblings, TakesOver, LeavesShared;
      ghost var v := V();
      ShapedTree(0);
      LeafPlan(v, addr, M);
      NodeShape(v, n.parent);
      ghost var i := IndexIn(nodes[n.parent].children, addr);
      var nextAddr := GetNextInternal(n, addr);
      var parent := nodes[n.parent];
      if nextAddr != 0 && |nodes[nextAddr].children| > M / 2 {
        BorrowNext(n, addr, nodes[nextAddr], nextAddr, i);
        if |parent.children| < M / 2 && parent.parent != 0 {
          assert false; // borrowing takes no child from the parent
        }
        return addr;
      }
      var prevAddr := GetPrevInternal(n, addr);
      if prevAddr != 0 && |nodes[prevAddr].children| > M / 2 {
        BorrowPrev(n, addr, nodes[prevAddr], prevAddr, i - 1);
        if |parent.children| < M / 2 && parent.parent != 0 {
          assert false; // nor here
        }
        return addr;
      }
      out := MergeLeaf(n, addr);
    }

    /** Stores an inner node that has lost a child, or gives it its balance back if it now has too few. */
    method FinishMerge(parent: Node, addr: Addr)
      requires Shrunk(addr, parent) && !parent.isLeaf && |parent.children| <= M
      requires |parent.children| >= if addr == root then 1 else M / 2 - 1
      requires Traced()
      modifies this`nodes, this`trace, this`root, this`deleted, this`spans, this`filed
      ensures Traced() && old(deleted) <= deleted
      ensures Shaped(0) && Beneath(old(With(addr, parent)), V(), old(spans[addr].h))
      decreases spans[root].h - spans[addr].h, 3
    {
      hide Traced;
      ghost var v := With(addr, parent);
      ShrunkParts(addr, parent);
      NodeShape(v, addr);
      SameBeneath(v, v.spans[addr].h);
      hide Shrunk, Shaped, Structure, Filled, Placed, Beneath;
      if parent.parent == 0 && |parent.children| > 0 {
        if |parent.children| == 1 {
          var out := BalanceInner(parent, addr);
        } else {
          StoreShrunk(addr, parent);
        }
      } else if |parent.children| < M / 2 {
        var out := BalanceInner(parent, addr);
      } else {
        StoreShrunk(addr, parent);
      }
    }

    /** Takes a page out of leaf n; first, if the leaf would be left with too few, gives it another or merges it. nAddr is
        then the leaf the page was taken from. */
    method DeletePage(n0: Node, nAddr0: Addr, pageAddr: Addr) returns (ok: bool, nAddr: Addr)
      requires Shaped(0) && nAddr0 in spans && nodes[nAddr0] == n0 && n0.isLeaf && pageAddr in n0.children
      requires nAddr0 == root ==> |n0.children| > 1
      requires Traced()
      modifies this`nodes, this`trace, this`root, this`deleted, this`spans, this`filed
      ensures Traced()
      ensures ok && Shaped(0) && pageAddr in deleted && SameBounds(old(filed) - {pageAddr}, filed)
      ensures nAddr in spans && nAddr in nodes && nodes[nAddr].isLeaf
      ensures spans[nAddr].lo <= old(spans[nAddr0].lo) && old(spans[nAddr0].hi) <= spans[nAddr].hi
    {
      hide Traced;
      ghost var u := V();
      ShapedTree(0);
      NodeShape(u, nAddr0);
      assert Counted(u, M, nAddr0);
      var n := n0;
      nAddr := nAddr0;
      if |n.children| == M / 2 && !(n.parent == 0 && |n.children| > 0) {
        nAddr := BalanceLeaf(n, nAddr);
        n := nodes[nAddr];
      } else {
        assert TakesOver(u, V(), nAddr, nAddr);
      }
      ghost var v := V();
      assert (nAddr == root || |n.children| > M / 2) && |n.children| > 1 && pageAddr in n.children;
      DroppedBounds(u, v, nAddr0, nAddr, pageAddr);
      hide *;
      TakePageOut(n, nAddr, pageAddr);
      ok := true;
    }

    /** Takes a page out of a leaf that can spare it. */
    method TakePageOut(n0: Node, nAddr: Addr, pageAddr: Addr)
      requires Shaped(0) && nAddr in spans && nAddr in nodes && nodes[nAddr] == n0 && n0.isLeaf && pageAddr in n0.children
      requires (nAddr == root || |n0.children| > M / 2) && |n0.children| > 1
      requires Traced()
      modifies this`nodes, this`trace, this`deleted, this`filed
      ensures Traced()
      ensures Shaped(0) && filed == old(filed) - {pageAddr} && deleted == old(deleted) + {pageAddr}
      ensures nAddr in nodes && nodes[nAddr].isLeaf
    {
      hide Structure, Filled, Placed, RemoveAt, Traced;
      ghost var v, paged := V(), Paged();
      var n := n0;
      ShapedTree(0);
      FiledIn(v, nAddr);
      var i := 0;
      while i < |n.children| && n.children[i] != pageAddr
        invariant 0 <= i <= |n.children|
        invariant forall j :: 0 <= j < i ==> n.children[j] != pageAddr
      {
        i := i + 1;
      }
      ghost var w := v.(nodes := v.nodes[nAddr := WithoutPage(n, i)], filed := v.filed - {pageAddr});
      DroppedShape(layout, cursor, v, w, nAddr, i, M, paged, deleted);
      deleted := deleted + {pageAddr};
      n := n.(keys := RemoveAt(n.keys, i));
      n := n.(children := RemoveAt(n.children, i));
      if i == |n.children| && |n.children| > 0 { n := n.(maxKey := Last(n.keys)); }
      MarkNode(nAddr, n);
      filed := w.filed;
      assert V() == w && Paged() == paged;
    }

    /** Deletes the record with this key. A page left empty is taken out of the tree, unless it is the only one. leafOut is
        the leaf the record's page is in, or was taken from, and 0 if no page covers the key; page is what is left of it. */
    method DeleteRecord(key: Key) returns (out: bool, page: seq<Record>, leafOut: Addr, ghost q: Addr)
      requires Valid()
      modifies this
      ensures Valid() && contents == old(contents) - {key}
      ensures leafOut == 0 <==> NoPageFor(old(V()), key)
      ensures leafOut == 0 ==> out && key !in old(contents)
      ensures leafOut != 0 ==> (out <==> key in old(contents))
      ensures leafOut == 0 || !out ==> nodes == old(nodes) && pages == old(pages) && root == old(root) && deleted == old(deleted) && filed == old(filed)
      ensures out && leafOut != 0 ==> leafOut in nodes && nodes[leafOut].isLeaf && Covers(V(), leafOut, key) && Removed(old(filed), old(pages), q, key, page)
      ensures out && leafOut != 0 && (page != [] || old(filed).Keys == {q}) ==>
                V() == old(V()) && pages == old(pages)[q := page] && leafOut == filed[q].leaf && deleted == old(deleted)
      ensures out && leafOut != 0 && page == [] && old(filed).Keys != {q} ==>
                q in deleted && SameBounds(old(filed) - {q}, filed) && pages == old(pages)
    {
      hide Structure, Stored, AllFit, Filled, Placed, Looked, SameBounds, Covers, Traced;
      leafOut, page, q := 0, [], 0;
      ValidParts();
      NotAddressed();
      RootStored(V());
      var leafAddr, leaf := FindLeaf(key);
      var i := FindPageInLeaf(leaf, key);
      KeyLookup(V(), key, pages, contents);
      if i == |leaf.children| {
        assert contents == contents - {key};
        return true, page, leafOut, q;
      }
      leafOut := leafAddr;
      var addr := leaf.children[i];
      q := addr;
      RemovalFacts(V(), leafAddr, addr, key, pages, contents);
      page := pages[addr];
      out := Holds(page, key);
      if !out {
        assert contents == contents - {key};
        return;
      }
      page := RemoveAt(page, Position(page, key));
      OnlyPageFiled(V(), leafAddr, M);
      var onlyPage := leaf.parent == 0 && |leaf.children| > 0 && |leaf.children| == 1;
      if |page| == 0 && !onlyPage {
        leafOut := RemovePage(key, leafAddr, leaf, addr);
      } else {
        KeepPage(key, addr, page);
      }
    }

    /** Stores a page that has lost the record with this key. */
    method KeepPage(key: Key, addr: Addr, page: seq<Record>)
      requires Valid() && addr in filed && addr in pages && Holds(pages[addr], key)
      requires page == RemoveAt(pages[addr], Position(pages[addr], key)) && (page != [] || filed.Keys == {addr})
      modifies this`pages, this`contents
      ensures Valid() && contents == old(contents) - {key} && pages == old(pages)[addr := page]
    {
      ValidParts();
      RemoveStored(V(), pages, contents, addr, Position(pages[addr], key), keySize, capacity);
      hide *;
      contents := contents - {key};
      MarkPage(addr, page);
      IsValid();
    }

    /** Takes a page whose only record is the one with this key out of the tree. */
    method RemovePage(key: Key, leafAddr: Addr, leaf: Node, addr: Addr) returns (leafOut: Addr)
      requires Valid() && addr in filed && filed[addr].leaf == leafAddr && addr in pages && |pages[addr]| == 1 && pages[addr][0].key == key
      requires leafAddr in spans && leafAddr in nodes && nodes[leafAddr] == leaf && leaf.isLeaf && addr in leaf.children && Covers(V(), leafAddr, key)
      requires leafAddr == root ==> |leaf.children| > 1
      modifies this`nodes, this`trace, this`root, this`deleted, this`spans, this`filed, this`contents
      ensures Valid() && contents == old(contents) - {key} && addr in deleted && SameBounds(old(filed) - {addr}, filed)
      ensures leafOut != 0 && leafOut in nodes && nodes[leafOut].isLeaf && Covers(V(), leafOut, key)
    {
      ValidParts();
      ghost var v, c := V(), contents;
      hide Structure, Stored, AllFit, Shaped, SameBounds;
      contents := contents - {key};
      var ok;
      ok, leafOut := DeletePage(leaf, leafAddr, addr);
      DropStored(v, pages, c, addr, filed, keySize, capacity);
      IsValid();
      ShapedTree(0);
    }
  }

  /** x is the sibling of a the store says comes before or after it: j is the first one's place. */
  ghost predicate Beside(v: View, nodes: map<Addr, Node>, p: Addr, j: nat, x: Addr, y: Addr, a: Addr, M: nat) {
    && a in v.nodes && x in v.spans && y in v.spans && x in nodes && y in nodes && x != y && p in nodes && p !in {x, y}
    && Siblings(v, p, j, x, y) && v.nodes[x].isLeaf == v.nodes[y].isLeaf == v.nodes[a].isLeaf && v.spans[x].h == v.spans[y].h
    && (x != a ==> v.nodes[x] == nodes[x] && M / 2 <= |nodes[x].children| <= M)
    && (y != a ==> v.nodes[y] == nodes[y] && M / 2 <= |nodes[y].children| <= M)
  }

  ghost function NextIn(nodes: map<Addr, Node>, p: Addr, a: Addr): Addr { if p in nodes then NextOf(nodes, p, a) else 0 }

  ghost function PrevIn(nodes: map<Addr, Node>, p: Addr, a: Addr): Addr {
    if p in nodes && |nodes[p].children| > 0 then PrevOf(nodes, p, a) else 0
  }

  ghost predicate CanLend(nodes: map<Addr, Node>, a: Addr, M: nat) { a != 0 && a in nodes && |nodes[a].children| > M / 2 }

  /** How leaf a, which had as few pages as it may have, was given more: by the next leaf if that could spare one, otherwise by the
      previous if that could, and otherwise by merging: into the previous leaf if there is one, or with the next. */
  ghost predicate LeafBalanced(v: View, w: View, deleted: set<Addr>, a: Addr, out: Addr, M: nat) {
    && a in v.nodes && v.nodes[a].parent in v.nodes
    && var n, p := v.nodes[a], v.nodes[a].parent;
       var next, prev, i := NextIn(v.nodes, p, a), PrevIn(v.nodes, p, a), IndexIn(v.nodes[p].children, a);
       if CanLend(v.nodes, next, M) then out == a && LeavesShared(v, w, p, i, a, next, |n.children| + 1)
       else if CanLend(v.nodes, prev, M) then out == a && i > 0 && LeavesShared(v, w, p, i - 1, prev, a, |v.nodes[prev].children| - 1)
       else if prev != 0 then out == prev && a in deleted
       else out == a && next in deleted
  }

  /** The same of an inner node, which has lost a child in v. */
  ghost predicate InnerBalanced(v: View, nodes: map<Addr, Node>, w: View, deleted: set<Addr>, a: Addr, out: Addr, M: nat) {
    && a in v.nodes && v.nodes[a].parent in nodes
    && var n, p := v.nodes[a], v.nodes[a].parent;
       var next, prev, i := NextIn(nodes, p, a), PrevIn(nodes, p, a), IndexIn(nodes[p].children, a);
       if CanLend(nodes, next, M) then out == a && InnersShared(v, w, p, i, a, next, |n.children| + 1)
       else if CanLend(nodes, prev, M) then out == a && i > 0 && InnersShared(v, w, p, i - 1, prev, a, |nodes[prev].children| - 1)
       else if prev != 0 then out == prev && a in deleted
       else out == a && next in deleted
  }

  lemma CountOf(v: View, M: nat, exc: Addr, x: Addr)
    requires Filled(v, M, exc) && x in v.spans && x != exc
    ensures Counted(v, M, x)
  {
  }

  lemma StandBeside(v: View, nodes: map<Addr, Node>, n: Node, p: Addr, j: nat, x: Addr, y: Addr, a: Addr, M: nat)
    requires Structure(v, 0) && Filled(v, M, a) && v.nodes == nodes[a := n] && a in nodes && Siblings(v, p, j, x, y) && (a == x || a == y)
    ensures Beside(v, nodes, p, j, x, y, a, M)
  {
    hide Structure, Filled;
    SiblingFacts(v, p, j, x, y);
    if x != a { CountOf(v, M, a, x); }
    if y != a { CountOf(v, M, a, y); }
  }

  /** A node that isn't the root, here one that is to be stored as n, has a sibling at least on one side. */
  lemma SiblingPlan(v: View, nodes: map<Addr, Node>, n: Node, a: Addr, M: nat)
    requires M >= 4 && Structure(v, 0) && Filled(v, M, a) && a in v.spans && a != v.root && v.nodes == nodes[a := n] && a in nodes
    ensures n.parent in nodes && n.parent in v.spans && n.parent != a && |nodes[n.parent].children| >= 2
    ensures v.spans[n.parent].h == v.spans[a].h + 1 <= v.spans[v.root].h
    ensures n.parent == v.root || |nodes[n.parent].children| >= M / 2
    ensures |nodes[n.parent].children| <= M && !nodes[n.parent].isLeaf
    ensures var p, i := n.parent, IndexIn(nodes[n.parent].children, a);
            && (NextOf(nodes, p, a) != 0 ==> Beside(v, nodes, p, i, a, NextOf(nodes, p, a), a, M))
            && (PrevOf(nodes, p, a) != 0 ==> i > 0 && Beside(v, nodes, p, i - 1, PrevOf(nodes, p, a), a, a, M))
            && (NextOf(nodes, p, a) != 0 || PrevOf(nodes, p, a) != 0)
  {
    hide Structure, Filled, Siblings, Beside;
    var p := n.parent;
    ParentIsInner(v, a);
    RootIsTop(v, 0, p);
    FindsSiblings(v, a);
    CountOf(v, M, a, p);
    RootStored(v);
    var i, y, x := IndexIn(nodes[p].children, a), NextOf(nodes, p, a), PrevOf(nodes, p, a);
    if y != 0 { StandBeside(v, nodes, n, p, i, a, y, a, M); }
    if x != 0 { StandBeside(v, nodes, n, p, i - 1, x, a, a, M); }
  }

  /** What the steps of a merge lead to: the store with the nodes merged, what is left of their parent, and the tree
      once that is stored too. */
  lemma MergeReady(l: Stripes.Layout, c: Stripes.Cursor, v: View, nodes: map<Addr, Node>, a: Addr, n: Node, p: Addr, j: nat, x: Addr, y: Addr,
                   M: nat, paged: set<Addr>, deleted: set<Addr>) returns (merged: map<Addr, Node>, left: Node, w: View)
    requires M >= 4 && Structure(v, 0) && Filled(v, M, a) && Placed(l, c, v, paged, deleted) && v.nodes == nodes[a := n] && a in nodes
    requires Beside(v, nodes, p, j, x, y, a, M) && (a == x || a == y) && !n.isLeaf && p != a && |n.children| == M / 2 - 1
    requires |v.nodes[x].children| + |v.nodes[y].children| <= M
    requires n.parent == nodes[a].parent
    ensures x in nodes && y in nodes && x != v.root && NoneUnder(nodes, v.nodes[y].children, v.root) && nodes[x].parent == v.nodes[x].parent && nodes[y].parent == v.nodes[y].parent
    ensures p in nodes && p != 0 && p != x && p != y && x != y && v.nodes[x].parent == p && v.spans[v.root].h > 0
    ensures |nodes[p].children| == |nodes[p].keys| + 1 && j + 1 < |nodes[p].children|
    ensures nodes[p].children[j] == x && nodes[p].children[j + 1] == y && IndexIn(nodes[p].children, x) == j && IndexIn(nodes[p].children, y) == j + 1
    ensures |v.nodes[y].children| == |v.nodes[y].keys| + 1
    ensures merged == Reparent(nodes, v.nodes[y].children, x)[y := Emptied(v.nodes[y])]
                        [x := v.nodes[x].(children := v.nodes[x].children + v.nodes[y].children,
                                          keys := v.nodes[x].keys + [nodes[p].keys[j]] + v.nodes[y].keys, maxKey := v.nodes[y].maxKey)]
    ensures p in Reparent(nodes, v.nodes[y].children, x) && Reparent(nodes, v.nodes[y].children, x)[p] == nodes[p]
    ensures x in v.spans && Climbable(merged, UpFrom(v, x), v.spans[v.root].h) && x in UpFrom(v, x)
    ensures left == nodes[p].(children := RemoveAt(nodes[p].children, j + 1), keys := RemoveAt(nodes[p].keys, j))
    ensures w == View(merged[p := left], v.root, w.spans, v.filed)
    ensures Structure(w, 0)
    ensures Filled(w, M, p)
    ensures Placed(l, c, w, paged, deleted + {y})
    ensures Beneath(v, w, v.spans[a].h)
    ensures p in v.spans && p in w.spans && w.spans[p] == v.spans[p] && w.root in w.spans && w.spans[w.root] == v.spans[v.root]
    ensures !left.isLeaf && |left.children| == |nodes[p].children| - 1
  {
    ChildrenElsewhere(v, nodes, a, n, p, j, x, y);
    SiblingPlaces(v, p, j, x, y);
    w := MergeInners(v, p, j, x, y);
    merged := Reparent(nodes, v.nodes[y].children, x)[y := Emptied(v.nodes[y])]
      [x := v.nodes[x].(children := v.nodes[x].children + v.nodes[y].children,
                        keys := v.nodes[x].keys + [v.nodes[p].keys[j]] + v.nodes[y].keys, maxKey := v.nodes[y].maxKey)];
    left := nodes[p].(children := RemoveAt(nodes[p].children, j + 1), keys := RemoveAt(nodes[p].keys, j));
    MergeInnersStore(v, nodes, a, n, p, j, x, y, merged);
    hide Reparent, RemoveAt, Structure, Filled, Placed, Beneath, Climbable, IndexIn;
    MergeInnersShape(l, c, v, w, p, j, x, y, M, a, paged, deleted);
  }

  lemma LeafPlan(v: View, a: Addr, M: nat)
    requires M >= 4 && Structure(v, 0) && Filled(v, M, 0) && a in v.spans && a != v.root
    ensures v.nodes[a].parent in v.nodes && v.nodes[a].parent in v.spans && |v.nodes[v.nodes[a].parent].children| >= 2
    ensures v.nodes[a].parent == v.root || |v.nodes[v.nodes[a].parent].children| >= M / 2
    ensures |v.nodes[v.nodes[a].parent].children| <= M && !v.nodes[v.nodes[a].parent].isLeaf
    ensures var p, i := v.nodes[a].parent, IndexIn(v.nodes[v.nodes[a].parent].children, a);
            && (NextOf(v.nodes, p, a) != 0 ==> Beside(v, v.nodes, p, i, a, NextOf(v.nodes, p, a), a, M))
            && (PrevOf(v.nodes, p, a) != 0 ==> i > 0 && Beside(v, v.nodes, p, i - 1, PrevOf(v.nodes, p, a), a, a, M))
            && (NextOf(v.nodes, p, a) != 0 || PrevOf(v.nodes, p, a) != 0)
  {
    assert v.nodes == v.nodes[a := v.nodes[a]];
    SiblingPlan(v, v.nodes, v.nodes[a], a, M);
  }

  /** The same for leaves. */
  lemma MergeLeafReady(l: Stripes.Layout, c: Stripes.Cursor, v: View, a: Addr, p: Addr, j: nat, x: Addr, y: Addr,
                       M: nat, paged: set<Addr>, deleted: set<Addr>) returns (merged: map<Addr, Node>, left: Node, w: View)
    requires M >= 4 && Structure(v, 0) && Filled(v, M, 0) && Placed(l, c, v, paged, deleted)
    requires Beside(v, v.nodes, p, j, x, y, a, M) && (a == x || a == y) && a in v.nodes && v.nodes[a].isLeaf
    requires M / 2 <= |v.nodes[x].children| + |v.nodes[y].children| <= M
    ensures p != 0 && p != x && p != y && x != y && v.nodes[x].parent == p && v.spans[v.root].h > 0
    ensures |v.nodes[p].children| == |v.nodes[p].keys| + 1 && j + 1 < |v.nodes[p].children|
    ensures IndexIn(v.nodes[p].children, x) == j && IndexIn(v.nodes[p].children, y) == j + 1
    ensures |v.nodes[y].children| == |v.nodes[y].keys| && (v.nodes[y].next != 0 ==> v.nodes[y].next in v.nodes)
    ensures merged == Relink(v.nodes, v.nodes[y].next, x)[y := Emptied(v.nodes[y])]
                        [x := v.nodes[x].(children := v.nodes[x].children + v.nodes[y].children, keys := v.nodes[x].keys + v.nodes[y].keys,
                                          maxKey := v.nodes[y].maxKey, next := v.nodes[y].next)]
    ensures p in Relink(v.nodes, v.nodes[y].next, x) && Relink(v.nodes, v.nodes[y].next, x)[p] == v.nodes[p]
    ensures Climbable(merged, UpFrom(v, x), v.spans[v.root].h) && x in UpFrom(v, x)
    ensures left == v.nodes[p].(children := RemoveAt(v.nodes[p].children, j + 1), keys := RemoveAt(v.nodes[p].keys, j))
    ensures w == View(merged[p := left], v.root, w.spans, w.filed)
    ensures Structure(w, 0)
    ensures Filled(w, M, p)
    ensures Placed(l, c, w, paged, deleted + {y})
    ensures TakesOver(v, w, a, x) && |w.nodes[x].children| == |v.nodes[x].children| + |v.nodes[y].children| && w.spans[x].h == 0
    ensures p in v.spans && p in w.spans && w.spans[p] == v.spans[p] && v.spans[p].h == 1
    ensures !left.isLeaf && |left.children| == |v.nodes[p].children| - 1
  {
    SiblingFacts(v, p, j, x, y);
    SiblingPlaces(v, p, j, x, y);
    MergeLeavesIs(v, p, j, x, y);
    w := MergeLeaves(v, p, j, x, y);
    merged := Relink(v.nodes, v.nodes[y].next, x)[y := Emptied(v.nodes[y])]
      [x := v.nodes[x].(children := v.nodes[x].children + v.nodes[y].children, keys := v.nodes[x].keys + v.nodes[y].keys,
                        maxKey := v.nodes[y].maxKey, next := v.nodes[y].next)];
    left := v.nodes[p].(children := RemoveAt(v.nodes[p].children, j + 1), keys := RemoveAt(v.nodes[p].keys, j));
    MergeLeavesStore(v, p, j, x, y, merged);
    assert NodeOK(v, x, 0);
    hide Relink, RemoveAt, Structure, Filled, Beneath, Climbable, IndexIn, TakesOver, Stripes.Used, Stripes.Valid;
    MergeLeavesKeeps(v, w, p, j, x, y);
    LeavesMergedState(v, w, p, j, x, y, M);
  }

  lemma TakenOver(v: View, w: View, u: View, a: Addr, b: Addr, h: int)
    requires TakesOver(v, w, a, b) && w.spans[b].h == 0 && Beneath(w, u, h) && h == 1
    ensures TakesOver(v, u, a, b) && |u.nodes[b].children| == |w.nodes[b].children|
  {
    TakesOverAfter(v, w, u, a, b);
    assert Adopted(w, u, b);
  }

  lemma MergeInnersShape(l: Stripes.Layout, c: Stripes.Cursor, v: View, w: View, p: Addr, i: nat, x: Addr, y: Addr, M: nat, exc: Addr,
                         paged: set<Addr>, deleted: set<Addr>)
    requires M >= 4 && Structure(v, 0) && Siblings(v, p, i, x, y) && !v.nodes[x].isLeaf && x in v.spans && y in v.spans
    requires w == MergeInners(v, p, i, x, y) && Filled(v, M, exc) && (exc == x || exc == y) && Placed(l, c, v, paged, deleted)
    requires M / 2 <= |v.nodes[x].children| + |v.nodes[y].children| <= M
    ensures Structure(w, 0)
    ensures Filled(w, M, p)
    ensures Placed(l, c, w, paged, deleted + {y})
    ensures v.spans[x].h == v.spans[y].h && Beneath(v, w, v.spans[x].h)
    ensures p in w.spans && p in w.nodes && w.spans[p] == v.spans[p] && w.root in w.spans && w.spans[w.root] == v.spans[v.root] && w.root == v.root
    ensures !w.nodes[p].isLeaf && |w.nodes[p].children| == |v.nodes[p].children| - 1
  {
    SiblingFacts(v, p, i, x, y);
    MergeInnersIs(v, p, i, x, y);
    MergeInnersKeeps(v, w, p, i, x, y);
    InnersMergedState(v, w, p, i, x, y, M, exc);
    RootStored(v);
    assert y in v.nodes && y !in w.spans;
    hide Structure, Filled, InnersMerged, Beneath, Stripes.Used, Stripes.Valid;
  }

  /** page is what is left of page q, which covers key, once the record with that key has gone. */
  ghost predicate Removed(f: map<Addr, Filed>, pages: map<Addr, seq<Record>>, q: Addr, key: Key, page: seq<Record>) {
    && q in f && f[q].lo < key <= f[q].hi && q in pages && Holds(pages[q], key)
    && page == RemoveAt(pages[q], Position(pages[q], key))
  }

  lemma RemovalFacts(v: View, a: Addr, q: Addr, k: Key, pages: map<Addr, seq<Record>>, contents: map<Key, Record>)
    requires Structure(v, 0) && q in v.filed && v.filed[q].leaf == a && Looked(pages, v.filed, contents, q, k)
    ensures q in pages && (k in contents <==> Holds(pages[q], k)) && a in v.spans && a in v.nodes && q in v.nodes[a].children
    ensures Holds(pages[q], k) ==> v.filed[q].lo < k <= v.filed[q].hi && Covers(v, a, k)
  {
    assert FiledOK(v, q);
    if Holds(pages[q], k) {
      FiledHolder(v, q, k);
      assert NodeOK(v, a, 0);
    }
  }

  /** A root that is a leaf with one page is all there is. */
  lemma OnlyPageFiled(v: View, a: Addr, M: nat)
    requires M >= 4 && Structure(v, 0) && Filled(v, M, 0) && a in v.spans && v.nodes[a].isLeaf
    ensures v.nodes[a].parent == 0 <==> a == v.root
    ensures a == v.root && |v.nodes[a].children| == 1 ==> v.filed.Keys == {v.nodes[a].children[0]}
    ensures !(a == v.root && |v.nodes[a].children| == 1) ==> forall q :: v.filed.Keys != {q}
  {
    NodeShape(v, a);
    FiledIn(v, a);
    assert NodeOK(v, a, 0);
    if a == v.root && |v.nodes[a].children| == 1 {
      forall q | q in v.filed ensures q == v.nodes[a].children[0] {
        assert FiledOK(v, q);
        RootIsTop(v, 0, v.filed[q].leaf);
      }
      assert v.nodes[a].children[0] in v.filed;
    } else {
      TwoPages(v, a, M);
    }
  }

  /** A tree that isn't down to its last page has two. */
  lemma TwoPages(v: View, a: Addr, M: nat)
    requires M >= 4 && Structure(v, 0) && Filled(v, M, 0) && a in v.spans && v.nodes[a].isLeaf && !(a == v.root && |v.nodes[a].children| == 1)
    ensures exists q, r :: q in v.filed && r in v.filed && q != r
  {
    FiledIn(v, a);
    LeafRun(v, a);
    assert Counted(v, M, a);
    var c := v.nodes[a].children;
    assert c[0] in v.filed && c[1] in v.filed;
    PageOnce(v, a, 0);
  }

  lemma DroppedShape(l: Stripes.Layout, c: Stripes.Cursor, v: View, w: View, a: Addr, i: nat, M: nat, paged: set<Addr>, deleted: set<Addr>)
    requires Structure(v, 0) && Filled(v, M, 0) && Placed(l, c, v, paged, deleted)
    requires a in v.spans && v.nodes[a].isLeaf && i < |v.nodes[a].children| == |v.nodes[a].keys| && |v.nodes[a].keys| > 1
    requires a == v.root || |v.nodes[a].children| > M / 2
    requires w == v.(nodes := v.nodes[a := WithoutPage(v.nodes[a], i)], filed := v.filed - {v.nodes[a].children[i]})
    ensures Structure(w, 0)
    ensures Filled(w, M, 0)
    ensures Placed(l, c, w, paged, deleted + {v.nodes[a].children[i]})
  {
    PageDropped(v, w, a, i, M);
    FiledIn(v, a);
    assert v.nodes[a].children[i] in v.filed;
    hide Structure, Filled, Stripes.Used, Stripes.Valid, WithoutPage;
  }

  lemma DroppedBounds(u: View, v: View, a: Addr, b: Addr, q: Addr)
    requires TakesOver(u, v, a, b)
    ensures b in v.spans && a in u.spans && v.spans[b].lo <= u.spans[a].lo && u.spans[a].hi <= v.spans[b].hi
    ensures SameBounds(u.filed - {q}, v.filed - {q})
  {
  }

  lemma SameBeneath(v: View, h: int)
    requires v.spans.Keys <= v.nodes.Keys
    ensures Beneath(v, v, h)
  {
  }

  lemma FilledAgain(v: View, M: nat, a: Addr)
    requires Filled(v, M, a) && Counted(v, M, a)
    ensures Filled(v, M, 0)
  {
  }

  lemma CollapsedShape(l: Stripes.Layout, c: Stripes.Cursor, v: View, w: View, M: nat, paged: set<Addr>, deleted: set<Addr>)
    requires M >= 4 && Structure(v, 0) && Collapsed(v, w) && Filled(v, M, v.root) && Placed(l, c, v, paged, deleted) && w.nodes.Keys == v.nodes.Keys
    ensures Structure(w, 0)
    ensures Filled(w, M, 0)
    ensures Placed(l, c, w, paged, deleted)
    ensures Beneath(v, w, v.spans[v.root].h)
  {
    CollapseKeeps(v, w);
    CollapsedState(v, w, M);
    hide Structure, Filled, Beneath, Stripes.Used, Stripes.Valid;
  }

  lemma RemoveChanged(keys: seq<Key>, i: nat, k: Key)
    requires i < |keys|
    ensures RemoveAt(keys[i := k], i) == RemoveAt(keys, i)
  {
  }

  lemma PlacedCursor(l: Stripes.Layout, c: Stripes.Cursor, v: View, paged: set<Addr>, deleted: set<Addr>)
    requires Placed(l, c, v, paged, deleted)
    ensures Stripes.Valid(l, c)
  {
  }

  lemma NewTreeShape(l: Stripes.Layout, c: Stripes.Cursor, v: View, a: Addr, q: Addr, M: nat)
    requires a != 0 && q != 0 && a != q && M >= 4
    requires v.nodes.Keys == {a} && v.nodes[a] == Node([q], [0], 0, 0, 0, 0, true) && v.root == a
    requires v.spans.Keys == {a} && v.spans[a] == Span(0, -1, KEY_LIMIT) && v.filed.Keys == {q} && v.filed[q] == Filed(a, -1, 0)
    requires Stripes.Valid(l, c) && Stripes.Used(l, c, a) && Stripes.Used(l, c, q)
    ensures Structure(v, 0) && Filled(v, M, 0) && Placed(l, c, v, {q}, {})
  {
    assert PageOK(v, a, 0);
    assert NodeOK(v, a, 0);
    assert Counted(v, M, a);
  }

  lemma NewTreeStored(pages: map<Addr, seq<Record>>, f: map<Addr, Filed>, q: Addr, keySize: nat, capacity: nat)
    requires pages.Keys == {q} && pages[q] == [] && f.Keys == {q}
    ensures Stored(pages, f, map[]) && AllFit(keySize, capacity, pages, f, -1)
  {
  }

  lemma AddPageAfterRoom(l: Stripes.Layout, c: Stripes.Cursor, v: View, w: View, a: Addr, i: nat, q: Addr,
                         lowerKey: Key, newKey: Key, M: nat, paged: set<Addr>, deleted: set<Addr>)
    requires Placed(l, c, v, paged, deleted)
    requires Structure(v, 0) && Filled(v, M, 0) && PageIn(v, a, i, q) && v.filed[q].leaf == a && v.filed[q].hi == v.nodes[a].keys[i]
    requires v.filed[q].lo < lowerKey <= v.filed[q].hi && lowerKey < newKey
    requires newKey <= v.filed[q].hi || PastEnd(v, q, newKey)
    requires w == v.(nodes := v.nodes[a := v.nodes[a].(keys := v.nodes[a].keys[i := lowerKey])],
                     filed := v.filed[q := v.filed[q].(hi := lowerKey)])
    ensures Structure(w, 0)
    ensures Filled(w, M, 0)
    ensures Placed(l, c, w, paged, deleted)
    ensures RoomFor(w, a, lowerKey, Max(newKey, v.nodes[a].keys[i]))
  {
    hide Stripes.Used, Stripes.Valid;
    LeafRun(v, a);
    assert PageAt(v.filed, v.nodes[a].children, v.nodes[a].keys, v.spans[a].lo, i);
    ReboundKeeps(v, w, a, i, q, lowerKey, M);
    if newKey > v.filed[q].hi { OnlyOnce(v, a, i, |v.nodes[a].children| - 1); }
    ReboundRoom(v, w, a, i, q, lowerKey, Max(newKey, v.nodes[a].keys[i]));
  }

  lemma PageBound(v: View, a: Addr, i: nat, q: Addr)
    requires Structure(v, 0) && PageIn(v, a, i, q)
    ensures v.filed[q].leaf == a && v.filed[q].hi == v.nodes[a].keys[i]
  {
    assert NodeOK(v, a, 0) && PageOK(v, a, i);
  }

  lemma SameBoundsAfter(f: map<Addr, Filed>, g: map<Addr, Filed>, h: map<Addr, Filed>, p: Addr, lowerKey: Key, q: Addr, key: int)
    requires p in f && q !in f && g == f[p := f[p].(hi := lowerKey)]
    requires q in h && SameBounds(g[q := h[q]], h) && h[q].lo == lowerKey && h[q].hi == key
    ensures SameBounds(CutBounds(f, p, q, lowerKey, key), h)
  {
  }

  lemma OnlyOnce(v: View, a: Addr, i: nat, j: nat)
    requires Structure(v, 0) && a in v.spans && v.nodes[a].isLeaf && i < |v.nodes[a].children| && j < |v.nodes[a].children|
    requires v.nodes[a].children[i] == v.nodes[a].children[j]
    ensures i == j
  {
    assert NodeOK(v, a, 0) && PageOK(v, a, i) && PageOK(v, a, j);
  }

  lemma StartsNewPage(keySize: nat, p: seq<Record>, r: Record)
    ensures Used(keySize, [r]) == RecordBytes(keySize, r) && p + [r] == InsertAt(p, |p|, r)
  {
    UsedInsert(keySize, [], 0, r);
    assert InsertAt([], 0, r) == [r];
  }

  lemma WidenedShape(l: Stripes.Layout, c: Stripes.Cursor, v: View, w: View, M: nat, paged: set<Addr>, deleted: set<Addr>)
    requires 0 !in v.spans && Filled(v, M, 0) && Placed(l, c, v, paged, deleted) && Widened(v, w)
    ensures Filled(w, M, 0)
    ensures Placed(l, c, w, paged, deleted)
    ensures BoundsKept(v.filed, w.filed)
  {
    hide Stripes.Used, Stripes.Valid;
    forall x | x in w.spans ensures Counted(w, M, x) { assert Counted(v, M, x); }
  }

  lemma StretchingShape(l: Stripes.Layout, c: Stripes.Cursor, v: View, w: View, a: Addr, q: Addr, key: Key, M: nat,
                        paged: set<Addr>, deleted: set<Addr>)
    requires Stretching(v, w, a, q, key) && Filled(v, M, 0) && Placed(l, c, v, paged, deleted)
    ensures Structure(w, 0)
    ensures Filled(w, M, 0)
    ensures Placed(l, c, w, paged, deleted)
  {
    StretchingKeeps(v, w, a, q, key, M);
    hide Stretching, Structure, Filled, Stripes.Used, Stripes.Valid;
  }

  lemma HalvesOf(v: View, w: View, a: Addr, b: Addr, m: nat)
    requires Halves(v, w, a, b, m)
    ensures a in v.nodes && a in w.nodes && b in w.nodes && 0 < m < |v.nodes[a].children|
    ensures |w.nodes[a].children| == m && |w.nodes[b].children| == |v.nodes[a].children| - m
    ensures SameBounds(v.filed, w.filed)
  {
  }

  lemma IndexFound(s: seq<Addr>, a: Addr, i: nat)
    requires i <= |s| && (i < |s| ==> s[i] == a) && forall j :: 0 <= j < i ==> s[j] != a
    ensures IndexIn(s, a) == i
  {
    var k := IndexIn(s, a);
    assert k < |s| ==> s[k] == a;
  }

  lemma AboveFound(keys: seq<Key>, k: int, i: nat)
    requires i <= |keys| && (i < |keys| ==> k < keys[i]) && forall j :: 0 <= j < i ==> keys[j] <= k
    ensures Above(keys, k) == i
  {
    var n := Above(keys, k);
    assert n < |keys| ==> k < keys[n];
  }

  lemma RoomLeaf(v: View, a: Addr, lo: int, key: Key)
    requires RoomFor(v, a, lo, key)
    ensures a in v.spans && a in v.nodes && v.nodes[a].isLeaf
  {
  }

  lemma ClimbHere(nodes: map<Addr, Node>, up: map<Addr, Span>, top: nat, a: Addr)
    requires Climbable(nodes, up, top) && a in up
    ensures a in nodes && up[a].h <= top && (up[a].h > 0 ==> |nodes[a].children| == |nodes[a].keys| + 1)
  {
  }

  lemma ClimbParts(nodes: map<Addr, Node>, up: map<Addr, Span>, top: nat, a: Addr)
    requires Climbable(nodes, up, top) && a in up
    ensures a in nodes && up[a].h <= top
    ensures var p := nodes[a].parent;
            p != 0 ==> p in up && p in nodes && up[a].h < up[p].h <= top && |nodes[p].children| == |nodes[p].keys| + 1
  {
  }

  lemma ClimbableStill(nodes: map<Addr, Node>, spans: map<Addr, Span>, top: nat, x: Addr, n: Node)
    requires Climbable(nodes, spans, top) && x in spans && n.parent == nodes[x].parent && |n.children| == |n.keys| + 1
    ensures Climbable(nodes[x := n], spans, top)
  {
    forall y | y in spans
      ensures spans[y].h <= top && (spans[y].h > 0 ==> |nodes[x := n][y].children| == |nodes[x := n][y].keys| + 1)
      ensures nodes[x := n][y].parent == nodes[y].parent
    {
    }
  }

  lemma NodeShape(v: View, a: Addr)
    requires Structure(v, 0) && a in v.spans
    ensures |v.nodes[a].children| > 0 && (v.nodes[a].parent == 0 <==> a == v.root)
    ensures |v.nodes[a].children| == |v.nodes[a].keys| + if v.nodes[a].isLeaf then 0 else 1
    ensures v.nodes[a].isLeaf && v.nodes[a].next != 0 ==> v.nodes[a].next in v.nodes
    ensures a != v.root ==> v.nodes[a].parent in v.spans && v.nodes[a].parent != a && (v.nodes[a].isLeaf ==> v.nodes[a].parent != v.nodes[a].next)
                            && !v.nodes[v.nodes[a].parent].isLeaf
                            && |v.nodes[v.nodes[a].parent].children| == |v.nodes[v.nodes[a].parent].keys| + 1
    ensures !v.nodes[a].isLeaf ==> forall i :: 0 <= i < |v.nodes[a].children| ==> v.nodes[a].children[i] in v.nodes
  {
    assert NodeOK(v, a, 0);
    if v.nodes[a].isLeaf { NextIsLeaf(v, a); } else { ChildFacts(v, a); }
    if a != v.root { ParentIsInner(v, a); }
  }

  lemma NoneReparented(nodes: map<Addr, Node>, b: Addr)
    ensures Reparent(nodes, [], b) == nodes
  {
  }

  lemma ReparentNext(nodes: map<Addr, Node>, cs: seq<Addr>, i: nat, b: Addr)
    requires i < |cs|
    ensures Reparent(nodes, cs[..i + 1], b) ==
              if cs[i] in nodes then Reparent(nodes, cs[..i], b)[cs[i] := Reparent(nodes, cs[..i], b)[cs[i]].(parent := b)]
              else Reparent(nodes, cs[..i], b)
    ensures Reparent(nodes, cs[..i], b).Keys == nodes.Keys
  {
    assert cs[..i + 1] == cs[..i] + [cs[i]];
  }

  lemma SplitPlaced(l: Stripes.Layout, c: Stripes.Cursor, v: View, w: View, b: Addr, pages: set<Addr>, deleted: set<Addr>)
    requires Placed(l, c, v, pages, deleted) && w.nodes.Keys == v.nodes.Keys + {b} && w.filed.Keys == v.filed.Keys
    requires w.spans.Keys == v.spans.Keys + {b}
    requires Stripes.Used(l, c, b) && b !in pages && b !in deleted && b !in v.filed
    ensures Placed(l, c, w, pages, deleted)
  {
  }

  lemma SplitKeys(v: View, a: Addr, b: Addr, m: nat)
    requires CanSplit(v, a, b, m)
    ensures var w, u := AfterSplit(v, a, b, m), SplitView(v, a, b, m);
            && w.spans.Keys == v.spans.Keys + {b} && w.filed.Keys == v.filed.Keys && w.root == v.root
            && w.nodes == SplitNodes(v, a, b, m) && w == u.(nodes := w.nodes)
  {
  }

  lemma SplitKeepsShape(l: Stripes.Layout, c: Stripes.Cursor, v: View, a: Addr, b: Addr, M: nat, exc: Addr,
                        pages: set<Addr>, deleted: set<Addr>, w: View)
    requires M >= 4 && CanSplit(v, a, b, M - M / 2) && Filled(v, M, exc) && Placed(l, c, v, pages, deleted)
    requires exc == 0 || (exc == v.root && v.nodes[a].parent == exc)
    requires |v.nodes[a].children| == M && |v.nodes[v.nodes[a].parent].children| < M
    requires Stripes.Used(l, c, b) && b !in pages && b !in deleted && b !in v.filed && w == AfterSplit(v, a, b, M - M / 2)
    ensures Structure(w, 0)
    ensures Filled(w, M, 0)
    ensures Halves(v, w, a, b, M - M / 2)
    ensures Placed(l, c, w, pages, deleted)
    ensures w.nodes == SplitNodes(v, a, b, M - M / 2) && w.root == v.root
  {
    hide SplitNodes, SplitView, Structure, Filled, Placed, Halves, AfterSplit;
    SplitNodesKeeps(v, a, b, M - M / 2);
    SplitHalves(v, a, b, M - M / 2);
    SplitFilled(v, a, b, M - M / 2, M, exc);
    SplitKeys(v, a, b, M - M / 2);
    SplitPlaced(l, c, v, w, b, pages, deleted);
  }

  lemma HalfFields(n: Node, m: nat, a: Addr)
    requires 0 < m < |n.children| && m <= |n.keys|
    ensures UpperHalf(n, m, a).parent == n.parent && UpperHalf(n, m, a).maxKey == n.maxKey
    ensures forall b, k :: LowerHalf(n, m, b, k).parent == n.parent
  {
  }

  lemma GrowKeepsShape(l: Stripes.Layout, c: Stripes.Cursor, v: View, w: View, r: Addr, M: nat, pages: set<Addr>, deleted: set<Addr>)
    requires Structure(v, 0) && Grown(v, w, r) && Filled(v, M, 0) && Placed(l, c, v, pages, deleted)
    requires |v.nodes[v.root].children| == M >= 4
    requires Stripes.Used(l, c, r) && r !in v.nodes && r !in pages && r !in deleted && r !in v.filed
    ensures Filled(w, M, r)
    ensures Placed(l, c, w, pages, deleted)
    ensures Carried(v, w, v.root)
  {
    hide Stripes.Used, Stripes.Valid;
    forall x | x in w.spans && x != r ensures Counted(w, M, x) { assert Counted(v, M, x); }
  }

  /** A child of a node that has been split belongs to one half or the other, and they have room for more. */
  lemma HalvesChild(v: View, w: View, a: Addr, b: Addr, m: nat, x: Addr)
    requires Structure(v, 0) && Structure(w, 0) && Halves(v, w, a, b, m) && x in v.spans && x != v.root && v.nodes[x].parent == a
    ensures Carried(v, w, x) && x in w.spans && x != w.root && x in w.nodes
    ensures w.nodes[x].children == v.nodes[x].children
    ensures a in w.nodes && b in w.nodes && w.nodes[a].children == v.nodes[a].children[..m] && w.nodes[b].children == v.nodes[a].children[m..]
    ensures w.nodes[x].parent == a || w.nodes[x].parent == b
  {
    var i := ChildIndex(v, 0, x);
    assert Adopted(v, w, x);
    var z, j := if i < m then a else b, if i < m then i else i - m;
    assert w.nodes[z].children[j] == x;
    assert NodeOK(w, z, 0) && ChildOK(w, z, j, 0);
    assert NodeOK(w, x, 0);
  }

  lemma ParentCount(v: View, M: nat, a: Addr)
    requires Structure(v, 0) && Filled(v, M, 0) && a in v.spans
    ensures a != v.root ==> v.nodes[a].parent in v.spans && |v.nodes[v.nodes[a].parent].children| <= M
    ensures a != v.root ==> v.spans[v.nodes[a].parent].h == v.spans[a].h + 1 <= v.spans[v.root].h
  {
    assert NodeOK(v, a, 0);
    if a == v.root { return; }
    assert Counted(v, M, v.nodes[a].parent) && NodeOK(v, v.nodes[a].parent, 0);
  }

  lemma LeafClimbs(v: View, a: Addr, m: Node)
    requires Structure(v, 0) && a in v.spans && v.nodes[a].isLeaf && m.parent == v.nodes[a].parent
    ensures Climbable(v.nodes, v.spans, v.spans[v.root].h)
    ensures Climbable(v.nodes[a := m], v.spans, v.spans[v.root].h)
  {
    StructureRises(v, 0);
    assert NodeOK(v, a, 0);
    var nodes := v.nodes[a := m];
    forall x | x in v.spans
      ensures v.spans[x].h <= v.spans[v.root].h
      ensures v.spans[x].h > 0 ==> |v.nodes[x].children| == |v.nodes[x].keys| + 1 && nodes[x] == v.nodes[x]
      ensures nodes[x].parent == v.nodes[x].parent
    {
      assert NodeOK(v, x, 0);
    }
  }

  lemma FilingShape(l: Stripes.Layout, c: Stripes.Cursor, v: View, w: View, a: Addr, lo: int, key: Key, q: Addr, M: nat,
                    paged: set<Addr>, deleted: set<Addr>)
    requires Filing(v, w, a, lo, key, q) && Filled(v, M, 0) && |v.nodes[a].children| < M && Placed(l, c, v, paged, deleted)
    requires q in paged && q !in deleted
    ensures Structure(w, 0)
    ensures Filled(w, M, 0)
    ensures Placed(l, c, w, paged, deleted)
  {
    FilingKeeps(v, w, a, lo, key, q, M);
    hide Filing, Structure, Filled, Stripes.Used, Stripes.Valid;
  }
}
