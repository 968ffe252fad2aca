// A table's pending changes: marking them, undoing a failed statement's, reading through them and writing them to the file.
module Pending {
  import opened Base
  import opened Records
  import opened TreeView
  import opened NodeStore
  import opened HashTables
  import Stripes

  /** What a statement can change: the pending versions of pages and nodes, the delete markers, and the header's fields. */
  datatype Snapshot = Snapshot(pages: map<Addr, seq<Record>>, nodes: map<Addr, Node>, deletes: set<Addr>, cursor: Stripes.Cursor, root: Addr)

  /** now differs from then only where the first versions set aside say what was there. */
  ghost predicate Remembers<T>(undo: map<Addr, Option<T>>, then_: map<Addr, T>, now: map<Addr, T>) {
    forall a {:trigger a in undo} {:trigger a in now} {:trigger a in then_} ::
      if a in undo then undo[a] == Lookup(then_, a) else Lookup(now, a) == Lookup(then_, a)
  }

  /** A node's pending version, or the file's. */
  function Seen(pending: map<Addr, Node>, file: map<Addr, Node>, a: Addr): Node
    requires a in file
  {
    if a in pending then pending[a] else file[a]
  }

  function Lookup<T>(m: map<Addr, T>, a: Addr): Option<T> { if a in m then Some(m[a]) else None }

  /** Puts back every version set aside, and drops what had none. */
  method Restore<T>(undo: map<Addr, Option<T>>, now: map<Addr, T>, ghost then_: map<Addr, T>) returns (r: map<Addr, T>)
    requires Remembers(undo, then_, now)
    ensures r == then_
  {
    r := now;
    var left := undo.Keys;
    while left != {}
      invariant left <= undo.Keys
      invariant forall a {:trigger a in r} {:trigger a in left} {:trigger a in then_} :: a !in left ==> Lookup(r, a) == Lookup(then_, a)
      decreases |left|
    {
      var a :| a in left;
      r := r - {a};
      if undo[a].Some? { r := r[a := undo[a].value]; }
      left := left - {a};
    }
    assert forall a :: Lookup(r, a) == Lookup(then_, a);
    assert forall a :: a in r <==> a in then_;
  }

  /** The same of delete markers, which are only ever added. */
  ghost predicate RemembersMarks(undo: map<Addr, bool>, then_: set<Addr>, now: set<Addr>) {
    forall a {:trigger a in now} {:trigger a in undo} :: if a in undo then undo[a] == (a in then_) && (undo[a] ==> a in now) else a in now <==> a in then_
  }

  method RestoreMarks(undo: map<Addr, bool>, now: set<Addr>, ghost then_: set<Addr>) returns (r: set<Addr>)
    requires RemembersMarks(undo, then_, now)
    ensures r == then_
  {
    r := now;
    var left := undo.Keys;
    while left != {}
      invariant left <= undo.Keys
      invariant forall a {:trigger a in r} {:trigger a in left} :: a !in left ==> (a in r <==> a in then_)
      invariant forall a {:trigger a in left} :: a in left && undo[a] ==> a in r
      decreases |left|
    {
      var a :| a in left;
      if !undo[a] { r := r - {a}; }
      left := left - {a};
    }
  }

  lemma NothingChanged<T>(m: map<Addr, T>, s: set<Addr>)
    ensures Remembers(map[], m, m) && RemembersMarks(map[], s, s)
  {
  }

  lemma MoveOne<T>(f: map<Addr, T>, d: map<Addr, T>, a: Addr)
    requires a in d
    ensures f[a := d[a]] + (d - {a}) == f + d && |d - {a}| < |d|
  {
    assert d.Keys == (d - {a}).Keys + {a};
    assert |d| == |d.Keys| && |d - {a}| == |(d - {a}).Keys|;
  }

  lemma DropOne<T>(m: map<Addr, T>, d: set<Addr>, a: Addr)
    requires a in d
    ensures (m - {a}) - (d - {a}) == m - d
  {
  }

  class PendingTable {
    const layout: Stripes.Layout

    var pageDirty: map<Addr, seq<Record>>
    var nodeDirty: map<Addr, Node>
    var deletes: set<Addr>
    var cursor: Stripes.Cursor
    var root: Addr

    var active: bool                                // whether a statement is being tracked
    var undoPages: map<Addr, Option<seq<Record>>>   // the versions pending before the statement, of what it has changed
    var undoNodes: map<Addr, Option<Node>>
    var undoDeletes: map<Addr, bool>
    var undoCursor: Stripes.Cursor
    var undoRoot: Addr

    var pageFile: map<Addr, seq<Record>>            // the table's file
    var nodeFile: map<Addr, Node>
    const cache: NodeCache

    ghost var begun: Snapshot                       // what the statement began with

    ghost function Now(): Snapshot
      reads this
    {
      Snapshot(pageDirty, nodeDirty, deletes, cursor, root)
    }

    /** Every node in the cache is as the file has it. */
    ghost predicate CacheMatches()
      reads this`nodeFile, cache`contents
    {
      forall a {:trigger a in cache.contents} :: a in cache.contents ==> a in nodeFile && nodeFile[a] == cache.contents[a]
    }

    /** The cache holds nothing but the root and its children, in the file, among what is pending, and in what a statement that
        has kept the root began with. */
    ghost predicate TopOnly()
      reads this`root, this`nodeFile, this`nodeDirty, this`active, this`undoRoot, this`begun, cache`contents
    {
      forall a {:trigger a in cache.contents} :: a in cache.contents && a in nodeFile ==>
        && AtTop(root, a, nodeFile[a]) && AtTop(root, a, Seen(nodeDirty, nodeFile, a))
        && (active && root == undoRoot ==> AtTop(root, a, Seen(begun.nodes, nodeFile, a)))
    }

    ghost predicate Tracks()
      reads this
    {
      && Remembers(undoPages, begun.pages, pageDirty) && Remembers(undoNodes, begun.nodes, nodeDirty)
      && RemembersMarks(undoDeletes, begun.deletes, deletes)
      && undoCursor == begun.cursor && undoRoot == begun.root && begun.nodes.Keys <= nodeDirty.Keys
    }

    ghost predicate Valid()
      reads this, cache, cache.slots
    {
      cache.Valid() && (cache.slots.Length == 0 <==> cache.maxNodes == 0) && CacheMatches() && TopOnly() && (active ==> Tracks())
    }

    /** What the table holds at a: its pending version, or what the file has. */
    ghost function NodeAt(a: Addr): Option<Node>
      reads this
    {
      if a in nodeDirty then Some(nodeDirty[a]) else Lookup(nodeFile, a)
    }

    ghost function PageAt(a: Addr): Option<seq<Record>>
      reads this
    {
      if a in pageDirty then Some(pageDirty[a]) else Lookup(pageFile, a)
    }

    /** A table opened on a file, with nothing pending. */
    constructor (layout: Stripes.Layout, cursor: Stripes.Cursor, root: Addr, pageFile: map<Addr, seq<Record>>, nodeFile: map<Addr, Node>,
                 hash: Addr -> nat, order: nat)
      ensures Valid() && !active && Now() == Snapshot(map[], map[], {}, cursor, root) && fresh(cache) && fresh(cache.slots)
      ensures this.pageFile == pageFile && this.nodeFile == nodeFile && this.layout == layout
    {
      this.layout, this.cursor, this.root, this.pageFile, this.nodeFile := layout, cursor, root, pageFile, nodeFile;
      pageDirty, nodeDirty, deletes, active := map[], map[], {}, false;
      undoPages, undoNodes, undoDeletes, undoCursor, undoRoot := map[], map[], map[], cursor, root;
      cache := new NodeCache(hash, 1 + order);
    }

    // ---- a statement's changes

    method BeginStatement()
      requires Valid()
      modifies this`active, this`undoPages, this`undoNodes, this`undoDeletes, this`undoCursor, this`undoRoot, this`begun
      ensures Valid() && active && begun == if old(active) then old(begun) else Now()
    {
      hide NodeCache.Valid, PendingTable.Tracks, PendingTable.CacheMatches, AtTop;
      if active { return; }
      InitUndo();
      active := true;
      StartsTracking();
    }

    method InitUndo()
      modifies this`undoPages, this`undoNodes, this`undoDeletes, this`undoCursor, this`undoRoot, this`begun
      ensures undoPages == map[] && undoNodes == map[] && undoDeletes == map[] && undoCursor == cursor && undoRoot == root && begun == Now()
    {
      undoPages, undoNodes, undoDeletes, undoCursor, undoRoot := map[], map[], map[], cursor, root;
      begun := Now();
    }

    lemma StartsTracking()
      requires undoPages == map[] && undoNodes == map[] && undoDeletes == map[] && undoCursor == cursor && undoRoot == root && begun == Now()
      ensures Tracks()
    {
      hide Remembers, RemembersMarks;
      NothingChanged(pageDirty, deletes);
      NothingChanged(nodeDirty, deletes);
    }

    method EndStatement()
      requires Valid()
      modifies this`active, this`undoPages, this`undoNodes, this`undoDeletes
      ensures Valid() && !active
    {
      if active { FreeUndo(); }
    }

    method FreeUndo()
      modifies this`active, this`undoPages, this`undoNodes, this`undoDeletes
      ensures !active
    {
      undoPages, undoNodes, undoDeletes := map[], map[], map[];
      active := false;
    }

    method RememberPage(a: Addr)
      requires Valid()
      modifies this`undoPages
      ensures Valid() && (active ==> a in undoPages)
    {
      if !active || a in undoPages { return; }
      undoPages := undoPages[a := Lookup(pageDirty, a)];
    }

    method RememberNode(a: Addr)
      requires Valid()
      modifies this`undoNodes
      ensures Valid() && (active ==> a in undoNodes)
    {
      if !active || a in undoNodes { return; }
      undoNodes := undoNodes[a := Lookup(nodeDirty, a)];
    }

    method RememberDelete(a: Addr)
      requires Valid()
      modifies this`undoDeletes
      ensures Valid() && (active ==> a in undoDeletes)
    {
      if !active || a in undoDeletes { return; }
      undoDeletes := undoDeletes[a := a in deletes];
    }

    method MarkPage(a: Addr, p: seq<Record>)
      requires Valid()
      modifies this`undoPages, this`pageDirty
      ensures Valid() && pageDirty == old(pageDirty)[a := p]
    {
      hide NodeCache.Valid;
      RememberPage(a);
      pageDirty := pageDirty[a := p];
    }

    /** Marks a node, which stays at the top of the tree if it was there. */
    method MarkNode(a: Addr, n: Node)
      requires Valid() && (NodeAt(a).Some? && AtTop(root, a, NodeAt(a).value) ==> AtTop(root, a, n))
      modifies this`undoNodes, this`nodeDirty
      ensures Valid() && nodeDirty == old(nodeDirty)[a := n]
    {
      hide NodeCache.Valid;
      RememberNode(a);
      nodeDirty := nodeDirty[a := n];
    }

    method MarkDelete(a: Addr)
      requires Valid()
      modifies this`undoDeletes, this`deletes
      ensures Valid() && deletes == old(deletes) + {a}
    {
      hide NodeCache.Valid;
      RememberDelete(a);
      if a in deletes { return; }
      deletes := deletes + {a};
    }

    method AllocPage() returns (a: Addr)
      requires Valid() && Stripes.Valid(layout, cursor)
      modifies this`cursor
      ensures Valid() && Stripes.Valid(layout, cursor)
      ensures !Stripes.Used(layout, old(cursor), a) && Stripes.Used(layout, cursor, a)
    {
      ghost var before, slot := cursor, Stripes.PageSlot(0, 0);
      cursor, a, slot := Stripes.AllocPage(layout, cursor);
      Stripes.FreshAddress(layout, before, cursor, slot);
    }

    method AllocNode() returns (a: Addr)
      requires Valid() && Stripes.Valid(layout, cursor)
      modifies this`cursor
      ensures Valid() && Stripes.Valid(layout, cursor)
      ensures !Stripes.Used(layout, old(cursor), a) && Stripes.Used(layout, cursor, a)
    {
      ghost var before, slot := cursor, Stripes.NodeSlot(0, 0);
      cursor, a, slot := Stripes.AllocNode(layout, cursor);
      Stripes.FreshAddress(layout, before, cursor, slot);
    }

    /** Gives the tree another root. The cache holds the top of the tree, so it starts again. */
    method SetRoot(a: Addr)
      requires Valid()
      modifies this`root, cache`count, cache`contents, cache.slots
      ensures Valid() && root == a && cache.contents == map[]
    {
      root := a;
      cache.NodeCacheClear();
    }

    /** The statement failed: everything pending, and the header, is as it was when it began, whatever it and the statements
        before it changed. */
    method RollbackStatement()
      requires Valid()
      modifies this`pageDirty, this`nodeDirty, this`deletes, this`cursor, this`root, this`active, this`undoPages, this`undoNodes, this`undoDeletes
      modifies cache`count, cache`contents, cache.slots
      ensures Valid() && !active && Now() == if old(active) then old(begun) else old(Now())
      ensures cache.contents == if old(active) && old(root) != root then map[] else old(cache.contents)
    {
      hide NodeCache.Valid, PendingTable.Tracks;
      assert active ==> Tracks();
      if !active { return; }
      RestoreObjects();
      cursor := undoCursor;
      if root != undoRoot { cache.NodeCacheClear(); }
      root := undoRoot;
      FreeUndo();
    }

    method RestoreObjects()
      requires active && Tracks()
      modifies this`pageDirty, this`nodeDirty, this`deletes
      ensures pageDirty == begun.pages && nodeDirty == begun.nodes && deletes == begun.deletes
      ensures undoCursor == begun.cursor && undoRoot == begun.root
    {
      hide Remembers, RemembersMarks;
      pageDirty := Restore(undoPages, pageDirty, begun.pages);
      nodeDirty := Restore(undoNodes, nodeDirty, begun.nodes);
      deletes := RestoreMarks(undoDeletes, deletes, begun.deletes);
    }

    // ---- reading, and writing to the file

    /** Reading the node at a puts it in the cache: it comes from the file, and the cache takes it. */
    ghost predicate Fills(a: Addr)
      reads this, cache
    {
      a !in nodeDirty && a !in cache.contents && a in nodeFile && cache.Wanted(a, nodeFile[a], root)
    }

    /** The pending version of a node if it has one, and otherwise the file's, whether or not it is in the cache. */
    method ReadNode(a: Addr) returns (r: Option<Node>)
      requires Valid()
      modifies cache`count, cache`contents, cache.slots
      ensures Valid() && r == NodeAt(a)
      ensures cache.contents == if old(Fills(a)) then old(cache.contents)[a := nodeFile[a]] else old(cache.contents)
    {
      hide NodeCache.Valid, Remembers, RemembersMarks;
      if a in nodeDirty { return Some(nodeDirty[a]); }
      r := cache.NodeCacheGet(a);
      if r.Some? { return; }
      if a !in nodeFile { return None; }
      r := Some(nodeFile[a]);
      var kept := cache.NodeCacheOffer(a, nodeFile[a], root);
    }

    /** Writes everything pending to the file, and drops what is marked from it. */
    method ApplyTable()
      requires Valid() && !active
      modifies this`pageDirty, this`nodeDirty, this`deletes, this`pageFile, this`nodeFile
      modifies cache`count, cache`contents, cache.slots
      ensures Valid() && Now() == Snapshot(map[], map[], {}, old(cursor), old(root))
      ensures forall a :: NodeAt(a) == if a in old(deletes) then None else old(NodeAt(a))
      ensures forall a :: PageAt(a) == if a in old(deletes) then None else old(PageAt(a))
      ensures cache.contents.Keys == old(cache.contents.Keys) - old(deletes)
      ensures nodeFile == old(nodeFile) + old(nodeDirty) - old(deletes) && pageFile == old(pageFile) + old(pageDirty) - old(deletes)
    {
      hide NodeCache.Valid, PendingTable.Tracks;
      pageFile := pageFile + pageDirty;
      pageDirty := map[];
      WriteNodes();
      DeleteObjects();
    }

    method WriteNodes()
      requires Valid() && !active
      modifies this`nodeDirty, this`nodeFile, cache`contents, cache.slots
      ensures Valid() && nodeDirty == map[] && nodeFile == old(nodeFile) + old(nodeDirty) && cache.contents.Keys == old(cache.contents.Keys)
    {
      hide PendingTable.Valid;
      ghost var was, dirty := nodeFile, nodeDirty;
      while nodeDirty != map[]
        invariant Valid() && !active && cache.contents.Keys == old(cache.contents.Keys)
        invariant nodeFile + nodeDirty == was + dirty
        decreases |nodeDirty|
      {
        var a :| a in nodeDirty;
        MoveOne(nodeFile, nodeDirty, a);
        WriteNode(a);
      }
    }

    /** Writes a pending node to the file, and over what the cache has of it. */
    method WriteNode(a: Addr)
      requires Valid() && !active && a in nodeDirty
      modifies this`nodeDirty, this`nodeFile, cache`contents, cache.slots
      ensures Valid() && nodeDirty == old(nodeDirty) - {a} && nodeFile == old(nodeFile)[a := old(nodeDirty)[a]]
      ensures cache.contents.Keys == old(cache.contents.Keys)
    {
      hide NodeCache.Valid, PendingTable.Tracks;
      nodeFile := nodeFile[a := nodeDirty[a]];
      var updated := cache.NodeCacheUpdate(a, nodeDirty[a]);
      nodeDirty := nodeDirty - {a};
    }

    method DeleteObjects()
      requires Valid() && !active
      modifies this`deletes, this`pageFile, this`nodeFile, cache`count, cache`contents, cache.slots
      ensures Valid() && deletes == {} && nodeFile == old(nodeFile) - old(deletes) && pageFile == old(pageFile) - old(deletes)
      ensures cache.contents.Keys == old(cache.contents.Keys) - old(deletes)
    {
      hide PendingTable.Valid;
      ghost var nodes, pages, all, cached := nodeFile, pageFile, deletes, cache.contents.Keys;
      while deletes != {}
        invariant Valid() && !active && nodeFile - deletes == nodes - all && pageFile - deletes == pages - all
        invariant cache.contents.Keys - deletes == cached - all
        decreases |deletes|
      {
        var a :| a in deletes;
        DropOne(nodeFile, deletes, a);
        DropOne(pageFile, deletes, a);
        DeleteObject(a);
      }
    }

    /** Marks what is at a in the file as garbage, and drops it from the cache. */
    method DeleteObject(a: Addr)
      requires Valid() && !active && a in deletes
      modifies this`deletes, this`pageFile, this`nodeFile, cache`count, cache`contents, cache.slots
      ensures Valid() && deletes == old(deletes) - {a} && nodeFile == old(nodeFile) - {a} && pageFile == old(pageFile) - {a}
      ensures cache.contents.Keys == old(cache.contents.Keys) - {a}
    {
      hide NodeCache.Valid, PendingTable.Tracks;
      nodeFile := nodeFile - {a};
      pageFile := pageFile - {a};
      var was := cache.NodeCacheRemove(a);
      deletes := deletes - {a};
    }
  }
}
