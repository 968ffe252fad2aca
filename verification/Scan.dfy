// Scans that change the table they walk.
module Scan {
  import opened Base
  import opened Records
  import opened TreeView
  import opened TreeSearch
  import opened TreePages
  import opened TableState
  import opened LeafPages
  import opened PageSearch
  import opened TableContents
  import opened BPlus
  import opened ScanOrder

  class Scanner {
    const tbl: Table
    var started: bool
    var atEnd: bool
    var leafAddr: Addr
    var leafNode: Node
    var childIdx: int             // the page's index in its leaf; -1 for before the first
    var pageAddr: Addr
    var page: seq<Record>
    var slotIdx: int              // the row's index in its page; -1 for before the first

    ghost var at: int             // the key of the last row visited, or -1

    /** The scanner's copies are the table's leaf and page, at a row or after one that has gone. */
    ghost predicate OnPage()
      reads this, tbl
    {
      && Leaf(tbl.V(), leafAddr) && leafNode == tbl.nodes[leafAddr] && 0 <= childIdx < |leafNode.children|
      && pageAddr == leafNode.children[childIdx] && pageAddr in tbl.pages && page == tbl.pages[pageAddr]
      && Within(tbl.filed, pageAddr, page, slotIdx, at)
    }

    /** The row's page has gone. */
    ghost predicate AfterPage()
      reads this, tbl
    {
      Between(tbl.V(), tbl.pages, leafAddr, childIdx, at) && leafNode == tbl.nodes[leafAddr] && page == [] && slotIdx >= 0
    }

    /** All rows up to the last visited are behind the scanner, and all others ahead. */
    ghost predicate Valid()
      reads this, tbl
    {
      && tbl.Valid()
      && if atEnd then Exhausted(tbl.contents, at) else if !started then at == -1 else OnPage() || AfterPage()
    }

    ghost predicate OnRow()
      reads this, tbl
    {
      started && !atEnd && OnPage() && 0 <= slotIdx < |page| && page[slotIdx].key == at && at in tbl.contents && tbl.contents[at] == page[slotIdx]
    }

    ghost predicate Fresh()
      reads this
    {
      !started && !atEnd && at == -1
    }

    constructor (t: Table)
      requires t.Valid()
      ensures tbl == t && Fresh() && Valid()
    {
      tbl, started, atEnd, at := t, false, false, -1;
      leafAddr, childIdx, pageAddr, slotIdx, page := 0, 0, 0, 0, [];
      leafNode := Node([], [], 0, 0, 0, 0, true);
    }

    method Rewind()
      requires tbl.Valid()
      modifies this
      ensures Fresh() && Valid()
    {
      started, atEnd, childIdx, slotIdx := false, false, 0, 0;
      at := -1;
    }

    /** Moves to the next row: the one with the least key above the last visited. more is false if there is none. */
    method Advance() returns (more: bool)
      requires Valid()
      modifies this
      ensures Valid()
      ensures more ==> OnRow() && IsNext(tbl.contents, old(at), page[slotIdx])
      ensures !more ==> atEnd && at == old(at) && Exhausted(tbl.contents, at)
    {
      tbl.ValidParts();
      if atEnd { return false; }
      if !started {
        FindFirstLeaf();
        more := LoadFirstValidPage();
        return;
      }
      hide Structure, Stored;
      ghost var v := tbl.V();
      if OnPage() {
        NextInPage(v, tbl.pages, tbl.contents, pageAddr, slotIdx, at);
        if slotIdx + 1 >= |page| { PagePassed(v, tbl.pages, tbl.contents, leafAddr, childIdx, slotIdx, at); }
      } else {
        Resumed(v, tbl.pages, tbl.contents, leafAddr, childIdx, at);
      }
      slotIdx := slotIdx + 1;
      if slotIdx < |page| {
        at := page[slotIdx].key;
        return true;
      }
      childIdx := childIdx + 1;
      more := LoadFirstValidPage();
    }

    method FindFirstLeaf()
      requires tbl.Valid()
      modifies this`leafAddr, this`leafNode, this`childIdx, this`started
      ensures Leaf(tbl.V(), leafAddr) && leafNode == tbl.nodes[leafAddr] && childIdx == 0 && started
      ensures Ahead(tbl.pages, tbl.filed, Front(tbl.V(), leafAddr, 0), -1)
    {
      tbl.ValidParts();
      ghost var v := tbl.V();
      RootStored(v);
      assert NodeOK(v, v.root, 0);
      var nAddr := tbl.root;
      leafNode := tbl.nodes[nAddr];
      while !leafNode.isLeaf
        invariant nAddr in v.spans && leafNode == tbl.nodes[nAddr] && v.spans[nAddr].lo == -1
        decreases v.spans[nAddr].h
      {
        assert NodeOK(v, nAddr, 0) && ChildOK(v, nAddr, 0, 0);
        nAddr := leafNode.children[0];
        leafNode := tbl.nodes[nAddr];
      }
      leafAddr := nAddr;
      childIdx := 0;
      started := true;
      LeafFacts(v, nAddr);
      AllAhead(v, tbl.pages, tbl.contents, nAddr);
    }

    /** Moves to the first row of the first page from here on that has any. */
    method LoadFirstValidPage() returns (more: bool)
      requires tbl.Valid() && started && !atEnd && Leaf(tbl.V(), leafAddr) && leafNode == tbl.nodes[leafAddr]
      requires 0 <= childIdx <= |leafNode.children| && Ahead(tbl.pages, tbl.filed, Front(tbl.V(), leafAddr, childIdx), at)
      modifies this
      ensures Valid() && started
      ensures more ==> OnRow() && IsNext(tbl.contents, old(at), page[slotIdx])
      ensures !more ==> atEnd && at == old(at) && Exhausted(tbl.contents, at)
    {
      hide Structure, Stored, Ahead, Table.Valid, Table.Shaped, AllFit, Within, IsNext, Exhausted, Front, Between;
      tbl.ValidParts();
      ghost var v, pages, contents := tbl.V(), tbl.pages, tbl.contents;
      while true
        invariant started && !atEnd && Leaf(v, leafAddr) && leafNode == v.nodes[leafAddr] && at == old(at)
        invariant 0 <= childIdx <= |leafNode.children| && Ahead(pages, v.filed, Front(v, leafAddr, childIdx), at)
        decreases KEY_LIMIT - v.spans[leafAddr].lo
      {
        ghost var a := leafAddr;
        while childIdx < |leafNode.children|
          invariant started && !atEnd && leafAddr == a && leafNode == v.nodes[a] && at == old(at)
          invariant 0 <= childIdx <= |leafNode.children| && Ahead(pages, v.filed, Front(v, a, childIdx), at)
        {
          FirstOfPage(v, pages, contents, leafAddr, childIdx, at);
          pageAddr := leafNode.children[childIdx];
          page := tbl.pages[pageAddr];
          slotIdx := 0;
          if |page| > 0 {
            FirstRow(v, pages, contents, pageAddr, at);
            at := page[0].key;
            return true;
          }
          EmptyPassed(v, pages, contents, leafAddr, childIdx, at);
          childIdx := childIdx + 1;
        }
        LeafPassed(v, pages, contents, leafAddr, at);
        if leafNode.next == 0 {
          atEnd := true;
          return false;
        }
        leafAddr := leafNode.next;
        leafNode := tbl.nodes[leafAddr];
        childIdx := 0;
      }
    }

    /** Puts the scanner on the row with this key, wherever it now is. */
    method SeekScanner(key: Key) returns (found: bool)
      requires tbl.Valid() && started && !atEnd && at == key
      modifies this`leafAddr, this`leafNode, this`childIdx, this`pageAddr, this`page, this`slotIdx
      ensures found <==> key in tbl.contents
      ensures found ==> Valid() && OnRow()
    {
      hide Structure, Stored, Table.Valid, Table.Shaped, AllFit, Within, Looked, Position;
      tbl.ValidParts();
      var addr, leaf := tbl.FindPage(key);
      if addr == 0 { return false; }
      OnSought(tbl.V(), tbl.pages, tbl.contents, addr, key);
      leafNode := tbl.nodes[leaf];
      leafAddr := leaf;
      childIdx := 0;
      while childIdx < |leafNode.children| && leafNode.children[childIdx] != addr
        invariant leafAddr == leaf && leafNode == tbl.nodes[leaf] && 0 <= childIdx <= |leafNode.children|
        invariant forall j :: 0 <= j < childIdx ==> leafNode.children[j] != addr
      {
        childIdx := childIdx + 1;
      }
      pageAddr := addr;
      page := tbl.pages[addr];
      var slot := Position(page, key);
      if slot == |page| || page[slot].key != key { return false; }
      slotIdx := slot;
      found := true;
    }

    /** Replaces a column of the current row. If its page has to be split the scanner follows the row. */
    method UpdateCol(col: nat, replacement: Entry) returns (ok: bool)
      requires Valid() && OnRow() && col < |page[slotIdx].entries|
      modifies this, tbl
      ensures started && !atEnd && at == old(at) && 0 <= old(at) < KEY_LIMIT
      ensures var r := Record(old(at), old(page[slotIdx].entries)[col := replacement]);
              && ok == (RecordBytes(tbl.keySize, r) <= tbl.capacity)
              && (ok ==> Valid() && OnRow() && page[slotIdx] == r)
              && tbl.contents == if ok then old(tbl.contents)[r.key := r] else old(tbl.contents)
      ensures !ok ==> tbl.Valid() && tbl.pages == old(tbl.pages) && tbl.nodes == old(tbl.nodes) && tbl.root == old(tbl.root) && tbl.cursor == old(tbl.cursor)
    {
      hide Structure, Stored, Table.Valid, Table.Shaped, Table.WouldHold, AllFit, Within, AllSmall, Used, RecordBytes, Ahead, Between;
      tbl.ValidParts();
      WithinPage(tbl.pages, tbl.filed, tbl.contents, pageAddr, slotIdx, at);
      ghost var v, was, contents := tbl.V(), tbl.pages, tbl.contents;
      var key := page[slotIdx].key;
      var r := Record(key, page[slotIdx].entries[col := replacement]);
      UpdateHolds(v, was, contents, pageAddr, slotIdx, r, tbl.keySize, tbl.capacity);
      UpdateSmall(was, v.filed, pageAddr, slotIdx, r, tbl.keySize, tbl.capacity);
      StillWithin(v.filed, pageAddr, page, slotIdx, at, r);
      page := page[slotIdx := r];
      tbl.contents := contents[key := r];
      tbl.WillHold(pageAddr, page);
      var split;
      ok, split := tbl.StorePage(page, pageAddr);
      if !ok {
        tbl.contents := contents;
        tbl.IsValid();
        return;
      }
      if split { ok := SeekScanner(key); }
    }

    /** Puts the scanner in a leaf, just before its first page filed past ik. */
    method StandAfter(leaf: Addr, ik: Key)
      requires tbl.Valid() && Covers(tbl.V(), leaf, ik) && leaf in tbl.nodes && tbl.nodes[leaf].isLeaf
      requires NoneCover(tbl.pages, tbl.filed, ik)
      modifies this`leafAddr, this`leafNode, this`childIdx
      ensures leafAddr == leaf && leafNode == tbl.nodes[leaf] && Between(tbl.V(), tbl.pages, leaf, childIdx, ik)
    {
      hide Structure, Table.Valid, Table.Shaped;
      tbl.ValidParts();
      leafAddr := leaf;
      leafNode := tbl.nodes[leafAddr];
      LeafFacts(tbl.V(), leafAddr);
      var next := 0;
      while next < |leafNode.keys| && leafNode.keys[next] <= ik
        invariant 0 <= next <= |leafNode.keys| && leafAddr == leaf && leafNode == tbl.nodes[leaf]
        invariant forall j :: 0 <= j < next ==> leafNode.keys[j] <= ik
      {
        next := next + 1;
      }
      childIdx := next - 1;
    }

    /** Deletes the current row, leaving the scanner between the rows on either side of it. */
    method DeleteRow() returns (ok: bool)
      requires Valid() && OnRow()
      modifies this, tbl
      ensures ok && Valid() && started && !atEnd && at == old(at) && tbl.contents == old(tbl.contents) - {at}
    {
      hide Structure, Stored, Table.Valid, Table.Shaped, AllFit, Within, Removed, SameBounds, Front, IsNext, Exhausted, Ahead, Position, SortedRecords, NoneCover, Between, Leaf;
      tbl.ValidParts();
      WithinPage(tbl.pages, tbl.filed, tbl.contents, pageAddr, slotIdx, at);
      ghost var v, was := tbl.V(), tbl.pages;
      var ik := page[slotIdx].key;
      page := [];
      var leaf;
      ghost var q;
      ok, page, leaf, q := tbl.DeleteRecord(ik);
      ok := ok && leaf != 0;
      tbl.ValidParts();
      RowGone(v, tbl.V(), was, tbl.pages, tbl.contents, pageAddr, slotIdx, q, ik, page);
      if |page| == 0 {
        StandAfter(leaf, ik);
      } else {
        slotIdx := if slotIdx > 0 then slotIdx - 1 else -1;
      }
    }
  }

  lemma OnSought(v: View, pages: map<Addr, seq<Record>>, contents: map<Key, Record>, q: Addr, k: Key)
    requires Structure(v, 0) && Stored(pages, v.filed, contents) && q in v.filed && Looked(pages, v.filed, contents, q, k)
    ensures q in pages && (k in contents <==> Holds(pages[q], k))
    ensures var a := v.filed[q].leaf; a in v.spans && v.nodes[a].isLeaf && Leaf(v, a) && q in v.nodes[a].children
    ensures k in contents ==> Within(v.filed, q, pages[q], Position(pages[q], k), k) && contents[k] == pages[q][Position(pages[q], k)]
  {
    assert FiledOK(v, q) && PageSound(pages, v.filed, q);
    assert NodeOK(v, v.filed[q].leaf, 0);
    LeafFacts(v, v.filed[q].leaf);
  }

  /** What is left of the row's page is still around the scanner, or no page has the row's key to hold. */
  lemma RowGone(v: View, w: View, pages: map<Addr, seq<Record>>, newPages: map<Addr, seq<Record>>, contents: map<Key, Record>,
                p: Addr, slot: int, q: Addr, k: Key, page: seq<Record>)
    requires Structure(v, 0) && Structure(w, 0) && p in v.filed && p in pages && Within(v.filed, p, pages[p], slot, k) && slot >= 0 && pages[p][slot].key == k
    requires Removed(v.filed, pages, q, k, page) && SortedRecords(pages[p])
    requires if page != [] || v.filed.Keys == {q} then w == v && newPages == pages[q := page] else newPages == pages && SameBounds(v.filed - {q}, w.filed)
    ensures p == q
    ensures page != [] ==> Within(w.filed, p, page, slot - 1, k)
    ensures page == [] ==> NoneCover(newPages, w.filed, k)
  {
    PagesApart(v, p, q, k);
    HoldsAny(pages[p], slot);
    if page == [] {
      forall x, r | InPage(newPages, w.filed, x, r) ensures !(w.filed[x].lo < k <= w.filed[x].hi) {
        if w.filed[x].lo < k <= w.filed[x].hi {
          assert w.filed[x].lo == v.filed[x].lo && w.filed[x].hi == v.filed[x].hi;
          PagesApart(v, x, q, k);
        }
      }
    }
  }

  lemma FirstRow(v: View, pages: map<Addr, seq<Record>>, contents: map<Key, Record>, p: Addr, k: int)
    requires Stored(pages, v.filed, contents) && p in v.filed && p in pages && pages[p] != [] && IsNext(contents, k, pages[p][0])
    ensures Within(v.filed, p, pages[p], 0, pages[p][0].key) && pages[p][0].key in contents && contents[pages[p][0].key] == pages[p][0]
  {
    assert PageSound(pages, v.filed, p);
  }

  lemma StillWithin(f: map<Addr, Filed>, p: Addr, page: seq<Record>, slot: int, k: int, r: Record)
    requires Within(f, p, page, slot, k) && slot >= 0 && r.key == page[slot].key
    ensures Within(f, p, page[slot := r], slot, k)
  {
  }

  lemma WithinPage(pages: map<Addr, seq<Record>>, f: map<Addr, Filed>, contents: map<Key, Record>, p: Addr, slot: int, k: int)
    requires Stored(pages, f, contents) && p in pages && Within(f, p, pages[p], slot, k)
    ensures p in f && slot < |pages[p]| && SortedRecords(pages[p])
  {
    assert PageSound(pages, f, p);
  }
}
