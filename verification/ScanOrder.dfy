// Where a scan has got to: which pages are behind it and which ahead, and what the next row is.
module ScanOrder {
  import opened Base
  import opened Records
  import opened TreeView
  import opened TreePages
  import opened PageSearch
  import opened TableContents

  ghost predicate Leaf(v: View, a: Addr) {
    a in v.spans && a in v.nodes && v.nodes[a].isLeaf && |v.nodes[a].children| == |v.nodes[a].keys| > 0
  }

  /** The pages of leaf a from the c-th on, and of the leaves after it, are filed above this key. */
  ghost function Front(v: View, a: Addr, c: nat): int
    requires Leaf(v, a) && c <= |v.nodes[a].keys|
  {
    if c == 0 then v.spans[a].lo else v.nodes[a].keys[c - 1]
  }

  /** The rows with keys up to k are in the pages filed below front, and the later ones in those above. */
  ghost predicate Ahead(pages: map<Addr, seq<Record>>, f: map<Addr, Filed>, front: int, k: int) {
    forall q, r {:trigger InPage(pages, f, q, r)} :: InPage(pages, f, q, r) ==> if f[q].lo >= front then r.key > k else r.key <= k
  }

  /** r is the row a scan that has visited those up to k is to visit next. */
  ghost predicate IsNext(contents: map<Key, Record>, k: int, r: Record) {
    k < r.key && r.key in contents && contents[r.key] == r && forall x {:trigger x in contents} :: x in contents && x > k ==> r.key <= x
  }

  ghost predicate Exhausted(contents: map<Key, Record>, k: int) { forall x {:trigger x in contents} :: x in contents ==> x <= k }

  lemma LeafFacts(v: View, a: Addr)
    requires Structure(v, 0) && a in v.spans && v.nodes[a].isLeaf
    ensures Leaf(v, a) && Sorted(v.nodes[a].keys) && v.spans[a].h == 0 && -1 <= v.spans[a].lo < v.nodes[a].keys[0]
    ensures Last(v.nodes[a].keys) <= v.spans[a].hi <= KEY_LIMIT
    ensures v.nodes[a].next != 0 ==> v.nodes[a].next in v.spans && v.nodes[v.nodes[a].next].isLeaf && v.spans[v.nodes[a].next].lo == v.spans[a].hi
    ensures v.nodes[a].next == 0 ==> v.spans[a].hi == KEY_LIMIT
    ensures forall i {:trigger v.nodes[a].children[i]} :: 0 <= i < |v.nodes[a].children| ==>
              var p := v.nodes[a].children[i]; p in v.filed && v.filed[p].leaf == a && v.filed[p].hi == v.nodes[a].keys[i] && Front(v, a, i) <= v.filed[p].lo < v.filed[p].hi
  {
    assert NodeOK(v, a, 0);
    forall i | 0 <= i < |v.nodes[a].children|
      ensures var p := v.nodes[a].children[i]; p in v.filed && v.filed[p].leaf == a && v.filed[p].hi == v.nodes[a].keys[i] && Front(v, a, i) <= v.filed[p].lo < v.filed[p].hi
    {
      assert PageOK(v, a, i);
    }
    if v.nodes[a].next != 0 { assert NodeOK(v, v.nodes[a].next, 0); }
    assert PageOK(v, a, 0);
  }

  /** The place of a page whose bounds end where leaf a covers. */
  lemma PageOfLeaf(v: View, a: Addr, q: Addr) returns (i: nat)
    requires Structure(v, 0) && a in v.spans && v.nodes[a].isLeaf && q in v.filed && Covers(v, a, v.filed[q].hi)
    ensures Leaf(v, a) && i < |v.nodes[a].keys| && v.nodes[a].children[i] == q && v.filed[q].hi == v.nodes[a].keys[i]
  {
    LeafFacts(v, a);
    i := PageIndex(v, q);
    var l := v.filed[q].leaf;
    LeafFacts(v, l);
    hide Structure;
    assert v.spans[l].lo < v.filed[q].hi <= v.spans[l].hi;
    UniqueCover(v, 0, a, l, v.filed[q].hi);
  }

  /** No page's bounds go across a front. */
  lemma FrontSplits(v: View, a: Addr, c: nat, q: Addr)
    requires Structure(v, 0) && a in v.spans && v.nodes[a].isLeaf && q in v.filed
    ensures Leaf(v, a) && (c <= |v.nodes[a].keys| ==> v.filed[q].lo >= Front(v, a, c) || v.filed[q].hi <= Front(v, a, c))
  {
    LeafFacts(v, a);
    if c <= |v.nodes[a].keys| && v.filed[q].lo < Front(v, a, c) < v.filed[q].hi {
      var b := Front(v, a, c);
      if c > 0 {
        PagesApart(v, q, v.nodes[a].children[c - 1], b);
      } else {
        var i := PageIndex(v, q);
        var l := v.filed[q].leaf;
        LeafFacts(v, l);
        UniqueCover(v, 0, a, l, b + 1);
      }
    }
  }

  /** Between two fronts there is one page. */
  lemma OneBetween(v: View, a: Addr, c: nat, q: Addr)
    requires Structure(v, 0) && Leaf(v, a) && c < |v.nodes[a].keys| && q in v.filed
    requires Front(v, a, c) <= v.filed[q].lo && v.filed[q].hi <= v.nodes[a].keys[c]
    ensures q == v.nodes[a].children[c]
  {
    LeafFacts(v, a);
    var l := PageIndex(v, q);
    LeafFacts(v, v.filed[q].leaf);
    var i := PageOfLeaf(v, a, q);
  }

  /** No page lies between the last of a leaf and the end of what it covers. */
  lemma NoneAfterLast(v: View, a: Addr, q: Addr)
    requires Structure(v, 0) && Leaf(v, a) && q in v.filed
    requires Last(v.nodes[a].keys) <= v.filed[q].lo
    ensures v.filed[q].hi > v.spans[a].hi
  {
    LeafFacts(v, a);
    var l := PageIndex(v, q);
    LeafFacts(v, v.filed[q].leaf);
    if v.filed[q].hi <= v.spans[a].hi { var i := PageOfLeaf(v, a, q); }
  }

  /** A key's record is in a page, within its bounds. */
  lemma RowPlace(v: View, pages: map<Addr, seq<Record>>, contents: map<Key, Record>, x: Key) returns (q: Addr)
    requires Stored(pages, v.filed, contents) && x in contents
    ensures InPage(pages, v.filed, q, contents[x]) && contents[x].key == x && v.filed[q].lo < x <= v.filed[q].hi
  {
    assert Kept(pages, v.filed, contents, x);
    q :| InPage(pages, v.filed, q, contents[x]);
    RowBounds(pages, v.filed, contents, q, contents[x]);
  }

  lemma RowBounds(pages: map<Addr, seq<Record>>, f: map<Addr, Filed>, contents: map<Key, Record>, q: Addr, r: Record)
    requires Stored(pages, f, contents) && InPage(pages, f, q, r)
    ensures f[q].lo < r.key <= f[q].hi
  {
    assert PageSound(pages, f, q);
    var j :| 0 <= j < |pages[q]| && pages[q][j] == r;
  }

  // ---- moving on

  /** The first row of the first page that has any is the next. */
  lemma FirstOfPage(v: View, pages: map<Addr, seq<Record>>, contents: map<Key, Record>, a: Addr, c: nat, k: int)
    requires Structure(v, 0) && Stored(pages, v.filed, contents) && Leaf(v, a) && c < |v.nodes[a].keys|
    requires Ahead(pages, v.filed, Front(v, a, c), k)
    ensures var p := v.nodes[a].children[c];
            && p in v.filed && p in pages && (pages[p] != [] ==> IsNext(contents, k, pages[p][0]))
  {
    LeafFacts(v, a);
    var p := v.nodes[a].children[c];
    assert PageSound(pages, v.filed, p);
    if pages[p] != [] {
      assert InPage(pages, v.filed, p, pages[p][0]);
      hide Structure;
      forall x | x in contents && x > k ensures pages[p][0].key <= x {
        var q := RowPlace(v, pages, contents, x);
        FrontSplits(v, a, c + 1, q);
        if v.filed[q].hi <= v.nodes[a].keys[c] {
          OneBetween(v, a, c, q);
          var j :| 0 <= j < |pages[q]| && pages[q][j] == contents[x];
        }
      }
    }
  }

  /** An empty page is passed over. */
  lemma EmptyPassed(v: View, pages: map<Addr, seq<Record>>, contents: map<Key, Record>, a: Addr, c: nat, k: int)
    requires Structure(v, 0) && Leaf(v, a) && c < |v.nodes[a].keys|
    requires Ahead(pages, v.filed, Front(v, a, c), k)
    requires v.nodes[a].children[c] in pages && pages[v.nodes[a].children[c]] == []
    ensures Ahead(pages, v.filed, Front(v, a, c + 1), k)
  {
    LeafFacts(v, a);
    hide Structure;
    forall q, r | InPage(pages, v.filed, q, r) ensures if v.filed[q].lo >= Front(v, a, c + 1) then r.key > k else r.key <= k {
      FrontSplits(v, a, c + 1, q);
      if v.filed[q].lo >= Front(v, a, c) && v.filed[q].hi <= v.nodes[a].keys[c] { OneBetween(v, a, c, q); }
    }
  }

  /** From the end of a leaf to the start of the next, if there is one. */
  lemma LeafPassed(v: View, pages: map<Addr, seq<Record>>, contents: map<Key, Record>, a: Addr, k: int)
    requires Structure(v, 0) && Stored(pages, v.filed, contents) && Leaf(v, a)
    requires Ahead(pages, v.filed, Front(v, a, |v.nodes[a].keys|), k)
    ensures var b := v.nodes[a].next;
            if b == 0 then Exhausted(contents, k)
            else b in v.spans && Leaf(v, b) && v.spans[a].lo < v.spans[b].lo <= KEY_LIMIT && Ahead(pages, v.filed, Front(v, b, 0), k)
  {
    LeafFacts(v, a);
    var b := v.nodes[a].next;
    if b == 0 {
      hide Structure;
      forall x | x in contents ensures x <= k {
        var q := RowPlace(v, pages, contents, x);
        var i := PageIndex(v, q);
        LeafFacts(v, v.filed[q].leaf);
        if v.filed[q].lo >= Last(v.nodes[a].keys) { NoneAfterLast(v, a, q); }
      }
    } else {
      LeafFacts(v, b);
      hide Structure;
      forall q, r | InPage(pages, v.filed, q, r) ensures if v.filed[q].lo >= Front(v, b, 0) then r.key > k else r.key <= k {
        FrontSplits(v, b, 0, q);
        if v.filed[q].lo >= Last(v.nodes[a].keys) { NoneAfterLast(v, a, q); }
      }
    }
  }

  /** The scan is on a page that covers the last key it visited, slot being its place there. */
  ghost predicate Within(f: map<Addr, Filed>, p: Addr, page: seq<Record>, slot: int, k: int) {
    && p in f && f[p].lo < k <= f[p].hi && -1 <= slot < |page|
    && (forall i {:trigger page[i]} :: 0 <= i < |page| ==> (page[i].key <= k <==> i <= slot))
  }

  lemma NextInPage(v: View, pages: map<Addr, seq<Record>>, contents: map<Key, Record>, p: Addr, slot: int, k: int)
    requires Structure(v, 0) && Stored(pages, v.filed, contents) && p in pages && Within(v.filed, p, pages[p], slot, k)
    ensures slot + 1 < |pages[p]| ==> IsNext(contents, k, pages[p][slot + 1]) && Within(v.filed, p, pages[p], slot + 1, pages[p][slot + 1].key)
  {
    assert PageSound(pages, v.filed, p);
    hide Structure;
    if slot + 1 < |pages[p]| {
      var s := pages[p][slot + 1];
      assert InPage(pages, v.filed, p, s);
      forall x | x in contents && x > k ensures s.key <= x {
        var q := RowPlace(v, pages, contents, x);
        if x <= v.filed[p].hi {
          PagesApart(v, p, q, x);
          var j :| 0 <= j < |pages[q]| && pages[q][j] == contents[x];
          assert j > slot;
        }
      }
    }
  }

  /** A page all of whose rows have been visited is left behind. */
  lemma PagePassed(v: View, pages: map<Addr, seq<Record>>, contents: map<Key, Record>, a: Addr, c: nat, slot: int, k: int)
    requires Structure(v, 0) && Stored(pages, v.filed, contents) && Leaf(v, a) && c < |v.nodes[a].keys|
    requires var p := v.nodes[a].children[c]; p in pages && Within(v.filed, p, pages[p], slot, k) && slot + 1 >= |pages[p]|
    ensures Ahead(pages, v.filed, Front(v, a, c + 1), k)
  {
    LeafFacts(v, a);
    hide Structure;
    var p := v.nodes[a].children[c];
    forall q, r | InPage(pages, v.filed, q, r) ensures if v.filed[q].lo >= Front(v, a, c + 1) then r.key > k else r.key <= k {
      FrontSplits(v, a, c + 1, q);
      RowBounds(pages, v.filed, contents, q, r);
      if r.key > k && v.filed[q].hi <= v.nodes[a].keys[c] {
        PagesApart(v, p, q, r.key);
        assert false;
      }
    }
  }

  /** The scan is in leaf a, which covers the last key it visited, just after the last page filed up to that; no page has
      that key left to hold. */
  ghost predicate Between(v: View, pages: map<Addr, seq<Record>>, a: Addr, c: int, k: int) {
    && Leaf(v, a) && Covers(v, a, k) && -1 <= c < |v.nodes[a].keys|
    && (forall j {:trigger v.nodes[a].keys[j]} :: 0 <= j < |v.nodes[a].keys| ==> (v.nodes[a].keys[j] <= k <==> j <= c))
    && NoneCover(pages, v.filed, k)
  }

  /** No page with rows in it covers k. */
  ghost predicate NoneCover(pages: map<Addr, seq<Record>>, f: map<Addr, Filed>, k: int) {
    forall q, r {:trigger InPage(pages, f, q, r)} :: InPage(pages, f, q, r) ==> !(f[q].lo < k <= f[q].hi)
  }

  lemma Resumed(v: View, pages: map<Addr, seq<Record>>, contents: map<Key, Record>, a: Addr, c: int, k: int)
    requires Structure(v, 0) && Stored(pages, v.filed, contents) && Between(v, pages, a, c, k)
    ensures Ahead(pages, v.filed, Front(v, a, c + 1), k)
  {
    LeafFacts(v, a);
    hide Structure;
    forall q, r | InPage(pages, v.filed, q, r) ensures if v.filed[q].lo >= Front(v, a, c + 1) then r.key > k else r.key <= k {
      FrontSplits(v, a, c + 1, q);
      RowBounds(pages, v.filed, contents, q, r);
      if v.filed[q].lo >= Front(v, a, c + 1) && r.key <= k { var i := PageOfLeaf(v, a, q); }
    }
  }

  /** Before the first page of the first leaf everything is ahead. */
  lemma AllAhead(v: View, pages: map<Addr, seq<Record>>, contents: map<Key, Record>, a: Addr)
    requires Structure(v, 0) && Stored(pages, v.filed, contents) && Leaf(v, a) && v.spans[a].lo == -1
    ensures Ahead(pages, v.filed, Front(v, a, 0), -1)
  {
    hide Structure;
    forall q, r | InPage(pages, v.filed, q, r) ensures if v.filed[q].lo >= Front(v, a, 0) then r.key > -1 else r.key <= -1 {
      FrontSplits(v, a, 0, q);
      RowBounds(pages, v.filed, contents, q, r);
      var i := PageIndex(v, q);
      LeafFacts(v, v.filed[q].leaf);
    }
  }
}
