// Leaves that split, share pages with a sibling or merge with it, as changes to the whole tree.
module TreeLeaves {
  import opened Base
  import opened TreeView
  import opened TreeEdit
  import opened TreeRuns
  import opened TreePages

  lemma NextIsLeaf(v: View, a: Addr)
    requires Structure(v, 0) && a in v.spans && v.nodes[a].isLeaf
    ensures var x := v.nodes[a].next; x != 0 ==> x in v.spans && v.nodes[x].isLeaf && v.spans[x].h == 0 && v.nodes[x].prev == a && v.spans[x].lo == v.spans[a].hi
    ensures var x := v.nodes[a].prev; x != 0 ==> x in v.spans && v.nodes[x].isLeaf && v.spans[x].h == 0 && v.nodes[x].next == a && v.spans[x].hi == v.spans[a].lo
  {
    var n := v.nodes[a];
    assert NodeOK(v, a, 0);
    if n.next != 0 { assert NodeOK(v, n.next, 0); }
    if n.prev != 0 { assert NodeOK(v, n.prev, 0); }
  }

  /** The nodes above and beside a leaf, which aren't the leaf. */
  lemma ParentIsInner(v: View, a: Addr)
    requires Structure(v, 0) && a in v.spans && a != v.root
    ensures var p := v.nodes[a].parent;
            p in v.spans && !v.nodes[p].isLeaf && a in v.nodes[p].children && v.spans[p].h == v.spans[a].h + 1
            && |v.nodes[p].children| == |v.nodes[p].keys| + 1
            && (p != v.root ==> v.nodes[p].parent in v.spans && v.spans[v.nodes[p].parent].h == v.spans[a].h + 2)
  {
    assert NodeOK(v, a, 0);
    assert NodeOK(v, v.nodes[a].parent, 0);
  }

  // ---- a leaf whose prev changes

  /** Leaf x, which has been given a new leaf to follow. */
  lemma NewPrev(v: View, w: View, t: set<Addr>, x: Addr, y: Addr)
    requires Structure(v, 0) && Untouched(v, w, t) && x in v.spans && v.nodes[x].isLeaf && x in t && x != v.root
    requires v.nodes[x].prev in t && (v.nodes[x].next == 0 || v.nodes[x].next !in t)
    requires x in w.spans && w.nodes[x] == v.nodes[x].(prev := y) && w.spans[x] == v.spans[x]
    requires y in w.spans && y != 0 && w.spans[y].h == 0 && w.spans[y].hi == v.spans[x].lo && w.nodes[y].next == x
    requires forall q {:trigger v.filed[q]} :: q in v.filed && v.filed[q].leaf == x ==> q in w.filed && w.filed[q] == v.filed[q]
    requires v.nodes[x].parent in v.spans && KeepsChild(v, w, v.nodes[x].parent, x)
    ensures NodeOK(w, x, 0) && EdgesOK(v, w, t, x, 0)
  {
    hide Sorted;
    assert NodeOK(v, x, 0) && NodeOK(v, v.root, 0);
    forall i | 0 <= i < |w.nodes[x].children| ensures PageOK(w, x, i) { assert PageOK(v, x, i); }
    var z := v.nodes[x].next;
    if z != 0 {
      NextIsLeaf(v, x);
      assert Same(v, w, z);
    }
  }

  // ---- splitting a leaf

  /** w is v with leaf a's children from m on moved to its new sibling b. */
  ghost predicate LeafHalved(v: View, w: View, a: Addr, b: Addr, m: nat) {
    && a in v.spans && a in v.nodes && v.nodes[a].isLeaf && a != v.root && b !in v.spans && b != 0
    && var n, s := v.nodes[a], v.spans[a];
       && 0 < m < |n.children| == |n.keys|
       && n.parent in v.nodes && n.parent in w.nodes
       && Untouched(v, w, {a, b, n.parent, n.next})
       && a in w.nodes && b in w.nodes
       && w.nodes[a] == n.(children := n.children[..m], keys := n.keys[..m], next := b, maxKey := n.keys[m - 1])
       && w.nodes[b] == Node(n.children[m..], n.keys[m..], n.parent, a, n.next, n.maxKey, true)
       && (n.next != 0 ==> n.next in v.nodes && n.next in w.nodes && w.nodes[n.next] == v.nodes[n.next].(prev := b))
       && w.spans == v.spans[a := Span(s.h, s.lo, n.keys[m - 1])][b := Span(s.h, n.keys[m - 1], s.hi)]
       && w.filed == Refile(v.filed, a, b, n.keys[m - 1])
       && w.nodes[n.parent] == v.nodes[n.parent].(children := w.nodes[n.parent].children, keys := w.nodes[n.parent].keys, maxKey := w.nodes[n.parent].maxKey)
  }

  lemma HalvedPages(v: View, w: View, a: Addr, b: Addr, m: nat)
    requires Structure(v, 0) && LeafHalved(v, w, a, b, m)
    ensures Refiled(v, w, a, v.nodes[a].children[..m], v.nodes[a].keys[..m])
    ensures Refiled(v, w, b, v.nodes[a].children[m..], v.nodes[a].keys[m..])
    ensures v.spans[a].lo < v.nodes[a].keys[m - 1] < v.nodes[a].maxKey <= v.spans[a].hi
  {
    var n := v.nodes[a];
    LeafRun(v, a);
    CutPages(v.filed, n.children, n.keys, v.spans[a].lo, m);
    RunKeysAbove(v.filed, n.children, n.keys, v.spans[a].lo, m - 1);
    forall i | 0 <= i < |n.children| ensures n.children[i] in v.filed && v.filed[n.children[i]].hi == n.keys[i] {
      assert PageAt(v.filed, n.children, n.keys, v.spans[a].lo, i);
    }
  }

  lemma HalvedLinks(v: View, w: View, a: Addr, b: Addr, m: nat)
    requires Structure(v, 0) && LeafHalved(v, w, a, b, m)
    ensures LinksOK(w, a) && LinksOK(w, b)
    ensures EdgesOK(v, w, {a, b, v.nodes[a].parent, v.nodes[a].next}, a, 0)
  {
    hide Sorted, PageOK;
    var n := v.nodes[a];
    NextIsLeaf(v, a);
    ParentIsInner(v, a);
    assert NodeOK(v, a, 0);
    if n.prev != 0 {
      assert NodeOK(v, n.prev, 0);
      if n.prev != n.next { assert Same(v, w, n.prev); }
    }
  }

  lemma SplitLeafKeeps(v: View, w: View, a: Addr, b: Addr, m: nat, i: nat)
    requires Structure(v, 0) && LeafHalved(v, w, a, b, m)
    requires var p := v.nodes[a].parent;
             SplicedIn(v, w, {a, b, p, v.nodes[a].next}, p, i, i, [a, b], [v.nodes[a].keys[m - 1]])
             && v.nodes[p].children[i] == a
    ensures Structure(w, 0)
  {
    hide Refile, Refiled, LinksOK, SplicedIn, InnerOK, LeafOK, Run;
    var n := v.nodes[a];
    var p, t := n.parent, {a, b, n.parent, n.next};
    NextIsLeaf(v, a);
    ParentIsInner(v, a);
    assert NodeOK(v, a, 0);
    HalvedPages(v, w, a, b, m);
    HalvedLinks(v, w, a, b, m);
    HalvedParent(v, w, a, b, m, i);
    RefiledLeaf(v, w, a, n.children[..m], n.keys[..m]);
    RefiledLeaf(v, w, b, n.children[m..], n.keys[m..]);
    if n.next != 0 { HalvedNext(v, w, a, b, m); }
    forall q | q in w.filed && w.filed[q].leaf in t ensures FiledOK(w, q) { HalvedFiled(v, w, a, b, m, q); }
    Edit(v, w, t, 0);
  }

  lemma HalvedParent(v: View, w: View, a: Addr, b: Addr, m: nat, i: nat)
    requires Structure(v, 0) && LeafHalved(v, w, a, b, m)
    requires var p := v.nodes[a].parent;
             SplicedIn(v, w, {a, b, p, v.nodes[a].next}, p, i, i, [a, b], [v.nodes[a].keys[m - 1]])
             && v.nodes[p].children[i] == a
    ensures var p := v.nodes[a].parent; NodeOK(w, p, 0) && EdgesOK(v, w, {a, b, p, v.nodes[a].next}, p, 0)
    ensures UpOK(w, a) && UpOK(w, b)
    ensures forall x :: x in v.nodes[v.nodes[a].parent].children && x != a ==> KeepsChild(v, w, v.nodes[a].parent, x)
  {
    var n := v.nodes[a];
    var p, t := n.parent, {a, b, n.parent, n.next};
    NextIsLeaf(v, a);
    ParentIsInner(v, a);
    forall c | c in v.spans && v.nodes[c].parent == p && c !in v.nodes[p].children[i..i + 1] ensures KeepsKin(v, w, c) {
      assert v.nodes[p].children[i..i + 1] == [a] && NodeOK(v, c, 0);
      if c !in t { assert Same(v, w, c); }
    }
    ParentSpliced(v, w, t, p, i, i, [a, b], [n.keys[m - 1]]);
    assert w.nodes[p].children[i] == a && w.nodes[p].children[i + 1] == b;
    forall x | x in v.nodes[p].children && x != a ensures KeepsChild(v, w, p, x) {
      var k :| 0 <= k < |v.nodes[p].children| && v.nodes[p].children[k] == x;
    }
  }

  lemma HalvedNext(v: View, w: View, a: Addr, b: Addr, m: nat)
    requires Structure(v, 0) && LeafHalved(v, w, a, b, m) && v.nodes[a].next != 0
    requires v.nodes[a].next in v.spans
    requires forall x {:trigger KeepsChild(v, w, v.nodes[a].parent, x)} ::
               x in v.nodes[v.nodes[a].parent].children && x != a ==> KeepsChild(v, w, v.nodes[a].parent, x)
    ensures var x := v.nodes[a].next; NodeOK(w, x, 0) && EdgesOK(v, w, {a, b, v.nodes[a].parent, x}, x, 0)
  {
    var n, t := v.nodes[a], {a, b, v.nodes[a].parent, v.nodes[a].next};
    var x := n.next;
    NextIsLeaf(v, a);
    NextIsLeaf(v, x);
    ParentIsInner(v, a);
    assert NodeOK(v, x, 0) && NodeOK(v, a, 0);
    ParentIsInner(v, x);
    var y := v.nodes[x].parent;
    if y == n.parent { assert KeepsChild(v, w, y, x); } else { assert Same(v, w, y); }
    NewPrev(v, w, t, x, b);
  }

  lemma HalvedFiled(v: View, w: View, a: Addr, b: Addr, m: nat, q: Addr)
    requires Structure(v, 0) && LeafHalved(v, w, a, b, m)
    requires q in w.filed && w.filed[q].leaf in {a, b, v.nodes[a].parent, v.nodes[a].next}
    ensures FiledOK(w, q)
  {
    var n := v.nodes[a];
    NextIsLeaf(v, a);
    ParentIsInner(v, a);
    assert FiledOK(v, q);
    if v.filed[q].leaf == a {
      LeafRun(v, a);
      var j :| 0 <= j < |n.children| && n.children[j] == q;
      assert PageAt(v.filed, n.children, n.keys, v.spans[a].lo, j);
      if j < m { assert w.nodes[a].children[j] == q; } else { assert w.nodes[b].children[j - m] == q; }
    }
  }

  // ---- sibling leaves

  /** x and y are neighbouring children of p, at i and i + 1. */
  ghost predicate Siblings(v: View, p: Addr, i: nat, x: Addr, y: Addr) {
    && x in v.nodes && y in v.nodes && p in v.spans && p in v.nodes && !v.nodes[p].isLeaf
    && i + 1 < |v.nodes[p].children| == |v.nodes[p].keys| + 1
    && v.nodes[p].children[i] == x && v.nodes[p].children[i + 1] == y
  }

  lemma SiblingFacts(v: View, p: Addr, i: nat, x: Addr, y: Addr)
    requires Structure(v, 0) && Siblings(v, p, i, x, y)
    ensures x in v.spans && y in v.spans && x != y && x != v.root && y != v.root && x != p && y != p
    ensures v.nodes[x].parent == p && v.nodes[y].parent == p && v.nodes[x].isLeaf == v.nodes[y].isLeaf
    ensures v.spans[x].h == v.spans[y].h && v.spans[p].h == v.spans[x].h + 1
    ensures -1 <= v.spans[x].lo < v.spans[x].hi == v.spans[y].lo < v.spans[y].hi <= KEY_LIMIT
    ensures v.nodes[x].maxKey <= v.nodes[p].keys[i] <= v.spans[x].hi
    ensures v.nodes[x].maxKey <= v.spans[x].hi < v.nodes[y].maxKey <= v.spans[y].hi
    ensures i + 1 < |v.nodes[p].keys| ==> v.nodes[y].maxKey <= v.nodes[p].keys[i + 1]
    ensures i + 1 == |v.nodes[p].keys| ==> v.nodes[y].maxKey <= v.nodes[p].maxKey
    ensures v.spans[p].lo <= v.spans[x].lo < v.nodes[p].maxKey
    ensures p != v.root ==> v.nodes[p].parent in v.spans && v.spans[v.nodes[p].parent].h == v.spans[p].h + 1
  {
    assert NodeOK(v, p, 0) && ChildOK(v, p, i, 0) && ChildOK(v, p, i + 1, 0);
    assert NodeOK(v, x, 0) && NodeOK(v, y, 0);
    ParentCovers(v, 0, x, v.spans[x].hi);
    LastMax(v, p, i);
  }

  lemma LastMax(v: View, p: Addr, i: nat)
    requires Structure(v, 0) && p in v.spans && !v.nodes[p].isLeaf && i < |v.nodes[p].children|
    ensures v.nodes[p].children[i] in v.spans && v.spans[v.nodes[p].children[i]].lo < v.nodes[p].maxKey
  {
    assert NodeOK(v, p, 0);
    var m := |v.nodes[p].keys|;
    assert ChildOK(v, p, i, 0) && ChildOK(v, p, m, 0);
    assert NodeOK(v, v.nodes[p].children[m], 0);
    if i < m { ChildrenOrdered(v, 0, p, i, m); }
  }

  /** A leaf's next sibling is the leaf it links to. */
  lemma NextIsSibling(v: View, p: Addr, i: nat, x: Addr, y: Addr)
    requires Structure(v, 0) && Siblings(v, p, i, x, y) && v.nodes[x].isLeaf
    ensures v.nodes[x].next == y && v.nodes[y].prev == x
  {
    SiblingFacts(v, p, i, x, y);
    NextIsLeaf(v, x);
    assert NodeOK(v, x, 0);
    var z := v.nodes[x].next;
    assert NodeOK(v, z, 0) && NodeOK(v, y, 0);
    UniqueCover(v, 0, y, z, v.spans[x].hi + 1);
  }

  lemma JoinedPages(v: View, p: Addr, i: nat, x: Addr, y: Addr)
    requires Structure(v, 0) && Siblings(v, p, i, x, y) && v.nodes[x].isLeaf
    ensures v.nodes[y].isLeaf && x in v.spans && y in v.spans
    ensures |v.nodes[x].children| == |v.nodes[x].keys| > 0 && |v.nodes[y].children| == |v.nodes[y].keys| > 0
    ensures var c, k := v.nodes[x].children + v.nodes[y].children, v.nodes[x].keys + v.nodes[y].keys;
            && PageRun(v.filed, c, k, v.spans[x].lo)
            && Last(k) <= v.nodes[y].maxKey
            && forall j {:trigger c[j]} :: 0 <= j < |c| ==>
                 c[j] in v.filed && v.filed[c[j]].hi == k[j] && (v.filed[c[j]].leaf == x || v.filed[c[j]].leaf == y)
  {
    SiblingFacts(v, p, i, x, y);
    LeafRun(v, x); LeafRun(v, y);
    JoinPages(v.filed, v.nodes[x].children, v.nodes[x].keys, v.spans[x].lo, v.nodes[y].children, v.nodes[y].keys, v.spans[y].lo);
    var c, k := v.nodes[x].children + v.nodes[y].children, v.nodes[x].keys + v.nodes[y].keys;
    forall j | 0 <= j < |c|
      ensures c[j] in v.filed && v.filed[c[j]].hi == k[j] && (v.filed[c[j]].leaf == x || v.filed[c[j]].leaf == y)
    {
      assert PageAt(v.filed, c, k, v.spans[x].lo, j);
    }
  }

  /** w is v with the pages of sibling leaves x and y shared out again, the first m to x. */
  ghost predicate LeavesShared(v: View, w: View, p: Addr, i: nat, x: Addr, y: Addr, m: nat) {
    && Siblings(v, p, i, x, y) && x in v.spans && y in v.spans && x in v.nodes && y in v.nodes && v.nodes[x].isLeaf
    && Untouched(v, w, {x, y, p})
    && x in w.nodes && y in w.nodes && p in w.nodes
    && var c, k := v.nodes[x].children + v.nodes[y].children, v.nodes[x].keys + v.nodes[y].keys;
       && 0 < m < |c| == |k|
       && w.nodes[x] == v.nodes[x].(children := c[..m], keys := k[..m], maxKey := k[m - 1])
       && w.nodes[y] == v.nodes[y].(children := c[m..], keys := k[m..])
       && w.nodes[p] == v.nodes[p].(keys := v.nodes[p].keys[i := k[m - 1]])
       && w.spans == v.spans[x := v.spans[x].(hi := k[m - 1])][y := v.spans[y].(lo := k[m - 1])]
       && w.filed == Refile(v.filed, x, y, k[m - 1])
  }

  lemma SharedPages(v: View, w: View, p: Addr, i: nat, x: Addr, y: Addr, m: nat)
    requires Structure(v, 0) && LeavesShared(v, w, p, i, x, y, m)
    ensures var c, k := v.nodes[x].children + v.nodes[y].children, v.nodes[x].keys + v.nodes[y].keys;
            && v.spans[x].lo < k[m - 1] < v.nodes[y].maxKey
            && Refiled(v, w, x, c[..m], k[..m]) && Refiled(v, w, y, c[m..], k[m..])
  {
    var c, k := v.nodes[x].children + v.nodes[y].children, v.nodes[x].keys + v.nodes[y].keys;
    SiblingFacts(v, p, i, x, y);
    JoinedPages(v, p, i, x, y);
    CutPages(v.filed, c, k, v.spans[x].lo, m);
    RunKeysAbove(v.filed, c, k, v.spans[x].lo, m - 1);
  }

  lemma SharedLinks(v: View, w: View, p: Addr, i: nat, x: Addr, y: Addr, m: nat)
    requires Structure(v, 0) && LeavesShared(v, w, p, i, x, y, m)
    ensures LinksOK(w, x) && LinksOK(w, y)
    ensures EdgesOK(v, w, {x, y, p}, x, 0) && EdgesOK(v, w, {x, y, p}, y, 0)
  {
    hide Sorted, PageOK;
    NextIsSibling(v, p, i, x, y);
    SiblingFacts(v, p, i, x, y);
    NextIsLeaf(v, x); NextIsLeaf(v, y);
    assert NodeOK(v, x, 0) && NodeOK(v, y, 0);
    if v.nodes[x].prev != 0 { assert Same(v, w, v.nodes[x].prev); }
    if v.nodes[y].next != 0 { assert Same(v, w, v.nodes[y].next); }
  }

  lemma SharedSpliced(v: View, w: View, p: Addr, i: nat, x: Addr, y: Addr, m: nat, b: Key)
    requires Structure(v, 0) && LeavesShared(v, w, p, i, x, y, m)
    requires b == (v.nodes[x].keys + v.nodes[y].keys)[m - 1] && v.spans[x].lo < b < v.nodes[y].maxKey
    ensures SplicedIn(v, w, {x, y, p}, p, i, i + 1, [x, y], [b])
  {
    hide LeafOK, LinksOK, Refile;
    SiblingFacts(v, p, i, x, y);
    var c := v.nodes[p].children;
    assert RunAt(w, [x, y], [b], 0, v.spans[x].h) && RunAt(w, [x, y], [b], 1, v.spans[x].h);
    assert c[..i] + [x, y] + c[i + 2..] == c;
    assert v.nodes[p].keys[..i] + [b] + v.nodes[p].keys[i + 1..] == w.nodes[p].keys;
  }

  lemma SharedParent(v: View, w: View, p: Addr, i: nat, x: Addr, y: Addr, m: nat)
    requires Structure(v, 0) && LeavesShared(v, w, p, i, x, y, m)
    requires var k := v.nodes[x].keys + v.nodes[y].keys; v.spans[x].lo < k[m - 1] < v.nodes[y].maxKey
    ensures NodeOK(w, p, 0) && EdgesOK(v, w, {x, y, p}, p, 0) && UpOK(w, x) && UpOK(w, y)
  {
    hide SplicedIn, LinksOK, Refile;
    SiblingFacts(v, p, i, x, y);
    var c, b := v.nodes[p].children, (v.nodes[x].keys + v.nodes[y].keys)[m - 1];
    assert c[i..i + 2] == [x, y];
    SharedSpliced(v, w, p, i, x, y, m, b);
    forall z | z in v.spans && v.nodes[z].parent == p && z !in c[i..i + 2] ensures KeepsKin(v, w, z) {
      assert NodeOK(v, z, 0) && Same(v, w, z);
    }
    ParentSpliced(v, w, {x, y, p}, p, i, i + 1, [x, y], [b]);
    assert w.nodes[p].children[i] == x && w.nodes[p].children[i + 1] == y;
  }

  lemma ShareLeavesKeeps(v: View, w: View, p: Addr, i: nat, x: Addr, y: Addr, m: nat)
    requires Structure(v, 0) && LeavesShared(v, w, p, i, x, y, m)
    ensures Structure(w, 0)
  {
    hide Refiled, LinksOK, InnerOK, LeafOK, Run, PageRun;
    var c, k := v.nodes[x].children + v.nodes[y].children, v.nodes[x].keys + v.nodes[y].keys;
    SiblingFacts(v, p, i, x, y);
    SharedPages(v, w, p, i, x, y, m);
    SharedLinks(v, w, p, i, x, y, m);
    SharedParent(v, w, p, i, x, y, m);
    assert NodeOK(v, x, 0);
    RefiledLeaf(v, w, x, c[..m], k[..m]);
    RefiledLeaf(v, w, y, c[m..], k[m..]);
    forall q | q in w.filed && w.filed[q].leaf in {x, y, p} ensures FiledOK(w, q) { SharedFiled(v, w, p, i, x, y, m, q); }
    Edit(v, w, {x, y, p}, 0);
  }

  lemma SharedFiled(v: View, w: View, p: Addr, i: nat, x: Addr, y: Addr, m: nat, q: Addr)
    requires Structure(v, 0) && LeavesShared(v, w, p, i, x, y, m)
    requires q in w.filed && w.filed[q].leaf in {x, y, p}
    ensures FiledOK(w, q)
  {
    var c, k := v.nodes[x].children + v.nodes[y].children, v.nodes[x].keys + v.nodes[y].keys;
    SiblingFacts(v, p, i, x, y);
    JoinedPages(v, p, i, x, y);
    assert FiledOK(v, q);
    assert q in c;
    var j :| 0 <= j < |c| && c[j] == q;
    if j < m { assert w.nodes[x].children[j] == q; } else { assert w.nodes[y].children[j - m] == q; }
  }

  /** w is v with sibling leaf y's pages moved to x, and y gone from the tree. */
  ghost predicate LeavesMerged(v: View, w: View, p: Addr, i: nat, x: Addr, y: Addr) {
    && Siblings(v, p, i, x, y) && x in v.spans && y in v.spans && v.nodes[x].isLeaf
    && Untouched(v, w, {x, y, p, v.nodes[y].next})
    && x in w.nodes && p in w.nodes && x != y && p != x && p != y && v.nodes[y].next !in {p, x, y}
    && var c, k, z := v.nodes[x].children + v.nodes[y].children, v.nodes[x].keys + v.nodes[y].keys, v.nodes[y].next;
       && w.nodes[x] == v.nodes[x].(children := c, keys := k, maxKey := v.nodes[y].maxKey, next := z)
       && (z != 0 ==> z in v.nodes && z in w.nodes && w.nodes[z] == v.nodes[z].(prev := x))
       && w.nodes[p] == v.nodes[p].(children := RemoveAt(v.nodes[p].children, i + 1), keys := RemoveAt(v.nodes[p].keys, i))
       && w.spans == (v.spans - {y})[x := v.spans[x].(hi := v.spans[y].hi)]
       && w.filed == Refile(v.filed, x, y, KEY_LIMIT)
  }

  lemma MergedPages(v: View, w: View, p: Addr, i: nat, x: Addr, y: Addr)
    requires Structure(v, 0) && LeavesMerged(v, w, p, i, x, y)
    ensures Refiled(v, w, x, v.nodes[x].children + v.nodes[y].children, v.nodes[x].keys + v.nodes[y].keys)
  {
    SiblingFacts(v, p, i, x, y);
    JoinedPages(v, p, i, x, y);
  }

  lemma MergedLinks(v: View, w: View, p: Addr, i: nat, x: Addr, y: Addr)
    requires Structure(v, 0) && LeavesMerged(v, w, p, i, x, y)
    ensures LinksOK(w, x)
    ensures var t := {x, y, p, v.nodes[y].next}; EdgesOK(v, w, t, x, 0) && EdgesOK(v, w, t, y, 0)
  {
    hide Sorted, PageOK;
    NextIsSibling(v, p, i, x, y);
    SiblingFacts(v, p, i, x, y);
    NextIsLeaf(v, x); NextIsLeaf(v, y);
    assert NodeOK(v, x, 0) && NodeOK(v, y, 0);
    if v.nodes[x].prev != 0 { assert NodeOK(v, v.nodes[x].prev, 0) && Same(v, w, v.nodes[x].prev); }
  }

  lemma MergedSpliced(v: View, w: View, p: Addr, i: nat, x: Addr, y: Addr)
    requires Structure(v, 0) && LeavesMerged(v, w, p, i, x, y)
    ensures SplicedIn(v, w, {x, y, p, v.nodes[y].next}, p, i, i + 1, [x], [])
  {
    hide Refile, PageOK, LinksOK, LeafOK;
    SiblingFacts(v, p, i, x, y);
    var c := v.nodes[p].children;
    assert RunAt(w, [x], [], 0, v.spans[x].h);
    assert c[..i] + [x] + c[i + 2..] == RemoveAt(c, i + 1);
    assert v.nodes[p].keys[..i] + [] + v.nodes[p].keys[i + 1..] == RemoveAt(v.nodes[p].keys, i);
  }

  lemma MergedParent(v: View, w: View, p: Addr, i: nat, x: Addr, y: Addr)
    requires Structure(v, 0) && LeavesMerged(v, w, p, i, x, y)
    ensures NodeOK(w, p, 0) && EdgesOK(v, w, {x, y, p, v.nodes[y].next}, p, 0) && UpOK(w, x)
    ensures forall z :: z in v.nodes[p].children && z != x && z != y ==> KeepsChild(v, w, p, z)
  {
    hide Refile, PageOK, LinksOK, SplicedIn, RemoveAt;
    SiblingFacts(v, p, i, x, y);
    NextIsLeaf(v, y);
    var c, t := v.nodes[p].children, {x, y, p, v.nodes[y].next};
    assert c[i..i + 2] == [x, y];
    MergedSpliced(v, w, p, i, x, y);
    forall z | z in v.spans && v.nodes[z].parent == p && z !in c[i..i + 2] ensures KeepsKin(v, w, z) {
      assert NodeOK(v, z, 0);
      if z !in t { assert Same(v, w, z); }
    }
    ParentSpliced(v, w, t, p, i, i + 1, [x], []);
    assert w.nodes[p].children[i] == x;
    forall z | z in c && z != x && z != y ensures KeepsChild(v, w, p, z) {
      var k :| 0 <= k < |c| && c[k] == z;
    }
  }

  lemma MergedNext(v: View, w: View, p: Addr, i: nat, x: Addr, y: Addr)
    requires Structure(v, 0) && LeavesMerged(v, w, p, i, x, y) && v.nodes[y].next in v.spans && v.nodes[y].next != 0
    requires forall z {:trigger KeepsChild(v, w, p, z)} :: z in v.nodes[p].children && z != x && z != y ==> KeepsChild(v, w, p, z)
    ensures var z := v.nodes[y].next; NodeOK(w, z, 0) && EdgesOK(v, w, {x, y, p, z}, z, 0)
  {
    var z, t := v.nodes[y].next, {x, y, p, v.nodes[y].next};
    SiblingFacts(v, p, i, x, y);
    NextIsLeaf(v, y);
    NextIsLeaf(v, z);
    assert NodeOK(v, z, 0) && NodeOK(v, x, 0);
    ParentIsInner(v, z);
    var q := v.nodes[z].parent;
    if q == p { assert KeepsChild(v, w, p, z); } else { assert Same(v, w, q); }
    NewPrev(v, w, t, z, x);
  }

  lemma MergedFiled(v: View, w: View, p: Addr, i: nat, x: Addr, y: Addr, q: Addr)
    requires Structure(v, 0) && LeavesMerged(v, w, p, i, x, y)
    requires q in w.filed && w.filed[q].leaf in {x, y, p, v.nodes[y].next}
    ensures FiledOK(w, q)
  {
    SiblingFacts(v, p, i, x, y);
    JoinedPages(v, p, i, x, y);
    NextIsLeaf(v, y);
    assert FiledOK(v, q);
    if v.filed[q].leaf == x || v.filed[q].leaf == y {
      assert q in w.nodes[x].children;
      FiledBelow(v, q);
    }
  }

  lemma FiledBelow(v: View, q: Addr)
    requires Structure(v, 0) && q in v.filed
    ensures v.filed[q].leaf in v.spans && v.nodes[v.filed[q].leaf].isLeaf
    ensures v.filed[q].hi < KEY_LIMIT
  {
    assert FiledOK(v, q);
    var l := v.filed[q].leaf;
    assert NodeOK(v, l, 0);
    var j :| 0 <= j < |v.nodes[l].children| && v.nodes[l].children[j] == q;
    assert PageOK(v, l, j);
  }

  lemma MergeLeavesKeeps(v: View, w: View, p: Addr, i: nat, x: Addr, y: Addr)
    requires Structure(v, 0) && LeavesMerged(v, w, p, i, x, y)
    ensures Structure(w, 0)
  {
    hide Refiled, LinksOK, InnerOK, LeafOK, Run, PageRun;
    var t, z := {x, y, p, v.nodes[y].next}, v.nodes[y].next;
    SiblingFacts(v, p, i, x, y);
    NextIsLeaf(v, y);
    MergedPages(v, w, p, i, x, y);
    MergedLinks(v, w, p, i, x, y);
    MergedParent(v, w, p, i, x, y);
    assert NodeOK(v, x, 0);
    RefiledLeaf(v, w, x, v.nodes[x].children + v.nodes[y].children, v.nodes[x].keys + v.nodes[y].keys);
    if z != 0 { assert NodeOK(v, y, 0); MergedNext(v, w, p, i, x, y); }
    forall q | q in w.filed && w.filed[q].leaf in t ensures FiledOK(w, q) { MergedFiled(v, w, p, i, x, y, q); }
    Edit(v, w, t, 0);
  }
}
