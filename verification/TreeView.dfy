module TreeView {
  import opened Base

  datatype Node = Node(
    children: seq<Addr>, keys: seq<Key>, parent: Addr, prev: Addr, next: Addr, maxKey: Key, isLeaf: bool)

  /** What a reachable node covers: its height above the leaves and the keys (lo, hi] that belong under it. */
  datatype Span = Span(h: nat, lo: int, hi: int)

  /** Where a page is filed: its leaf, and the keys (lo, hi] its records lie in. */
  datatype Filed = Filed(leaf: Addr, lo: int, hi: int)

  datatype View = View(nodes: map<Addr, Node>, root: Addr, spans: map<Addr, Span>, filed: map<Addr, Filed>)

  ghost predicate Covers(v: View, a: Addr, k: int) {
    a in v.spans && v.spans[a].lo < k <= v.spans[a].hi
  }

  ghost predicate ChildOK(v: View, a: Addr, i: int, exc: Addr)
    requires v.spans.Keys <= v.nodes.Keys && a in v.spans
    requires 0 <= i < |v.nodes[a].children| == |v.nodes[a].keys| + 1
  {
    var n, s := v.nodes[a], v.spans[a];
    var c := n.children[i];
    && c in v.spans && v.nodes[c].parent == a && v.spans[c].h + 1 == s.h
    && (i == 0 ==> v.spans[c].lo == s.lo)
    && (if i < |n.keys| then
          && n.children[i + 1] in v.spans && v.spans[c].hi == v.spans[n.children[i + 1]].lo
          && n.keys[i] <= v.spans[c].hi
          && (c != exc ==> v.nodes[c].maxKey <= n.keys[i])
        else
          && v.spans[c].hi == s.hi
          && (c != exc ==> v.nodes[c].maxKey <= n.maxKey))
  }

  ghost predicate InnerOK(v: View, a: Addr, exc: Addr)
    requires v.spans.Keys <= v.nodes.Keys && a in v.spans
  {
    var n := v.nodes[a];
    && |n.children| == |n.keys| + 1
    && forall i {:trigger ChildOK(v, a, i, exc)} :: 0 <= i < |n.children| ==> ChildOK(v, a, i, exc)
  }

  ghost predicate PageOK(v: View, a: Addr, i: int)
    requires v.spans.Keys <= v.nodes.Keys && a in v.spans
    requires 0 <= i < |v.nodes[a].children| == |v.nodes[a].keys|
  {
    var n := v.nodes[a];
    var p := n.children[i];
    && p in v.filed && v.filed[p].leaf == a && v.filed[p].hi == n.keys[i]
    && (if i == 0 then v.spans[a].lo else n.keys[i - 1]) <= v.filed[p].lo < v.filed[p].hi
  }

  ghost predicate LinksOK(v: View, a: Addr)
    requires v.spans.Keys <= v.nodes.Keys && a in v.spans
  {
    var n, s := v.nodes[a], v.spans[a];
    && (if n.next == 0 then s.hi == KEY_LIMIT else
          n.next in v.spans && v.spans[n.next].h == 0 && v.spans[n.next].lo == s.hi && v.nodes[n.next].prev == a)
    && (if n.prev == 0 then s.lo == -1 else
          n.prev in v.spans && v.spans[n.prev].h == 0 && v.spans[n.prev].hi == s.lo && v.nodes[n.prev].next == a)
  }

  ghost predicate LeafOK(v: View, a: Addr)
    requires v.spans.Keys <= v.nodes.Keys && a in v.spans
  {
    var n := v.nodes[a];
    && |n.children| == |n.keys| > 0
    && Sorted(n.keys)
    && Last(n.keys) <= n.maxKey
    && (forall i {:trigger PageOK(v, a, i)} :: 0 <= i < |n.children| ==> PageOK(v, a, i))
    && LinksOK(v, a)
  }

  ghost predicate UpOK(v: View, a: Addr)
    requires v.spans.Keys <= v.nodes.Keys && a in v.spans
  {
    var n, s := v.nodes[a], v.spans[a];
    if a == v.root then n.parent == 0 && s.lo == -1 && s.hi == KEY_LIMIT
    else n.parent in v.spans && v.spans[n.parent].h == s.h + 1 && a in v.nodes[n.parent].children
  }

  ghost predicate NodeOK(v: View, a: Addr, exc: Addr)
    requires v.spans.Keys <= v.nodes.Keys && a in v.spans && v.root in v.spans
  {
    var n, s := v.nodes[a], v.spans[a];
    && -1 <= s.lo < n.maxKey <= s.hi <= KEY_LIMIT
    && s.h <= v.spans[v.root].h
    && n.isLeaf == (s.h == 0)
    && UpOK(v, a)
    && if n.isLeaf then LeafOK(v, a) else InnerOK(v, a, exc)
  }

  ghost predicate FiledOK(v: View, p: Addr)
    requires v.spans.Keys <= v.nodes.Keys && p in v.filed
  {
    var l := v.filed[p].leaf;
    l in v.spans && v.spans[l].h == 0 && p in v.nodes[l].children
  }

  ghost predicate Structure(v: View, exc: Addr) {
    && v.spans.Keys <= v.nodes.Keys
    && v.root in v.spans && 0 !in v.spans
    && (forall a {:trigger NodeOK(v, a, exc)} :: a in v.spans ==> NodeOK(v, a, exc))
    && (forall p {:trigger FiledOK(v, p)} :: p in v.filed ==> FiledOK(v, p))
  }

  // ---- order among the children of a node

  lemma {:induction false} ChildrenOrdered(v: View, exc: Addr, a: Addr, i: int, j: int)
    requires Structure(v, exc) && a in v.spans && !v.nodes[a].isLeaf
    requires 0 <= i < j < |v.nodes[a].children|
    ensures v.nodes[a].children[i] in v.spans && v.nodes[a].children[j] in v.spans
    ensures v.spans[v.nodes[a].children[i]].lo < v.spans[v.nodes[a].children[i]].hi
            <= v.spans[v.nodes[a].children[j]].lo < v.spans[v.nodes[a].children[j]].hi
    decreases j - i
  {
    assert NodeOK(v, a, exc) && InnerOK(v, a, exc);
    var c := v.nodes[a].children;
    assert ChildOK(v, a, i, exc) && ChildOK(v, a, j, exc) && ChildOK(v, a, i + 1, exc);
    assert NodeOK(v, c[i], exc) && NodeOK(v, c[j], exc);
    if i + 1 < j {
      ChildrenOrdered(v, exc, a, i + 1, j);
      assert NodeOK(v, c[i + 1], exc);
    }
  }

  lemma {:induction false} UniqueCover(v: View, exc: Addr, x: Addr, y: Addr, k: int)
    requires Structure(v, exc) && Covers(v, x, k) && Covers(v, y, k) && v.spans[x].h == v.spans[y].h
    ensures x == y
    decreases v.spans[v.root].h - v.spans[x].h
  {
    assert NodeOK(v, x, exc) && NodeOK(v, y, exc);
    if x == v.root || y == v.root {
      RootIsTop(v, exc, x); RootIsTop(v, exc, y);
    } else {
      var p, q := v.nodes[x].parent, v.nodes[y].parent;
      var i := ChildIndex(v, exc, x);
      var j := ChildIndex(v, exc, y);
      ParentCovers(v, exc, x, k); ParentCovers(v, exc, y, k);
      UniqueCover(v, exc, p, q, k);
      if i < j { ChildrenOrdered(v, exc, p, i, j); }
      if j < i { ChildrenOrdered(v, exc, p, j, i); }
    }
  }

  lemma RootIsTop(v: View, exc: Addr, x: Addr)
    requires Structure(v, exc) && x in v.spans
    ensures v.spans[x].h <= v.spans[v.root].h
    ensures v.spans[x].h == v.spans[v.root].h ==> x == v.root
  {
    assert NodeOK(v, x, exc);
    if x != v.root { assert NodeOK(v, v.nodes[x].parent, exc); }
  }

  lemma ChildIndex(v: View, exc: Addr, x: Addr) returns (i: nat)
    requires Structure(v, exc) && x in v.spans && x != v.root
    ensures v.nodes[x].parent in v.spans && !v.nodes[v.nodes[x].parent].isLeaf
    ensures v.spans[v.nodes[x].parent].h == v.spans[x].h + 1
    ensures |v.nodes[v.nodes[x].parent].children| == |v.nodes[v.nodes[x].parent].keys| + 1
    ensures i < |v.nodes[v.nodes[x].parent].children| && v.nodes[v.nodes[x].parent].children[i] == x
    ensures ChildOK(v, v.nodes[x].parent, i, exc)
  {
    assert NodeOK(v, x, exc);
    var p := v.nodes[x].parent;
    assert NodeOK(v, p, exc);
    i :| 0 <= i < |v.nodes[p].children| && v.nodes[p].children[i] == x;
  }

  lemma ParentCovers(v: View, exc: Addr, x: Addr, k: int)
    requires Structure(v, exc) && x != v.root && Covers(v, x, k)
    ensures Covers(v, v.nodes[x].parent, k)
    ensures v.spans[v.nodes[x].parent].lo <= v.spans[x].lo && v.spans[x].hi <= v.spans[v.nodes[x].parent].hi
  {
    var i := ChildIndex(v, exc, x);
    var p := v.nodes[x].parent;
    var c := v.nodes[p].children;
    assert NodeOK(v, p, exc) && NodeOK(v, x, exc);
    if i > 0 {
      ChildrenOrdered(v, exc, p, 0, i);
      assert ChildOK(v, p, 0, exc);
    }
    if i < |c| - 1 {
      ChildrenOrdered(v, exc, p, i, |c| - 1);
      assert ChildOK(v, p, |c| - 1, exc);
    }
  }
}
