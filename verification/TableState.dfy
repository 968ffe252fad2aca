// What a table's tree satisfies beyond its structure: how full nodes are, and which addresses are in use.
module TableState {
  import opened Base
  import opened Records
  import opened TreeView
  import opened TreeEdit
  import opened TreePages
  import opened TreeSplit
  import opened TreeInner
  import opened TreeGrowth
  import Stripes

  /** Every node but the root has M/2 to M children; a root that isn't a leaf has at least 2. */
  ghost predicate Counted(v: View, M: nat, x: Addr) {
    && x in v.nodes && |v.nodes[x].children| <= M
    && if x == v.root then !v.nodes[x].isLeaf ==> |v.nodes[x].children| >= 2 else |v.nodes[x].children| >= M / 2
  }

  ghost predicate Filled(v: View, M: nat, exc: Addr) {
    forall x {:trigger Counted(v, M, x)} :: x in v.spans && x != exc ==> Counted(v, M, x)
  }

  ghost predicate AllUsed(l: Stripes.Layout, c: Stripes.Cursor, s: set<Addr>)
    requires l.Valid()
  {
    forall a {:trigger Stripes.Used(l, c, a)} :: a in s ==> Stripes.Used(l, c, a)
  }

  /** Everything stored is at an address that was given out, nodes and pages apart, and nothing that can be
      reached from the root is marked for deletion. */
  ghost predicate Placed(l: Stripes.Layout, c: Stripes.Cursor, v: View, pages: set<Addr>, deleted: set<Addr>) {
    && Stripes.Valid(l, c)
    && AllUsed(l, c, v.nodes.Keys + pages + v.filed.Keys + deleted)
    && v.nodes.Keys !! pages && v.nodes.Keys !! v.filed.Keys
    && deleted !! v.spans.Keys && deleted !! v.filed.Keys
  }

  /** The same pages are filed under the same bounds, whatever leaves they are in. */
  ghost predicate SameBounds(f: map<Addr, Filed>, g: map<Addr, Filed>) {
    && g.Keys == f.Keys
    && forall q {:trigger g[q]} :: q in f ==> g[q].lo == f[q].lo && g[q].hi == f[q].hi
  }

  /** a, in v, has become a and b in w; below them nothing has changed but parent pointers. */
  ghost predicate Halves(v: View, w: View, a: Addr, b: Addr, m: nat) {
    && a in v.spans && a in v.nodes && a in w.spans && a in w.nodes && b in w.spans && b in w.nodes
    && var n, x, y := v.nodes[a], w.nodes[a], w.nodes[b];
       && 0 < m < |n.children| && m <= |n.keys|
       && x.isLeaf == n.isLeaf && y.isLeaf == n.isLeaf
       && x.children == n.children[..m] && y.children == n.children[m..]
       && x.keys == n.keys[..if n.isLeaf then m else m - 1] && y.keys == n.keys[m..]
       && y.maxKey == n.maxKey && x.maxKey <= n.keys[m - 1] && (n.isLeaf ==> x.maxKey == n.keys[m - 1])
       && w.spans[a].h == v.spans[a].h && w.spans[b].h == v.spans[a].h
       && w.spans[a].lo == v.spans[a].lo && w.spans[b].hi == v.spans[a].hi && w.spans[a].hi == w.spans[b].lo
       && n.keys[m - 1] <= w.spans[b].lo && (n.isLeaf ==> n.keys[m - 1] == w.spans[b].lo)
       && SameBounds(v.filed, w.filed)
       && forall x {:trigger Adopted(v, w, x)} :: x in v.spans && v.spans[x].h < v.spans[a].h ==> Adopted(v, w, x)
  }

  /** From v to w, nothing has changed at a or below it but parent pointers. */
  ghost predicate Carried(v: View, w: View, a: Addr) {
    && Adopted(v, w, a) && SameBounds(v.filed, w.filed)
    && forall x {:trigger Adopted(v, w, x)} :: x in v.spans && v.spans[x].h < v.spans[a].h ==> Adopted(v, w, x)
  }

  lemma CarriedSelf(v: View, a: Addr)
    requires a in v.spans && v.spans.Keys <= v.nodes.Keys
    ensures Carried(v, v, a)
  {
  }

  lemma HalvesAfter(u: View, v: View, w: View, a: Addr, b: Addr, m: nat)
    requires Halves(v, w, a, b, m) && Carried(u, v, a)
    ensures Halves(u, w, a, b, m)
  {
    forall x | x in u.spans && u.spans[x].h < u.spans[a].h ensures Adopted(u, w, x) {
      assert Adopted(u, v, x) && Adopted(v, w, x);
    }
  }

  /** The view a split leaves. */
  ghost function AfterSplit(v: View, a: Addr, b: Addr, m: nat): View
    requires CanSplit(v, a, b, m)
  {
    SplitView(v, a, b, m).(nodes := SplitNodes(v, a, b, m))
  }

  lemma SplitStored(v: View, a: Addr, b: Addr, m: nat)
    requires CanSplit(v, a, b, m)
    ensures var w, n := SplitView(v, a, b, m), v.nodes[a];
            && w.nodes.Keys == v.nodes.Keys + {b} && n.parent !in {a, b}
            && w.nodes[a] == LowerHalf(n, m, b, LowerMax(v, a, m)) && w.nodes[b] == UpperHalf(n, m, a)
            && w.nodes[n.parent] == WithSibling(v.nodes[n.parent], n.keys[m - 1], b, n.maxKey)
            && SameBounds(v.filed, w.filed)
  {
    hide LowerHalf, UpperHalf, WithSibling, Above;
    assert NodeOK(v, a, 0) && NodeOK(v, v.nodes[a].parent, 0);
  }

  lemma SplitElsewhere(v: View, a: Addr, b: Addr, m: nat, x: Addr)
    requires CanSplit(v, a, b, m) && x in v.spans && x != a && x != v.nodes[a].parent
    ensures var w := SplitView(v, a, b, m);
            && w.nodes[x].children == v.nodes[x].children && w.nodes[x].isLeaf == v.nodes[x].isLeaf
            && (v.spans[x].h < v.spans[a].h ==> Adopted(v, w, x))
  {
    hide LowerHalf, UpperHalf, WithSibling, Refile;
    assert NodeOK(v, a, 0) && NodeOK(v, x, 0) && x != b;
  }

  lemma SplitHalvesFacts(v: View, a: Addr, b: Addr, m: nat)
    requires CanSplit(v, a, b, m)
    ensures v.spans.Keys <= v.nodes.Keys && v.spans[v.nodes[a].parent].h == v.spans[a].h + 1
    ensures LowerMax(v, a, m) <= v.nodes[a].keys[m - 1] <= SplitBound(v, a, m)
    ensures v.nodes[a].isLeaf ==> LowerMax(v, a, m) == v.nodes[a].keys[m - 1] == SplitBound(v, a, m)
  {
    SplitFacts(v, a, b, m);
    assert NodeOK(v, a, 0);
  }

  lemma SplitHalves(v: View, a: Addr, b: Addr, m: nat)
    requires CanSplit(v, a, b, m)
    ensures Halves(v, AfterSplit(v, a, b, m), a, b, m)
    ensures AfterSplit(v, a, b, m).nodes.Keys == v.nodes.Keys + {b}
  {
    hide SplitNodes, WithSibling, Structure, KinTold, Refile, SplitBound, LowerMax;
    SplitNodesKeeps(v, a, b, m);
    SplitStored(v, a, b, m);
    SplitHalvesFacts(v, a, b, m);
    var w := AfterSplit(v, a, b, m);
    forall x | x in v.spans && v.spans[x].h < v.spans[a].h ensures Adopted(v, w, x) { SplitElsewhere(v, a, b, m, x); }
  }

  lemma SplitCounted(v: View, a: Addr, b: Addr, m: nat, M: nat, exc: Addr, x: Addr)
    requires CanSplit(v, a, b, m) && Filled(v, M, exc) && M >= 4
    requires exc == 0 || (exc == v.root && v.nodes[a].parent == exc)
    requires |v.nodes[a].children| == M && m == M - M / 2 && |v.nodes[v.nodes[a].parent].children| < M
    requires x in SplitView(v, a, b, m).spans
    ensures Counted(SplitView(v, a, b, m), M, x)
  {
    SplitStored(v, a, b, m);
    assert NodeOK(v, a, 0) && NodeOK(v, v.nodes[a].parent, 0);
    if x == v.nodes[a].parent {
      if x != exc { assert Counted(v, M, x); }
    } else if x != a && x != b {
      SplitElsewhere(v, a, b, m, x);
      assert Counted(v, M, x);
    }
  }

  lemma SplitFilled(v: View, a: Addr, b: Addr, m: nat, M: nat, exc: Addr)
    requires CanSplit(v, a, b, m) && Filled(v, M, exc) && M >= 4
    requires exc == 0 || (exc == v.root && v.nodes[a].parent == exc)
    requires |v.nodes[a].children| == M && m == M - M / 2 && |v.nodes[v.nodes[a].parent].children| < M
    ensures Filled(AfterSplit(v, a, b, m), M, 0)
  {
    var w, w' := AfterSplit(v, a, b, m), SplitView(v, a, b, m);
    SplitNodesKeeps(v, a, b, m);
    SplitStored(v, a, b, m);
    forall x | x in w.spans ensures Counted(w, M, x) { SplitCounted(v, a, b, m, M, exc, x); ShapeCounted(w', w, M, x); }
  }

  lemma ShapeCounted(v: View, w: View, M: nat, x: Addr)
    requires SameShape(v.nodes, w.nodes) && w.root == v.root && x in v.nodes && Counted(v, M, x)
    ensures Counted(w, M, x)
  {
    var n := w.nodes[x];
  }
}
