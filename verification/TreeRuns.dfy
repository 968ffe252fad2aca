// Runs of neighbouring subtrees: what joining, cutting and handing over the children of inner nodes keeps.
module TreeRuns {
  import opened Base
  import opened TreeView
  import opened TreeEdit

  /** Child i of a run, and the separator after it. */
  ghost predicate RunAt(v: View, c: seq<Addr>, k: seq<Key>, i: int, h: nat) {
    && 0 <= i < |c| == |k| + 1
    && c[i] in v.spans && c[i] in v.nodes && v.spans[c[i]].h == h
    && (i < |k| ==> c[i + 1] in v.spans && v.spans[c[i]].hi == v.spans[c[i + 1]].lo
                    && v.nodes[c[i]].maxKey <= k[i] <= v.spans[c[i]].hi)
  }

  /** The children c, with separators k between them, cover (lo, hi] at height h. */
  ghost predicate Run(v: View, c: seq<Addr>, k: seq<Key>, lo: int, hi: int, h: nat) {
    && |c| == |k| + 1
    && (forall i {:trigger RunAt(v, c, k, i, h)} :: 0 <= i < |c| ==> RunAt(v, c, k, i, h))
    && RunAt(v, c, k, 0, h) && RunAt(v, c, k, |k|, h)
    && v.spans[c[0]].lo == lo && v.spans[c[|k|]].hi == hi
  }

  lemma NodeRun(v: View, a: Addr)
    requires Structure(v, 0) && a in v.spans && !v.nodes[a].isLeaf
    ensures v.spans[a].h > 0
    ensures Run(v, v.nodes[a].children, v.nodes[a].keys, v.spans[a].lo, v.spans[a].hi, v.spans[a].h - 1)
    ensures v.nodes[Last(v.nodes[a].children)].maxKey <= v.nodes[a].maxKey
    ensures forall i {:trigger v.nodes[a].children[i]} :: 0 <= i < |v.nodes[a].children| ==>
              v.nodes[a].children[i] in v.nodes && v.nodes[v.nodes[a].children[i]].parent == a
  {
    assert NodeOK(v, a, 0);
    var c, k, h := v.nodes[a].children, v.nodes[a].keys, v.spans[a].h - 1;
    forall i | 0 <= i < |c| ensures RunAt(v, c, k, i, h) && c[i] in v.nodes && v.nodes[c[i]].parent == a { assert ChildOK(v, a, i, 0); }
    assert ChildOK(v, a, 0, 0) && ChildOK(v, a, |k|, 0);
    assert RunAt(v, c, k, 0, h) && RunAt(v, c, k, |k|, h);
  }

  lemma RunNode(v: View, a: Addr)
    requires v.spans.Keys <= v.nodes.Keys && a in v.spans && v.spans[a].h > 0
    requires Run(v, v.nodes[a].children, v.nodes[a].keys, v.spans[a].lo, v.spans[a].hi, v.spans[a].h - 1)
    requires v.nodes[Last(v.nodes[a].children)].maxKey <= v.nodes[a].maxKey
    requires forall i :: 0 <= i < |v.nodes[a].children| && v.nodes[a].children[i] in v.nodes ==> v.nodes[v.nodes[a].children[i]].parent == a
    ensures InnerOK(v, a, 0)
  {
    var c, k, h := v.nodes[a].children, v.nodes[a].keys, v.spans[a].h - 1;
    forall i | 0 <= i < |c| ensures ChildOK(v, a, i, 0) { assert RunAt(v, c, k, i, h); }
  }

  lemma CutRun(v: View, c: seq<Addr>, k: seq<Key>, lo: int, hi: int, h: nat, m: nat)
    requires Run(v, c, k, lo, hi, h) && 0 < m <= |k|
    ensures RunAt(v, c, k, m - 1, h)
    ensures Run(v, c[..m], k[..m - 1], lo, v.spans[c[m - 1]].hi, h)
    ensures Run(v, c[m..], k[m..], v.spans[c[m - 1]].hi, hi, h)
  {
    assert RunAt(v, c, k, m - 1, h);
    var c1, k1, c2, k2 := c[..m], k[..m - 1], c[m..], k[m..];
    forall i | 0 <= i < m ensures RunAt(v, c1, k1, i, h) { assert RunAt(v, c, k, i, h); }
    forall i | 0 <= i < |c| - m ensures RunAt(v, c2, k2, i, h) { assert RunAt(v, c, k, m + i, h); }
  }

  lemma JoinRuns(v: View, c: seq<Addr>, k: seq<Key>, lo: int, mid: int, hi: int, h: nat,
                 d: seq<Addr>, l: seq<Key>, sep: Key)
    requires Run(v, c, k, lo, mid, h) && Run(v, d, l, mid, hi, h)
    requires v.nodes[c[|k|]].maxKey <= sep <= mid
    ensures Run(v, c + d, k + [sep] + l, lo, hi, h)
  {
    var e, m := c + d, k + [sep] + l;
    forall i | 0 <= i < |e| ensures RunAt(v, e, m, i, h) {
      if i < |c| { assert RunAt(v, c, k, i, h); } else { assert RunAt(v, d, l, i - |c|, h); }
      if i == |k| { assert RunAt(v, d, l, 0, h); }
    }
  }

  /** A run is the same run once its children have been handed over, or left alone. */
  lemma RunHandedOver(v: View, w: View, c: seq<Addr>, k: seq<Key>, lo: int, hi: int, h: nat)
    requires Run(v, c, k, lo, hi, h)
    requires forall i {:trigger c[i]} :: 0 <= i < |c| ==> Adopted(v, w, c[i])
    ensures Run(w, c, k, lo, hi, h)
  {
    forall i | 0 <= i < |c| ensures RunAt(w, c, k, i, h) { assert RunAt(v, c, k, i, h); }
  }

  /** A key in a run's interior separates: it lies strictly between the run's ends. */
  lemma {:induction false} RunOrdered(v: View, c: seq<Addr>, k: seq<Key>, lo: int, hi: int, h: nat, m: nat)
    requires Run(v, c, k, lo, hi, h) && 0 < m <= |k|
    requires forall i {:trigger c[i]} :: 0 <= i < |c| && c[i] in v.spans && c[i] in v.nodes ==> v.spans[c[i]].lo < v.spans[c[i]].hi
    ensures RunAt(v, c, k, m - 1, h)
    ensures lo < v.spans[c[m - 1]].hi < hi
    decreases |k|
  {
    assert RunAt(v, c, k, m - 1, h) && RunAt(v, c, k, m, h);
    if m > 1 {
      CutRun(v, c, k, lo, hi, h, m);
      RunOrdered(v, c[..m], k[..m - 1], lo, v.spans[c[m - 1]].hi, h, m - 1);
      assert c[..m][m - 2] == c[m - 2] && RunAt(v, c, k, m - 2, h);
    }
    if m < |k| {
      CutRun(v, c, k, lo, hi, h, m);
      RunOrdered(v, c[m..], k[m..], v.spans[c[m - 1]].hi, hi, h, 1);
      assert c[m..][0] == c[m];
    }
  }

  // ---- a parent some of whose children were split, merged or reshuffled

  ghost predicate KeepsKin(v: View, w: View, c: Addr) {
    && c in v.spans && c in v.nodes && c in w.spans && c in w.nodes && w.spans[c] == v.spans[c]
    && w.nodes[c].maxKey == v.nodes[c].maxKey && w.nodes[c].parent == v.nodes[c].parent
  }

  /** Children i to j of a run, replaced by the run d. */
  lemma SpliceRun(v: View, w: View, c: seq<Addr>, k: seq<Key>, lo: int, hi: int, h: nat,
                  i: nat, j: nat, d: seq<Addr>, l: seq<Key>)
    requires Run(v, c, k, lo, hi, h) && i <= j < |c| && c[i] in v.spans && c[j] in v.spans && c[j] in v.nodes
    requires Run(w, d, l, v.spans[c[i]].lo, v.spans[c[j]].hi, h)
    requires w.nodes[d[|l|]].maxKey <= v.nodes[c[j]].maxKey
    requires forall m {:trigger c[m]} :: 0 <= m < |c| && !(i <= m <= j) ==> KeepsKin(v, w, c[m])
    ensures Run(w, c[..i] + d + c[j + 1..], k[..i] + l + k[j..], lo, hi, h)
  {
    var e, s := c[..i] + d + c[j + 1..], k[..i] + l + k[j..];
    assert RunAt(w, d, l, 0, h) && RunAt(w, d, l, |l|, h);
    assert RunAt(v, c, k, j, h) && RunAt(v, c, k, i, h);
    forall m | 0 <= m < |e| ensures RunAt(w, e, s, m, h) {
      if m < i {
        assert RunAt(v, c, k, m, h) && RunAt(v, c, k, m + 1, h);
      } else if m < i + |d| {
        assert RunAt(w, d, l, m - i, h);
        if m == i + |d| - 1 && j < |k| { assert RunAt(v, c, k, j + 1, h); }
      } else {
        var n := m - i - |d| + j + 1;
        assert e[m] == c[n] && RunAt(v, c, k, n, h);
        if n < |k| { assert RunAt(v, c, k, n + 1, h); }
      }
    }
    assert RunAt(w, e, s, 0, h) && RunAt(w, e, s, |s|, h);
    assert RunAt(v, c, k, 0, h) && RunAt(v, c, k, |k|, h);
  }

  /** p with its children i to j replaced by d, and the separators between them by l. */
  function Spliced(p: Node, i: nat, j: nat, d: seq<Addr>, l: seq<Key>): Node
    requires i <= j < |p.children| == |p.keys| + 1
  {
    p.(children := p.children[..i] + d + p.children[j + 1..], keys := p.keys[..i] + l + p.keys[j..])
  }

  /** p's children i to j, touched in getting from v to w, are d there, and cover what they covered. */
  ghost predicate SplicedIn(v: View, w: View, t: set<Addr>, p: Addr, i: nat, j: nat, d: seq<Addr>, l: seq<Key>) {
    && Untouched(v, w, t)
    && p in v.spans && p in v.nodes && p in w.spans && p in w.nodes && !v.nodes[p].isLeaf && w.spans[p] == v.spans[p]
    && v.spans[p].h > 0
    && var c := v.nodes[p].children;
       && i <= j < |c| == |v.nodes[p].keys| + 1
       && c[i] in v.spans && c[j] in v.spans && c[j] in v.nodes
       && (forall m {:trigger c[m]} :: i <= m <= j ==> c[m] in t)
       && w.nodes[p] == Spliced(v.nodes[p], i, j, d, l).(maxKey := w.nodes[p].maxKey)
       && Run(w, d, l, v.spans[c[i]].lo, v.spans[c[j]].hi, v.spans[p].h - 1)
       && (forall m {:trigger d[m]} :: 0 <= m < |d| ==> d[m] in w.nodes && w.nodes[d[m]].parent == p)
       && w.nodes[Last(d)].maxKey <= v.nodes[c[j]].maxKey
       && v.spans[p].lo < w.nodes[p].maxKey <= v.nodes[p].maxKey
       && (j == |c| - 1 ==> w.nodes[Last(d)].maxKey <= w.nodes[p].maxKey)
       && (j < |c| - 1 ==> w.nodes[p].maxKey == v.nodes[p].maxKey)
  }

  lemma SplicedRun(v: View, w: View, t: set<Addr>, p: Addr, i: nat, j: nat, d: seq<Addr>, l: seq<Key>)
    requires Structure(v, 0) && SplicedIn(v, w, t, p, i, j, d, l)
    requires forall c {:trigger KeepsKin(v, w, c)} :: c in v.spans && v.nodes[c].parent == p && c !in v.nodes[p].children[i..j + 1] ==> KeepsKin(v, w, c)
    ensures InnerOK(w, p, 0)
  {
    var c, k := v.nodes[p].children, v.nodes[p].keys;
    NodeRun(v, p);
    forall m | 0 <= m < |c| && !(i <= m <= j) ensures KeepsKin(v, w, c[m]) {
      assert RunAt(v, c, k, m, v.spans[p].h - 1);
      ChildOnce(v, p, m);
      assert KeepsKin(v, w, c[m]);
    }
    SpliceRun(v, w, c, k, v.spans[p].lo, v.spans[p].hi, v.spans[p].h - 1, i, j, d, l);
    if j < |c| - 1 { assert RunAt(v, c, k, |k|, v.spans[p].h - 1); }
    RunNode(w, p);
  }

  lemma ChildOnce(v: View, p: Addr, m: nat)
    requires Structure(v, 0) && p in v.spans && !v.nodes[p].isLeaf && m < |v.nodes[p].children|
    ensures forall n :: 0 <= n < |v.nodes[p].children| && v.nodes[p].children[n] == v.nodes[p].children[m] ==> n == m
  {
    forall n | 0 <= n < |v.nodes[p].children| && v.nodes[p].children[n] == v.nodes[p].children[m] ensures n == m {
      if n < m { ChildrenOrdered(v, 0, p, n, m); }
      if m < n { ChildrenOrdered(v, 0, p, m, n); }
    }
  }

  lemma ParentSpliced(v: View, w: View, t: set<Addr>, p: Addr, i: nat, j: nat, d: seq<Addr>, l: seq<Key>)
    requires Structure(v, 0) && SplicedIn(v, w, t, p, i, j, d, l) && p in t
    requires forall c {:trigger KeepsKin(v, w, c)} :: c in v.spans && v.nodes[c].parent == p && c !in v.nodes[p].children[i..j + 1] ==> KeepsKin(v, w, c)
    requires p != v.root ==> v.nodes[p].parent !in t
    ensures NodeOK(w, p, 0) && EdgesOK(v, w, t, p, 0)
    ensures forall m {:trigger v.nodes[p].children[m]} ::
              0 <= m < |v.nodes[p].children| && !(i <= m <= j) ==> KeepsChild(v, w, p, v.nodes[p].children[m])
  {
    hide Run, RunAt, LeafOK;
    SplicedRun(v, w, t, p, i, j, d, l);
    assert NodeOK(v, p, 0) && NodeOK(v, v.root, 0);
    if p != v.root { assert NodeOK(v, v.nodes[p].parent, 0) && Same(v, w, v.nodes[p].parent); }
    var c, e := v.nodes[p].children, w.nodes[p].children;
    forall m | 0 <= m < |c| && !(i <= m <= j) ensures KeepsChild(v, w, p, c[m]) {
      assert e[if m < i then m else m - j - 1 + i + |d|] == c[m];
    }
  }
}
