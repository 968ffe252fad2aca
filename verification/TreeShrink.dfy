// How full nodes are after siblings share their children or merge.
module TreeShrink {
  import opened Base
  import opened TreeView
  import opened NodeStore
  import opened TreeEdit
  import opened TreeRuns
  import opened TreePages
  import opened TreeSplit
  import opened TreeLeaves
  import opened TreeInner
  import opened TreeChanges
  import opened TreeGrowth
  import opened TableState
  import opened LeafPages

  /** From v to w, nothing has changed below height h but parent pointers, nor where pages are filed. */
  ghost predicate Beneath(v: View, w: View, h: int) {
    && w.filed == v.filed
    && forall x {:trigger Adopted(v, w, x)} :: x in v.spans && v.spans[x].h < h ==> Adopted(v, w, x)
  }

  lemma BeneathAfter(u: View, v: View, w: View, h: int, g: int)
    requires Beneath(u, v, h) && Beneath(v, w, g) && h <= g
    ensures Beneath(u, w, h)
  {
    forall x | x in u.spans && u.spans[x].h < h ensures Adopted(u, w, x) {
      assert Adopted(u, v, x) && Adopted(v, w, x);
    }
  }

  /** Leaf b of w has taken over from leaf a of v: it has all a's pages, and covers all that a covered. */
  ghost predicate TakesOver(v: View, w: View, a: Addr, b: Addr) {
    && a in v.spans && a in v.nodes && b in w.spans && b in w.nodes && w.nodes[b].isLeaf
    && (forall q {:trigger q in v.nodes[a].children} :: q in v.nodes[a].children ==> q in w.nodes[b].children)
    && w.spans[b].lo <= v.spans[a].lo && v.spans[a].hi <= w.spans[b].hi
    && SameBounds(v.filed, w.filed)
  }

  lemma TakesOverAfter(u: View, v: View, w: View, a: Addr, b: Addr)
    requires TakesOver(u, v, a, b) && v.spans[b].h == 0 && Beneath(v, w, 1)
    ensures TakesOver(u, w, a, b)
  {
    assert Adopted(v, w, b);
  }

  // ---- siblings that share

  /** v with the pages of sibling leaves x and y shared out again, the first m to x. */
  ghost function ShareLeaves(v: View, p: Addr, i: nat, x: Addr, y: Addr, m: nat): View
    requires Siblings(v, p, i, x, y) && x in v.spans && y in v.spans
    requires |v.nodes[x].children| == |v.nodes[x].keys| && |v.nodes[y].children| == |v.nodes[y].keys|
    requires 0 < m < |v.nodes[x].children| + |v.nodes[y].children|
  {
    var c, k := v.nodes[x].children + v.nodes[y].children, v.nodes[x].keys + v.nodes[y].keys;
    View(v.nodes[x := v.nodes[x].(children := c[..m], keys := k[..m], maxKey := k[m - 1])]
           [y := v.nodes[y].(children := c[m..], keys := k[m..])]
           [p := v.nodes[p].(keys := v.nodes[p].keys[i := k[m - 1]])],
         v.root,
         v.spans[x := v.spans[x].(hi := k[m - 1])][y := v.spans[y].(lo := k[m - 1])],
         Refile(v.filed, x, y, k[m - 1]))
  }

  lemma LeafSiblings(v: View, p: Addr, i: nat, x: Addr, y: Addr)
    requires Structure(v, 0) && Siblings(v, p, i, x, y) && v.nodes[x].isLeaf
    ensures x in v.spans && y in v.spans && x != y && p != x && p != y && v.nodes[y].isLeaf && p != 0
    ensures |v.nodes[x].children| == |v.nodes[x].keys| > 0 && |v.nodes[y].children| == |v.nodes[y].keys| > 0
    ensures x != v.root && y != v.root && v.nodes[x].parent == p && v.nodes[y].parent == p
  {
    SiblingFacts(v, p, i, x, y);
    FiledIn(v, x); FiledIn(v, y);
    LeafRun(v, x); LeafRun(v, y);
  }

  lemma ShareLeavesIs(v: View, p: Addr, i: nat, x: Addr, y: Addr, m: nat)
    requires Structure(v, 0) && Siblings(v, p, i, x, y) && v.nodes[x].isLeaf && 0 < m < |v.nodes[x].children| + |v.nodes[y].children|
    requires x in v.spans && y in v.spans
    requires |v.nodes[x].children| == |v.nodes[x].keys| && |v.nodes[y].children| == |v.nodes[y].keys|
    ensures LeavesShared(v, ShareLeaves(v, p, i, x, y, m), p, i, x, y, m)
  {
    var w := ShareLeaves(v, p, i, x, y, m);
    LeafSiblings(v, p, i, x, y);
    RootStored(v);
    hide Structure;
    forall z | z !in {x, y, p} && (z in v.spans || z in w.spans) ensures Same(v, w, z) { }
    forall q | q in v.filed && v.filed[q].leaf !in {x, y, p} ensures SameFiled(v, w, q) { }
    forall q | q in w.filed && w.filed[q].leaf !in {x, y, p} ensures SameFiled(v, w, q) { }
  }

  lemma LeavesSharedState(v: View, w: View, p: Addr, i: nat, x: Addr, y: Addr, m: nat, M: nat)
    requires Structure(v, 0) && LeavesShared(v, w, p, i, x, y, m) && Filled(v, M, 0)
    requires M / 2 <= m <= M && M / 2 <= |v.nodes[x].children| + |v.nodes[y].children| - m <= M
    ensures Filled(w, M, 0)
    ensures w.spans.Keys == v.spans.Keys && w.filed.Keys == v.filed.Keys
    ensures SameBounds(v.filed, w.filed)
  {
    SiblingFacts(v, p, i, x, y);
    hide Structure;
    forall z | z in w.spans ensures Counted(w, M, z) {
      assert Counted(v, M, z);
      if z !in {x, y, p} { assert Same(v, w, z); }
    }
  }

  lemma SharedTakesOver(v: View, w: View, p: Addr, i: nat, x: Addr, y: Addr, m: nat)
    requires Structure(v, 0) && LeavesShared(v, w, p, i, x, y, m)
    ensures m > |v.nodes[x].children| ==> TakesOver(v, w, x, x) && |w.nodes[x].children| == m
    ensures m < |v.nodes[x].children| ==> TakesOver(v, w, y, y) && |w.nodes[y].children| == |v.nodes[x].children| + |v.nodes[y].children| - m
  {
    var n := |v.nodes[x].children|;
    SiblingFacts(v, p, i, x, y);
    LeafRun(v, x); LeafRun(v, y);
    hide Structure;
    if m > n {
      RunKeysAbove(v.filed, v.nodes[y].children, v.nodes[y].keys, v.spans[y].lo, m - 1 - n);
      forall q | q in v.nodes[x].children ensures q in w.nodes[x].children {
        var j :| 0 <= j < n && v.nodes[x].children[j] == q;
        assert w.nodes[x].children[j] == q;
      }
    } else if m < n {
      var c := v.nodes[x].children + v.nodes[y].children;
      forall q | q in v.nodes[y].children ensures q in w.nodes[y].children {
        var j :| 0 <= j < |v.nodes[y].children| && v.nodes[y].children[j] == q;
        assert c[m..][n - m + j] == q;
      }
    }
  }

  lemma InnersSharedState(v: View, w: View, p: Addr, i: nat, x: Addr, y: Addr, m: nat, M: nat, exc: Addr)
    requires Structure(v, 0) && InnersShared(v, w, p, i, x, y, m) && Filled(v, M, exc) && (exc == x || exc == y)
    requires M / 2 <= m <= M && M / 2 <= |v.nodes[x].children| + |v.nodes[y].children| - m <= M
    ensures Filled(w, M, 0)
    ensures w.spans.Keys == v.spans.Keys && v.spans[x].h > 0 && Beneath(v, w, v.spans[x].h)
  {
    hide JoinedKeys;
    var c := JoinedChildren(v, x, y);
    SiblingFacts(v, p, i, x, y);
    JoinedRun(v, p, i, x, y);
    SharedAdopted(v, w, p, i, x, y, m);
    hide Structure, Run;
    forall z | z in v.spans && z !in {x, y, p} ensures Adopted(v, w, z) {
      if z !in c { assert Same(v, w, z); } else { var j :| 0 <= j < |c| && c[j] == z; }
    }
    forall z | z in w.spans ensures Counted(w, M, z) {
      if z !in {x, y} { assert Counted(v, M, z); }
      if z !in {x, y, p} { assert Adopted(v, w, z); }
    }
  }

  lemma InnerSiblings(v: View, p: Addr, i: nat, x: Addr, y: Addr)
    requires Structure(v, 0) && Siblings(v, p, i, x, y) && !v.nodes[x].isLeaf
    ensures x in v.spans && y in v.spans && x != y && p != x && p != y && !v.nodes[y].isLeaf && p != 0
    ensures |v.nodes[x].children| == |v.nodes[x].keys| + 1 && |v.nodes[y].children| == |v.nodes[y].keys| + 1
    ensures x != v.root && y != v.root && v.nodes[x].parent == p && v.nodes[y].parent == p
    ensures forall c :: c in JoinedChildren(v, x, y) ==> c in v.spans && c in v.nodes && c !in {x, y, p}
  {
    SiblingFacts(v, p, i, x, y);
    JoinedRun(v, p, i, x, y);
    NodeRun(v, x); NodeRun(v, y);
    forall c | c in JoinedChildren(v, x, y) ensures c in v.spans && c in v.nodes && c !in {x, y, p} {
      var j :| 0 <= j < |JoinedChildren(v, x, y)| && JoinedChildren(v, x, y)[j] == c;
    }
  }

  /** v with inner node y's first child moved to its sibling x, through the separator between them. */
  ghost function LendFirst(v: View, p: Addr, i: nat, x: Addr, y: Addr): View
    requires Siblings(v, p, i, x, y) && x in v.spans && y in v.spans && |v.nodes[y].children| == |v.nodes[y].keys| + 1 > 1
    requires v.nodes[y].children[0] in v.nodes && v.nodes[y].children[0] in v.spans
  {
    var n, m, b := v.nodes[x], v.nodes[y], v.nodes[y].children[0];
    View(v.nodes[b := v.nodes[b].(parent := x)]
           [x := n.(children := n.children + [b], keys := n.keys + [v.nodes[p].keys[i]], maxKey := v.nodes[b].maxKey)]
           [y := m.(children := m.children[1..], keys := m.keys[1..])]
           [p := v.nodes[p].(keys := v.nodes[p].keys[i := m.keys[0]])],
         v.root,
         v.spans[x := v.spans[x].(hi := v.spans[b].hi)][y := v.spans[y].(lo := v.spans[b].hi)],
         v.filed)
  }

  /** v with inner node x's last child moved to its sibling y, through the separator between them. */
  ghost function LendLast(v: View, p: Addr, i: nat, x: Addr, y: Addr): View
    requires Siblings(v, p, i, x, y) && x in v.spans && y in v.spans && |v.nodes[x].children| == |v.nodes[x].keys| + 1 > 1
    requires Last(v.nodes[x].children) in v.nodes && v.nodes[x].children[|v.nodes[x].children| - 2] in v.spans
  {
    var n, m, b, h := v.nodes[x], v.nodes[y], Last(v.nodes[x].children), |v.nodes[x].keys| - 1;
    View(v.nodes[b := v.nodes[b].(parent := y)]
           [y := m.(children := [b] + m.children, keys := [v.nodes[p].keys[i]] + m.keys)]
           [x := n.(children := n.children[..h + 1], keys := n.keys[..h], maxKey := n.keys[h])]
           [p := v.nodes[p].(keys := v.nodes[p].keys[i := n.keys[h]])],
         v.root,
         v.spans[x := v.spans[x].(hi := v.spans[n.children[h]].hi)][y := v.spans[y].(lo := v.spans[n.children[h]].hi)],
         v.filed)
  }

  lemma JoinedAt(v: View, p: Addr, i: nat, x: Addr, y: Addr, j: nat)
    requires Structure(v, 0) && Siblings(v, p, i, x, y) && !v.nodes[x].isLeaf
    ensures var c, k := JoinedChildren(v, x, y), JoinedKeys(v, p, i, x, y);
            |c| == |k| + 1 && (j < |k| ==> c[j] in v.spans && c[j] in v.nodes && v.nodes[c[j]].maxKey <= k[j])
  {
    JoinedRun(v, p, i, x, y);
    hide Structure;
    var c, k := JoinedChildren(v, x, y), JoinedKeys(v, p, i, x, y);
    if j < |k| { assert RunAt(v, c, k, j, v.spans[x].h - 1); }
  }

  lemma InElems(c: seq<Addr>, b: Addr, x: Addr, y: Addr, p: Addr)
    requires b in c
    ensures b in {x, y, p} + Elems(c)
  {
  }

  lemma LendFirstIs(v: View, p: Addr, i: nat, x: Addr, y: Addr)
    requires Structure(v, 0) && Siblings(v, p, i, x, y) && !v.nodes[x].isLeaf && |v.nodes[y].children| > 1
    ensures x in v.spans && y in v.spans && |v.nodes[y].children| == |v.nodes[y].keys| + 1
    ensures v.nodes[y].children[0] in v.nodes && v.nodes[y].children[0] in v.spans
    ensures InnersShared(v, LendFirst(v, p, i, x, y), p, i, x, y, |v.nodes[x].children| + 1)
    ensures LendFirst(v, p, i, x, y).nodes.Keys == v.nodes.Keys
  {
    hide Structure, Run, RunAt, Untouched, Elems;
    InnerSiblings(v, p, i, x, y);
    var c, n := JoinedChildren(v, x, y), |v.nodes[x].children|;
    assert c[n] == v.nodes[y].children[0];
    JoinedRun(v, p, i, x, y);
    JoinedAt(v, p, i, x, y, n);
    NodeRun(v, x); NodeRun(v, y);
    RootStored(v);
    assert forall j :: 0 <= j < |c| ==> c[j] == if j < n then v.nodes[x].children[j] else v.nodes[y].children[j - n];
    forall j | 0 <= j < |c| ensures c[j] == c[n] ==> j == n { if c[j] == c[n] { JoinedOnce(v, p, i, x, y, j, n); } }
    var w, t := LendFirst(v, p, i, x, y), {x, y, p} + Elems(c);
    InElems(c, c[n], x, y, p);
    LendUntouched(v, w, p, x, y, c[n], c, t);
    TakeFirst(v.nodes[x].children, v.nodes[y].children);
    var k := JoinedKeys(v, p, i, x, y);
    TakeAcross(v.nodes[x].keys, v.nodes[p].keys[i], v.nodes[y].keys);
    assert k == v.nodes[x].keys + [v.nodes[p].keys[i]] + v.nodes[y].keys && v.nodes[c[n]].maxKey <= k[n];
    hide Untouched, Elems, JoinedKeys;
  }

  lemma LendUntouched(v: View, w: View, p: Addr, x: Addr, y: Addr, b: Addr, c: seq<Addr>, t: set<Addr>)
    requires v.spans.Keys <= v.nodes.Keys && v.root in v.spans && 0 !in v.spans && v.root != x && v.root != y
    requires x in v.spans && y in v.spans && p in v.spans && b in v.spans && b in c && t == {x, y, p} + Elems(c)
    requires w.root == v.root && w.filed == v.filed
    requires x in w.nodes && y in w.nodes && p in w.nodes && b in w.nodes && x in w.spans && y in w.spans
    requires w.nodes == v.nodes[b := w.nodes[b]][x := w.nodes[x]][y := w.nodes[y]][p := w.nodes[p]]
             || w.nodes == v.nodes[b := w.nodes[b]][y := w.nodes[y]][x := w.nodes[x]][p := w.nodes[p]]
    requires w.spans == v.spans[x := w.spans[x]][y := w.spans[y]]
    ensures Untouched(v, w, t)
  {
  }

  lemma JoinedOnce(v: View, p: Addr, i: nat, x: Addr, y: Addr, j: nat, k: nat)
    requires Structure(v, 0) && Siblings(v, p, i, x, y) && !v.nodes[x].isLeaf
    requires j < |JoinedChildren(v, x, y)| && k < |JoinedChildren(v, x, y)| && JoinedChildren(v, x, y)[j] == JoinedChildren(v, x, y)[k]
    ensures j == k
  {
    InnerSiblings(v, p, i, x, y);
    NodeRun(v, x); NodeRun(v, y);
    var n := |v.nodes[x].children|;
    if j < n && k < n { ChildOnce(v, x, j); }
    if j >= n && k >= n { ChildOnce(v, y, j - n); }
  }

  lemma LendLastElse(v: View, p: Addr, i: nat, x: Addr, y: Addr)
    requires Structure(v, 0) && Siblings(v, p, i, x, y) && !v.nodes[x].isLeaf && |v.nodes[x].children| > 1
    ensures x in v.spans && y in v.spans && |v.nodes[x].children| == |v.nodes[x].keys| + 1
    ensures Last(v.nodes[x].children) in v.nodes && v.nodes[x].children[|v.nodes[x].children| - 2] in v.spans
    ensures Untouched(v, LendLast(v, p, i, x, y), {x, y, p} + Elems(JoinedChildren(v, x, y)))
    ensures LendLast(v, p, i, x, y).nodes.Keys == v.nodes.Keys
  {
    hide Structure, Run, RunAt, Untouched, Elems;
    InnerSiblings(v, p, i, x, y);
    var c, n := JoinedChildren(v, x, y), |v.nodes[x].children| - 1;
    assert c[n] == Last(v.nodes[x].children);
    JoinedRun(v, p, i, x, y);
    NodeRun(v, x);
    ChildFacts(v, x);
    RootStored(v);
    assert v.nodes[x].children[n] in v.spans && v.nodes[x].children[n - 1] in v.spans;
    InElems(c, c[n], x, y, p);
    LendUntouched(v, LendLast(v, p, i, x, y), p, x, y, c[n], c, {x, y, p} + Elems(c));
  }

  lemma LentChildren(v: View, p: Addr, i: nat, x: Addr, y: Addr)
    requires Structure(v, 0) && Siblings(v, p, i, x, y) && !v.nodes[x].isLeaf && |v.nodes[x].children| > 1
    ensures x in v.spans && y in v.spans && |v.nodes[x].children| == |v.nodes[x].keys| + 1
    ensures Last(v.nodes[x].children) in v.nodes && v.nodes[x].children[|v.nodes[x].children| - 2] in v.spans
    ensures var c, w := JoinedChildren(v, x, y), LendLast(v, p, i, x, y);
            forall j {:trigger c[j]} :: 0 <= j < |c| ==>
              c[j] in v.nodes && c[j] in w.nodes && w.nodes[c[j]] == v.nodes[c[j]].(parent := if j < |v.nodes[x].children| - 1 then x else y)
  {
    hide Structure, Run, RunAt;
    InnerSiblings(v, p, i, x, y);
    var c, n := JoinedChildren(v, x, y), |v.nodes[x].children| - 1;
    assert c[n] == Last(v.nodes[x].children) && c[n - 1] == v.nodes[x].children[n - 1];
    JoinedRun(v, p, i, x, y);
    NodeRun(v, x); NodeRun(v, y);
    ChildFacts(v, x); ChildFacts(v, y);
    RootStored(v);
    assert forall j :: 0 <= j < |c| ==> c[j] == if j <= n then v.nodes[x].children[j] else v.nodes[y].children[j - n - 1];
    forall j | 0 <= j < |c| ensures c[j] == c[n] ==> j == n { if c[j] == c[n] { JoinedOnce(v, p, i, x, y, j, n); } }
  }

  lemma LendLastIs(v: View, p: Addr, i: nat, x: Addr, y: Addr)
    requires Structure(v, 0) && Siblings(v, p, i, x, y) && !v.nodes[x].isLeaf && |v.nodes[x].children| > 1
    ensures x in v.spans && y in v.spans && |v.nodes[x].children| == |v.nodes[x].keys| + 1
    ensures Last(v.nodes[x].children) in v.nodes && v.nodes[x].children[|v.nodes[x].children| - 2] in v.spans
    ensures InnersShared(v, LendLast(v, p, i, x, y), p, i, x, y, |v.nodes[x].children| - 1)
    ensures LendLast(v, p, i, x, y).nodes.Keys == v.nodes.Keys
  {
    hide Structure, Run, RunAt, Untouched, Elems;
    LendLastElse(v, p, i, x, y);
    LentChildren(v, p, i, x, y);
    InnerSiblings(v, p, i, x, y);
    var c, n := JoinedChildren(v, x, y), |v.nodes[x].children| - 1;
    assert c[n] == Last(v.nodes[x].children) && c[n - 1] == v.nodes[x].children[n - 1];
    JoinedRun(v, p, i, x, y);
    JoinedAt(v, p, i, x, y, n - 1);
    NodeRun(v, x);
    RootStored(v);
    GiveLast(v.nodes[x].children, v.nodes[y].children);
    var k := JoinedKeys(v, p, i, x, y);
    GiveAcross(v.nodes[x].keys, v.nodes[p].keys[i], v.nodes[y].keys);
    assert k == v.nodes[x].keys + [v.nodes[p].keys[i]] + v.nodes[y].keys && v.nodes[c[n - 1]].maxKey <= k[n - 1];
  }

  // ---- what a borrow leads to, step by step

  lemma NextReady(v: View, p: Addr, j: nat, x: Addr, y: Addr) returns (w: View)
    requires Structure(v, 0) && Siblings(v, p, j, x, y) && v.nodes[x].isLeaf && |v.nodes[y].children| > 1
    ensures |v.nodes[x].children| == |v.nodes[x].keys| && |v.nodes[y].children| == |v.nodes[y].keys|
    ensures x != y && p != x && p != y && v.nodes[x].parent == p && j + 1 < |v.nodes[p].children| == |v.nodes[p].keys| + 1
    ensures v.nodes[p].children[j] == x && IndexIn(v.nodes[p].children, x) == j
    ensures var n, m, k := v.nodes[x], v.nodes[y], v.nodes[y].keys[0];
            w.nodes == v.nodes[x := n.(children := n.children + [m.children[0]], keys := n.keys + [k], maxKey := k)]
                         [y := m.(children := m.children[1..], keys := m.keys[1..])]
                         [p := v.nodes[p].(keys := v.nodes[p].keys[j := k])]
    ensures w == View(w.nodes, v.root, w.spans, w.filed) && w.nodes.Keys == v.nodes.Keys && LeavesShared(v, w, p, j, x, y, |v.nodes[x].children| + 1)
  {
    LeafSiblings(v, p, j, x, y);
    SiblingPlaces(v, p, j, x, y);
    var n, m := v.nodes[x], v.nodes[y];
    ShareLeavesIs(v, p, j, x, y, |n.children| + 1);
    w := ShareLeaves(v, p, j, x, y, |n.children| + 1);
    hide Structure, LeavesShared, Refile;
    TakeFirst(n.children, m.children);
    TakeFirst(n.keys, m.keys);
  }

  lemma PrevReady(v: View, p: Addr, j: nat, x: Addr, y: Addr) returns (w: View)
    requires Structure(v, 0) && Siblings(v, p, j, x, y) && v.nodes[x].isLeaf && |v.nodes[x].children| > 1
    ensures |v.nodes[x].children| == |v.nodes[x].keys| && |v.nodes[y].children| == |v.nodes[y].keys|
    ensures x != y && p != x && p != y && v.nodes[y].parent == p && j + 1 < |v.nodes[p].children| == |v.nodes[p].keys| + 1
    ensures v.nodes[p].children[j] == x && IndexIn(v.nodes[p].children, x) == j
    ensures var n, m, h := v.nodes[x], v.nodes[y], |v.nodes[x].children| - 1;
            w.nodes == v.nodes[y := m.(children := [n.children[h]] + m.children, keys := [n.keys[h]] + m.keys)]
                         [x := n.(children := n.children[..h], keys := n.keys[..h], maxKey := n.keys[h - 1])]
                         [p := v.nodes[p].(keys := v.nodes[p].keys[j := n.keys[h - 1]])]
    ensures w == View(w.nodes, v.root, w.spans, w.filed) && w.nodes.Keys == v.nodes.Keys && LeavesShared(v, w, p, j, x, y, |v.nodes[x].children| - 1)
  {
    LeafSiblings(v, p, j, x, y);
    SiblingPlaces(v, p, j, x, y);
    var n, m := v.nodes[x], v.nodes[y];
    ShareLeavesIs(v, p, j, x, y, |n.children| - 1);
    w := ShareLeaves(v, p, j, x, y, |n.children| - 1);
    hide Structure, LeavesShared, Refile;
    GiveLast(n.children, m.children);
    GiveLast(n.keys, m.keys);
    Swapped(v.nodes, x, w.nodes[x], y, w.nodes[y]);
  }

  lemma LendFirstReady(v: View, nodes: map<Addr, Node>, n: Node, p: Addr, j: nat, x: Addr, y: Addr) returns (w: View)
    requires Structure(v, 0) && Siblings(v, p, j, x, y) && !v.nodes[x].isLeaf && |v.nodes[y].children| > 1 && v.nodes == nodes[x := n] && x in nodes
    ensures |n.children| == |n.keys| + 1 && |v.nodes[y].children| == |v.nodes[y].keys| + 1
    ensures x != y && p != x && p != y && n.parent == p && p in nodes && y in nodes
    ensures nodes[p] == v.nodes[p] && nodes[y] == v.nodes[y] && j + 1 < |v.nodes[p].children| == |v.nodes[p].keys| + 1
    ensures v.nodes[p].children[j] == x && IndexIn(v.nodes[p].children, x) == j
    ensures v.nodes[y].children[0] in nodes && v.nodes[y].children[0] !in {x, y, p} && nodes[v.nodes[y].children[0]].parent == y != v.root
    ensures var m, b := nodes[y], v.nodes[y].children[0];
            w.nodes == nodes[b := nodes[b].(parent := x)]
                         [x := n.(children := n.children + [b], keys := n.keys + [nodes[p].keys[j]], maxKey := nodes[b].maxKey)]
                         [y := m.(children := m.children[1..], keys := m.keys[1..])]
                         [p := nodes[p].(keys := nodes[p].keys[j := m.keys[0]])]
    ensures w == View(w.nodes, v.root, w.spans, v.filed) && w.nodes.Keys == nodes.Keys
    ensures InnersShared(v, w, p, j, x, y, |n.children| + 1)
  {
    InnerSiblings(v, p, j, x, y);
    ChildFacts(v, y);
    SiblingPlaces(v, p, j, x, y);
    LendFirstIs(v, p, j, x, y);
    w := LendFirst(v, p, j, x, y);
    var b := v.nodes[y].children[0];
    assert JoinedChildren(v, x, y)[|n.children|] == b;
    hide Structure, InnersShared;
    Overwritten(v.nodes, nodes, x, n, b, w.nodes[b], w.nodes[x]);
  }

  lemma LendLastReady(v: View, nodes: map<Addr, Node>, n: Node, p: Addr, j: nat, x: Addr, y: Addr) returns (w: View)
    requires Structure(v, 0) && Siblings(v, p, j, x, y) && !v.nodes[x].isLeaf && |v.nodes[x].children| > 1 && v.nodes == nodes[y := n] && y in nodes
    requires x != y
    ensures |n.children| == |n.keys| + 1 && |v.nodes[x].children| == |v.nodes[x].keys| + 1
    ensures p != x && p != y && n.parent == p && p in nodes && x in nodes
    ensures nodes[p] == v.nodes[p] && nodes[x] == v.nodes[x] && j + 1 < |v.nodes[p].children| == |v.nodes[p].keys| + 1
    ensures v.nodes[p].children[j + 1] == y && IndexIn(v.nodes[p].children, y) == j + 1
    ensures Last(v.nodes[x].children) in nodes && Last(v.nodes[x].children) !in {x, y, p} && nodes[Last(v.nodes[x].children)].parent == x != v.root
    ensures var m, b, h := nodes[x], Last(nodes[x].children), |nodes[x].keys| - 1;
            w.nodes == nodes[b := nodes[b].(parent := y)]
                         [y := n.(children := [b] + n.children, keys := [nodes[p].keys[j]] + n.keys)]
                         [x := m.(children := m.children[..h + 1], keys := m.keys[..h], maxKey := m.keys[h])]
                         [p := nodes[p].(keys := nodes[p].keys[j := m.keys[h]])]
    ensures w == View(w.nodes, v.root, w.spans, v.filed) && w.nodes.Keys == nodes.Keys
    ensures InnersShared(v, w, p, j, x, y, |nodes[x].children| - 1)
  {
    InnerSiblings(v, p, j, x, y);
    ChildFacts(v, x);
    SiblingPlaces(v, p, j, x, y);
    LendLastIs(v, p, j, x, y);
    w := LendLast(v, p, j, x, y);
    var b := Last(v.nodes[x].children);
    assert JoinedChildren(v, x, y)[|v.nodes[x].children| - 1] == b;
    hide Structure, InnersShared;
    Overwritten(v.nodes, nodes, y, n, b, w.nodes[b], w.nodes[y]);
  }

  lemma Overwritten(m: map<Addr, Node>, nodes: map<Addr, Node>, x: Addr, n0: Node, b: Addr, c: Node, n: Node)
    requires m == nodes[x := n0] && b != x
    ensures m[b := c][x := n] == nodes[b := c][x := n]
  {
  }

  lemma Swapped(m: map<Addr, Node>, x: Addr, a: Node, y: Addr, b: Node)
    requires x != y
    ensures m[x := a][y := b] == m[y := b][x := a]
  {
  }

  // ---- siblings that merge

  /** What is left of a node whose children have moved to its sibling. */
  function Emptied(n: Node): Node { n.(children := [], keys := []) }

  /** v with sibling leaf y's pages moved to x, and y gone from the tree. */
  ghost function MergeLeaves(v: View, p: Addr, i: nat, x: Addr, y: Addr): View
    requires Siblings(v, p, i, x, y) && x in v.spans && y in v.spans && (v.nodes[y].next != 0 ==> v.nodes[y].next in v.nodes)
  {
    var n, m, z := v.nodes[x], v.nodes[y], v.nodes[y].next;
    View(Relink(v.nodes, z, x)[y := Emptied(m)]
           [x := n.(children := n.children + m.children, keys := n.keys + m.keys, maxKey := m.maxKey, next := z)]
           [p := v.nodes[p].(children := RemoveAt(v.nodes[p].children, i + 1), keys := RemoveAt(v.nodes[p].keys, i))],
         v.root,
         (v.spans - {y})[x := v.spans[x].(hi := v.spans[y].hi)],
         Refile(v.filed, x, y, KEY_LIMIT))
  }

  lemma MergeLeavesElse(v: View, p: Addr, i: nat, x: Addr, y: Addr)
    requires Structure(v, 0) && Siblings(v, p, i, x, y) && v.nodes[x].isLeaf
    ensures x in v.spans && y in v.spans && (v.nodes[y].next != 0 ==> v.nodes[y].next in v.nodes)
    ensures Untouched(v, MergeLeaves(v, p, i, x, y), {x, y, p, v.nodes[y].next})
  {
    hide Structure, RemoveAt;
    LeafSiblings(v, p, i, x, y);
    NextIsLeaf(v, y);
    RootStored(v);
    var w, t := MergeLeaves(v, p, i, x, y), {x, y, p, v.nodes[y].next};
    forall a | a !in t && (a in v.spans || a in w.spans) ensures Same(v, w, a) { }
    forall q | q in v.filed && v.filed[q].leaf !in t ensures SameFiled(v, w, q) { }
    forall q | q in w.filed && w.filed[q].leaf !in t ensures SameFiled(v, w, q) { }
  }

  lemma MergeLeavesIs(v: View, p: Addr, i: nat, x: Addr, y: Addr)
    requires Structure(v, 0) && Siblings(v, p, i, x, y) && v.nodes[x].isLeaf
    ensures x in v.spans && y in v.spans && (v.nodes[y].next != 0 ==> v.nodes[y].next in v.nodes)
    ensures LeavesMerged(v, MergeLeaves(v, p, i, x, y), p, i, x, y)
    ensures MergeLeaves(v, p, i, x, y).nodes.Keys == v.nodes.Keys
  {
    hide Structure, RemoveAt, Untouched, Refile;
    MergeLeavesElse(v, p, i, x, y);
    LeafSiblings(v, p, i, x, y);
    NextIsLeaf(v, y);
    SiblingFacts(v, p, i, x, y);
    RootStored(v);
  }

  /** v with sibling inner node y's children moved to x, and y gone from the tree. */
  ghost function MergeInners(v: View, p: Addr, i: nat, x: Addr, y: Addr): View
    requires Siblings(v, p, i, x, y) && x in v.spans && y in v.spans
  {
    var n, m := v.nodes[x], v.nodes[y];
    View(Reparent(v.nodes, m.children, x)[y := Emptied(m)]
           [x := n.(children := n.children + m.children, keys := n.keys + [v.nodes[p].keys[i]] + m.keys, maxKey := m.maxKey)]
           [p := v.nodes[p].(children := RemoveAt(v.nodes[p].children, i + 1), keys := RemoveAt(v.nodes[p].keys, i))],
         v.root,
         (v.spans - {y})[x := v.spans[x].(hi := v.spans[y].hi)],
         v.filed)
  }

  lemma MergeInnersIs(v: View, p: Addr, i: nat, x: Addr, y: Addr)
    requires Structure(v, 0) && Siblings(v, p, i, x, y) && !v.nodes[x].isLeaf
    ensures x in v.spans && y in v.spans
    ensures InnersMerged(v, MergeInners(v, p, i, x, y), p, i, x, y)
    ensures MergeInners(v, p, i, x, y).nodes.Keys == v.nodes.Keys
  {
    hide Structure, RemoveAt, JoinedKeys;
    InnerSiblings(v, p, i, x, y);
    RootStored(v);
    ChildFacts(v, x); ChildFacts(v, y);
    var w, c := MergeInners(v, p, i, x, y), JoinedChildren(v, x, y);
    var t := {x, y, p} + Elems(c);
    assert |c| == |JoinedKeys(v, p, i, x, y)| + 1 && w.nodes[x].keys == JoinedKeys(v, p, i, x, y) by { MergedKeys(v, p, i, x, y); }
    forall a | a !in t && (a in v.spans || a in w.spans) ensures Same(v, w, a) { NotAChild(v, x, y, c, a); }
    forall j | 0 <= j < |c| ensures c[j] in v.nodes && c[j] in w.nodes && w.nodes[c[j]] == v.nodes[c[j]].(parent := x) {
      MergedChild(v, p, i, x, y, j);
    }
  }

  lemma MergedChild(v: View, p: Addr, i: nat, x: Addr, y: Addr, j: nat)
    requires Structure(v, 0) && Siblings(v, p, i, x, y) && !v.nodes[x].isLeaf && x in v.spans && y in v.spans
    requires j < |JoinedChildren(v, x, y)|
    ensures var c := JoinedChildren(v, x, y)[j];
            c in v.nodes && c in MergeInners(v, p, i, x, y).nodes && MergeInners(v, p, i, x, y).nodes[c] == v.nodes[c].(parent := x)
  {
    hide Structure, RemoveAt;
    InnerSiblings(v, p, i, x, y);
    ChildFacts(v, x); ChildFacts(v, y);
    var c := JoinedChildren(v, x, y);
    assert c[j] in c;
    if j < |v.nodes[x].children| { assert c[j] == v.nodes[x].children[j]; } else { assert c[j] == v.nodes[y].children[j - |v.nodes[x].children|]; }
  }

  lemma MergedKeys(v: View, p: Addr, i: nat, x: Addr, y: Addr)
    requires Siblings(v, p, i, x, y)
    ensures JoinedKeys(v, p, i, x, y) == v.nodes[x].keys + [v.nodes[p].keys[i]] + v.nodes[y].keys
  {
  }

  lemma NotAChild(v: View, x: Addr, y: Addr, c: seq<Addr>, a: Addr)
    requires x in v.nodes && y in v.nodes && c == v.nodes[x].children + v.nodes[y].children && a !in Elems(c)
    ensures a !in v.nodes[x].children && a !in v.nodes[y].children
  {
  }

  lemma LeavesMergedState(v: View, w: View, p: Addr, i: nat, x: Addr, y: Addr, M: nat)
    requires Structure(v, 0) && LeavesMerged(v, w, p, i, x, y) && Filled(v, M, 0)
    requires M / 2 <= |v.nodes[x].children| + |v.nodes[y].children| <= M
    ensures Filled(w, M, p)
    ensures w.spans.Keys == v.spans.Keys - {y} && w.filed.Keys == v.filed.Keys
    ensures TakesOver(v, w, x, x) && TakesOver(v, w, y, x)
    ensures |w.nodes[x].children| == |v.nodes[x].children| + |v.nodes[y].children|
  {
    SiblingFacts(v, p, i, x, y);
    hide Structure, RemoveAt;
    forall z | z in w.spans && z != p ensures Counted(w, M, z) {
      assert Counted(v, M, z);
      if z !in {x, y, p, v.nodes[y].next} { assert Same(v, w, z); }
    }
  }

  lemma InnersMergedState(v: View, w: View, p: Addr, i: nat, x: Addr, y: Addr, M: nat, exc: Addr)
    requires Structure(v, 0) && InnersMerged(v, w, p, i, x, y) && Filled(v, M, exc) && (exc == x || exc == y)
    requires M / 2 <= |v.nodes[x].children| + |v.nodes[y].children| <= M
    ensures Filled(w, M, p)
    ensures w.spans.Keys == v.spans.Keys - {y} && v.spans[x].h > 0 && Beneath(v, w, v.spans[x].h)
  {
    hide JoinedKeys, RemoveAt;
    var c := JoinedChildren(v, x, y);
    SiblingFacts(v, p, i, x, y);
    JoinedRun(v, p, i, x, y);
    MergedRun(v, w, p, i, x, y);
    hide Structure, Run, HasRun;
    forall z | z in v.spans && z !in {x, y, p} ensures Adopted(v, w, z) {
      if z !in c { assert Same(v, w, z); } else { var j :| 0 <= j < |c| && c[j] == z; }
    }
    forall z | z in w.spans && z != p ensures Counted(w, M, z) {
      if z !in {x, y} { assert Counted(v, M, z); assert Adopted(v, w, z); }
    }
  }

  lemma CollapsedState(v: View, w: View, M: nat)
    requires Structure(v, 0) && Collapsed(v, w) && Filled(v, M, v.root) && M >= 4
    ensures Filled(w, M, 0)
    ensures Beneath(v, w, v.spans[v.root].h)
  {
    var r, c := v.root, w.root;
    assert NodeOK(v, r, 0) && ChildOK(v, r, 0, 0) && NodeOK(v, c, 0);
    forall z | z in w.spans ensures Counted(w, M, z) {
      assert Counted(v, M, z);
    }
    forall z | z in v.spans && v.spans[z].h < v.spans[r].h ensures Adopted(v, w, z) { }
  }

  // ---- the ancestors of a node that has taken over its sibling's children

  ghost function UpFrom(v: View, a: Addr): map<Addr, Span>
    requires a in v.spans
  {
    map x | x in v.spans && (x == a || v.spans[x].h > v.spans[a].h) :: v.spans[x]
  }

  lemma UpFromClimbs(v: View, a: Addr, nodes: map<Addr, Node>)
    requires Structure(v, 0) && a in v.spans && a in nodes && v.nodes.Keys <= nodes.Keys
    requires forall z {:trigger nodes[z]} :: z in v.spans && v.spans[z].h > v.spans[a].h && z in nodes ==> nodes[z] == v.nodes[z]
    requires nodes[a].parent == v.nodes[a].parent && (v.spans[a].h > 0 ==> |nodes[a].children| == |nodes[a].keys| + 1)
    ensures Climbable(nodes, UpFrom(v, a), v.spans[v.root].h)
  {
    StructureRises(v, 0);
    var up := UpFrom(v, a);
    forall x | x in up
      ensures x in nodes && (nodes[x].parent == 0 || (nodes[x].parent in up && up[nodes[x].parent].h > up[x].h))
      ensures up[x].h <= v.spans[v.root].h && (up[x].h > 0 ==> |nodes[x].children| == |nodes[x].keys| + 1)
    {
      assert NodeOK(v, x, 0);
      assert v.nodes[x].parent == 0 || v.nodes[x].parent in v.spans;
    }
  }

  /** The maxKey a merged node passes up only reaches the separator that goes with its sibling. */
  lemma MergePropagates(nodes: map<Addr, Node>, a: Addr, k: Key, fuel: nat, p: Addr, i: nat)
    requires a in nodes && nodes[a].parent == p && p != 0 && p in nodes && fuel > 0
    requires |nodes[p].children| == |nodes[p].keys| + 1 && i + 1 < |nodes[p].children| && IndexIn(nodes[p].children, a) == i
    ensures PropagateUp(nodes, a, k, fuel) == nodes[p := nodes[p].(keys := nodes[p].keys[i := k])]
  {
  }

  /** The place of siblings in their parent. */
  lemma SiblingPlaces(v: View, p: Addr, i: nat, x: Addr, y: Addr)
    requires Structure(v, 0) && Siblings(v, p, i, x, y)
    ensures IndexIn(v.nodes[p].children, x) == i && IndexIn(v.nodes[p].children, y) == i + 1
  {
    SiblingFacts(v, p, i, x, y);
    ChildIndexUnique(v, 0, x);
    ChildIndexUnique(v, 0, y);
  }

  /** The store once inner node x has taken over y's children, though p isn't stored yet: n is at a only in v. */
  lemma MergeInnersStore(v: View, nodes: map<Addr, Node>, a: Addr, n: Node, p: Addr, i: nat, x: Addr, y: Addr, merged: map<Addr, Node>)
    requires Structure(v, 0) && Siblings(v, p, i, x, y) && !v.nodes[x].isLeaf && v.nodes == nodes[a := n] && a in nodes && (a == x || a == y)
    requires merged == Reparent(nodes, v.nodes[y].children, x)[y := Emptied(v.nodes[y])]
                         [x := v.nodes[x].(children := v.nodes[x].children + v.nodes[y].children,
                                           keys := v.nodes[x].keys + [v.nodes[p].keys[i]] + v.nodes[y].keys, maxKey := v.nodes[y].maxKey)]
    ensures x in v.spans && y in v.spans && p in v.spans && p != 0 && p in nodes && p != x && p != y && x != y && v.nodes[x].parent == p && v.spans[v.root].h > 0
    ensures Climbable(merged, UpFrom(v, x), v.spans[v.root].h) && merged[p] == v.nodes[p] == nodes[p]
    ensures p in Reparent(nodes, v.nodes[y].children, x) && Reparent(nodes, v.nodes[y].children, x)[p] == nodes[p]
    ensures |v.nodes[x].children| == |v.nodes[x].keys| + 1 && |v.nodes[y].children| == |v.nodes[y].keys| + 1
    ensures MergeInners(v, p, i, x, y).nodes ==
              merged[p := v.nodes[p].(children := RemoveAt(v.nodes[p].children, i + 1), keys := RemoveAt(v.nodes[p].keys, i))]
  {
    hide Structure;
    SiblingFacts(v, p, i, x, y);
    InnerSiblings(v, p, i, x, y);
    ChildFacts(v, y);
    RootIsTop(v, 0, p);
    var c := v.nodes[y].children;
    assert forall k {:trigger c[k]} :: 0 <= k < |c| ==> c[k] in v.spans && v.spans[c[k]].h < v.spans[x].h;
    assert forall z :: z in c ==> z in v.spans && v.spans[z].h < v.spans[x].h;
    var was := Reparent(v.nodes, v.nodes[y].children, x)[y := Emptied(v.nodes[y])][x := merged[x]];
    assert was == merged;
    hide Structure, Reparent;
    UpFromClimbs(v, x, merged);
  }

  /** No child of a sibling is a child of the root, in the tree or in a store that is behind it at a. */
  lemma ChildrenElsewhere(v: View, nodes: map<Addr, Node>, a: Addr, n: Node, p: Addr, i: nat, x: Addr, y: Addr)
    requires Structure(v, 0) && Siblings(v, p, i, x, y) && !v.nodes[x].isLeaf && v.nodes == nodes[a := n] && (a == x || a == y)
    ensures x != v.root && NoneUnder(nodes, v.nodes[y].children, v.root)
  {
    InnerSiblings(v, p, i, x, y);
    ChildFacts(v, y);
    hide Structure;
    var c := v.nodes[y].children;
    forall k | 0 <= k < |c| && c[k] in nodes ensures nodes[c[k]].parent != v.root { assert c[k] in JoinedChildren(v, x, y) by { assert JoinedChildren(v, x, y)[|v.nodes[x].children| + k] == c[k]; } }
  }

  /** The store once leaf x has taken over y's pages, though p isn't stored yet. */
  lemma MergeLeavesStore(v: View, p: Addr, i: nat, x: Addr, y: Addr, merged: map<Addr, Node>)
    requires Structure(v, 0) && Siblings(v, p, i, x, y) && v.nodes[x].isLeaf
    requires merged == Relink(v.nodes, v.nodes[y].next, x)[y := Emptied(v.nodes[y])]
                         [x := v.nodes[x].(children := v.nodes[x].children + v.nodes[y].children, keys := v.nodes[x].keys + v.nodes[y].keys,
                                           maxKey := v.nodes[y].maxKey, next := v.nodes[y].next)]
    ensures x in v.spans && y in v.spans && p in v.spans && p != 0 && p in v.nodes && p != x && p != y && x != y && v.nodes[x].parent == p && v.spans[v.root].h > 0
    ensures Climbable(merged, UpFrom(v, x), v.spans[v.root].h)
    ensures p in Relink(v.nodes, v.nodes[y].next, x) && Relink(v.nodes, v.nodes[y].next, x)[p] == v.nodes[p]
    ensures v.nodes[y].next != 0 ==> v.nodes[y].next in v.nodes
    ensures |v.nodes[x].children| == |v.nodes[x].keys| && |v.nodes[y].children| == |v.nodes[y].keys|
  {
    SiblingFacts(v, p, i, x, y);
    LeafSiblings(v, p, i, x, y);
    NextIsLeaf(v, y);
    RootIsTop(v, 0, p);
    assert NodeOK(v, x, 0);
    UpFromClimbs(v, x, merged);
  }

  function NextOf(nodes: map<Addr, Node>, p: Addr, a: Addr): Addr
    requires p != 0 ==> p in nodes
  {
    if p == 0 then 0 else
      var c := nodes[p].children;
      var i := IndexIn(c, a);
      if i + 1 < |c| then c[i + 1] else 0
  }

  function PrevOf(nodes: map<Addr, Node>, p: Addr, a: Addr): Addr
    requires p != 0 ==> p in nodes && |nodes[p].children| > 0
  {
    if p == 0 then 0 else
      var c := nodes[p].children;
      var i := IndexIn(c[1..], a);
      if i + 1 < |c| then c[i] else 0
  }

  /** What occurs once is a place further on in the whole than in all but the first. */
  lemma IndexShifts(c: seq<Addr>, a: Addr)
    requires IndexIn(c, a) < |c| && forall j :: 0 <= j < |c| && c[j] == a ==> j == IndexIn(c, a)
    ensures IndexIn(c[1..], a) == if IndexIn(c, a) == 0 then |c| - 1 else IndexIn(c, a) - 1
  {
    var i, j := IndexIn(c, a), IndexIn(c[1..], a);
    if j + 1 < |c| { assert c[1..][j] == c[j + 1]; }
    if i > 0 { assert c[1..][i - 1] == a; }
  }

  /** A node's siblings, as the searches for them find them; a node that isn't the root has at least one. */
  lemma FindsSiblings(v: View, a: Addr)
    requires Structure(v, 0) && a in v.spans && a != v.root
    ensures v.nodes[a].parent in v.spans && |v.nodes[v.nodes[a].parent].children| > 0
    ensures var p, i := v.nodes[a].parent, IndexIn(v.nodes[v.nodes[a].parent].children, a);
            && (NextOf(v.nodes, p, a) != 0 ==> Siblings(v, p, i, a, NextOf(v.nodes, p, a)))
            && (PrevOf(v.nodes, p, a) != 0 ==> i > 0 && Siblings(v, p, i - 1, PrevOf(v.nodes, p, a), a))
            && (NextOf(v.nodes, p, a) == 0 && PrevOf(v.nodes, p, a) == 0 ==> |v.nodes[p].children| == 1)
  {
    hide Structure;
    RootStored(v);
    var p := v.nodes[a].parent;
    ParentIsInner(v, a);
    ChildIndexUnique(v, 0, a);
    ChildFacts(v, p);
    var c := v.nodes[p].children;
    var i := IndexIn(c, a);
    IndexShifts(c, a);
    if i + 1 < |c| { assert v.nodes[p].children[i + 1] in v.spans; }
    if i > 0 { assert v.nodes[p].children[i - 1] in v.spans; }
  }
}
