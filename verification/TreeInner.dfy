// Inner nodes that split, share children with a sibling or merge with it, as changes to the whole tree.
module TreeInner {
  import opened Base
  import opened TreeView
  import opened TreeEdit
  import opened TreeRuns
  import opened TreeLeaves

  function Elems(c: seq<Addr>): set<Addr> { set x | x in c }

  ghost predicate AllAdopted(v: View, w: View, c: seq<Addr>) {
    forall i {:trigger c[i]} :: 0 <= i < |c| ==> Adopted(v, w, c[i])
  }

  /** Inner node z of w has the run of children c, all its own. */
  ghost predicate HasRun(w: View, z: Addr, c: seq<Addr>, k: seq<Key>) {
    && z in w.spans && z in w.nodes && w.nodes[z].children == c && w.nodes[z].keys == k && !w.nodes[z].isLeaf
    && w.spans[z].h > 0
    && Run(w, c, k, w.spans[z].lo, w.spans[z].hi, w.spans[z].h - 1)
    && (forall i {:trigger c[i]} :: 0 <= i < |c| ==> c[i] in w.nodes && w.nodes[c[i]].parent == z)
    && w.nodes[c[|k|]].maxKey <= w.nodes[z].maxKey
    && -1 <= w.spans[z].lo < w.nodes[z].maxKey <= w.spans[z].hi <= KEY_LIMIT
  }

  lemma RunIsNode(w: View, z: Addr, c: seq<Addr>, k: seq<Key>)
    requires w.spans.Keys <= w.nodes.Keys && w.root in w.spans && HasRun(w, z, c, k) && UpOK(w, z)
    requires w.spans[z].h <= w.spans[w.root].h
    ensures NodeOK(w, z, 0)
  {
    RunNode(w, z);
  }

  /** Inner nodes p, x and y and x's and y's children are all that changed from v to w. */
  ghost predicate Redealt(v: View, w: View, t: set<Addr>, h: nat, c: seq<Addr>) {
    && HandsOver(v, w, t, h) && AllAdopted(v, w, c) && h + 1 < v.spans[v.root].h
    && forall i {:trigger c[i]} :: 0 <= i < |c| ==>
         c[i] in t && c[i] in v.spans && c[i] != v.root && v.spans[c[i]].h == h
         && c[i] in w.nodes && w.nodes[c[i]].parent in w.spans
         && w.spans[w.nodes[c[i]].parent].h == h + 1 && c[i] in w.nodes[w.nodes[c[i]].parent].children
  }

  lemma RedealtChildren(v: View, w: View, t: set<Addr>, h: nat, c: seq<Addr>)
    requires Structure(v, 0) && Redealt(v, w, t, h, c)
    ensures forall x :: x in c ==> x in w.spans && NodeOK(w, x, 0) && EdgesOK(v, w, t, x, 0)
  {
    forall x | x in c ensures x in w.spans && NodeOK(w, x, 0) && EdgesOK(v, w, t, x, 0) {
      var i :| 0 <= i < |c| && c[i] == x;
      AdoptedNode(v, w, t, x);
    }
  }

  lemma InnerEdges(v: View, w: View, t: set<Addr>, x: Addr)
    requires Structure(v, 0) && x in v.spans && !v.nodes[x].isLeaf && (x == v.root || v.nodes[x].parent in t)
    requires forall c :: c in v.nodes[x].children ==> c in t
    ensures EdgesOK(v, w, t, x, 0)
  {
  }

  /** The node's children, as handed over, and what each of them covers. */
  lemma ChildFacts(v: View, a: Addr)
    requires Structure(v, 0) && a in v.spans && !v.nodes[a].isLeaf
    ensures v.spans[a].h > 0
    ensures forall i {:trigger v.nodes[a].children[i]} :: 0 <= i < |v.nodes[a].children| ==>
              var c := v.nodes[a].children[i];
              && c in v.spans && c in v.nodes && c != v.root && v.nodes[c].parent == a && v.spans[c].h + 1 == v.spans[a].h
              && v.spans[a].lo <= v.spans[c].lo < v.nodes[c].maxKey <= v.spans[c].hi <= v.spans[a].hi
  {
    assert NodeOK(v, a, 0);
    forall i | 0 <= i < |v.nodes[a].children|
      ensures var c := v.nodes[a].children[i];
              && c in v.spans && c in v.nodes && c != v.root && v.nodes[c].parent == a && v.spans[c].h + 1 == v.spans[a].h
              && v.spans[a].lo <= v.spans[c].lo < v.nodes[c].maxKey <= v.spans[c].hi <= v.spans[a].hi
    {
      assert ChildOK(v, a, i, 0);
      var c := v.nodes[a].children[i];
      assert NodeOK(v, c, 0);
      ParentCovers(v, 0, c, v.spans[c].hi);
    }
  }

  // ---- splitting an inner node

  /** w is v with inner node a's children from m on moved to its new sibling b. */
  ghost predicate InnerHalved(v: View, w: View, a: Addr, b: Addr, m: nat) {
    && a in v.spans && a in v.nodes && !v.nodes[a].isLeaf && a != v.root && b !in v.spans && b != 0
    && var n, s := v.nodes[a], v.spans[a];
       && 0 < m < |n.children| == |n.keys| + 1
       && n.children[m - 1] in v.spans && n.children[m - 1] in v.nodes
       && n.parent in v.nodes && n.parent in w.nodes && n.parent in v.spans
       && Untouched(v, w, {a, b, n.parent} + Elems(n.children))
       && a in w.nodes && b in w.nodes && n.parent !in {a, b}
       && w.nodes[a] == n.(children := n.children[..m], keys := n.keys[..m - 1], maxKey := v.nodes[n.children[m - 1]].maxKey)
       && w.nodes[b] == Node(n.children[m..], n.keys[m..], n.parent, 0, 0, n.maxKey, false)
       && (forall i {:trigger n.children[i]} :: 0 <= i < |n.children| ==>
             n.children[i] in v.nodes && n.children[i] in w.nodes
             && w.nodes[n.children[i]] == v.nodes[n.children[i]].(parent := if i < m then a else b))
       && w.spans == v.spans[a := Span(s.h, s.lo, v.spans[n.children[m - 1]].hi)][b := Span(s.h, v.spans[n.children[m - 1]].hi, s.hi)]
       && w.filed == v.filed
  }

  lemma HalvedRuns(v: View, w: View, a: Addr, b: Addr, m: nat)
    requires Structure(v, 0) && InnerHalved(v, w, a, b, m)
    ensures HasRun(w, a, v.nodes[a].children[..m], v.nodes[a].keys[..m - 1])
    ensures HasRun(w, b, v.nodes[a].children[m..], v.nodes[a].keys[m..])
    ensures AllAdopted(v, w, v.nodes[a].children)
    ensures w.nodes[a].maxKey <= v.nodes[a].keys[m - 1] <= w.spans[a].hi
  {
    var n, s := v.nodes[a], v.spans[a];
    var c, k := n.children, n.keys;
    NodeRun(v, a);
    ChildFacts(v, a);
    assert NodeOK(v, a, 0);
    RunHandedOver(v, w, c, k, s.lo, s.hi, s.h - 1);
    assert RunAt(v, c, k, m - 1, s.h - 1) && RunAt(v, c, k, m, s.h - 1);
    CutRun(w, c, k, s.lo, s.hi, s.h - 1, m);
    if m < |k| { ChildrenOrdered(v, 0, a, m, |k|); }
  }

  lemma HalvedParent(v: View, w: View, a: Addr, b: Addr, m: nat, i: nat, t: set<Addr>)
    requires Structure(v, 0) && InnerHalved(v, w, a, b, m)
    requires t == {a, b, v.nodes[a].parent} + Elems(v.nodes[a].children)
    requires var p := v.nodes[a].parent;
             SplicedIn(v, w, t, p, i, i, [a, b], [v.nodes[a].keys[m - 1]]) && v.nodes[p].children[i] == a
    ensures var p := v.nodes[a].parent; NodeOK(w, p, 0) && EdgesOK(v, w, t, p, 0)
    ensures UpOK(w, a) && UpOK(w, b)
  {
    var n := v.nodes[a];
    var p := n.parent;
    ParentIsInner(v, a);
    ChildFacts(v, a);
    forall c | c in v.spans && v.nodes[c].parent == p && c !in v.nodes[p].children[i..i + 1] ensures KeepsKin(v, w, c) {
      assert v.nodes[p].children[i..i + 1] == [a] && NodeOK(v, c, 0);
      if c !in t { assert Same(v, w, c); }
    }
    ParentSpliced(v, w, t, p, i, i, [a, b], [n.keys[m - 1]]);
    assert w.nodes[p].children[i] == a && w.nodes[p].children[i + 1] == b;
  }

  lemma HalvedRedealt(v: View, w: View, a: Addr, b: Addr, m: nat, t: set<Addr>)
    requires Structure(v, 0) && InnerHalved(v, w, a, b, m) && AllAdopted(v, w, v.nodes[a].children)
    requires t == {a, b, v.nodes[a].parent} + Elems(v.nodes[a].children)
    ensures v.spans[a].h > 0 && Redealt(v, w, t, v.spans[a].h - 1, v.nodes[a].children)
  {
    var c := v.nodes[a].children;
    ParentIsInner(v, a);
    ChildFacts(v, a);
    RootIsTop(v, 0, a);
    forall i | 0 <= i < |c| ensures c[i] in w.nodes[w.nodes[c[i]].parent].children {
      if i < m { assert w.nodes[a].children[i] == c[i]; } else { assert w.nodes[b].children[i - m] == c[i]; }
    }
  }

  lemma SplitInnerKeeps(v: View, w: View, a: Addr, b: Addr, m: nat, i: nat)
    requires Structure(v, 0) && InnerHalved(v, w, a, b, m)
    requires var p := v.nodes[a].parent;
             SplicedIn(v, w, {a, b, p} + Elems(v.nodes[a].children), p, i, i, [a, b], [v.nodes[a].keys[m - 1]])
             && v.nodes[p].children[i] == a
    ensures Structure(w, 0)
  {
    hide SplicedIn, InnerOK, LeafOK, Run, HasRun, Redealt;
    var n := v.nodes[a];
    var c, t := n.children, {a, b, n.parent} + Elems(n.children);
    ParentIsInner(v, a);
    assert NodeOK(v, a, 0);
    HalvedRuns(v, w, a, b, m);
    HalvedParent(v, w, a, b, m, i, t);
    HalvedRedealt(v, w, a, b, m, t);
    RedealtChildren(v, w, t, v.spans[a].h - 1, c);
    RunIsNode(w, a, c[..m], n.keys[..m - 1]);
    RunIsNode(w, b, c[m..], n.keys[m..]);
    InnerEdges(v, w, t, a);
    forall q | q in w.filed && w.filed[q].leaf in t ensures FiledOK(w, q) { AdoptedFiled(v, w, c, q); }
    Edit(v, w, t, 0);
  }

  /** Pages stay filed where they were while inner nodes change. */
  lemma AdoptedFiled(v: View, w: View, c: seq<Addr>, q: Addr)
    requires Structure(v, 0) && AllAdopted(v, w, c) && q in v.filed && w.spans.Keys <= w.nodes.Keys
    requires w.filed == v.filed && (v.filed[q].leaf in c || !(v.filed[q].leaf in v.spans && v.nodes[v.filed[q].leaf].isLeaf))
    ensures FiledOK(w, q)
  {
    assert FiledOK(v, q);
    var l := v.filed[q].leaf;
    assert NodeOK(v, l, 0);
    var i :| 0 <= i < |c| && c[i] == l;
  }

  // ---- sibling inner nodes

  /** The children of siblings x and y, and the separators between them, p's own among them. */
  function JoinedChildren(v: View, x: Addr, y: Addr): seq<Addr>
    requires x in v.nodes && y in v.nodes
  {
    v.nodes[x].children + v.nodes[y].children
  }

  function JoinedKeys(v: View, p: Addr, i: nat, x: Addr, y: Addr): seq<Key>
    requires x in v.nodes && y in v.nodes && p in v.nodes && i < |v.nodes[p].keys|
  {
    v.nodes[x].keys + [v.nodes[p].keys[i]] + v.nodes[y].keys
  }

  lemma JoinedRun(v: View, p: Addr, i: nat, x: Addr, y: Addr)
    requires Structure(v, 0) && Siblings(v, p, i, x, y) && !v.nodes[x].isLeaf
    ensures x in v.spans && y in v.spans && v.spans[x].h > 0
    ensures Run(v, JoinedChildren(v, x, y), JoinedKeys(v, p, i, x, y), v.spans[x].lo, v.spans[y].hi, v.spans[x].h - 1)
    ensures |v.nodes[y].children| > 0 && Last(v.nodes[y].children) in v.nodes
    ensures v.nodes[Last(v.nodes[y].children)].maxKey <= v.nodes[y].maxKey
    ensures forall j {:trigger JoinedChildren(v, x, y)[j]} :: 0 <= j < |JoinedChildren(v, x, y)| ==>
              var c := JoinedChildren(v, x, y)[j];
              && c in v.spans && c in v.nodes && c != v.root && (v.nodes[c].parent == x || v.nodes[c].parent == y)
              && v.spans[c].h + 1 == v.spans[x].h
              && v.spans[x].lo <= v.spans[c].lo < v.nodes[c].maxKey <= v.spans[c].hi <= v.spans[y].hi
  {
    SiblingFacts(v, p, i, x, y);
    NodeRun(v, x); NodeRun(v, y);
    ChildFacts(v, x); ChildFacts(v, y);
    JoinRuns(v, v.nodes[x].children, v.nodes[x].keys, v.spans[x].lo, v.spans[x].hi, v.spans[y].hi, v.spans[x].h - 1,
             v.nodes[y].children, v.nodes[y].keys, v.nodes[p].keys[i]);
  }

  /** w is v with the children of sibling inner nodes x and y shared out again, the first m to x. */
  ghost predicate InnersShared(v: View, w: View, p: Addr, i: nat, x: Addr, y: Addr, m: nat) {
    && Siblings(v, p, i, x, y) && x in v.spans && y in v.spans && !v.nodes[x].isLeaf && x != y && p != x && p != y
    && var c, k := JoinedChildren(v, x, y), JoinedKeys(v, p, i, x, y);
       && 0 < m < |c| == |k| + 1 && c[m - 1] in v.spans && c[m - 1] in v.nodes
       && Untouched(v, w, {x, y, p} + Elems(c))
       && x in w.nodes && y in w.nodes && p in w.nodes
       && w.nodes[x] == v.nodes[x].(children := c[..m], keys := k[..m - 1], maxKey := w.nodes[x].maxKey)
       && v.nodes[c[m - 1]].maxKey <= w.nodes[x].maxKey <= k[m - 1]
       && w.nodes[y] == v.nodes[y].(children := c[m..], keys := k[m..])
       && w.nodes[p] == v.nodes[p].(keys := v.nodes[p].keys[i := k[m - 1]])
       && (forall j {:trigger c[j]} :: 0 <= j < |c| ==>
             c[j] in v.nodes && c[j] in w.nodes && w.nodes[c[j]] == v.nodes[c[j]].(parent := if j < m then x else y))
       && w.spans == v.spans[x := v.spans[x].(hi := v.spans[c[m - 1]].hi)][y := v.spans[y].(lo := v.spans[c[m - 1]].hi)]
       && w.filed == v.filed
  }

  lemma SharedAdopted(v: View, w: View, p: Addr, i: nat, x: Addr, y: Addr, m: nat)
    requires Structure(v, 0) && InnersShared(v, w, p, i, x, y, m)
    ensures AllAdopted(v, w, JoinedChildren(v, x, y))
  {
    SiblingFacts(v, p, i, x, y);
    JoinedRun(v, p, i, x, y);
  }

  lemma SharedRuns(v: View, w: View, p: Addr, i: nat, x: Addr, y: Addr, m: nat)
    requires Structure(v, 0) && InnersShared(v, w, p, i, x, y, m) && AllAdopted(v, w, JoinedChildren(v, x, y))
    ensures var c, k := JoinedChildren(v, x, y), JoinedKeys(v, p, i, x, y);
            HasRun(w, x, c[..m], k[..m - 1]) && HasRun(w, y, c[m..], k[m..])
            && w.nodes[x].maxKey <= k[m - 1] <= w.spans[x].hi < w.nodes[y].maxKey
  {
    hide Structure, Run;
    var c, k, h := JoinedChildren(v, x, y), JoinedKeys(v, p, i, x, y), v.spans[x].h - 1;
    SiblingFacts(v, p, i, x, y);
    JoinedRun(v, p, i, x, y);
    RunHandedOver(v, w, c, k, v.spans[x].lo, v.spans[y].hi, h);
    CutRun(w, c, k, v.spans[x].lo, v.spans[y].hi, h, m);
    assert c[|k|] == Last(v.nodes[y].children);
    RunOrdered(v, c, k, v.spans[x].lo, v.spans[y].hi, h, m);
    LaterMax(v, c, k, v.spans[x].lo, v.spans[y].hi, h, m);
  }

  /** The last maxKey of a run is above every boundary in it. */
  lemma LaterMax(v: View, c: seq<Addr>, k: seq<Key>, lo: int, hi: int, h: nat, m: nat)
    requires Run(v, c, k, lo, hi, h) && 0 < m <= |k|
    requires forall i {:trigger c[i]} :: 0 <= i < |c| && c[i] in v.spans && c[i] in v.nodes ==>
               v.spans[c[i]].lo < v.nodes[c[i]].maxKey <= v.spans[c[i]].hi
    ensures RunAt(v, c, k, m - 1, h) && RunAt(v, c, k, |k|, h)
    ensures v.spans[c[m - 1]].hi < v.nodes[c[|k|]].maxKey
  {
    assert RunAt(v, c, k, m - 1, h) && RunAt(v, c, k, m, h) && RunAt(v, c, k, |k|, h) && RunAt(v, c, k, |k| - 1, h);
    if m < |k| {
      CutRun(v, c, k, lo, hi, h, m);
      var d := c[m..];
      assert forall i {:trigger d[i]} :: 0 <= i < |d| ==> d[i] == c[m + i];
      RunOrdered(v, d, k[m..], v.spans[c[m - 1]].hi, hi, h, |k| - m);
    }
  }

  lemma SharedSpliced(v: View, w: View, p: Addr, i: nat, x: Addr, y: Addr, m: nat, t: set<Addr>)
    requires Structure(v, 0) && InnersShared(v, w, p, i, x, y, m)
    requires t == {x, y, p} + Elems(JoinedChildren(v, x, y))
    requires w.nodes[x].maxKey <= JoinedKeys(v, p, i, x, y)[m - 1] <= w.spans[x].hi
    ensures SplicedIn(v, w, t, p, i, i + 1, [x, y], [JoinedKeys(v, p, i, x, y)[m - 1]])
  {
    hide JoinedKeys, LeafOK, LinksOK;
    SiblingFacts(v, p, i, x, y);
    var c := v.nodes[p].children;
    var b := JoinedKeys(v, p, i, x, y)[m - 1];
    assert RunAt(w, [x, y], [b], 0, v.spans[x].h) && RunAt(w, [x, y], [b], 1, v.spans[x].h);
    assert c[..i] + [x, y] + c[i + 2..] == c;
    assert v.nodes[p].keys[..i] + [b] + v.nodes[p].keys[i + 1..] == w.nodes[p].keys;
  }

  lemma SharedParent(v: View, w: View, p: Addr, i: nat, x: Addr, y: Addr, m: nat, t: set<Addr>)
    requires Structure(v, 0) && InnersShared(v, w, p, i, x, y, m)
    requires t == {x, y, p} + Elems(JoinedChildren(v, x, y))
    requires w.nodes[x].maxKey <= JoinedKeys(v, p, i, x, y)[m - 1] <= w.spans[x].hi
    ensures NodeOK(w, p, 0) && EdgesOK(v, w, t, p, 0) && UpOK(w, x) && UpOK(w, y)
  {
    hide SplicedIn, JoinedKeys;
    SiblingFacts(v, p, i, x, y);
    JoinedRun(v, p, i, x, y);
    var c := v.nodes[p].children;
    assert c[i..i + 2] == [x, y];
    SharedSpliced(v, w, p, i, x, y, m, t);
    forall z | z in v.spans && v.nodes[z].parent == p && z !in c[i..i + 2] ensures KeepsKin(v, w, z) {
      assert NodeOK(v, z, 0);
      assert z !in t;
      assert Same(v, w, z);
    }
    ParentSpliced(v, w, t, p, i, i + 1, [x, y], [JoinedKeys(v, p, i, x, y)[m - 1]]);
    assert w.nodes[p].children[i] == x && w.nodes[p].children[i + 1] == y;
  }

  lemma SharedHandsOver(v: View, w: View, p: Addr, i: nat, x: Addr, y: Addr, m: nat, t: set<Addr>)
    requires Structure(v, 0) && InnersShared(v, w, p, i, x, y, m) && AllAdopted(v, w, JoinedChildren(v, x, y))
    requires t == {x, y, p} + Elems(JoinedChildren(v, x, y))
    ensures v.spans[x].h > 0 && HandsOver(v, w, t, v.spans[x].h - 1)
  {
    hide JoinedKeys, Run;
    SiblingFacts(v, p, i, x, y);
    JoinedRun(v, p, i, x, y);
  }

  lemma SharedChild(v: View, w: View, p: Addr, i: nat, x: Addr, y: Addr, m: nat, j: nat)
    requires Structure(v, 0) && InnersShared(v, w, p, i, x, y, m) && j < |JoinedChildren(v, x, y)|
    ensures x in v.spans && v.spans[x].h > 0
    ensures var b := JoinedChildren(v, x, y)[j];
            && b in v.spans && b != v.root && v.spans[b].h == v.spans[x].h - 1
            && b in w.nodes && w.nodes[b].parent in w.spans && w.nodes[b].parent in w.nodes
            && w.spans[w.nodes[b].parent].h == v.spans[x].h && b in w.nodes[w.nodes[b].parent].children
  {
    hide JoinedKeys, Run, Untouched, Structure;
    var c := JoinedChildren(v, x, y);
    SiblingFacts(v, p, i, x, y);
    JoinedRun(v, p, i, x, y);
    if j < m { assert w.nodes[x].children[j] == c[j]; } else { assert w.nodes[y].children[j - m] == c[j]; }
  }

  lemma SharedRedealt(v: View, w: View, p: Addr, i: nat, x: Addr, y: Addr, m: nat, t: set<Addr>)
    requires Structure(v, 0) && InnersShared(v, w, p, i, x, y, m) && AllAdopted(v, w, JoinedChildren(v, x, y))
    requires t == {x, y, p} + Elems(JoinedChildren(v, x, y))
    ensures v.spans[x].h > 0 && Redealt(v, w, t, v.spans[x].h - 1, JoinedChildren(v, x, y))
  {
    hide Structure, InnersShared, JoinedChildren, JoinedKeys, HandsOver, AllAdopted;
    SharedHeight(v, w, p, i, x, y, m);
    var c := JoinedChildren(v, x, y);
    SharedHandsOver(v, w, p, i, x, y, m, t);
    forall j | 0 <= j < |c|
      ensures && c[j] in t && c[j] in v.spans && c[j] != v.root && v.spans[c[j]].h == v.spans[x].h - 1
              && c[j] in w.nodes && w.nodes[c[j]].parent in w.spans
              && w.spans[w.nodes[c[j]].parent].h == v.spans[x].h && c[j] in w.nodes[w.nodes[c[j]].parent].children
    {
      SharedChild(v, w, p, i, x, y, m, j);
      assert c[j] in c;
    }
  }

  lemma SharedHeight(v: View, w: View, p: Addr, i: nat, x: Addr, y: Addr, m: nat)
    requires Structure(v, 0) && InnersShared(v, w, p, i, x, y, m)
    ensures x in v.spans && x in v.nodes && y in v.nodes && v.root in v.spans && v.spans[x].h < v.spans[v.root].h && w.spans.Keys <= w.nodes.Keys
  {
    SiblingFacts(v, p, i, x, y);
    RootIsTop(v, 0, x);
  }

  lemma ShareInnersKeeps(v: View, w: View, p: Addr, i: nat, x: Addr, y: Addr, m: nat)
    requires Structure(v, 0) && InnersShared(v, w, p, i, x, y, m)
    ensures Structure(w, 0)
  {
    hide InnerOK, LeafOK, Run, HasRun, Redealt, JoinedKeys;
    var c, k := JoinedChildren(v, x, y), JoinedKeys(v, p, i, x, y);
    var t := {x, y, p} + Elems(c);
    SiblingFacts(v, p, i, x, y);
    SharedAdopted(v, w, p, i, x, y, m);
    SharedRuns(v, w, p, i, x, y, m);
    SharedParent(v, w, p, i, x, y, m, t);
    SharedRedealt(v, w, p, i, x, y, m, t);
    RedealtChildren(v, w, t, v.spans[x].h - 1, c);
    assert NodeOK(v, x, 0);
    RunIsNode(w, x, c[..m], k[..m - 1]);
    RunIsNode(w, y, c[m..], k[m..]);
    InnerEdges(v, w, t, x);
    InnerEdges(v, w, t, y);
    forall q | q in w.filed && w.filed[q].leaf in t ensures FiledOK(w, q) { AdoptedFiled(v, w, c, q); }
    Edit(v, w, t, 0);
  }

  /** w is v with sibling inner node y's children moved to x, and y gone from the tree. */
  ghost predicate InnersMerged(v: View, w: View, p: Addr, i: nat, x: Addr, y: Addr) {
    && Siblings(v, p, i, x, y) && x in v.spans && y in v.spans && !v.nodes[x].isLeaf && x != y && p != x && p != y
    && var c, k := JoinedChildren(v, x, y), JoinedKeys(v, p, i, x, y);
       && |c| == |k| + 1
       && Untouched(v, w, {x, y, p} + Elems(c))
       && x in w.nodes && p in w.nodes
       && w.nodes[x] == v.nodes[x].(children := c, keys := k, maxKey := v.nodes[y].maxKey)
       && w.nodes[p] == v.nodes[p].(children := RemoveAt(v.nodes[p].children, i + 1), keys := RemoveAt(v.nodes[p].keys, i))
       && (forall j {:trigger c[j]} :: 0 <= j < |c| ==>
             c[j] in v.nodes && c[j] in w.nodes && w.nodes[c[j]] == v.nodes[c[j]].(parent := x))
       && w.spans == (v.spans - {y})[x := v.spans[x].(hi := v.spans[y].hi)]
       && w.filed == v.filed
  }

  lemma MergedRun(v: View, w: View, p: Addr, i: nat, x: Addr, y: Addr)
    requires Structure(v, 0) && InnersMerged(v, w, p, i, x, y)
    ensures AllAdopted(v, w, JoinedChildren(v, x, y))
    ensures HasRun(w, x, JoinedChildren(v, x, y), JoinedKeys(v, p, i, x, y))
  {
    hide RemoveAt;
    var c, k, h := JoinedChildren(v, x, y), JoinedKeys(v, p, i, x, y), v.spans[x].h - 1;
    SiblingFacts(v, p, i, x, y);
    JoinedRun(v, p, i, x, y);
    RunHandedOver(v, w, c, k, v.spans[x].lo, v.spans[y].hi, h);
    assert c[|k|] == Last(v.nodes[y].children);
  }

  lemma MergedSpliced(v: View, w: View, p: Addr, i: nat, x: Addr, y: Addr, t: set<Addr>)
    requires Structure(v, 0) && InnersMerged(v, w, p, i, x, y)
    requires t == {x, y, p} + Elems(JoinedChildren(v, x, y))
    ensures SplicedIn(v, w, t, p, i, i + 1, [x], [])
  {
    hide JoinedKeys, LeafOK;
    SiblingFacts(v, p, i, x, y);
    var c := v.nodes[p].children;
    assert RunAt(w, [x], [], 0, v.spans[x].h);
    assert c[..i] + [x] + c[i + 2..] == RemoveAt(c, i + 1);
    assert v.nodes[p].keys[..i] + [] + v.nodes[p].keys[i + 1..] == RemoveAt(v.nodes[p].keys, i);
  }

  lemma MergedParent(v: View, w: View, p: Addr, i: nat, x: Addr, y: Addr, t: set<Addr>)
    requires Structure(v, 0) && InnersMerged(v, w, p, i, x, y)
    requires t == {x, y, p} + Elems(JoinedChildren(v, x, y))
    ensures NodeOK(w, p, 0) && EdgesOK(v, w, t, p, 0) && UpOK(w, x)
  {
    hide SplicedIn, RemoveAt, JoinedKeys;
    SiblingFacts(v, p, i, x, y);
    JoinedRun(v, p, i, x, y);
    var c := v.nodes[p].children;
    assert c[i..i + 2] == [x, y];
    MergedSpliced(v, w, p, i, x, y, t);
    forall z | z in v.spans && v.nodes[z].parent == p && z !in c[i..i + 2] ensures KeepsKin(v, w, z) {
      assert NodeOK(v, z, 0);
      assert z !in t;
      assert Same(v, w, z);
    }
    ParentSpliced(v, w, t, p, i, i + 1, [x], []);
    assert w.nodes[p].children[i] == x;
  }

  lemma MergedRedealt(v: View, w: View, p: Addr, i: nat, x: Addr, y: Addr, t: set<Addr>)
    requires Structure(v, 0) && InnersMerged(v, w, p, i, x, y) && AllAdopted(v, w, JoinedChildren(v, x, y))
    requires t == {x, y, p} + Elems(JoinedChildren(v, x, y))
    ensures v.spans[x].h > 0 && Redealt(v, w, t, v.spans[x].h - 1, JoinedChildren(v, x, y))
  {
    hide JoinedKeys, RemoveAt;
    SiblingFacts(v, p, i, x, y);
    JoinedRun(v, p, i, x, y);
    RootIsTop(v, 0, x);
  }

  lemma MergeInnersKeeps(v: View, w: View, p: Addr, i: nat, x: Addr, y: Addr)
    requires Structure(v, 0) && InnersMerged(v, w, p, i, x, y)
    ensures Structure(w, 0)
  {
    hide InnerOK, LeafOK, Run, HasRun, Redealt, JoinedKeys, RemoveAt;
    var c, k := JoinedChildren(v, x, y), JoinedKeys(v, p, i, x, y);
    var t := {x, y, p} + Elems(c);
    SiblingFacts(v, p, i, x, y);
    MergedRun(v, w, p, i, x, y);
    MergedParent(v, w, p, i, x, y, t);
    MergedRedealt(v, w, p, i, x, y, t);
    RedealtChildren(v, w, t, v.spans[x].h - 1, c);
    assert NodeOK(v, x, 0);
    RunIsNode(w, x, c, k);
    InnerEdges(v, w, t, x);
    InnerEdges(v, w, t, y);
    forall q | q in w.filed && w.filed[q].leaf in t ensures FiledOK(w, q) { AdoptedFiled(v, w, c, q); }
    Edit(v, w, t, 0);
  }
}
