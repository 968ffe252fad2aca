// Filing a page in a leaf, taking one out, and changing what one is filed under.
module LeafPages {
  import opened Base
  import opened TreeView
  import opened TreeEdit
  import opened TreePages
  import opened TreeChanges
  import opened TreeSplit
  import opened TreeGrowth
  import opened TreeLeaves
  import opened TableState

  /** A page with keys in (lo, key] can be filed in leaf a: every page there is below it or above it. */
  ghost predicate RoomFor(v: View, a: Addr, lo: int, key: Key) {
    && a in v.spans && a in v.nodes && v.nodes[a].isLeaf
    && v.spans[a].lo <= lo < key <= v.spans[a].hi
    && forall i {:trigger v.nodes[a].children[i]} :: 0 <= i < |v.nodes[a].children| && i < |v.nodes[a].keys| && v.nodes[a].children[i] in v.filed ==>
         v.nodes[a].keys[i] <= lo || key <= v.filed[v.nodes[a].children[i]].lo
  }

  /** Leaf n with page q filed under key. */
  function WithPage(n: Node, key: Key, q: Addr): Node
    requires |n.children| == |n.keys|
  {
    var i := Above(n.keys, key);
    var m := n.(keys := InsertAt(n.keys, i, key), children := InsertAt(n.children, i, q));
    if i < |n.keys| then m else m.(maxKey := key)
  }

  ghost function PageAdded(v: View, a: Addr, lo: int, key: Key, q: Addr): View
    requires a in v.nodes && |v.nodes[a].children| == |v.nodes[a].keys|
  {
    v.(nodes := v.nodes[a := WithPage(v.nodes[a], key, q)], filed := v.filed[q := Filed(a, lo, key)])
  }

  lemma PageAddedRun(v: View, a: Addr, lo: int, key: Key, q: Addr)
    requires Structure(v, 0) && RoomFor(v, a, lo, key) && q !in v.filed && |v.nodes[a].children| == |v.nodes[a].keys|
    ensures var m := WithPage(v.nodes[a], key, q);
            PageRun(v.filed[q := Filed(a, lo, key)], m.children, m.keys, v.spans[a].lo) && Last(m.keys) <= m.maxKey <= v.spans[a].hi
  {
    var n := v.nodes[a];
    var i := Above(n.keys, key);
    LeafRun(v, a);
    if i > 0 { assert PageAt(v.filed, n.children, n.keys, v.spans[a].lo, i - 1); }
    if i < |n.keys| { assert PageAt(v.filed, n.children, n.keys, v.spans[a].lo, i); }
    InsertInRun(v.filed, n.children, n.keys, v.spans[a].lo, i, q, key, Filed(a, lo, key));
  }

  lemma FiledIn(v: View, a: Addr)
    requires Structure(v, 0) && a in v.spans && v.nodes[a].isLeaf
    ensures forall q :: q in v.filed && v.filed[q].leaf == a ==> q in v.nodes[a].children
    ensures forall q :: q in v.nodes[a].children ==> q in v.filed && v.filed[q].leaf == a
    ensures |v.nodes[a].children| == |v.nodes[a].keys|
  {
    assert NodeOK(v, a, 0);
    forall q | q in v.filed && v.filed[q].leaf == a ensures q in v.nodes[a].children { assert FiledOK(v, q); }
    forall q | q in v.nodes[a].children ensures q in v.filed && v.filed[q].leaf == a {
      var i :| 0 <= i < |v.nodes[a].children| && v.nodes[a].children[i] == q;
      assert PageOK(v, a, i);
    }
  }

  lemma PageAddedKeeps(v: View, a: Addr, lo: int, key: Key, q: Addr)
    requires Structure(v, 0) && RoomFor(v, a, lo, key) && q !in v.filed && |v.nodes[a].children| == |v.nodes[a].keys|
    ensures Structure(PageAdded(v, a, lo, key, q), if Above(v.nodes[a].keys, key) < |v.nodes[a].keys| then 0 else a)
  {
    hide PageRun, InsertAt, Structure;
    var w := PageAdded(v, a, lo, key, q);
    var n, m := v.nodes[a], w.nodes[a];
    PageAddedRun(v, a, lo, key, q);
    FiledIn(v, a);
    InsertMembers(n.children, Above(n.keys, key), q);
    RootStored(v);
    assert LeafEdited(v, w, a, if Above(n.keys, key) < |n.keys| then 0 else a);
    EditLeaf(v, w, a, if Above(n.keys, key) < |n.keys| then 0 else a);
  }

  lemma RootStored(v: View)
    requires Structure(v, 0)
    ensures v.root in v.nodes && v.root in v.spans && v.root != 0 && 0 !in v.spans && v.spans.Keys <= v.nodes.Keys
  {
  }

  // ---- what the rest of the table makes of it

  /** Leaf a of w is leaf a of v with page q filed under key, its ancestors told of a new largest key. */
  ghost predicate Filing(v: View, w: View, a: Addr, lo: int, key: Key, q: Addr) {
    && Structure(v, 0) && RoomFor(v, a, lo, key) && q !in v.filed && |v.nodes[a].children| == |v.nodes[a].keys|
    && var u := PageAdded(v, a, lo, key, q);
       w == if Above(v.nodes[a].keys, key) < |v.nodes[a].keys| then u
            else u.(nodes := PropagateUp(u.nodes, a, key, v.spans[v.root].h))
  }

  lemma FilingKeeps(v: View, w: View, a: Addr, lo: int, key: Key, q: Addr, M: nat)
    requires Filing(v, w, a, lo, key, q) && Filled(v, M, 0) && |v.nodes[a].children| < M
    ensures Structure(w, 0)
    ensures Filled(w, M, 0)
    ensures w.nodes.Keys == v.nodes.Keys && w.spans == v.spans && w.root == v.root && w.filed == v.filed[q := Filed(a, lo, key)]
  {
    var u := PageAdded(v, a, lo, key, q);
    var n := v.nodes[a];
    PageAddedKeeps(v, a, lo, key, q);
    RootStored(v);
    if Above(n.keys, key) == |n.keys| {
      StructureRises(u, a);
      PropagateShape(u.nodes, u.spans, a, key, v.spans[v.root].h);
      PropagateKeeps(u, a, v.spans[v.root].h);
    }
    hide Structure, RoomFor, PropagateUp;
    forall x | x in w.spans ensures Counted(w, M, x) { assert Counted(v, M, x); }
  }

  /** Once leaf a has been split in two, the page can be filed in the half its key belongs to. */
  lemma HalfRoom(v: View, w: View, a: Addr, b: Addr, m: nat, lo: int, key: Key)
    requires Structure(v, 0) && Structure(w, 0) && RoomFor(v, a, lo, key) && Halves(v, w, a, b, m)
    ensures RoomFor(w, if key > w.nodes[a].maxKey then b else a, lo, key)
    ensures w.nodes[a].isLeaf && w.nodes[b].isLeaf
  {
    var n := v.nodes[a];
    LeafRun(v, a);
    FiledIn(v, a);
    assert PageAt(v.filed, n.children, n.keys, v.spans[a].lo, m - 1);
    assert n.children[m - 1] in v.filed;
    var z, from := if key > w.nodes[a].maxKey then b else a, if key > w.nodes[a].maxKey then m else 0;
    forall i | 0 <= i < |w.nodes[z].children| && i < |w.nodes[z].keys| && w.nodes[z].children[i] in w.filed
      ensures w.nodes[z].keys[i] <= lo || key <= w.filed[w.nodes[z].children[i]].lo
    {
      assert w.nodes[z].children[i] == n.children[from + i] && w.nodes[z].keys[i] == n.keys[from + i];
    }
  }

  /** A page filed past another in its leaf, which is filed under a lower key from then on. */
  ghost predicate Rebound(v: View, w: View, a: Addr, i: nat, q: Addr, lowerKey: Key) {
    && a in v.spans && a in v.nodes && v.nodes[a].isLeaf && q in v.filed
    && i < |v.nodes[a].children| == |v.nodes[a].keys| && v.nodes[a].children[i] == q
    && v.filed[q].lo < lowerKey <= v.filed[q].hi
    && w == v.(nodes := v.nodes[a := v.nodes[a].(keys := v.nodes[a].keys[i := lowerKey])],
               filed := v.filed[q := v.filed[q].(hi := lowerKey)])
  }

  lemma ReboundKeeps(v: View, w: View, a: Addr, i: nat, q: Addr, lowerKey: Key, M: nat)
    requires Structure(v, 0) && Rebound(v, w, a, i, q, lowerKey) && Filled(v, M, 0)
    ensures Structure(w, 0)
    ensures Filled(w, M, 0)
    ensures w.nodes.Keys == v.nodes.Keys && w.spans == v.spans && w.filed.Keys == v.filed.Keys
  {
    var n := v.nodes[a];
    LeafRun(v, a);
    FiledIn(v, a);
    RootStored(v);
    assert PageAt(v.filed, n.children, n.keys, v.spans[a].lo, i);
    if i + 1 < |n.children| { assert PageAt(v.filed, n.children, n.keys, v.spans[a].lo, i + 1); }
    ReboundInRun(v.filed, n.children, n.keys, v.spans[a].lo, i, v.filed[q].(hi := lowerKey));
    hide Structure, PageRun;
    assert LeafEdited(v, w, a, 0);
    EditLeaf(v, w, a, 0);
    forall x | x in w.spans ensures Counted(w, M, x) { assert Counted(v, M, x); }
  }

  /** There is then room for a page with the keys that are left, or with new ones past the end of the leaf. */
  lemma ReboundRoom(v: View, w: View, a: Addr, i: nat, q: Addr, lowerKey: Key, key: Key)
    requires Structure(v, 0) && Structure(w, 0) && Rebound(v, w, a, i, q, lowerKey)
    requires lowerKey < key && v.filed[q].hi <= key <= v.spans[a].hi
    requires key == v.filed[q].hi || i == |v.nodes[a].keys| - 1
    ensures RoomFor(w, a, lowerKey, key)
  {
    var n := v.nodes[a];
    LeafRun(v, a);
    assert PageAt(v.filed, n.children, n.keys, v.spans[a].lo, i);
    if i > 0 { RunKeysAbove(v.filed, n.children, n.keys, v.spans[a].lo, i - 1); }
    forall j | 0 <= j < |n.children|
      ensures w.nodes[a].keys[j] <= lowerKey || (n.children[j] in w.filed && key <= w.filed[n.children[j]].lo)
    {
      assert PageAt(v.filed, n.children, n.keys, v.spans[a].lo, j);
      if i < j { assert n.keys[i] <= n.keys[j - 1]; }
    }
  }

  // ---- a key past the end of a leaf

  /** w is v with leaf a's last page filed under key, past all its keys, and a's ancestors told. */
  ghost predicate Stretching(v: View, w: View, a: Addr, q: Addr, key: Key) {
    && Structure(v, 0) && a in v.spans && v.nodes[a].isLeaf && |v.nodes[a].children| == |v.nodes[a].keys| > 0
    && q == Last(v.nodes[a].children) && q in v.filed && v.filed[q].hi < key <= v.spans[a].hi
    && var n := v.nodes[a];
       w == v.(nodes := PropagateUp(v.nodes[a := n.(keys := n.keys[|n.keys| - 1 := key], maxKey := key)], a, key, v.spans[v.root].h),
               filed := v.filed[q := v.filed[q].(hi := key)])
  }

  lemma StretchedLeaf(v: View, a: Addr, q: Addr, key: Key)
    requires Structure(v, 0) && a in v.spans && v.nodes[a].isLeaf && |v.nodes[a].children| == |v.nodes[a].keys| > 0
    requires q == Last(v.nodes[a].children) && q in v.filed && v.filed[q].hi < key <= v.spans[a].hi
    ensures var n := v.nodes[a];
            Structure(v.(nodes := v.nodes[a := n.(keys := n.keys[|n.keys| - 1 := key], maxKey := key)], filed := v.filed[q := v.filed[q].(hi := key)]), a)
  {
    hide PageRun, Structure;
    RootStored(v);
    var n, i := v.nodes[a], |v.nodes[a].keys| - 1;
    var u := v.(nodes := v.nodes[a := n.(keys := n.keys[i := key], maxKey := key)], filed := v.filed[q := v.filed[q].(hi := key)]);
    LeafRun(v, a);
    FiledIn(v, a);
    PageInRun(v, a, i);
    ReboundInRun(v.filed, n.children, n.keys, v.spans[a].lo, i, v.filed[q].(hi := key));
    assert LeafEdited(v, u, a, a);
    EditLeaf(v, u, a, a);
  }

  lemma PageInRun(v: View, a: Addr, i: nat)
    requires Structure(v, 0) && a in v.spans && v.nodes[a].isLeaf && i < |v.nodes[a].children|
    ensures PageAt(v.filed, v.nodes[a].children, v.nodes[a].keys, v.spans[a].lo, i)
  {
    LeafRun(v, a);
  }

  lemma StretchingKeeps(v: View, w: View, a: Addr, q: Addr, key: Key, M: nat)
    requires Stretching(v, w, a, q, key) && Filled(v, M, 0)
    ensures Structure(w, 0)
    ensures Filled(w, M, 0)
    ensures w.nodes.Keys == v.nodes.Keys && w.spans == v.spans && w.root == v.root && w.filed.Keys == v.filed.Keys
  {
    hide Structure, PropagateUp;
    RootStored(v);
    var n := v.nodes[a];
    var u := v.(nodes := v.nodes[a := n.(keys := n.keys[|n.keys| - 1 := key], maxKey := key)], filed := v.filed[q := v.filed[q].(hi := key)]);
    StretchedLeaf(v, a, q, key);
    StructureRises(u, a);
    PropagateShape(u.nodes, u.spans, a, key, v.spans[v.root].h);
    PropagateKeeps(u, a, v.spans[v.root].h);
    forall x | x in w.spans ensures Counted(w, M, x) { assert Counted(v, M, x); }
  }

  // ---- a page taken out

  /** Leaf n without its i-th page. */
  function WithoutPage(n: Node, i: nat): Node
    requires i < |n.children| == |n.keys| && |n.keys| > 1
  {
    var m := n.(children := RemoveAt(n.children, i), keys := RemoveAt(n.keys, i));
    if i == |m.children| then m.(maxKey := Last(m.keys)) else m
  }

  lemma PageDropped(v: View, w: View, a: Addr, i: nat, M: nat)
    requires Structure(v, 0) && Filled(v, M, 0) && a in v.spans && v.nodes[a].isLeaf && i < |v.nodes[a].children| == |v.nodes[a].keys| && |v.nodes[a].keys| > 1
    requires a == v.root || |v.nodes[a].children| > M / 2
    requires w == v.(nodes := v.nodes[a := WithoutPage(v.nodes[a], i)], filed := v.filed - {v.nodes[a].children[i]})
    ensures Structure(w, 0)
    ensures Filled(w, M, 0)
    ensures w.nodes.Keys == v.nodes.Keys && w.filed.Keys == v.filed.Keys - {v.nodes[a].children[i]}
  {
    var n, m := v.nodes[a], w.nodes[a];
    PageDroppedRun(v, a, i);
    RootStored(v);
    hide PageRun, Structure, WithoutPage;
    assert LeafEdited(v, w, a, 0);
    EditLeaf(v, w, a, 0);
    assert |m.children| == |n.children| - 1;
    forall x | x in w.spans ensures Counted(w, M, x) { assert Counted(v, M, x); }
  }

  lemma PageDroppedRun(v: View, a: Addr, i: nat)
    requires Structure(v, 0) && a in v.spans && v.nodes[a].isLeaf && i < |v.nodes[a].children| == |v.nodes[a].keys| && |v.nodes[a].keys| > 1
    ensures var n, m, g := v.nodes[a], WithoutPage(v.nodes[a], i), v.filed - {v.nodes[a].children[i]};
            && m == n.(children := m.children, keys := m.keys, maxKey := m.maxKey)
            && |m.children| == |n.children| - 1
            && n.children[i] in v.filed && v.filed[n.children[i]].leaf == a
            && PageRun(g, m.children, m.keys, v.spans[a].lo)
            && (forall j {:trigger m.children[j]} :: 0 <= j < |m.children| ==> m.children[j] in g && g[m.children[j]].leaf == a)
            && (forall q {:trigger q in g} :: q in g && g[q].leaf == a ==> q in m.children)
            && Last(m.keys) <= m.maxKey <= n.maxKey && m.maxKey <= v.spans[a].hi
  {
    var n, q := v.nodes[a], v.nodes[a].children[i];
    var m, g := WithoutPage(n, i), v.filed - {q};
    LeafRun(v, a);
    FiledIn(v, a);
    RemoveFromRun(v.filed, n.children, n.keys, v.spans[a].lo, i);
    assert n.children[i] == q && q in n.children;
    PageOnce(v, a, i);
    hide Structure, PageRun, Sorted, PageAt;
    RemovedMembers(n.children, i);
    MaxWithout(n, i);
  }

  lemma PageOnce(v: View, a: Addr, i: nat)
    requires Structure(v, 0) && a in v.spans && v.nodes[a].isLeaf && i < |v.nodes[a].children|
    ensures forall j :: 0 <= j < |v.nodes[a].children| && v.nodes[a].children[j] == v.nodes[a].children[i] ==> j == i
    ensures Sorted(v.nodes[a].keys)
  {
    LeafRun(v, a);
    var c := v.nodes[a].children;
    forall j | 0 <= j < |c| && c[j] == c[i] ensures j == i {
      assert PageAt(v.filed, c, v.nodes[a].keys, v.spans[a].lo, j) && PageAt(v.filed, c, v.nodes[a].keys, v.spans[a].lo, i);
    }
  }

  lemma RemovedMembers(c: seq<Addr>, i: nat)
    requires i < |c| && forall j :: 0 <= j < |c| && c[j] == c[i] ==> j == i
    ensures forall x :: x in RemoveAt(c, i) <==> x in c && x != c[i]
  {
    var d := RemoveAt(c, i);
    forall x ensures x in d <==> x in c && x != c[i] {
      if x in c && x != c[i] {
        var j :| 0 <= j < |c| && c[j] == x;
        assert d[if j < i then j else j - 1] == x;
      }
      if x in d { var j :| 0 <= j < |d| && d[j] == x; }
    }
  }

  lemma MaxWithout(n: Node, i: nat)
    requires i < |n.children| == |n.keys| && |n.keys| > 1 && Sorted(n.keys) && Last(n.keys) <= n.maxKey
    ensures var m := WithoutPage(n, i); |m.keys| > 0 && Last(m.keys) <= m.maxKey <= n.maxKey
  {
  }
}
