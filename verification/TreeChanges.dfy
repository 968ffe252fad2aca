// Changes to one leaf's pages, and trees that grow or lose a level.
module TreeChanges {
  import opened Base
  import opened TreeView
  import opened TreeEdit
  import opened TreePages
  import opened TreeLeaves

  /** w is v with leaf a's pages changed, as far as a's neighbours and parent can see. */
  ghost predicate LeafEdited(v: View, w: View, a: Addr, exc: Addr) {
    && a in v.spans && a in v.nodes && a in w.nodes && v.nodes[a].isLeaf
    && Untouched(v, w, {a}) && w.spans == v.spans
    && var n, m := v.nodes[a], w.nodes[a];
       && m == n.(children := m.children, keys := m.keys, maxKey := m.maxKey)
       && |m.children| > 0
       && PageRun(w.filed, m.children, m.keys, v.spans[a].lo)
       && (forall i {:trigger m.children[i]} :: 0 <= i < |m.children| ==> m.children[i] in w.filed && w.filed[m.children[i]].leaf == a)
       && (forall q {:trigger q in w.filed} :: q in w.filed && w.filed[q].leaf == a ==> q in m.children)
       && Last(m.keys) <= m.maxKey <= v.spans[a].hi
       && (exc == a || (exc == 0 && m.maxKey <= n.maxKey))
  }

  lemma EditLeaf(v: View, w: View, a: Addr, exc: Addr)
    requires Structure(v, 0) && LeafEdited(v, w, a, exc)
    ensures Structure(w, exc)
  {
    assert NodeOK(v, a, 0) && NodeOK(v, v.root, 0);
    NextIsLeaf(v, a);
    var n, m := v.nodes[a], w.nodes[a];
    if n.next != 0 { assert NodeOK(v, n.next, 0) && Same(v, w, n.next); }
    if n.prev != 0 { assert NodeOK(v, n.prev, 0) && Same(v, w, n.prev); }
    if a != v.root { ParentIsInner(v, a); assert Same(v, w, n.parent); }
    forall i | 0 <= i < |m.children| ensures PageOK(w, a, i) { assert PageAt(w.filed, m.children, m.keys, v.spans[a].lo, i); }
    RunKeysAbove(w.filed, m.children, m.keys, v.spans[a].lo, |m.keys| - 1);
    assert NodeOK(w, a, exc);
    assert EdgesOK(v, w, {a}, a, exc);
    forall q | q in w.filed && w.filed[q].leaf in {a} ensures FiledOK(w, q) { }
    Edit(v, w, {a}, exc);
  }

  // ---- runs of pages

  lemma InsertInRun(filed: map<Addr, Filed>, c: seq<Addr>, k: seq<Key>, lo: int, j: nat, q: Addr, key: Key, f: Filed)
    requires PageRun(filed, c, k, lo) && j <= |c| && q !in filed && f.hi == key
    requires (if j == 0 then lo else k[j - 1]) <= f.lo < key
    requires j < |c| ==> c[j] in filed && key <= filed[c[j]].lo
    ensures PageRun(filed[q := f], InsertAt(c, j, q), InsertAt(k, j, key), lo)
  {
    var d, l, g := InsertAt(c, j, q), InsertAt(k, j, key), filed[q := f];
    if j < |c| { assert PageAt(filed, c, k, lo, j); }
    forall i | 0 <= i < |d| ensures PageAt(g, d, l, lo, i) {
      if i < j { assert PageAt(filed, c, k, lo, i); } else if i > j { assert PageAt(filed, c, k, lo, i - 1); }
    }
  }

  lemma RemoveFromRun(filed: map<Addr, Filed>, c: seq<Addr>, k: seq<Key>, lo: int, j: nat)
    requires PageRun(filed, c, k, lo) && j < |c|
    ensures PageRun(filed - {c[j]}, RemoveAt(c, j), RemoveAt(k, j), lo)
  {
    var d, l, g := RemoveAt(c, j), RemoveAt(k, j), filed - {c[j]};
    assert PageAt(filed, c, k, lo, j);
    forall i | 0 <= i < |d| ensures PageAt(g, d, l, lo, i) {
      assert PageAt(filed, c, k, lo, if i < j then i else i + 1);
    }
  }

  lemma ReboundInRun(filed: map<Addr, Filed>, c: seq<Addr>, k: seq<Key>, lo: int, j: nat, f: Filed)
    requires PageRun(filed, c, k, lo) && j < |c| && 0 <= f.hi < KEY_LIMIT
    requires (if j == 0 then lo else k[j - 1]) <= f.lo < f.hi
    requires j + 1 < |c| ==> c[j + 1] in filed && f.hi <= filed[c[j + 1]].lo
    ensures PageRun(filed[c[j] := f], c, k[j := f.hi], lo)
  {
    var l, g := k[j := f.hi], filed[c[j] := f];
    if j + 1 < |c| { assert PageAt(filed, c, k, lo, j + 1); }
    forall i | 0 <= i < |c| ensures PageAt(g, c, l, lo, i) {
      assert PageAt(filed, c, k, lo, i) && PageAt(filed, c, k, lo, j);
    }
  }

  // ---- a new root, and a root given up

  /** w is v with a new root above the old one. */
  ghost predicate Grown(v: View, w: View, r: Addr) {
    && v.root in v.nodes && v.root in v.spans && r !in v.spans && r != 0
    && var c := v.root;
       && w.root == r && w.filed == v.filed && w.spans.Keys <= w.nodes.Keys
       && w.nodes == v.nodes[c := v.nodes[c].(parent := r)][r := Node([c], [], 0, 0, 0, v.nodes[c].maxKey, false)]
       && w.spans == v.spans[r := Span(v.spans[c].h + 1, -1, KEY_LIMIT)]
  }

  lemma GrowKeeps(v: View, w: View, r: Addr)
    requires Structure(v, 0) && Grown(v, w, r)
    ensures Structure(w, 0)
  {
    assert NodeOK(v, v.root, 0);
    forall x | x in w.spans ensures NodeOK(w, x, 0) {
      if x == r {
        assert ChildOK(w, r, 0, 0);
      } else {
        LevelNode(v, w, x);
      }
    }
    forall q | q in w.filed ensures FiledOK(w, q) { assert FiledOK(v, q); }
  }

  lemma LevelNode(v: View, w: View, x: Addr)
    requires Structure(v, 0) && Grown(v, w, w.root) && x in v.spans && x in w.spans && w.root in w.spans
    ensures NodeOK(w, x, 0)
  {
    assert NodeOK(v, x, 0) && NodeOK(v, v.root, 0);
    if v.nodes[x].isLeaf {
      NextIsLeaf(v, x);
      forall i | 0 <= i < |v.nodes[x].children| ensures PageOK(w, x, i) { assert PageOK(v, x, i); }
    } else {
      forall i | 0 <= i < |v.nodes[x].children| ensures ChildOK(w, x, i, 0) {
        assert ChildOK(v, x, i, 0);
        if i < |v.nodes[x].keys| { assert ChildOK(v, x, i + 1, 0); }
      }
    }
    if x != v.root { ParentIsInner(v, x); }
  }

  /** w is v with its root, an inner node with one child, given up for that child. */
  ghost predicate Collapsed(v: View, w: View) {
    && v.root in v.nodes && v.root in v.spans && !v.nodes[v.root].isLeaf && |v.nodes[v.root].children| == 1
    && var c := v.nodes[v.root].children[0];
       && c in v.nodes && c in v.spans && w.root == c && w.filed == v.filed
       && w.spans.Keys <= w.nodes.Keys && w.spans == v.spans - {v.root}
       && c in w.nodes && c in w.spans && w.nodes[c] == v.nodes[c].(parent := 0)
       && (forall x {:trigger w.nodes[x]} :: x in w.spans && x != c ==> x in v.nodes && w.nodes[x] == v.nodes[x])
  }

  lemma CollapseKeeps(v: View, w: View)
    requires Structure(v, 0) && Collapsed(v, w)
    ensures Structure(w, 0)
  {
    var r, c := v.root, w.root;
    assert NodeOK(v, r, 0) && ChildOK(v, r, 0, 0) && NodeOK(v, c, 0);
    forall x | x in w.spans ensures NodeOK(w, x, 0) { CollapsedNode(v, w, x); }
    forall q | q in w.filed ensures FiledOK(w, q) { assert FiledOK(v, q); }
  }

  lemma CollapsedNode(v: View, w: View, x: Addr)
    requires Structure(v, 0) && Collapsed(v, w) && x in w.spans
    ensures NodeOK(w, x, 0)
  {
    var r, c := v.root, w.root;
    assert NodeOK(v, r, 0) && ChildOK(v, r, 0, 0);
    assert NodeOK(v, c, 0) && NodeOK(v, x, 0);
    if v.nodes[x].isLeaf {
      NextIsLeaf(v, x);
      forall i | 0 <= i < |v.nodes[x].children| ensures PageOK(w, x, i) { assert PageOK(v, x, i); }
    } else {
      forall i | 0 <= i < |v.nodes[x].children| ensures ChildOK(w, x, i, 0) {
        assert ChildOK(v, x, i, 0);
        if i < |v.nodes[x].keys| { assert ChildOK(v, x, i + 1, 0); }
      }
    }
    if x != c {
      ParentIsInner(v, x);
      RootIsTop(v, 0, x);
      if v.nodes[x].parent == r { assert false; }
      if v.spans[x].h == v.spans[c].h { UniqueCover(v, 0, x, c, v.spans[x].hi); }
    }
  }
}
