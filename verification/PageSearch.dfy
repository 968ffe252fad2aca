// Finding the page that covers a key, and making room in the bounds for a key no page covers.
module PageSearch {
  import opened Base
  import opened TreeView
  import opened TreeSearch
  import opened TreePages
  import opened TreeChanges
  import opened TreeEdit
  import opened TreeLeaves
  import opened TreeGrowth
  import opened TableState
  import opened LeafPages

  /** The leaf the walk from the root reaches. */
  ghost function LeafFor(v: View, k: int): Addr {
    if v.root in v.spans then Descend(v.nodes, v.root, k, v.spans[v.root].h) else v.root
  }

  /** k is above every key filed in the leaf it leads to: no page is filed for it. */
  ghost predicate NoPageFor(v: View, k: int) {
    LeafFor(v, k) in v.nodes && Route(v.nodes[LeafFor(v, k)].keys, k) == |v.nodes[LeafFor(v, k)].keys|
  }

  /** Page q is the i-th of leaf a. */
  ghost predicate PageIn(v: View, a: Addr, i: nat, q: Addr) {
    && a in v.spans && a in v.nodes && v.nodes[a].isLeaf && i < |v.nodes[a].children| == |v.nodes[a].keys|
    && v.nodes[a].children[i] == q && q in v.filed
  }

  lemma PageIndex(v: View, q: Addr) returns (i: nat)
    requires Structure(v, 0) && q in v.filed
    ensures PageIn(v, v.filed[q].leaf, i, q) && PageOK(v, v.filed[q].leaf, i) && v.filed[q].hi == v.nodes[v.filed[q].leaf].keys[i]
    ensures v.spans[v.filed[q].leaf].h == 0
  {
    assert FiledOK(v, q);
    var l := v.filed[q].leaf;
    assert NodeOK(v, l, 0);
    i :| 0 <= i < |v.nodes[l].children| && v.nodes[l].children[i] == q;
    assert PageOK(v, l, i);
  }

  /** What a page is filed under bounds the keys that lead to its leaf. */
  lemma FiledHolder(v: View, q: Addr, k: int)
    requires Structure(v, 0) && q in v.filed && v.filed[q].lo < k <= v.filed[q].hi
    ensures Holder(v, v.filed[q].leaf, k)
    ensures k <= v.nodes[v.root].maxKey
  {
    var i := PageIndex(v, q);
    var l := v.filed[q].leaf;
    LeafRun(v, l);
    assert PageAt(v.filed, v.nodes[l].children, v.nodes[l].keys, v.spans[l].lo, i);
    if i > 0 { RunKeysAbove(v.filed, v.nodes[l].children, v.nodes[l].keys, v.spans[l].lo, i - 1); }
    var y := HolderBelow(v, l, k, v.spans[v.root].h);
    RootIsTop(v, 0, y);
  }

  lemma RouteFound(keys: seq<Key>, k: int, i: nat)
    requires i <= |keys|
    requires forall j :: 0 <= j < i ==> keys[j] < k
    requires i < |keys| ==> k <= keys[i]
    ensures Route(keys, k) == i
  {
    var r := Route(keys, k);
    assert r < |keys| ==> k <= keys[r];
  }

  /** A search for a key leads to the page that covers it, if there is one. */
  lemma FindsPage(v: View, q: Addr, k: int)
    requires Structure(v, 0) && q in v.filed && v.filed[q].lo < k <= v.filed[q].hi
    ensures LeafFor(v, k) == v.filed[q].leaf && v.filed[q].leaf in v.nodes
    ensures PageIn(v, v.filed[q].leaf, Route(v.nodes[v.filed[q].leaf].keys, k), q)
  {
    FiledHolder(v, q, k);
    SearchFinds(v, v.filed[q].leaf, k);
    var l := v.filed[q].leaf;
    var i := PageIndex(v, q);
    LeafRun(v, l);
    RouteFound(v.nodes[l].keys, k, i);
  }

  /** Pages cover disjoint ranges of keys. */
  lemma PagesApart(v: View, q: Addr, r: Addr, k: int)
    requires Structure(v, 0) && q in v.filed && r in v.filed
    requires v.filed[q].lo < k <= v.filed[q].hi && v.filed[r].lo < k <= v.filed[r].hi
    ensures q == r
  {
    FindsPage(v, q, k);
    FindsPage(v, r, k);
  }

  /** w is v with the bounds below which nothing is filed moved about: keys lead to the same leaves and pages. */
  ghost predicate Widened(v: View, w: View) {
    && SameButBounds(v, w.(filed := v.filed)) && w.filed.Keys == v.filed.Keys
    && forall q {:trigger w.filed[q]} :: q in v.filed ==>
         w.filed[q].leaf == v.filed[q].leaf && w.filed[q].hi == v.filed[q].hi && w.filed[q].lo <= v.filed[q].lo
  }

  lemma LowerPage(v: View, a: Addr, i: nat, k: Key) returns (w: View)
    requires Structure(v, 0) && Covers(v, a, k) && v.nodes[a].isLeaf && i < |v.nodes[a].children|
    requires i == Route(v.nodes[a].keys, k)
    ensures Structure(w, 0) && w.spans == v.spans && Widened(v, w)
    ensures v.nodes[a].children[i] in w.filed && w.filed[v.nodes[a].children[i]].lo < k
  {
    var n := v.nodes[a];
    LeafRun(v, a);
    FiledIn(v, a);
    RootStored(v);
    var q := n.children[i];
    assert PageAt(v.filed, n.children, n.keys, v.spans[a].lo, i);
    var f := v.filed[q].(lo := if i == 0 then v.spans[a].lo else n.keys[i - 1]);
    if i > 0 { RunKeysAbove(v.filed, n.children, n.keys, v.spans[a].lo, i - 1); }
    if i + 1 < |n.children| { assert PageAt(v.filed, n.children, n.keys, v.spans[a].lo, i + 1); }
    ReboundInRun(v.filed, n.children, n.keys, v.spans[a].lo, i, f);
    assert n.keys[i := f.hi] == n.keys;
    w := v.(filed := v.filed[q := f]);
    hide Structure, PageRun;
    assert LeafEdited(v, w, a, 0);
    EditLeaf(v, w, a, 0);
  }

  /** The bounds can be settled so that the leaf a search for k leads to covers k, and so does the page, unless
      the leaf has no page filed under k or more. */
  lemma Widen(v: View, k: Key) returns (w: View)
    requires Structure(v, 0)
    ensures Structure(w, 0) && Widened(v, w)
    ensures LeafFor(w, k) == LeafFor(v, k) && Covers(w, LeafFor(v, k), k) && LeafFor(v, k) in w.nodes && w.nodes[LeafFor(v, k)].isLeaf
    ensures var n := w.nodes[LeafFor(v, k)];
            Route(n.keys, k) < |n.children| ==> n.children[Route(n.keys, k)] in w.filed && w.filed[n.children[Route(n.keys, k)]].lo < k
  {
    RootStored(v);
    var u := Settle(v, k);
    var a := LeafFor(v, k);
    assert NodeOK(u, a, 0);
    w := u;
    if Route(u.nodes[a].keys, k) < |u.nodes[a].children| { w := LowerPage(u, a, Route(u.nodes[a].keys, k), k); }
  }
}
