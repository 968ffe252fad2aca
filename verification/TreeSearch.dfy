// The walk from the root to the leaf that covers a key.
module TreeSearch {
  import opened Base
  import opened TreeView
  import opened TreeBounds

  /** The child a key is looked for under: the first whose separator isn't below it, or the last. */
  function Route(keys: seq<Key>, k: int): (i: nat)
    ensures i <= |keys|
    ensures forall j :: 0 <= j < i ==> keys[j] < k
    ensures i < |keys| ==> k <= keys[i]
  {
    if keys == [] || k <= keys[0] then 0 else 1 + Route(keys[1..], k)
  }

  /** The node h levels below a that the walk for k reaches. */
  function Descend(nodes: map<Addr, Node>, a: Addr, k: int, h: nat): Addr
    decreases h
  {
    if h == 0 || a !in nodes || Route(nodes[a].keys, k) >= |nodes[a].children| then a
    else Descend(nodes, nodes[a].children[Route(nodes[a].keys, k)], k, h - 1)
  }

  ghost predicate Holder(v: View, l: Addr, k: int) {
    l in v.spans && l in v.nodes && v.spans[l].h == 0 && v.spans[l].lo < k <= v.nodes[l].maxKey
  }

  /** A key filed under a node is within the node's span and its maxKey. */
  lemma {:induction false} HolderBelow(v: View, l: Addr, k: int, h: nat) returns (y: Addr)
    requires Structure(v, 0) && Holder(v, l, k) && h <= v.spans[v.root].h
    ensures Covers(v, y, k) && v.spans[y].h == h && k <= v.nodes[y].maxKey
  {
    assert NodeOK(v, l, 0);
    if h == 0 {
      y := l;
    } else {
      var x := HolderBelow(v, l, k, h - 1);
      y := v.nodes[x].parent;
      assert NodeOK(v, x, 0);
      var i := ChildIndex(v, 0, x);
      ParentCovers(v, 0, x, k);
      assert NodeOK(v, y, 0);
      var m := |v.nodes[y].keys|;
      assert ChildOK(v, y, m, 0);
      if i < m { ChildrenOrdered(v, 0, y, i, m); assert NodeOK(v, v.nodes[y].children[m], 0); }
    }
  }

  lemma RouteToHolder(v: View, a: Addr, l: Addr, k: int)
    requires Structure(v, 0) && Holder(v, l, k) && Covers(v, a, k) && v.spans[a].h > 0
    ensures Route(v.nodes[a].keys, k) < |v.nodes[a].children|
    ensures Covers(v, v.nodes[a].children[Route(v.nodes[a].keys, k)], k)
    ensures v.spans[v.nodes[a].children[Route(v.nodes[a].keys, k)]].h == v.spans[a].h - 1
  {
    assert NodeOK(v, a, 0);
    var y := HolderBelow(v, l, k, v.spans[a].h - 1);
    var j := ChildIndex(v, 0, y);
    ParentCovers(v, 0, y, k);
    UniqueCover(v, 0, v.nodes[y].parent, a, k);
    var i := Route(v.nodes[a].keys, k);
    assert ChildOK(v, a, i, 0);
    if i < j { ChildrenOrdered(v, 0, a, i, j); }
  }

  lemma {:induction false} DescendFinds(v: View, a: Addr, l: Addr, k: int)
    requires Structure(v, 0) && Holder(v, l, k) && Covers(v, a, k)
    ensures Descend(v.nodes, a, k, v.spans[a].h) == l
    decreases v.spans[a].h
  {
    assert NodeOK(v, l, 0) && NodeOK(v, a, 0);
    if v.spans[a].h == 0 {
      UniqueCover(v, 0, a, l, k);
    } else {
      RouteToHolder(v, a, l, k);
      DescendFinds(v, v.nodes[a].children[Route(v.nodes[a].keys, k)], l, k);
    }
  }

  /** Only the leaf the walk reaches can have a page that covers the key. */
  lemma SearchFinds(v: View, l: Addr, k: int)
    requires Structure(v, 0) && Holder(v, l, k)
    ensures Descend(v.nodes, v.root, k, v.spans[v.root].h) == l
  {
    var y := HolderBelow(v, l, k, v.spans[v.root].h);
    RootIsTop(v, 0, y);
    DescendFinds(v, v.root, l, k);
  }

  ghost predicate SameButBounds(v: View, w: View) {
    && w.nodes == v.nodes && w.root == v.root && w.filed == v.filed && w.spans.Keys == v.spans.Keys
    && forall x {:trigger w.spans[x]} :: x in v.spans ==> w.spans[x].h == v.spans[x].h
  }

  lemma {:induction false} SettleFrom(v: View, a: Addr, k: Key) returns (w: View)
    requires Structure(v, 0) && Covers(v, a, k)
    ensures Structure(w, 0) && SameButBounds(v, w)
    ensures Covers(w, Descend(v.nodes, a, k, v.spans[a].h), k)
    ensures w.spans[Descend(v.nodes, a, k, v.spans[a].h)].h == 0
    decreases v.spans[a].h
  {
    w := v;
    assert NodeOK(v, a, 0);
    if v.spans[a].h > 0 {
      var n := v.nodes[a];
      var i := Route(n.keys, k);
      assert ChildOK(v, a, i, 0);
      if i > 0 {
        assert ChildOK(v, a, i - 1, 0);
        if k <= v.spans[n.children[i]].lo {
          LowerKeeps(v, a, i - 1);
          w := LowerTo(v, a, i - 1);
          ChildrenOrdered(v, 0, a, i - 1, i);
        }
      }
      w := SettleFrom(w, n.children[i], k);
    }
  }

  /** The bounds can be settled so that the leaf the walk for k reaches covers k. */
  lemma Settle(v: View, k: Key) returns (w: View)
    requires Structure(v, 0)
    ensures Structure(w, 0) && SameButBounds(v, w)
    ensures Covers(w, Descend(v.nodes, v.root, k, v.spans[v.root].h), k)
    ensures w.spans[Descend(v.nodes, v.root, k, v.spans[v.root].h)].h == 0
  {
    assert NodeOK(v, v.root, 0);
    w := SettleFrom(v, v.root, k);
  }
}
