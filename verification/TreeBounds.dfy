// A boundary between two neighbouring subtrees, and lowering one to the separator that stands for it.
module TreeBounds {
  import opened Base
  import opened TreeView

  /** The ancestor of x at height h covers everything x covers. */
  lemma {:induction false} Ancestor(v: View, exc: Addr, x: Addr, h: nat) returns (y: Addr)
    requires Structure(v, exc) && x in v.spans
    requires v.spans[x].h <= h <= v.spans[v.root].h
    ensures y in v.spans && v.spans[y].h == h
    ensures v.spans[y].lo <= v.spans[x].lo && v.spans[x].hi <= v.spans[y].hi
    decreases h - v.spans[x].h
  {
    if v.spans[x].h == h {
      y := x;
    } else {
      assert NodeOK(v, x, exc);
      ParentCovers(v, exc, x, v.spans[x].hi);
      var i := ChildIndex(v, exc, x);
      y := Ancestor(v, exc, v.nodes[x].parent, h);
    }
  }

  /** i is a separator of p: a place in p with a child on either side of it. */
  ghost predicate IsSep(v: View, p: Addr, i: int) {
    p in v.spans && p in v.nodes && !v.nodes[p].isLeaf && 0 <= i < |v.nodes[p].keys|
    && |v.nodes[p].children| == |v.nodes[p].keys| + 1
    && v.nodes[p].children[i] in v.spans
  }

  /** The boundary between the children to the left and right of separator i of p. */
  ghost function Bound(v: View, p: Addr, i: int): int
    requires IsSep(v, p, i)
  {
    v.spans[v.nodes[p].children[i]].hi
  }

  lemma BoundInside(v: View, exc: Addr, p: Addr, i: int)
    requires Structure(v, exc) && IsSep(v, p, i)
    ensures v.spans[p].lo < Bound(v, p, i) < v.spans[p].hi
    ensures v.nodes[p].keys[i] <= Bound(v, p, i)
    ensures v.nodes[p].children[i + 1] in v.spans && v.spans[v.nodes[p].children[i + 1]].lo == Bound(v, p, i)
  {
    var c := v.nodes[p].children;
    assert NodeOK(v, p, exc) && ChildOK(v, p, i, exc) && ChildOK(v, p, i + 1, exc);
    assert NodeOK(v, c[i], exc) && NodeOK(v, c[i + 1], exc);
    var j := ChildIndex(v, exc, c[i]);
    ParentCovers(v, exc, c[i], v.spans[c[i]].hi);
    ParentCovers(v, exc, c[i + 1], v.spans[c[i + 1]].hi);
  }

  /** Only p and what is above it can have p's boundary in its interior. */
  lemma BoundInterior(v: View, exc: Addr, p: Addr, i: int, x: Addr)
    requires Structure(v, exc) && IsSep(v, p, i)
    requires x in v.spans && v.spans[x].lo < Bound(v, p, i) < v.spans[x].hi
    ensures v.spans[x].h >= v.spans[p].h
  {
    if v.spans[x].h < v.spans[p].h {
      RootIsTop(v, exc, p);
      BoundInside(v, exc, p, i);
      var b := Bound(v, p, i);
      var z := Ancestor(v, exc, x, v.spans[p].h - 1);
      var j := ChildIndex(v, exc, z);
      ParentCovers(v, exc, z, b);
      UniqueCover(v, exc, v.nodes[z].parent, p, b);
      if i < j { ChildrenOrdered(v, exc, p, i, j); }
      if j < i { ChildrenOrdered(v, exc, p, j, i); }
      assert false;
    }
  }

  lemma SameBound(v: View, exc: Addr, p: Addr, i: int, q: Addr, j: int)
    requires Structure(v, exc) && IsSep(v, p, i) && IsSep(v, q, j) && Bound(v, p, i) == Bound(v, q, j)
    ensures p == q && i == j
  {
    BoundInside(v, exc, p, i); BoundInside(v, exc, q, j);
    BoundInterior(v, exc, p, i, q); BoundInterior(v, exc, q, j, p);
    UniqueCover(v, exc, p, q, Bound(v, p, i));
    if i < j { ChildrenOrdered(v, exc, p, i, j); }
    if j < i { ChildrenOrdered(v, exc, p, j, i); }
  }

  /** A node that ends at p's boundary is on the right edge of the child before it, and no maxKey on that
      edge exceeds the child's. */
  lemma {:induction false} RightEdge(v: View, p: Addr, i: int, x: Addr)
    requires Structure(v, 0) && IsSep(v, p, i)
    requires x in v.spans && v.spans[x].hi == Bound(v, p, i)
    ensures v.nodes[x].maxKey <= v.nodes[v.nodes[p].children[i]].maxKey
    decreases v.spans[v.root].h - v.spans[x].h
  {
    var b := Bound(v, p, i);
    BoundInside(v, 0, p, i);
    assert NodeOK(v, x, 0);
    assert x != v.root by { assert NodeOK(v, p, 0); }
    var j := ChildIndex(v, 0, x);
    var q := v.nodes[x].parent;
    ParentCovers(v, 0, x, b);
    assert NodeOK(v, q, 0) && NodeOK(v, v.root, 0);
    if j < |v.nodes[q].keys| {
      SameBound(v, 0, p, i, q, j);
    } else {
      RightEdge(v, p, i, q);
    }
  }

  ghost function Lower(spans: map<Addr, Span>, b: int, s: int): map<Addr, Span> {
    map x | x in spans :: Span(spans[x].h,
                               if spans[x].lo == b then s else spans[x].lo,
                               if spans[x].hi == b then s else spans[x].hi)
  }

  ghost function LowerTo(v: View, p: Addr, i: int): View
    requires IsSep(v, p, i)
  {
    v.(spans := Lower(v.spans, Bound(v, p, i), v.nodes[p].keys[i]))
  }

  lemma LowerChild(v: View, p: Addr, i: int, q: Addr, j: int)
    requires Structure(v, 0) && IsSep(v, p, i)
    requires q in v.spans && !v.nodes[q].isLeaf && 0 <= j < |v.nodes[q].children| == |v.nodes[q].keys| + 1
    ensures ChildOK(LowerTo(v, p, i), q, j, 0)
  {
    assert NodeOK(v, q, 0) && ChildOK(v, q, j, 0);
    var c := v.nodes[q].children[j];
    if j < |v.nodes[q].keys| && v.spans[c].hi == Bound(v, p, i) {
      SameBound(v, 0, p, i, q, j);
    }
  }

  /** Lowering a boundary to its separator keeps the structure: nothing is stored in between. */
  lemma LowerKeeps(v: View, p: Addr, i: int)
    requires Structure(v, 0) && IsSep(v, p, i)
    ensures Structure(LowerTo(v, p, i), 0)
  {
    var w, b, s := LowerTo(v, p, i), Bound(v, p, i), v.nodes[p].keys[i];
    BoundInside(v, 0, p, i);
    assert NodeOK(v, p, 0) && ChildOK(v, p, i, 0);
    forall a | a in w.spans ensures NodeOK(w, a, 0) {
      assert NodeOK(v, a, 0);
      if v.spans[a].hi == b { RightEdge(v, p, i, a); }
      if v.nodes[a].isLeaf {
        forall j | 0 <= j < |v.nodes[a].children| ensures PageOK(w, a, j) { assert PageOK(v, a, j); }
      } else {
        forall j | 0 <= j < |v.nodes[a].children| ensures ChildOK(w, a, j, 0) { LowerChild(v, p, i, a, j); }
      }
    }
    forall f | f in w.filed ensures FiledOK(w, f) { assert FiledOK(v, f); }
  }
}
