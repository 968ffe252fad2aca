// Changing a few nodes of a tree: the rest of it keeps its part of the invariant.
module TreeEdit {
  import opened Base
  import opened TreeView

  ghost predicate Same(v: View, w: View, x: Addr) {
    && x in v.spans && x in v.nodes && x in w.spans && x in w.nodes
    && w.nodes[x] == v.nodes[x] && w.spans[x] == v.spans[x]
  }

  ghost predicate SameFiled(v: View, w: View, q: Addr) {
    q in v.filed && q in w.filed && w.filed[q] == v.filed[q]
  }

  /** w is v but for the nodes of t and the pages they file. */
  ghost predicate Untouched(v: View, w: View, t: set<Addr>) {
    && w.root == v.root && v.root in v.spans && w.root in w.spans && w.spans[w.root] == v.spans[v.root]
    && w.spans.Keys <= w.nodes.Keys && 0 !in w.spans
    && (forall x {:trigger Same(v, w, x)} :: x !in t && (x in v.spans || x in w.spans) ==> Same(v, w, x))
    && (forall q {:trigger SameFiled(v, w, q)} :: q in v.filed && v.filed[q].leaf !in t ==> SameFiled(v, w, q))
    && (forall q {:trigger SameFiled(v, w, q)} :: q in w.filed && w.filed[q].leaf !in t ==> SameFiled(v, w, q))
  }

  /** What its parent sees of x hasn't changed, except that its maxKey may have come down; exc's may be anything. */
  ghost predicate SameToParent(v: View, w: View, x: Addr, exc: Addr) {
    && x in v.spans && x in v.nodes && x in w.spans && x in w.nodes
    && w.spans[x] == v.spans[x] && w.nodes[x].parent == v.nodes[x].parent && (x != exc ==> w.nodes[x].maxKey <= v.nodes[x].maxKey)
  }

  /** The leaf before x still has x as its next. */
  ghost predicate SameToPrev(v: View, w: View, x: Addr) {
    && x in v.spans && x in v.nodes && x in w.spans && x in w.nodes
    && w.spans[x].h == 0 && w.spans[x].lo == v.spans[x].lo && w.nodes[x].prev == v.nodes[x].prev
  }

  /** The leaf after x still has x as its prev. */
  ghost predicate SameToNext(v: View, w: View, x: Addr) {
    && x in v.spans && x in v.nodes && x in w.spans && x in w.nodes
    && w.spans[x].h == 0 && w.spans[x].hi == v.spans[x].hi && w.nodes[x].next == v.nodes[x].next
  }

  ghost predicate KeepsChild(v: View, w: View, p: Addr, c: Addr) {
    && p in v.spans && p in w.spans && p in w.nodes && w.spans[p].h == v.spans[p].h && c in w.nodes[p].children
  }

  /** x, a node that changed, looks the same to the nodes around it that didn't. */
  ghost predicate EdgesOK(v: View, w: View, t: set<Addr>, x: Addr, exc: Addr) {
    && x in v.nodes
    && (x != v.root && v.nodes[x].parent !in t ==> SameToParent(v, w, x, exc))
    && (v.nodes[x].isLeaf && v.nodes[x].prev != 0 && v.nodes[x].prev !in t ==> SameToPrev(v, w, x))
    && (v.nodes[x].isLeaf && v.nodes[x].next != 0 && v.nodes[x].next !in t ==> SameToNext(v, w, x))
    && (!v.nodes[x].isLeaf ==>
          forall c {:trigger KeepsChild(v, w, x, c)} :: c in v.nodes[x].children && c !in t ==> KeepsChild(v, w, x, c))
  }

  lemma UntouchedInner(v: View, w: View, t: set<Addr>, x: Addr, i: int, exc: Addr)
    requires Structure(v, 0) && Untouched(v, w, t) && x in v.spans && x !in t && !v.nodes[x].isLeaf
    requires x in w.spans && w.nodes[x] == v.nodes[x]
    requires forall c {:trigger EdgesOK(v, w, t, c, exc)} :: c in t && c in v.spans ==> EdgesOK(v, w, t, c, exc)
    requires 0 <= i < |v.nodes[x].children| == |v.nodes[x].keys| + 1
    ensures ChildOK(w, x, i, exc)
  {
    assert Same(v, w, x) && NodeOK(v, x, 0) && NodeOK(v, v.root, 0) && ChildOK(v, x, i, 0);
    var c := v.nodes[x].children[i];
    assert c in t ==> EdgesOK(v, w, t, c, exc);
    assert c !in t ==> Same(v, w, c);
    if i < |v.nodes[x].keys| {
      assert ChildOK(v, x, i + 1, 0);
      var d := v.nodes[x].children[i + 1];
      assert d in t ==> EdgesOK(v, w, t, d, exc);
      assert d !in t ==> Same(v, w, d);
    }
  }

  lemma UntouchedLeaf(v: View, w: View, t: set<Addr>, x: Addr, exc: Addr)
    requires Structure(v, 0) && Untouched(v, w, t) && x in w.spans && x in v.spans && x !in t && v.nodes[x].isLeaf
    requires forall c {:trigger EdgesOK(v, w, t, c, exc)} :: c in t && c in v.spans ==> EdgesOK(v, w, t, c, exc)
    ensures LeafOK(w, x)
  {
    hide Sorted;
    assert NodeOK(v, x, 0) && Same(v, w, x);
    var n := v.nodes[x];
    forall i | 0 <= i < |n.children| ensures PageOK(w, x, i) { assert PageOK(v, x, i) && SameFiled(v, w, n.children[i]); }
    if n.next != 0 {
      assert NodeOK(v, n.next, 0);
      assert if n.next in t then EdgesOK(v, w, t, n.next, exc) else Same(v, w, n.next);
    }
    if n.prev != 0 {
      assert NodeOK(v, n.prev, 0);
      assert if n.prev in t then EdgesOK(v, w, t, n.prev, exc) else Same(v, w, n.prev);
    }
  }

  lemma UntouchedUp(v: View, w: View, t: set<Addr>, x: Addr, exc: Addr)
    requires Structure(v, 0) && Untouched(v, w, t) && x in w.spans && x in v.spans && x !in t
    requires forall c {:trigger EdgesOK(v, w, t, c, exc)} :: c in t && c in v.spans ==> EdgesOK(v, w, t, c, exc)
    ensures UpOK(w, x)
  {
    assert NodeOK(v, x, 0) && Same(v, w, x);
    if x != v.root {
      var p := v.nodes[x].parent;
      assert NodeOK(v, p, 0);
      if p in t { assert EdgesOK(v, w, t, p, exc) && KeepsChild(v, w, p, x); } else { assert Same(v, w, p); }
    }
  }

  /** Only the nodes of t need checking. */
  lemma Edit(v: View, w: View, t: set<Addr>, exc: Addr)
    requires Structure(v, 0) && Untouched(v, w, t)
    requires forall c {:trigger EdgesOK(v, w, t, c, exc)} :: c in t && c in v.spans ==> EdgesOK(v, w, t, c, exc)
    requires forall x {:trigger NodeOK(w, x, exc)} :: x in t && x in w.spans ==> NodeOK(w, x, exc)
    requires forall q {:trigger FiledOK(w, q)} :: q in w.filed && w.filed[q].leaf in t ==> FiledOK(w, q)
    ensures Structure(w, exc)
  {
    hide LeafOK, UpOK, EdgesOK, ChildOK;
    forall x | x in w.spans ensures NodeOK(w, x, exc) {
      if x !in t {
        assert Same(v, w, x) && NodeOK(v, x, 0) && NodeOK(v, v.root, 0);
        UntouchedUp(v, w, t, x, exc);
        if v.nodes[x].isLeaf {
          UntouchedLeaf(v, w, t, x, exc);
        } else {
          forall i | 0 <= i < |v.nodes[x].children| ensures ChildOK(w, x, i, exc) { UntouchedInner(v, w, t, x, i, exc); }
        }
      }
    }
    forall q | q in w.filed ensures FiledOK(w, q) {
      if w.filed[q].leaf !in t { assert SameFiled(v, w, q) && FiledOK(v, q) && Same(v, w, v.filed[q].leaf); }
    }
  }

  // ---- children handed from one inner node to another

  /** x may have been given another parent, and is otherwise as it was. */
  ghost predicate Adopted(v: View, w: View, x: Addr) {
    && x in v.spans && x in v.nodes && x in w.spans && x in w.nodes && w.spans[x] == v.spans[x]
    && w.nodes[x] == v.nodes[x].(parent := w.nodes[x].parent)
  }

  /** t holds inner nodes and, lowest of all, children that went from one of them to another. */
  ghost predicate HandsOver(v: View, w: View, t: set<Addr>, h: nat) {
    && Untouched(v, w, t) && w.filed == v.filed
    && forall y {:trigger Adopted(v, w, y)} :: y in t && y in v.spans ==>
         v.spans[y].h > h || (v.spans[y].h == h && Adopted(v, w, y) && v.nodes[y].parent in t)
  }

  lemma AdoptedLeaf(v: View, w: View, t: set<Addr>, x: Addr)
    requires Structure(v, 0) && x in v.spans && HandsOver(v, w, t, v.spans[x].h) && x in t && v.nodes[x].isLeaf
    ensures x in w.spans && LeafOK(w, x)
  {
    hide Sorted;
    assert NodeOK(v, x, 0) && Adopted(v, w, x);
    var n := v.nodes[x];
    forall i | 0 <= i < |n.children| ensures PageOK(w, x, i) { assert PageOK(v, x, i); }
    if n.next != 0 {
      assert NodeOK(v, n.next, 0);
      assert if n.next in t then Adopted(v, w, n.next) else Same(v, w, n.next);
    }
    if n.prev != 0 {
      assert NodeOK(v, n.prev, 0);
      assert if n.prev in t then Adopted(v, w, n.prev) else Same(v, w, n.prev);
    }
  }

  lemma BelowUntouched(v: View, w: View, t: set<Addr>, h: nat, c: Addr)
    requires HandsOver(v, w, t, h) && c in v.spans && v.spans[c].h < h
    ensures c !in t
  {
    var seen := Adopted(v, w, c);
  }

  lemma AdoptedInner(v: View, w: View, t: set<Addr>, x: Addr, i: int)
    requires Structure(v, 0) && x in v.spans && HandsOver(v, w, t, v.spans[x].h) && x in t && !v.nodes[x].isLeaf
    requires 0 <= i < |v.nodes[x].children| == |v.nodes[x].keys| + 1
    ensures x in w.spans && w.nodes[x].children == v.nodes[x].children && w.nodes[x].keys == v.nodes[x].keys
    ensures ChildOK(w, x, i, 0)
  {
    assert NodeOK(v, x, 0) && Adopted(v, w, x) && ChildOK(v, x, i, 0);
    var c := v.nodes[x].children[i];
    BelowUntouched(v, w, t, v.spans[x].h, c);
    assert Same(v, w, c);
    if i < |v.nodes[x].keys| {
      assert ChildOK(v, x, i + 1, 0);
      var d := v.nodes[x].children[i + 1];
      BelowUntouched(v, w, t, v.spans[x].h, d);
      assert Same(v, w, d);
    }
  }

  lemma AdoptedNode(v: View, w: View, t: set<Addr>, x: Addr)
    requires Structure(v, 0) && x in v.spans && HandsOver(v, w, t, v.spans[x].h) && x in t && x != v.root
    requires v.spans[x].h < v.spans[v.root].h
    requires x in w.nodes
    requires var b := w.nodes[x].parent; b in w.spans && w.spans[b].h == v.spans[x].h + 1 && x in w.nodes[b].children
    ensures x in w.spans && NodeOK(w, x, 0) && EdgesOK(v, w, t, x, 0)
  {
    hide LeafOK, ChildOK;
    assert NodeOK(v, x, 0) && Adopted(v, w, x) && NodeOK(v, v.root, 0);
    if v.nodes[x].isLeaf {
      AdoptedLeaf(v, w, t, x);
    } else {
      forall i | 0 <= i < |v.nodes[x].children| ensures ChildOK(w, x, i, 0) { AdoptedInner(v, w, t, x, i); }
      forall c | c in v.nodes[x].children && c !in t ensures KeepsChild(v, w, x, c) { }
    }
  }
}
