// Splitting a node, and passing a new largest key up to its ancestors.
module TreeSplit {
  import opened Base
  import opened TreeView
  import opened TreeBounds

  function IndexIn(s: seq<Addr>, a: Addr): (i: nat)
    ensures i <= |s|
    ensures i < |s| ==> s[i] == a
    ensures forall j :: 0 <= j < i ==> s[j] != a
  {
    if s == [] || s[0] == a then 0 else 1 + IndexIn(s[1..], a)
  }

  lemma Weaken(v: View, exc: Addr)
    requires Structure(v, 0)
    ensures Structure(v, exc)
  {
    forall a | a in v.spans ensures NodeOK(v, a, exc) {
      assert NodeOK(v, a, 0);
      if !v.nodes[a].isLeaf {
        forall i | 0 <= i < |v.nodes[a].children| ensures ChildOK(v, a, i, exc) { assert ChildOK(v, a, i, 0); }
      }
    }
    forall f | f in v.filed ensures FiledOK(v, f) { assert FiledOK(v, f); }
  }

  lemma ChildIndexUnique(v: View, exc: Addr, a: Addr)
    requires Structure(v, exc) && a in v.spans && a != v.root
    ensures v.nodes[a].parent in v.spans
    ensures IndexIn(v.nodes[v.nodes[a].parent].children, a) < |v.nodes[v.nodes[a].parent].children|
    ensures forall j :: 0 <= j < |v.nodes[v.nodes[a].parent].children| && v.nodes[v.nodes[a].parent].children[j] == a
              ==> j == IndexIn(v.nodes[v.nodes[a].parent].children, a)
  {
    var i := ChildIndex(v, exc, a);
    var p := v.nodes[a].parent;
    forall j | 0 <= j < |v.nodes[p].children| && v.nodes[p].children[j] == a ensures j == i {
      if j < i { ChildrenOrdered(v, exc, p, j, i); }
      if i < j { ChildrenOrdered(v, exc, p, i, j); }
    }
  }

  // ---- a new largest key

  /** What propagateMaxKeyUp does to the node store; fuel bounds the number of levels above a. */
  function PropagateUp(nodes: map<Addr, Node>, a: Addr, k: Key, fuel: nat): map<Addr, Node>
    decreases fuel
  {
    if a !in nodes || nodes[a].parent == 0 || nodes[a].parent !in nodes || fuel == 0 then nodes
    else
      var p := nodes[a].parent;
      var i := IndexIn(nodes[p].children, a);
      if i == |nodes[p].children| then nodes
      else if i < |nodes[p].children| - 1 then
        if i < |nodes[p].keys| then nodes[p := nodes[p].(keys := nodes[p].keys[i := k])] else nodes
      else PropagateUp(nodes[p := nodes[p].(maxKey := k)], p, k, fuel - 1)
  }

  /** n is a's parent, given the separator or the maxKey that a's own maxKey calls for; exc is then the node
      whose own parent may have to follow. */
  ghost predicate Raised(v: View, a: Addr, n: Node, exc: Addr) {
    && a in v.spans && a in v.nodes && v.nodes[a].parent in v.nodes
    && var p, k := v.nodes[v.nodes[a].parent], v.nodes[a].maxKey;
       var i := IndexIn(p.children, a);
       if i < |p.keys| then n == p.(keys := p.keys[i := k]) && exc == 0
       else n == p.(maxKey := k) && exc == v.nodes[a].parent
  }

  lemma RaisedChild(v: View, a: Addr, n: Node, exc: Addr, x: Addr, j: int)
    requires Structure(v, a) && Raised(v, a, n, exc) && a != v.root
    requires x in v.spans && !v.nodes[x].isLeaf && 0 <= j < |v.nodes[x].children| == |v.nodes[x].keys| + 1
    requires v.spans.Keys <= v.nodes.Keys
    ensures v.nodes[a].parent in v.spans && ChildOK(v.(nodes := v.nodes[v.nodes[a].parent := n]), x, j, exc)
  {
    assert NodeOK(v, a, a) && NodeOK(v, x, a) && ChildOK(v, x, j, a);
    ChildIndexUnique(v, a, a);
    var i := ChildIndex(v, a, a);
  }

  lemma RaiseParent(v: View, a: Addr, n: Node, exc: Addr)
    requires Structure(v, a) && Raised(v, a, n, exc) && a != v.root
    ensures Structure(v.(nodes := v.nodes[v.nodes[a].parent := n]), exc)
  {
    var p := v.nodes[a].parent;
    var w := v.(nodes := v.nodes[p := n]);
    assert NodeOK(v, a, a);
    var i := ChildIndex(v, a, a);
    ParentCovers(v, a, a, v.spans[a].hi);
    forall x | x in w.spans ensures NodeOK(w, x, exc) {
      assert NodeOK(v, x, a);
      if v.nodes[x].isLeaf {
        forall j | 0 <= j < |v.nodes[x].children| ensures PageOK(w, x, j) { assert PageOK(v, x, j); }
      } else {
        forall j | 0 <= j < |v.nodes[x].children| ensures ChildOK(w, x, j, exc) { RaisedChild(v, a, n, exc, x, j); }
      }
    }
    forall f | f in w.filed ensures FiledOK(w, f) { assert FiledOK(v, f); }
  }

  lemma {:induction false} PropagateKeeps(v: View, a: Addr, fuel: nat)
    requires Structure(v, a) && a in v.spans && fuel >= v.spans[v.root].h - v.spans[a].h
    ensures Structure(v.(nodes := PropagateUp(v.nodes, a, v.nodes[a].maxKey, fuel)), 0)
    decreases fuel
  {
    var k := v.nodes[a].maxKey;
    assert NodeOK(v, a, a);
    if a == v.root {
      forall x | x in v.spans ensures NodeOK(v, x, 0) {
        assert NodeOK(v, x, a);
        if !v.nodes[x].isLeaf {
          forall j | 0 <= j < |v.nodes[x].children| ensures ChildOK(v, x, j, 0) { assert ChildOK(v, x, j, a); }
        }
      }
    } else {
      ChildIndexUnique(v, a, a);
      RootIsTop(v, a, a);
      var p := v.nodes[a].parent;
      var i := ChildIndex(v, a, a);
      if i < |v.nodes[p].keys| {
        RaiseParent(v, a, v.nodes[p].(keys := v.nodes[p].keys[i := k]), 0);
      } else {
        var n := v.nodes[p].(maxKey := k);
        RaiseParent(v, a, n, p);
        PropagateKeeps(v.(nodes := v.nodes[p := n]), p, fuel - 1);
      }
    }
  }

  ghost predicate Rises(nodes: map<Addr, Node>, spans: map<Addr, Span>) {
    && spans.Keys <= nodes.Keys
    && forall x {:trigger nodes[x].parent} :: x in spans ==>
         nodes[x].parent == 0 || (nodes[x].parent in spans && spans[nodes[x].parent].h > spans[x].h)
  }

  /** Marking a node that isn't above a, before or after, comes to the same. */
  lemma {:induction false} PropagateCommutes(nodes: map<Addr, Node>, spans: map<Addr, Span>, a: Addr, k: Key, fuel: nat,
                                             x: Addr, n: Node)
    requires Rises(nodes, spans) && a in spans
    requires x !in spans || spans[x].h < spans[a].h
    ensures PropagateUp(nodes[x := n], a, k, fuel) == PropagateUp(nodes, a, k, fuel)[x := n]
    decreases fuel
  {
    if nodes[a].parent != 0 && fuel > 0 {
      var p := nodes[a].parent;
      assert p != x;
      var m := nodes[p].(maxKey := k);
      assert nodes[x := n][p := m] == nodes[p := m][x := n];
      var i := IndexIn(nodes[p].children, a);
      if i == |nodes[p].children| - 1 {
        PropagateCommutes(nodes[p := m], spans, p, k, fuel - 1, x, n);
      } else if i < |nodes[p].children| && i < |nodes[p].keys| {
        var m' := nodes[p].(keys := nodes[p].keys[i := k]);
        assert nodes[x := n][p := m'] == nodes[p := m'][x := n];
      }
    }
  }
}
