// The node store that splitting a node leaves behind.
module TreeGrowth {
  import opened Base
  import opened TreeView
  import opened NodeStore
  import opened TreeEdit
  import opened TreeRuns
  import opened TreePages
  import opened TreeSplit
  import opened TreeLeaves
  import opened TreeInner

  /** The first separator above k, or their number. */
  function Above(keys: seq<Key>, k: int): (i: nat)
    ensures i <= |keys|
    ensures forall j :: 0 <= j < i ==> keys[j] <= k
    ensures i < |keys| ==> k < keys[i]
  {
    if keys == [] || k < keys[0] then 0 else 1 + Above(keys[1..], k)
  }

  /** A parent that has been given b as a child, filed after the child that ends at sep; mk is b's maxKey. */
  function WithSibling(p: Node, sep: Key, b: Addr, mk: Key): Node
    requires |p.children| == |p.keys| + 1
  {
    var i := Above(p.keys, sep);
    var n := p.(keys := InsertAt(p.keys, i, sep), children := InsertAt(p.children, i + 1, b));
    if i < |p.keys| then n else n.(maxKey := mk)
  }

  /** The parts a node is split into. */
  function LowerHalf(n: Node, m: nat, b: Addr, mk: Key): Node
    requires 0 < m < |n.children| && m <= |n.keys|
  {
    if n.isLeaf then n.(children := n.children[..m], keys := n.keys[..m], next := b, maxKey := mk)
    else n.(children := n.children[..m], keys := n.keys[..m - 1], maxKey := mk)
  }

  function UpperHalf(n: Node, m: nat, a: Addr): Node
    requires 0 < m < |n.children| && m <= |n.keys|
  {
    if n.isLeaf then Node(n.children[m..], n.keys[m..], n.parent, a, n.next, n.maxKey, true)
    else Node(n.children[m..], n.keys[m..], n.parent, 0, 0, n.maxKey, false)
  }

  /** The nodes in cs, where they are stored, given the parent b. */
  function Reparent(nodes: map<Addr, Node>, cs: seq<Addr>, b: Addr): map<Addr, Node> {
    map x | x in nodes :: if x in cs then nodes[x].(parent := b) else nodes[x]
  }

  function Relink(nodes: map<Addr, Node>, x: Addr, b: Addr): map<Addr, Node> {
    if x in nodes && x != 0 then nodes[x := nodes[x].(prev := b)] else nodes
  }

  /** The children, or the next leaf, of a node being split have been told of the new node. */
  function KinTold(nodes: map<Addr, Node>, n: Node, m: nat, b: Addr): map<Addr, Node>
    requires m <= |n.children|
  {
    if n.isLeaf then Relink(nodes, n.next, b) else Reparent(nodes, n.children[m..], b)
  }

  ghost predicate CanSplit(v: View, a: Addr, b: Addr, m: nat) {
    && Structure(v, 0) && a in v.spans && a != v.root && b !in v.nodes && b != 0
    && 0 < m < |v.nodes[a].children| && m <= |v.nodes[a].keys|
    && v.nodes[a].parent in v.spans && |v.nodes[v.nodes[a].parent].children| == |v.nodes[v.nodes[a].parent].keys| + 1
  }

  /** The largest key that stays with the lower half. */
  ghost function LowerMax(v: View, a: Addr, m: nat): Key
    requires a in v.nodes && 0 < m < |v.nodes[a].children| && m <= |v.nodes[a].keys|
  {
    if v.nodes[a].isLeaf then v.nodes[a].keys[m - 1]
    else if v.nodes[a].children[m - 1] in v.nodes then v.nodes[v.nodes[a].children[m - 1]].maxKey else 0
  }

  ghost function SplitBound(v: View, a: Addr, m: nat): int
    requires a in v.nodes && 0 < m < |v.nodes[a].children| && m <= |v.nodes[a].keys|
  {
    if v.nodes[a].isLeaf then v.nodes[a].keys[m - 1]
    else if v.nodes[a].children[m - 1] in v.spans then v.spans[v.nodes[a].children[m - 1]].hi else 0
  }

  /** The tree after a is split at m, before the ancestors hear of its new largest key. */
  ghost function SplitView(v: View, a: Addr, b: Addr, m: nat): View
    requires CanSplit(v, a, b, m)
  {
    var n, s := v.nodes[a], v.spans[a];
    var bound := SplitBound(v, a, m);
    var pn := WithSibling(v.nodes[n.parent], n.keys[m - 1], b, n.maxKey);
    View(KinTold(v.nodes, n, m, b)[n.parent := pn][a := LowerHalf(n, m, b, LowerMax(v, a, m))][b := UpperHalf(n, m, a)],
         v.root,
         v.spans[a := Span(s.h, s.lo, bound)][b := Span(s.h, bound, s.hi)],
         if n.isLeaf then Refile(v.filed, a, b, bound) else v.filed)
  }

  // ---- where the new node goes in the parent

  lemma SplitFacts(v: View, a: Addr, b: Addr, m: nat)
    requires CanSplit(v, a, b, m)
    ensures !v.nodes[a].isLeaf ==> v.nodes[a].children[m - 1] in v.spans && v.nodes[a].children[m - 1] in v.nodes
    ensures v.spans[a].lo < LowerMax(v, a, m) <= v.nodes[a].keys[m - 1] <= SplitBound(v, a, m) < v.nodes[a].maxKey <= v.spans[a].hi
  {
    var n := v.nodes[a];
    assert NodeOK(v, a, 0);
    if n.isLeaf {
      LeafRun(v, a);
      RunKeysAbove(v.filed, n.children, n.keys, v.spans[a].lo, m - 1);
    } else {
      NodeRun(v, a);
      ChildFacts(v, a);
      assert RunAt(v, n.children, n.keys, m - 1, v.spans[a].h - 1) && RunAt(v, n.children, n.keys, m, v.spans[a].h - 1);
      if m < |n.keys| { ChildrenOrdered(v, 0, a, m, |n.keys|); }
    }
  }

  lemma PlaceInParent(v: View, a: Addr, sep: Key)
    requires Structure(v, 0) && a in v.spans && a != v.root && v.spans[a].lo < sep < v.nodes[a].maxKey
    ensures v.nodes[a].parent in v.spans
    ensures var p := v.nodes[v.nodes[a].parent];
            && |p.children| == |p.keys| + 1
            && p.children[Above(p.keys, sep)] == a
            && (Above(p.keys, sep) == |p.keys| ==> v.nodes[a].maxKey <= p.maxKey)
            && v.spans[v.nodes[a].parent].lo < v.nodes[a].maxKey
  {
    var pa := v.nodes[a].parent;
    var i := ChildIndex(v, 0, a);
    var p := v.nodes[pa];
    assert NodeOK(v, a, 0);
    ParentCovers(v, 0, a, v.spans[a].hi);
    var j := Above(p.keys, sep);
    assert NodeOK(v, pa, 0) && ChildOK(v, pa, j, 0);
    if j < i { ChildrenOrdered(v, 0, pa, j, i); }
  }

  lemma SiblingIsSplice(p: Node, i: nat, a: Addr, sep: Key, b: Addr, mk: Key)
    requires |p.children| == |p.keys| + 1 && i == Above(p.keys, sep) && p.children[i] == a
    ensures WithSibling(p, sep, b, mk) == Spliced(p, i, i, [a, b], [sep]).(maxKey := WithSibling(p, sep, b, mk).maxKey)
  {
    assert InsertAt(p.children, i + 1, b) == p.children[..i] + [a, b] + p.children[i + 1..];
  }

  ghost function Touched(v: View, a: Addr, b: Addr): set<Addr>
    requires a in v.nodes
  {
    var n := v.nodes[a];
    if n.isLeaf then {a, b, n.parent, n.next} else {a, b, n.parent} + Elems(n.children)
  }

  lemma SplitUntouched(v: View, a: Addr, b: Addr, m: nat)
    requires CanSplit(v, a, b, m)
    ensures Untouched(v, SplitView(v, a, b, m), Touched(v, a, b))
  {
    hide LowerHalf, UpperHalf, WithSibling, NodeOK;
    var w, t := SplitView(v, a, b, m), Touched(v, a, b);
    assert NodeOK(v, a, 0);
    var c, d := v.nodes[a].children, v.nodes[a].children[m..];
    assert forall x :: x in d ==> x in c;
    forall x | x !in t && (x in v.spans || x in w.spans) ensures Same(v, w, x) { }
    forall q | q in v.filed && v.filed[q].leaf !in t ensures SameFiled(v, w, q) { }
    forall q | q in w.filed && w.filed[q].leaf !in t ensures SameFiled(v, w, q) { }
  }

  lemma SplitSpliced(v: View, a: Addr, b: Addr, m: nat)
    requires CanSplit(v, a, b, m)
    ensures var n, p := v.nodes[a], v.nodes[v.nodes[a].parent];
            var i := Above(p.keys, n.keys[m - 1]);
            i < |p.children| && p.children[i] == a
            && SplicedIn(v, SplitView(v, a, b, m), Touched(v, a, b), n.parent, i, i, [a, b], [n.keys[m - 1]])
  {
    hide Above, KinTold, InsertAt, Refile;
    var w, n := SplitView(v, a, b, m), v.nodes[a];
    var pa, sep := n.parent, n.keys[m - 1];
    var p := v.nodes[pa];
    var i := Above(p.keys, sep);
    SplitFacts(v, a, b, m);
    PlaceInParent(v, a, sep);
    SplitUntouched(v, a, b, m);
    ParentIsInner(v, a);
    hide Untouched, Touched;
    assert NodeOK(v, a, 0) && NodeOK(v, pa, 0) && ChildOK(v, pa, i, 0);
    SiblingIsSplice(p, i, a, sep, b, n.maxKey);
    assert RunAt(w, [a, b], [sep], 0, v.spans[a].h) && RunAt(w, [a, b], [sep], 1, v.spans[a].h);
    assert a in Touched(v, a, b);
  }

  /** A split keeps the tree's structure, and leaves the bounds of everything else alone. */
  lemma SplitViewKeeps(v: View, a: Addr, b: Addr, m: nat)
    requires CanSplit(v, a, b, m)
    ensures Structure(SplitView(v, a, b, m), 0)
  {
    var w, n := SplitView(v, a, b, m), v.nodes[a];
    var i := Above(v.nodes[n.parent].keys, n.keys[m - 1]);
    SplitFacts(v, a, b, m);
    SplitSpliced(v, a, b, m);
    SplitUntouched(v, a, b, m);
    hide SplicedIn, Untouched, WithSibling;
    if n.isLeaf {
      SplitIsLeafHalved(v, a, b, m);
      SplitLeafKeeps(v, w, a, b, m, i);
    } else {
      SplitIsInnerHalved(v, a, b, m);
      SplitInnerKeeps(v, w, a, b, m, i);
    }
  }

  lemma SplitIsLeafHalved(v: View, a: Addr, b: Addr, m: nat)
    requires CanSplit(v, a, b, m) && v.nodes[a].isLeaf
    ensures LeafHalved(v, SplitView(v, a, b, m), a, b, m)
  {
    SplitUntouched(v, a, b, m);
    hide Untouched, Above, InsertAt, Refile;
    assert NodeOK(v, a, 0);
    NextIsLeaf(v, a);
    ParentIsInner(v, a);
  }

  lemma SplitIsInnerHalved(v: View, a: Addr, b: Addr, m: nat)
    requires CanSplit(v, a, b, m) && !v.nodes[a].isLeaf
    ensures InnerHalved(v, SplitView(v, a, b, m), a, b, m)
  {
    var w, n := SplitView(v, a, b, m), v.nodes[a];
    var c := n.children;
    SplitUntouched(v, a, b, m);
    hide Untouched, Above, InsertAt, Refile;
    assert NodeOK(v, a, 0);
    SplitFacts(v, a, b, m);
    ParentIsInner(v, a);
    ChildFacts(v, a);
    forall i | 0 <= i < |c|
      ensures c[i] in w.nodes && w.nodes[c[i]] == v.nodes[c[i]].(parent := if i < m then a else b)
    {
      ChildOnce(v, a, i);
      if i >= m { assert c[m..][i - m] == c[i]; } else { assert forall j :: 0 <= j < |c| - m ==> c[m..][j] == c[m + j]; }
    }
  }

  // ---- telling the ancestors

  /** PropagateUp changes separators and maxKeys, and only above a. */
  ghost predicate SameShape(nodes: map<Addr, Node>, others: map<Addr, Node>) {
    && others.Keys == nodes.Keys
    && forall x {:trigger others[x]} :: x in nodes ==>
         |others[x].keys| == |nodes[x].keys| && others[x] == nodes[x].(keys := others[x].keys, maxKey := others[x].maxKey)
  }

  lemma {:induction false} PropagateShape(nodes: map<Addr, Node>, spans: map<Addr, Span>, a: Addr, k: Key, fuel: nat)
    requires Rises(nodes, spans) && a in spans
    ensures SameShape(nodes, PropagateUp(nodes, a, k, fuel))
    ensures forall x :: x in nodes && (x !in spans || spans[x].h <= spans[a].h) ==> PropagateUp(nodes, a, k, fuel)[x] == nodes[x]
    decreases fuel
  {
    hide Rises, IndexIn;
    RisesParent(nodes, spans, a, k);
    if nodes[a].parent != 0 && fuel > 0 {
      var p := nodes[a].parent;
      if IndexIn(nodes[p].children, a) == |nodes[p].children| - 1 {
        PropagateShape(nodes[p := nodes[p].(maxKey := k)], spans, p, k, fuel - 1);
      }
    }
  }

  lemma RisesParent(nodes: map<Addr, Node>, spans: map<Addr, Span>, a: Addr, k: Key)
    requires Rises(nodes, spans) && a in spans
    ensures a in nodes
    ensures var p := nodes[a].parent;
            p != 0 ==> p in spans && p in nodes && spans[p].h > spans[a].h && Rises(nodes[p := nodes[p].(maxKey := k)], spans)
  {
  }

  lemma StructureRises(v: View, exc: Addr)
    requires Structure(v, exc)
    ensures Rises(v.nodes, v.spans)
    ensures forall x {:trigger v.spans[x]} :: x in v.spans ==> v.spans[x].h <= v.spans[v.root].h
  {
    forall x | x in v.spans
      ensures v.nodes[x].parent == 0 || (v.nodes[x].parent in v.spans && v.spans[v.nodes[x].parent].h > v.spans[x].h)
      ensures v.spans[x].h <= v.spans[v.root].h
    {
      assert NodeOK(v, x, exc);
    }
  }

  /** The node store after a's split, as the source leaves it: the ancestors are told before the halves are stored. */
  ghost function SplitNodes(v: View, a: Addr, b: Addr, m: nat): map<Addr, Node>
    requires CanSplit(v, a, b, m)
  {
    var n := v.nodes[a];
    var pn := WithSibling(v.nodes[n.parent], n.keys[m - 1], b, n.maxKey);
    var told := KinTold(v.nodes, n, m, b)[n.parent := pn];
    var up := if Above(v.nodes[n.parent].keys, n.keys[m - 1]) < |v.nodes[n.parent].keys| then told
              else PropagateUp(told, n.parent, n.maxKey, v.spans[v.root].h);
    up[a := LowerHalf(n, m, b, LowerMax(v, a, m))][b := UpperHalf(n, m, a)]
  }

  lemma SplitNodesKeeps(v: View, a: Addr, b: Addr, m: nat)
    requires CanSplit(v, a, b, m)
    ensures Structure(SplitView(v, a, b, m).(nodes := SplitNodes(v, a, b, m)), 0)
    ensures SameShape(SplitView(v, a, b, m).nodes, SplitNodes(v, a, b, m))
    ensures forall x :: x in SplitView(v, a, b, m).nodes && (x !in v.spans || v.spans[x].h <= v.spans[a].h + 1) ==>
              SplitNodes(v, a, b, m)[x] == SplitView(v, a, b, m).nodes[x]
  {
    var w, n := SplitView(v, a, b, m), v.nodes[a];
    SplitViewKeeps(v, a, b, m);
    ParentIsInner(v, a);
    if Above(v.nodes[n.parent].keys, n.keys[m - 1]) == |v.nodes[n.parent].keys| {
      TellAfterwards(v, a, b, m);
      StructureRises(w, 0);
      Weaken(w, n.parent);
      hide KinTold, LowerHalf, UpperHalf, Structure, Above, PropagateUp;
      PropagateShape(w.nodes, w.spans, n.parent, n.maxKey, v.spans[v.root].h);
      PropagateKeeps(w, n.parent, v.spans[v.root].h);
    }
  }

  ghost function SpansAbove(v: View, h: nat): map<Addr, Span> {
    map x | x in v.spans && v.spans[x].h > h :: v.spans[x]
  }

  lemma ToldRises(v: View, a: Addr, b: Addr, m: nat)
    requires CanSplit(v, a, b, m)
    ensures var n := v.nodes[a];
            var pn := WithSibling(v.nodes[n.parent], n.keys[m - 1], b, n.maxKey);
            var told := KinTold(v.nodes, n, m, b)[n.parent := pn];
            Rises(told, SpansAbove(v, v.spans[a].h)) && n.parent in SpansAbove(v, v.spans[a].h)
  {
    hide Above, InsertAt;
    var n, up := v.nodes[a], SpansAbove(v, v.spans[a].h);
    var pn := WithSibling(v.nodes[n.parent], n.keys[m - 1], b, n.maxKey);
    var told := KinTold(v.nodes, n, m, b)[n.parent := pn];
    ParentIsInner(v, a);
    StructureRises(v, 0);
    assert NodeOK(v, a, 0);
    if n.isLeaf { NextIsLeaf(v, a); } else { ChildFacts(v, a); }
    var c, d := n.children, n.children[m..];
    assert forall x :: x in d ==> x in c;
    forall x | x in up
      ensures x in told && (told[x].parent == 0 || (told[x].parent in up && up[told[x].parent].h > up[x].h))
    {
      assert v.nodes[x].parent == 0 || v.nodes[x].parent in v.spans;
    }
  }

  lemma TellAfterwards(v: View, a: Addr, b: Addr, m: nat)
    requires CanSplit(v, a, b, m)
    requires Above(v.nodes[v.nodes[a].parent].keys, v.nodes[a].keys[m - 1]) == |v.nodes[v.nodes[a].parent].keys|
    ensures SplitNodes(v, a, b, m) == PropagateUp(SplitView(v, a, b, m).nodes, v.nodes[a].parent, v.nodes[a].maxKey, v.spans[v.root].h)
  {
    var n, up := v.nodes[a], SpansAbove(v, v.spans[a].h);
    var pn := WithSibling(v.nodes[n.parent], n.keys[m - 1], b, n.maxKey);
    var told := KinTold(v.nodes, n, m, b)[n.parent := pn];
    var left := LowerHalf(n, m, b, LowerMax(v, a, m));
    ToldRises(v, a, b, m);
    hide KinTold, WithSibling, LowerHalf, UpperHalf, PropagateUp;
    PropagateCommutes(told, up, n.parent, n.maxKey, v.spans[v.root].h, a, left);
    PropagateCommutes(told[a := left], up, n.parent, n.maxKey, v.spans[v.root].h, b, UpperHalf(n, m, a));
  }

  /** From any node the parents lead up, no higher than top, and every parent has one more child than keys. */
  ghost predicate Climbable(nodes: map<Addr, Node>, spans: map<Addr, Span>, top: nat) {
    && Rises(nodes, spans)
    && forall x {:trigger spans[x]} :: x in spans ==>
         spans[x].h <= top && (spans[x].h > 0 ==> |nodes[x].children| == |nodes[x].keys| + 1)
  }

  lemma KinToldClimbable(v: View, a: Addr, b: Addr, m: nat)
    requires CanSplit(v, a, b, m)
    ensures var n, up := v.nodes[a], SpansAbove(v, v.spans[a].h);
            var told := KinTold(v.nodes, n, m, b);
            && Climbable(told, up, v.spans[v.root].h) && n.parent in up && up[n.parent].h > 0
            && told[n.parent] == v.nodes[n.parent] && told.Keys == v.nodes.Keys
            && (!n.isLeaf ==> n.children[m - 1] in told && told[n.children[m - 1]].maxKey == v.nodes[n.children[m - 1]].maxKey)
    ensures b != v.root && (!v.nodes[a].isLeaf ==> NoneUnder(v.nodes, v.nodes[a].children, v.root))
  {
    var n, up := v.nodes[a], SpansAbove(v, v.spans[a].h);
    var told := KinTold(v.nodes, n, m, b);
    ParentIsInner(v, a);
    StructureRises(v, 0);
    assert NodeOK(v, a, 0);
    if n.isLeaf { NextIsLeaf(v, a); } else { ChildFacts(v, a); }
    var c, d := n.children, n.children[m..];
    assert forall x :: x in d ==> x in c;
    forall x | x in up
      ensures x in told && told[x] == v.nodes[x] && (told[x].parent == 0 || (told[x].parent in up && up[told[x].parent].h > up[x].h))
      ensures up[x].h <= v.spans[v.root].h && |told[x].children| == |told[x].keys| + 1
    {
      assert NodeOK(v, x, 0);
      assert v.nodes[x].parent == 0 || v.nodes[x].parent in v.spans;
    }
  }
}
