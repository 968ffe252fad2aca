// What a valid table looks like from outside, following child pointers down from the root, and runs of operations on it.
module TreeMeaning {
  import opened Base
  import opened Records
  import opened TreeView
  import opened TreePages
  import opened TreeLeaves
  import opened TreeInner
  import opened TableState
  import opened LeafPages
  import opened TableContents
  import opened PageSearch
  import opened BPlus
  import Stripes

  /** A path of child pointers down from the root. */
  ghost predicate Path(nodes: map<Addr, Node>, root: Addr, path: seq<Addr>) {
    && path != [] && path[0] == root
    && forall d {:trigger Down(nodes, path, d)} :: 0 < d < |path| ==> Down(nodes, path, d)
  }

  ghost predicate Down(nodes: map<Addr, Node>, path: seq<Addr>, d: int) {
    0 < d < |path| && path[d - 1] in nodes && !nodes[path[d - 1]].isLeaf && path[d] in nodes[path[d - 1]].children
  }

  lemma {:induction false} PathSpans(v: View, path: seq<Addr>)
    requires Structure(v, 0) && Path(v.nodes, v.root, path)
    ensures Last(path) in v.spans && v.spans[Last(path)].h + |path| - 1 == v.spans[v.root].h
    ensures |path| > 1 ==> v.nodes[Last(path)].parent == path[|path| - 2]
    decreases |path|
  {
    if |path| > 1 {
      var up := path[..|path| - 1];
      forall d | 0 < d < |up| ensures Down(v.nodes, up, d) { assert Down(v.nodes, path, d); }
      PathSpans(v, up);
      var a := Last(up);
      assert Down(v.nodes, path, |path| - 1);
      assert NodeOK(v, a, 0);
      var i :| 0 <= i < |v.nodes[a].children| && v.nodes[a].children[i] == Last(path);
      assert ChildOK(v, a, i, 0);
    }
  }

  /** Every node that child pointers lead to is stored, isn't marked for deletion, points back to its parent, and has between half
      of M and M children unless it is the root. */
  lemma NodeReached(t: Table, path: seq<Addr>)
    requires t.Valid() && Path(t.nodes, t.root, path)
    ensures var a := Last(path);
            && a in t.nodes && a !in t.deleted && t.nodes[a].parent == (if |path| > 1 then path[|path| - 2] else 0)
            && |t.nodes[a].children| <= t.M && Sorted(t.nodes[a].keys)
            && |t.nodes[a].children| >= (if |path| > 1 then t.M / 2 else if t.nodes[a].isLeaf then 1 else 2)
            && |t.nodes[a].keys| == (if t.nodes[a].isLeaf then |t.nodes[a].children| else |t.nodes[a].children| - 1)
  {
    var v, a := t.V(), Last(path);
    PathSpans(v, path);
    assert Counted(v, t.M, a) && NodeOK(v, a, 0);
    hide Stored, AllFit;
    if |path| > 1 { assert NodeOK(v, v.root, 0); } else { assert a == v.root; }
    if !v.nodes[a].isLeaf { InnerSorted(v, a); }
  }

  lemma InnerSorted(v: View, a: Addr)
    requires Structure(v, 0) && a in v.spans && !v.nodes[a].isLeaf
    ensures Sorted(v.nodes[a].keys)
  {
    assert NodeOK(v, a, 0);
    var c, k := v.nodes[a].children, v.nodes[a].keys;
    forall i, j | 0 <= i < j < |k| ensures k[i] < k[j] {
      ChildrenOrdered(v, 0, a, i, j);
      assert ChildOK(v, a, i, 0) && ChildOK(v, a, j, 0) && NodeOK(v, c[j], 0);
    }
  }

  /** All leaves are equally deep. */
  lemma SameDepth(t: Table, p: seq<Addr>, q: seq<Addr>)
    requires t.Valid() && Path(t.nodes, t.root, p) && Path(t.nodes, t.root, q)
    requires Last(p) in t.nodes && Last(q) in t.nodes && t.nodes[Last(p)].isLeaf && t.nodes[Last(q)].isLeaf
    ensures |p| == |q|
  {
    PathSpans(t.V(), p);
    PathSpans(t.V(), q);
    assert NodeOK(t.V(), Last(p), 0) && NodeOK(t.V(), Last(q), 0);
  }

  /** A leaf's neighbours are leaves, and the links between them agree. */
  lemma LeavesLinked(t: Table, path: seq<Addr>)
    requires t.Valid() && Path(t.nodes, t.root, path) && Last(path) in t.nodes && t.nodes[Last(path)].isLeaf
    ensures var n := t.nodes[Last(path)];
            && (n.next != 0 ==> n.next in t.nodes && t.nodes[n.next].isLeaf && t.nodes[n.next].prev == Last(path) && n.next !in t.deleted)
            && (n.prev != 0 ==> n.prev in t.nodes && t.nodes[n.prev].isLeaf && t.nodes[n.prev].next == Last(path) && n.prev !in t.deleted)
  {
    PathSpans(t.V(), path);
    NextIsLeaf(t.V(), Last(path));
  }

  /** The rows of a leaf lie below those of the leaf its next link leads to, and without one it is the last: those of every other
      leaf lie below its own. */
  lemma ChainOrdered(t: Table, p: seq<Addr>, q: seq<Addr>, i: nat, j: nat, r: Record, s: Record)
    requires t.Valid() && RowUnder(t, p, i, r) && RowUnder(t, q, j, s) && Last(p) != Last(q)
    requires t.nodes[Last(p)].next == 0 || t.nodes[Last(p)].next == Last(q)
    ensures if t.nodes[Last(p)].next == 0 then s.key < r.key else r.key < s.key
  {
    var v, a, b := t.V(), Last(p), Last(q);
    PathSpans(v, p);
    PathSpans(v, q);
    RowSpan(t, a, i, r);
    RowSpan(t, b, j, s);
    assert NodeOK(v, a, 0) && NodeOK(v, b, 0);
    hide Stored, AllFit, Filled;
    if t.nodes[a].next == 0 && v.spans[b].hi > v.spans[a].lo { UniqueCover(v, 0, a, b, v.spans[b].hi); }
  }

  /** r is a row of the i-th page of the leaf a path leads to. */
  ghost predicate RowUnder(t: Table, path: seq<Addr>, i: nat, r: Record)
    reads t
  {
    && Path(t.nodes, t.root, path) && Last(path) in t.nodes && t.nodes[Last(path)].isLeaf && i < |t.nodes[Last(path)].children|
    && t.nodes[Last(path)].children[i] in t.pages && r in t.pages[t.nodes[Last(path)].children[i]]
  }

  lemma RowSpan(t: Table, a: Addr, i: nat, r: Record)
    requires t.Valid() && a in t.spans && t.nodes[a].isLeaf && i < |t.nodes[a].children|
    requires t.nodes[a].children[i] in t.pages && r in t.pages[t.nodes[a].children[i]]
    ensures t.spans[a].lo < r.key <= t.spans[a].hi
  {
    var v := t.V();
    LeafRun(v, a);
    var p := v.nodes[a].children[i];
    assert PageAt(v.filed, v.nodes[a].children, v.nodes[a].keys, v.spans[a].lo, i);
    if i > 0 { RunKeysAbove(v.filed, v.nodes[a].children, v.nodes[a].keys, v.spans[a].lo, i - 1); }
    RunKeysUpTo(v, a, i);
    assert PageSound(t.pages, t.filed, p);
    hide Structure;
    var x :| 0 <= x < |t.pages[p]| && t.pages[p][x] == r;
  }

  lemma RunKeysUpTo(v: View, a: Addr, i: nat)
    requires Structure(v, 0) && a in v.spans && v.nodes[a].isLeaf && i < |v.nodes[a].children|
    ensures i < |v.nodes[a].keys| && v.nodes[a].keys[i] <= v.spans[a].hi
  {
    LeafRun(v, a);
  }

  /** The pages of a leaf are stored and not marked for deletion, and none is empty unless it is the only page there is. */
  lemma PageReached(t: Table, path: seq<Addr>, i: nat)
    requires t.Valid() && Path(t.nodes, t.root, path) && Last(path) in t.nodes && t.nodes[Last(path)].isLeaf && i < |t.nodes[Last(path)].children|
    ensures var p := t.nodes[Last(path)].children[i];
            p in t.pages && p !in t.deleted && (t.pages[p] == [] ==> t.contents == map[]) && Used(t.keySize, t.pages[p]) <= t.capacity
  {
    var v, a := t.V(), Last(path);
    PathSpans(v, path);
    assert NodeOK(v, a, 0) && PageOK(v, a, i);
    var p := v.nodes[a].children[i];
    assert PageFits(t.keySize, t.capacity, t.pages, t.filed, p);
    hide Structure, Filled;
    if t.pages[p] == [] {
      forall k ensures k !in t.contents {
        assert k in t.contents ==> Kept(t.pages, t.filed, t.contents, k);
      }
    }
  }

  /** What lies at the end of a path lies within the bounds of every node on it. */
  lemma {:induction false} PathBounds(v: View, path: seq<Addr>, d: nat)
    requires Structure(v, 0) && Path(v.nodes, v.root, path) && d < |path|
    ensures path[d] in v.spans && Last(path) in v.spans
    ensures v.spans[path[d]].lo <= v.spans[Last(path)].lo && v.nodes[Last(path)].maxKey <= v.nodes[path[d]].maxKey
    decreases |path|
  {
    hide Structure;
    PathSpans(v, path);
    if d < |path| - 1 {
      var up := path[..|path| - 1];
      forall e | 0 < e < |up| ensures Down(v.nodes, up, e) { assert Down(v.nodes, path, e); }
      PathBounds(v, up, d);
      var a := Last(up);
      assert Down(v.nodes, path, |path| - 1);
      var i :| 0 <= i < |v.nodes[a].children| && v.nodes[a].children[i] == Last(path);
      MaxBelow(v, a, i);
    }
  }

  lemma MaxBelow(v: View, a: Addr, i: nat)
    requires Structure(v, 0) && a in v.spans && !v.nodes[a].isLeaf && i < |v.nodes[a].children|
    ensures var c := v.nodes[a].children[i];
            c in v.spans && v.spans[a].lo <= v.spans[c].lo && v.nodes[c].maxKey <= v.nodes[a].maxKey
    ensures var k, c := v.nodes[a].keys, v.nodes[a].children[i];
            |k| + 1 == |v.nodes[a].children| && (i < |k| ==> v.nodes[c].maxKey <= k[i]) && (i > 0 ==> k[i - 1] <= v.spans[c].lo)
  {
    assert NodeOK(v, a, 0) && ChildOK(v, a, i, 0);
    var c, k := v.nodes[a].children, v.nodes[a].keys;
    assert ChildOK(v, a, 0, 0) && ChildOK(v, a, |k|, 0);
    if i > 0 {
      assert ChildOK(v, a, i - 1, 0);
      ChildrenOrdered(v, 0, a, 0, i);
    }
    if i < |k| {
      ChildrenOrdered(v, 0, a, i, |k|);
      assert NodeOK(v, c[|k|], 0) && NodeOK(v, c[i], 0);
    }
  }

  /** Separators are bounds: what lies under child j of an inner node is above the separator before it and no more than the one
      after it. */
  lemma Separates(t: Table, path: seq<Addr>, d: nat, j: nat, i: nat, r: Record)
    requires t.Valid() && Path(t.nodes, t.root, path) && d + 1 < |path| && path[d] in t.nodes
    requires j < |t.nodes[path[d]].children| && t.nodes[path[d]].children[j] == path[d + 1]
    requires Last(path) in t.nodes && t.nodes[Last(path)].isLeaf && i < |t.nodes[Last(path)].children|
    requires t.nodes[Last(path)].children[i] in t.pages && r in t.pages[t.nodes[Last(path)].children[i]]
    ensures var k := t.nodes[path[d]].keys; |k| + 1 == |t.nodes[path[d]].children| && (j < |k| ==> r.key <= k[j]) && (j > 0 ==> k[j - 1] < r.key)
  {
    var v, a := t.V(), Last(path);
    PathBounds(v, path, d + 1);
    PathBounds(v, path, d);
    assert Down(v.nodes, path, d + 1);
    MaxBelow(v, path[d], j);
    LeafRun(v, a);
    var p := v.nodes[a].children[i];
    assert PageAt(v.filed, v.nodes[a].children, v.nodes[a].keys, v.spans[a].lo, i);
    if i > 0 { RunKeysAbove(v.filed, v.nodes[a].children, v.nodes[a].keys, v.spans[a].lo, i - 1); }
    assert PageSound(t.pages, t.filed, p);
    hide Structure;
    var x :| 0 <= x < |t.pages[p]| && t.pages[p][x] == r;
  }

  // ---- runs

  datatype Operation = Insert(r: Record) | Update(r: Record) | Delete(k: Key) | Search(k: Key) | Read(k: Key)

  datatype Answer = Code(n: nat) | Yes(b: bool) | Found(row: Option<Record>)

  /** What an operation does to a finite map, and what it answers. */
  ghost function Performed(t: Table, c: map<Key, Record>, op: Operation): (map<Key, Record>, Answer) {
    match op
    case Insert(r) => (if t.Outcome(c, r) == 0 then c[r.key := r] else c, Code(t.Outcome(c, r)))
    case Update(r) => (if t.CanUpdate(c, r) then c[r.key := t.Updated(c, r)] else c, Yes(t.CanUpdate(c, r)))
    case Delete(k) => (c - {k}, Yes(k in c))
    case Search(k) => (c, Yes(k in c))
    case Read(k) => (c, Found(if k in c then Some(c[k]) else None))
  }

  ghost function Final(t: Table, c: map<Key, Record>, ops: seq<Operation>): map<Key, Record> {
    if ops == [] then c else Performed(t, Final(t, c, ops[..|ops| - 1]), Last(ops)).0
  }

  /** Whether a deletion says yes to a key that isn't there: it does if no page is filed for it. */
  ghost predicate Lenient(v: View, op: Operation) { op.Delete? && NoPageFor(v, op.k) }

  /** Every answer is the finite map's, but that deletions may be lenient. */
  ghost predicate Agree(t: Table, c: map<Key, Record>, ops: seq<Operation>, answers: seq<Answer>, lenient: seq<bool>) {
    |answers| == |lenient| == |ops| && forall i {:trigger AgreeAt(t, Final(t, c, ops[..i]), ops[i], answers[i], lenient[i])} ::
      0 <= i < |ops| ==> AgreeAt(t, Final(t, c, ops[..i]), ops[i], answers[i], lenient[i])
  }

  ghost predicate AgreeAt(t: Table, c: map<Key, Record>, op: Operation, answer: Answer, lenient: bool) {
    && (lenient ==> op.Delete? && op.k !in c)
    && answer == if lenient then Yes(true) else Performed(t, c, op).1
  }

  method Perform(t: Table, op: Operation) returns (a: Answer)
    requires t.Valid()
    modifies t
    ensures t.Valid() && t.contents == Performed(t, old(t.contents), op).0
    ensures a == if Lenient(old(t.V()), op) then Yes(true) else Performed(t, old(t.contents), op).1
    ensures Lenient(old(t.V()), op) ==> op.Delete? && op.k !in old(t.contents)
  {
    hide Table.Valid, NoPageFor;
    match op {
      case Insert(r) => var n := t.InsertRecord(r); a := Code(n);
      case Update(r) => var b := t.UpdateRecord(r); a := Yes(b);
      case Delete(k) =>
        var b, page, leaf;
        ghost var q;
        b, page, leaf, q := t.DeleteRecord(k);
        a := Yes(b);
      case Search(k) => var b := t.SearchRecord(k); a := Yes(b);
      case Read(k) => var row := t.ReadRecord(k); a := Found(row);
    }
  }

  /** Over any run of operations on a new table, the tree is a finite map, and stays sound. */
  method Run(order: nat, keySize: nat, capacity: nat, layout: Stripes.Layout, ops: seq<Operation>) returns (t: Table, answers: seq<Answer>, ghost lenient: seq<bool>)
    requires order >= 4 && capacity < 0xFFFF_FFFF && layout.Valid()
    ensures t.Valid() && t.contents == Final(t, map[], ops) && Agree(t, map[], ops, answers, lenient)
  {
    hide Table.Valid, NoPageFor, Agree, Final, Performed, Lenient;
    t := new Table.NewTree(order, keySize, capacity, layout);
    answers, lenient := [], [];
    NoneDone(t, map[], ops);
    for i := 0 to |ops|
      invariant t.Valid() && fresh(t) && t.contents == Final(t, map[], ops[..i]) && Agree(t, map[], ops[..i], answers, lenient)
    {
      ghost var wasLenient := Lenient(t.V(), ops[i]);
      var a := Perform(t, ops[i]);
      OneDone(t, map[], ops, i, answers, lenient, a, wasLenient);
      answers, lenient := answers + [a], lenient + [wasLenient];
    }
    assert ops[..|ops|] == ops;
  }

  lemma NoneDone(t: Table, c: map<Key, Record>, ops: seq<Operation>)
    ensures Final(t, c, ops[..0]) == c && Agree(t, c, ops[..0], [], [])
  {
  }

  lemma OneDone(t: Table, c: map<Key, Record>, ops: seq<Operation>, i: nat, answers: seq<Answer>, lenient: seq<bool>, a: Answer, wasLenient: bool)
    requires i < |ops| && Agree(t, c, ops[..i], answers, lenient)
    requires AgreeAt(t, Final(t, c, ops[..i]), ops[i], a, wasLenient)
    ensures Final(t, c, ops[..i + 1]) == Performed(t, Final(t, c, ops[..i]), ops[i]).0
    ensures Agree(t, c, ops[..i + 1], answers + [a], lenient + [wasLenient])
  {
    hide Performed, AgreeAt;
    var now, all, flags := ops[..i + 1], answers + [a], lenient + [wasLenient];
    assert now[..i] == ops[..i];
    forall j | 0 <= j < |now| ensures AgreeAt(t, Final(t, c, now[..j]), now[j], all[j], flags[j]) {
      if j < i {
        assert now[..j] == ops[..i][..j] && now[j] == ops[..i][j] && all[j] == answers[j] && flags[j] == lenient[j];
        assert AgreeAt(t, Final(t, c, ops[..i][..j]), ops[..i][j], answers[j], lenient[j]);
      }
    }
  }
}
