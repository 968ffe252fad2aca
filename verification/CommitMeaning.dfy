// What a commit leaves in the files, in terms of the changes that were pending alone.
module CommitMeaning {
  import opened Base
  import opened Words
  import opened LogCodec
  import opened Redo
  import opened Commits
  import Stripes

  /** The first byte of an object that was deleted. */
  const DELETED: Byte := 2

  function PairOf(t: TableChange, i: nat): (nat, Bytes)
    requires i <= |t.pages| + |t.nodes|
  {
    if i < |t.pages| then t.pages[i] else if i < |t.pages| + |t.nodes| then t.nodes[i - |t.pages|] else (0, t.meta)
  }

  predicate In(i: int, x: (nat, Bytes)) { x.0 <= i < x.0 + |x.1| }

  /** The pages, the nodes and the header lie apart, and nothing in the header is marked for deletion. A node or a page that is
      pending can be marked for deletion as well. */
  ghost predicate Separate(t: TableChange) {
    && (forall i, j, k {:trigger In(k, PairOf(t, i)), In(k, PairOf(t, j))} :: 0 <= i < j <= |t.pages| + |t.nodes| ==>
          !(In(k, PairOf(t, i)) && In(k, PairOf(t, j))))
    && forall a {:trigger a in t.deletes} :: a in t.deletes ==> a >= |t.meta|
  }

  /** An object's bytes are in the file, but for the first byte of what was deleted. */
  ghost predicate Stored(c: Bytes, x: (nat, Bytes), deletes: seq<nat>) {
    forall i {:trigger In(i, x)} :: In(i, x) ==> i < |c| && c[i] == if i in deletes then DELETED else x.1[i - x.0]
  }

  ghost predicate Elsewhere(t: TableChange, i: nat) {
    && i !in t.deletes && !In(i, (0, t.meta))
    && (forall x {:trigger x in t.pages} :: x in t.pages ==> !In(i, x)) && (forall x {:trigger x in t.nodes} :: x in t.nodes ==> !In(i, x))
  }

  /** end is where a range of bytes that the table writes ends. */
  ghost predicate EndsAt(t: TableChange, end: nat) {
    || (t.meta != [] && end == |t.meta|) || (end > 0 && end - 1 in t.deletes)
    || (exists x {:trigger x in t.pages} :: x in t.pages && x.1 != [] && end == x.0 + |x.1|)
    || (exists x {:trigger x in t.nodes} :: x in t.nodes && x.1 != [] && end == x.0 + |x.1|)
  }

  /** c is a table's file that held base, with everything that was pending in it: every page, every node and the header at its
      address, the mark on everything deleted, and nothing else but what was there, or zeros. */
  ghost predicate Saved(t: TableChange, base: Bytes, c: Bytes) {
    && (forall x {:trigger x in t.pages} :: x in t.pages ==> Stored(c, x, t.deletes))
    && (forall x {:trigger x in t.nodes} :: x in t.nodes ==> Stored(c, x, t.deletes))
    && Stored(c, (0, t.meta), [])
    && (forall a {:trigger a in t.deletes} :: a in t.deletes ==> a < |c| && c[a] == DELETED)
    && (forall i: nat {:trigger Elsewhere(t, i)} :: i < |c| && Elsewhere(t, i) ==> c[i] == if i < |base| then base[i] else 0)
    && |base| <= |c| && (|c| > |base| ==> EndsAt(t, |c|))
  }

  /** Slot i is where pending object i goes, which is as large as the slot. */
  ghost predicate InSlots(l: Stripes.Layout, t: TableChange, slots: seq<Stripes.Slot>)
    requires l.Valid()
  {
    && |slots| == |t.pages| + |t.nodes|
    && (forall i {:trigger slots[i]} :: 0 <= i < |slots| ==>
          && Stripes.Exists(l, slots[i]) && slots[i].PageSlot? == (i < |t.pages|)
          && PairOf(t, i).0 == Stripes.Start(l, slots[i]) && |PairOf(t, i).1| == Stripes.End(l, slots[i]) - Stripes.Start(l, slots[i]))
    && (forall i, j {:trigger slots[i], slots[j]} :: 0 <= i < j < |slots| ==> slots[i] != slots[j])
    && |t.meta| <= l.metalen
    && forall a {:trigger a in t.deletes} :: a in t.deletes ==> exists s :: Stripes.Exists(l, s) && a == Stripes.Start(l, s)
  }

  /** Objects at the addresses that allocation gives out lie apart. */
  lemma SlotsSeparate(l: Stripes.Layout, t: TableChange, slots: seq<Stripes.Slot>)
    requires l.Valid() && InSlots(l, t, slots)
    ensures Separate(t)
  {
    hide Stripes.Start, Stripes.End;
    forall i, j, k | 0 <= i < j <= |slots| ensures !(In(k, PairOf(t, i)) && In(k, PairOf(t, j))) {
      if j < |slots| { Stripes.SlotsApart(l, slots[i], slots[j]); } else { PastHeader(l, slots[i]); }
    }
    forall a | a in t.deletes ensures a >= |t.meta| {
      var s :| Stripes.Exists(l, s) && a == Stripes.Start(l, s);
      PastHeader(l, s);
    }
  }

  lemma PastHeader(l: Stripes.Layout, s: Stripes.Slot)
    requires l.Valid() && Stripes.Exists(l, s)
    ensures Stripes.Start(l, s) >= l.metalen
  {
    Stripes.SlotsApart(l, s, if s.PageSlot? then Stripes.NodeSlot(0, 0) else Stripes.PageSlot(0, 0));
  }

  // ---- writes to one file

  function Overlaid(c: Bytes, ws: seq<(nat, Bytes)>): Bytes {
    if ws == [] then c else Overlay(Overlaid(c, ws[..|ws| - 1]), Last(ws).0, Last(ws).1)
  }

  lemma {:induction false} LastWins(c: Bytes, ws: seq<(nat, Bytes)>, k: nat, i: nat)
    requires k < |ws| && In(i, ws[k]) && forall j :: k < j < |ws| ==> !In(i, ws[j])
    ensures i < |Overlaid(c, ws)| && Overlaid(c, ws)[i] == ws[k].1[i - ws[k].0]
    decreases |ws|
  {
    if k < |ws| - 1 {
      assert !In(i, Last(ws));
      LastWins(c, ws[..|ws| - 1], k, i);
    }
  }

  lemma {:induction false} Untouched(c: Bytes, ws: seq<(nat, Bytes)>, i: nat)
    requires forall j :: 0 <= j < |ws| ==> !In(i, ws[j])
    ensures At(Overlaid(c, ws), i) == At(c, i)
    decreases |ws|
  {
    if ws != [] {
      assert !In(i, Last(ws));
      Untouched(c, ws[..|ws| - 1], i);
    }
  }

  lemma {:induction false} LengthOf(c: Bytes, ws: seq<(nat, Bytes)>)
    ensures |c| <= |Overlaid(c, ws)|
    ensures |c| == |Overlaid(c, ws)| || exists k :: 0 <= k < |ws| && ws[k].1 != [] && |Overlaid(c, ws)| == ws[k].0 + |ws[k].1|
    decreases |ws|
  {
    if ws != [] {
      LengthOf(c, ws[..|ws| - 1]);
      assert ws[|ws| - 1] == Last(ws);
    }
  }

  function Writes(n: Name, ws: seq<(nat, Bytes)>): (ops: seq<Op>)
    ensures |ops| == |ws| && forall i :: 0 <= i < |ws| ==> ops[i] == Write(n, ws[i].0, ws[i].1)
  {
    seq(|ws|, i requires 0 <= i < |ws| => Write(n, ws[i].0, ws[i].1))
  }

  lemma {:induction false} WritesReplay(n: Name, ws: seq<(nat, Bytes)>, files: Files)
    requires n in files
    ensures Replay(Writes(n, ws), files) == Some(files[n := Overlaid(files[n], ws)])
    decreases |ws|
  {
    if ws == [] {
      assert files[n := files[n]] == files;
    } else {
      var front, w := ws[..|ws| - 1], Last(ws);
      WritesReplay(n, front, files);
      assert Writes(n, ws) == Writes(n, front) + [Write(n, w.0, w.1)];
      ReplayJoin(Writes(n, front), [Write(n, w.0, w.1)], files);
      assert [Write(n, w.0, w.1)][1..] == [];
      var mid := files[n := Overlaid(files[n], front)];
      assert mid[n := Overlay(mid[n], w.0, w.1)] == files[n := Overlaid(files[n], ws)];
    }
  }

  // ---- one table

  function Marks(deletes: seq<nat>): (ws: seq<(nat, Bytes)>)
    ensures |ws| == |deletes| && forall i :: 0 <= i < |ws| ==> ws[i] == (deletes[i], [DELETED])
  {
    seq(|deletes|, i requires 0 <= i < |deletes| => (deletes[i], [DELETED]))
  }

  /** What a table's log writes, in order. */
  function Ranges(t: TableChange): (ws: seq<(nat, Bytes)>)
    ensures |ws| == |t.pages| + |t.nodes| + |t.deletes| + 1
    ensures forall i :: 0 <= i < |ws| ==>
              ws[i] == if i < |t.pages| + |t.nodes| then PairOf(t, i) else if i < |ws| - 1 then (t.deletes[i - |t.pages| - |t.nodes|], [DELETED]) else (0, t.meta)
  {
    t.pages + t.nodes + Marks(t.deletes) + [(0, t.meta)]
  }

  lemma WritesJoin(n: Name, a: seq<(nat, Bytes)>, b: seq<(nat, Bytes)>)
    ensures Writes(n, a + b) == Writes(n, a) + Writes(n, b)
  {
  }

  lemma ObjectsWrite(kind: Kind, id: Word, n: Name, objects: seq<(nat, Bytes)>)
    requires kind != CreateFile && kind != RemoveFile
    ensures Ops(Objects(kind, id, n, objects)) == Writes(n, objects)
  {
  }

  lemma DeletesWrite(id: Word, n: Name, deletes: seq<nat>)
    ensures Ops(Deletes(id, n, deletes)) == Writes(n, Marks(deletes))
  {
  }

  lemma LogWrites(t: TableChange, id: Word)
    ensures Ops(TableLog(t, id)) == (if t.isNew then [Create(t.name)] else []) + Writes(t.name, Ranges(t))
  {
    hide Objects, Deletes, Writes, Marks, Ranges, Ops, OpOf;
    OneOp(t, id);
    var create := if t.isNew then [Entry(CreateFile, id, t.name, 0, [])] else [];
    var pages, nodes, deletes := Objects(WritePage, id, t.name, t.pages), Objects(WriteNode, id, t.name, t.nodes), Deletes(id, t.name, t.deletes);
    var meta := [Entry(WriteMeta, id, t.name, 0, t.meta)];
    ObjectsWrite(WritePage, id, t.name, t.pages);
    ObjectsWrite(WriteNode, id, t.name, t.nodes);
    DeletesWrite(id, t.name, t.deletes);
    OneWrite(t.name, t.meta);
    OpsJoin(create + pages + nodes + deletes, meta); OpsJoin(create + pages + nodes, deletes); OpsJoin(create + pages, nodes); OpsJoin(create, pages);
    RangesAre(t);
    WritesJoin(t.name, t.pages + t.nodes + Marks(t.deletes), [(0, t.meta)]);
    WritesJoin(t.name, t.pages + t.nodes, Marks(t.deletes));
    WritesJoin(t.name, t.pages, t.nodes);
  }

  lemma OneOp(t: TableChange, id: Word)
    ensures Ops([]) == [] && Ops([Entry(CreateFile, id, t.name, 0, [])]) == [Create(t.name)]
    ensures Ops([Entry(WriteMeta, id, t.name, 0, t.meta)]) == [Write(t.name, 0, t.meta)]
  {
  }

  lemma OneWrite(n: Name, bytes: Bytes)
    ensures Writes(n, [(0, bytes)]) == [Write(n, 0, bytes)]
  {
  }

  lemma RangesAre(t: TableChange)
    ensures Ranges(t) == t.pages + t.nodes + Marks(t.deletes) + [(0, t.meta)]
  {
  }

  function Before(t: TableChange, files: Files): Bytes
    requires !t.isNew ==> t.name in files
  {
    if t.isNew then [] else files[t.name]
  }

  lemma TableReplay(t: TableChange, id: Word, files: Files)
    requires !t.isNew ==> t.name in files
    ensures Replay(Ops(TableLog(t, id)), files) == Some(files[t.name := Overlaid(Before(t, files), Ranges(t))])
  {
    hide TableLog, Overlaid, Ranges, Writes, Replay, Ops;
    LogWrites(t, id);
    var ops := Writes(t.name, Ranges(t));
    if t.isNew {
      Created(t.name, ops, files);
      WritesReplay(t.name, Ranges(t), files[t.name := []]);
      assert files[t.name := []][t.name := Overlaid([], Ranges(t))] == files[t.name := Overlaid([], Ranges(t))];
    } else {
      assert [] + ops == ops;
      WritesReplay(t.name, Ranges(t), files);
    }
  }

  lemma ObjectStored(t: TableChange, base: Bytes, k: nat)
    requires Separate(t) && k < |t.pages| + |t.nodes|
    ensures Stored(Overlaid(base, Ranges(t)), PairOf(t, k), t.deletes)
  {
    var ws, m := Ranges(t), |t.pages| + |t.nodes|;
    var c, x := Overlaid(base, ws), PairOf(t, k);
    hide Overlaid;
    forall i: nat | In(i, x) ensures i < |c| && c[i] == if i in t.deletes then DELETED else x.1[i - x.0] {
      assert !In(i, PairOf(t, m));
      if i in t.deletes {
        MarkWins(t, base, i);
      } else {
        forall j | k < j < |ws| ensures !In(i, ws[j]) { if j < m { assert !In(i, PairOf(t, j)); } }
        LastWins(base, ws, k, i);
      }
    }
  }

  lemma MarkWins(t: TableChange, base: Bytes, a: nat)
    requires a in t.deletes && a >= |t.meta|
    ensures a < |Overlaid(base, Ranges(t))| && Overlaid(base, Ranges(t))[a] == DELETED
  {
    var ws, m := Ranges(t), |t.pages| + |t.nodes|;
    hide Overlaid;
    var k := LastPlace(t.deletes, a);
    forall j | m + k < j < |ws| ensures !In(a, ws[j]) { }
    LastWins(base, ws, m + k, a);
  }

  lemma {:induction false} LastPlace(s: seq<nat>, a: nat) returns (k: nat)
    requires a in s
    ensures k < |s| && s[k] == a && forall j :: k < j < |s| ==> s[j] != a
  {
    if Last(s) == a { k := |s| - 1; } else { k := LastPlace(s[..|s| - 1], a); }
  }

  lemma TableSaved(t: TableChange, base: Bytes)
    requires Separate(t)
    ensures Saved(t, base, Overlaid(base, Ranges(t)))
  {
    var ws, m := Ranges(t), |t.pages| + |t.nodes|;
    var c := Overlaid(base, ws);
    hide Overlaid, Separate, Stored;
    forall x | x in t.pages ensures Stored(c, x, t.deletes) {
      var k :| 0 <= k < |t.pages| && t.pages[k] == x;
      ObjectStored(t, base, k);
    }
    forall x | x in t.nodes ensures Stored(c, x, t.deletes) {
      var k :| 0 <= k < |t.nodes| && t.nodes[k] == x;
      ObjectStored(t, base, |t.pages| + k);
    }
    HeaderStored(t, base);
    MarksAndRest(t, base);
    LengthSaved(t, base);
  }

  lemma HeaderStored(t: TableChange, base: Bytes)
    ensures Stored(Overlaid(base, Ranges(t)), (0, t.meta), [])
  {
    var ws := Ranges(t);
    var c := Overlaid(base, ws);
    hide Overlaid;
    forall i: nat | In(i, (0, t.meta)) ensures i < |c| && c[i] == t.meta[i - 0] { LastWins(base, ws, |ws| - 1, i); }
  }

  lemma MarksAndRest(t: TableChange, base: Bytes)
    requires Separate(t)
    ensures var c := Overlaid(base, Ranges(t));
            && (forall a {:trigger a in t.deletes} :: a in t.deletes ==> a < |c| && c[a] == DELETED)
            && forall i: nat {:trigger Elsewhere(t, i)} :: i < |c| && Elsewhere(t, i) ==> c[i] == if i < |base| then base[i] else 0
  {
    var ws, m := Ranges(t), |t.pages| + |t.nodes|;
    var c := Overlaid(base, ws);
    hide Overlaid;
    forall a | a in t.deletes ensures a < |c| && c[a] == DELETED { MarkWins(t, base, a); }
    forall i: nat | i < |c| && Elsewhere(t, i) ensures c[i] == if i < |base| then base[i] else 0 {
      forall j | 0 <= j < |ws| ensures !In(i, ws[j]) {
        if j < |t.pages| { assert t.pages[j] in t.pages; } else if j < m { assert t.nodes[j - |t.pages|] in t.nodes; }
        else if j < |ws| - 1 { assert t.deletes[j - m] in t.deletes; }
      }
      Untouched(base, ws, i);
    }
  }

  lemma LengthSaved(t: TableChange, base: Bytes)
    ensures var c := Overlaid(base, Ranges(t)); |base| <= |c| && (|c| > |base| ==> EndsAt(t, |c|))
  {
    var ws, m := Ranges(t), |t.pages| + |t.nodes|;
    var c := Overlaid(base, ws);
    hide Overlaid;
    LengthOf(base, ws);
    if |c| > |base| {
      var k :| 0 <= k < |ws| && ws[k].1 != [] && |c| == ws[k].0 + |ws[k].1|;
      if k < |t.pages| { assert t.pages[k] in t.pages; } else if k < m { assert t.nodes[k - |t.pages|] in t.nodes; }
      else if k < |ws| - 1 { assert t.deletes[k - m] in t.deletes; }
    }
  }

  // ---- the whole transaction

  ghost predicate Named(ts: seq<TableChange>, n: Name) { exists i :: 0 <= i < |ts| && ts[i].name == n }

  ghost predicate Distinct(ts: seq<TableChange>) { forall i, j {:trigger ts[i], ts[j]} :: 0 <= i < j < |ts| ==> ts[i].name != ts[j].name }

  ghost predicate Changed(cs: seq<FileChange>, n: Name) { exists i :: 0 <= i < |cs| && cs[i].name == n }

  /** g is f with the tables saved, and no other file changed. */
  ghost predicate TablesSaved(ts: seq<TableChange>, f: Files, g: Files) {
    && (forall i {:trigger ts[i]} :: 0 <= i < |ts| ==>
          ts[i].name in g && (!ts[i].isNew ==> ts[i].name in f) && Saved(ts[i], if ts[i].isNew then [] else f[ts[i].name], g[ts[i].name]))
    && forall n {:trigger Named(ts, n)} :: !Named(ts, n) ==> Look(g, n) == Look(f, n)
  }

  lemma {:induction false} TablesReplay(ts: seq<TableChange>, id: Word, files: Files) returns (g: Files)
    requires Distinct(ts) && forall i {:trigger ts[i]} :: 0 <= i < |ts| ==> Separate(ts[i]) && (!ts[i].isNew ==> ts[i].name in files)
    ensures Replay(Ops(TablesLog(ts, id)), files) == Some(g) && TablesSaved(ts, files, g)
    decreases |ts|
  {
    hide Separate, Saved, TableLog, Ranges;
    if ts == [] {
      g := files;
      assert Ops(TablesLog(ts, id)) == [];
    } else {
      var front, t := ts[..|ts| - 1], Last(ts);
      assert Separate(ts[|ts| - 1]);
      forall i | 0 <= i < |front| ensures Separate(front[i]) && (!front[i].isNew ==> front[i].name in files) { assert front[i] == ts[i]; }
      var h := TablesReplay(front, id, files);
      OpsJoin(TablesLog(front, id), TableLog(t, id));
      ReplayJoin(Ops(TablesLog(front, id)), Ops(TableLog(t, id)), files);
      NotBefore(ts);
      assert Look(h, t.name) == Look(files, t.name);
      TableReplay(t, id, h);
      TableSaved(t, Before(t, h));
      g := h[t.name := Overlaid(Before(t, h), Ranges(t))];
      OneMoreSaved(ts, files, h, g);
    }
  }

  lemma NotBefore(ts: seq<TableChange>)
    requires ts != [] && Distinct(ts)
    ensures !Named(ts[..|ts| - 1], Last(ts).name) && Distinct(ts[..|ts| - 1])
  {
    var front := ts[..|ts| - 1];
    forall i, j | 0 <= i < j < |front| ensures front[i].name != front[j].name { assert front[i] == ts[i] && front[j] == ts[j]; }
    forall i | 0 <= i < |front| ensures front[i].name != Last(ts).name { assert front[i] == ts[i] && ts[|ts| - 1] == Last(ts); }
  }

  lemma OneMoreSaved(ts: seq<TableChange>, f: Files, h: Files, g: Files)
    requires ts != [] && Distinct(ts) && TablesSaved(ts[..|ts| - 1], f, h)
    requires var t := Last(ts); t.name in g && g == h[t.name := g[t.name]] && (!t.isNew ==> t.name in f) && Saved(t, if t.isNew then [] else f[t.name], g[t.name])
    ensures TablesSaved(ts, f, g)
  {
    hide Saved;
    var front := ts[..|ts| - 1];
    forall i | 0 <= i < |ts| ensures ts[i].name in g && (!ts[i].isNew ==> ts[i].name in f) && Saved(ts[i], if ts[i].isNew then [] else f[ts[i].name], g[ts[i].name]) {
      if i < |front| { assert front[i] == ts[i] && ts[i].name != ts[|ts| - 1].name; }
    }
    forall n | !Named(ts, n) ensures Look(g, n) == Look(f, n) {
      assert ts[|ts| - 1].name != n;
      forall i | 0 <= i < |front| ensures front[i].name != n { assert front[i] == ts[i]; }
      assert !Named(front, n);
    }
  }

  /** g is f with files rewritten or dropped: of each the last change counts, and no other file changes. */
  ghost predicate FilesChanged(cs: seq<FileChange>, f: Files, g: Files) {
    && (forall i {:trigger cs[i]} :: 0 <= i < |cs| && !Changed(cs[i + 1..], cs[i].name) ==>
          Look(g, cs[i].name) == match cs[i] case Rewrite(_, bytes) => Some(bytes) case Drop(_) => None)
    && forall n {:trigger Changed(cs, n)} :: !Changed(cs, n) ==> Look(g, n) == Look(f, n)
  }

  lemma {:induction false} FilesReplay(cs: seq<FileChange>, files: Files) returns (g: Files)
    ensures Replay(FilesOps(cs), files) == Some(g) && FilesChanged(cs, files, g)
    decreases |cs|
  {
    if cs == [] {
      g := files;
    } else {
      var front, c := cs[..|cs| - 1], Last(cs);
      var h := FilesReplay(front, files);
      ReplayJoin(FilesOps(front), FileOps(c), files);
      g := OneFile(c, h);
      OneMoreChanged(cs, files, h, g);
    }
  }

  lemma OneFile(c: FileChange, files: Files) returns (g: Files)
    ensures Replay(FileOps(c), files) == Some(g)
    ensures forall n {:trigger Look(g, n)} :: n != c.name ==> Look(g, n) == Look(files, n)
    ensures Look(g, c.name) == match c case Rewrite(_, bytes) => Some(bytes) case Drop(_) => None
  {
    hide Overlay;
    if c.Drop? {
      g := files - {c.name};
      assert FileOps(c)[1..] == [];
    } else {
      var write := Write(c.name, 0, c.bytes);
      g := files[c.name := c.bytes];
      assert FileOps(c) == [Create(c.name)] + [write];
      Created(c.name, [write], files);
      WrittenWhole(c.name, c.bytes, files[c.name := []]);
      assert files[c.name := []][c.name := c.bytes] == g;
    }
  }

  lemma OneMoreChanged(cs: seq<FileChange>, f: Files, h: Files, g: Files)
    requires cs != [] && FilesChanged(cs[..|cs| - 1], f, h)
    requires forall n {:trigger Look(g, n)} :: n != Last(cs).name ==> Look(g, n) == Look(h, n)
    requires Look(g, Last(cs).name) == match Last(cs) case Rewrite(_, bytes) => Some(bytes) case Drop(_) => None
    ensures FilesChanged(cs, f, g)
  {
    var front, last := cs[..|cs| - 1], |cs| - 1;
    forall i | 0 <= i < |cs| && !Changed(cs[i + 1..], cs[i].name)
      ensures Look(g, cs[i].name) == match cs[i] case Rewrite(_, bytes) => Some(bytes) case Drop(_) => None
    {
      if i < last {
        assert cs[i + 1..][last - i - 1] == Last(cs) && front[i] == cs[i];
        var rest := front[i + 1..];
        forall j | 0 <= j < |rest| ensures rest[j].name != cs[i].name { assert rest[j] == cs[i + 1..][j]; }
        assert !Changed(rest, front[i].name);
      }
    }
    forall n | !Changed(cs, n) ensures Look(g, n) == Look(f, n) {
      assert cs[last].name != n;
      forall i | 0 <= i < |front| ensures front[i].name != n { assert front[i] == cs[i]; }
      assert !Changed(front, n);
    }
  }

  /** What a commit does to the files: every table's file has everything that was pending for it, every other file that was to be
      rewritten holds just that, every file that was to be dropped is gone, and nothing else has changed. Redoing the log does the
      same. */
  lemma CommitSaves(t: Txn, id: Word, files: Files) returns (mid: Files, g: Files)
    requires Sensible(t, files) && Distinct(t.tables) && forall i {:trigger t.tables[i]} :: 0 <= i < |t.tables| ==> Separate(t.tables[i])
    ensures Replay(TxnOps(t, id), files) == Some(g) == Replay(Ops(TxnLog(t, id)), files)
    ensures TablesSaved(t.tables, files, mid) && FilesChanged(t.changes, mid, g)
  {
    hide Separate, TablesSaved, FilesChanged, TablesLog, FilesOps, TxnLog;
    mid := TablesReplay(t.tables, id, files);
    g := FilesReplay(t.changes, mid);
    ReplayJoin(Ops(TablesLog(t.tables, id)), FilesOps(t.changes), files);
    CommitMatchesLog(t, id, files);
  }
}
