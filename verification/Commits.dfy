// What a commit logs, and what it then does to the files.
module Commits {
  import opened Base
  import opened Words
  import opened LogCodec
  import opened Redo

  function OpOf(e: Entry): Op {
    match e.kind
    case CreateFile => Create(e.name)
    case RemoveFile => Remove(e.name)
    case _ => Write(e.name, e.addr, e.payload)
  }

  function Ops(entries: seq<Entry>): (r: seq<Op>)
    ensures |r| == |entries| && forall i :: 0 <= i < |r| ==> r[i] == OpOf(entries[i])
  {
    seq(|entries|, i requires 0 <= i < |entries| => OpOf(entries[i]))
  }

  lemma OpsJoin(a: seq<Entry>, b: seq<Entry>)
    ensures Ops(a + b) == Ops(a) + Ops(b)
  {
  }

  /** A table's pending changes: its pages, nodes and delete markers by address, and its header. */
  datatype TableChange = TableChange(name: Name, isNew: bool, pages: seq<(nat, Bytes)>, nodes: seq<(nat, Bytes)>, deletes: seq<nat>, meta: Bytes)

  /** A file rewritten in full, or removed. */
  datatype FileChange = Rewrite(name: Name, bytes: Bytes) | Drop(name: Name)

  datatype Txn = Txn(tables: seq<TableChange>, changes: seq<FileChange>)

  const GARBAGE: Bytes := [2]

  function Objects(kind: Kind, id: Word, name: Name, objects: seq<(nat, Bytes)>): (r: seq<Entry>)
    ensures |r| == |objects| && forall i :: 0 <= i < |r| ==> r[i] == Entry(kind, id, name, objects[i].0, objects[i].1)
  {
    seq(|objects|, i requires 0 <= i < |objects| => Entry(kind, id, name, objects[i].0, objects[i].1))
  }

  function Deletes(id: Word, name: Name, addrs: seq<nat>): (r: seq<Entry>)
    ensures |r| == |addrs| && forall i :: 0 <= i < |r| ==> r[i] == Entry(WriteDelete, id, name, addrs[i], GARBAGE)
  {
    seq(|addrs|, i requires 0 <= i < |addrs| => Entry(WriteDelete, id, name, addrs[i], GARBAGE))
  }

  /** A table's changes as they are logged: its file first if it is new, its header last. */
  function TableLog(t: TableChange, id: Word): seq<Entry> {
    (if t.isNew then [Entry(CreateFile, id, t.name, 0, [])] else [])
    + Objects(WritePage, id, t.name, t.pages) + Objects(WriteNode, id, t.name, t.nodes) + Deletes(id, t.name, t.deletes)
    + [Entry(WriteMeta, id, t.name, 0, t.meta)]
  }

  /** The bytes of a file from off on, a page at a time. */
  function Chunks(name: Name, bytes: Bytes, off: nat, id: Word): seq<Entry>
    decreases |bytes| - off
  {
    if off >= |bytes| then []
    else
      var n := if |bytes| - off < PAGE_SIZE then |bytes| - off else PAGE_SIZE;
      [Entry(WriteData, id, name, off, bytes[off..off + n])] + Chunks(name, bytes, off + PAGE_SIZE, id)
  }

  function FileLog(c: FileChange, id: Word): seq<Entry> {
    match c
    case Drop(n) => [Entry(RemoveFile, id, n, 0, [])]
    case Rewrite(n, bytes) => [Entry(CreateFile, id, n, 0, [])] + Chunks(n, bytes, 0, id)
  }

  /** Logs a whole-file change. */
  method LogFileChange(c: FileChange, id: Word) returns (entries: seq<Entry>)
    ensures entries == FileLog(c, id)
  {
    if c.Drop? { return [Entry(RemoveFile, id, c.name, 0, [])]; }
    entries := [Entry(CreateFile, id, c.name, 0, [])];
    var off := 0;
    while off < |c.bytes|
      invariant entries + Chunks(c.name, c.bytes, off, id) == FileLog(c, id)
      decreases |c.bytes| - off
    {
      var n := if |c.bytes| - off < PAGE_SIZE then |c.bytes| - off else PAGE_SIZE;
      entries := entries + [Entry(WriteData, id, c.name, off, c.bytes[off..off + n])];
      off := off + PAGE_SIZE;
    }
  }

  function TablesLog(ts: seq<TableChange>, id: Word): seq<Entry> {
    if ts == [] then [] else TablesLog(ts[..|ts| - 1], id) + TableLog(Last(ts), id)
  }

  function FilesLog(cs: seq<FileChange>, id: Word): seq<Entry> {
    if cs == [] then [] else FilesLog(cs[..|cs| - 1], id) + FileLog(Last(cs), id)
  }

  function TxnLog(t: Txn, id: Word): seq<Entry> { TablesLog(t.tables, id) + FilesLog(t.changes, id) }

  // ---- what is done to the files after the commit point

  function FileOps(c: FileChange): seq<Op> {
    match c case Drop(n) => [Remove(n)] case Rewrite(n, bytes) => [Create(n), Write(n, 0, bytes)]
  }

  function FilesOps(cs: seq<FileChange>): seq<Op> {
    if cs == [] then [] else FilesOps(cs[..|cs| - 1]) + FileOps(Last(cs))
  }

  /** Tables are written object by object, as they were logged; other files in one go. */
  function TxnOps(t: Txn, id: Word): seq<Op> { Ops(TablesLog(t.tables, id)) + FilesOps(t.changes) }

  lemma {:induction false} ChunksWrite(name: Name, bytes: Bytes, off: nat, id: Word, files: Files)
    requires name in files && files[name] == bytes[..if off < |bytes| then off else |bytes|]
    ensures Replay(Ops(Chunks(name, bytes, off, id)), files) == Some(files[name := bytes])
    decreases |bytes| - off
  {
    var ops := Ops(Chunks(name, bytes, off, id));
    if off >= |bytes| {
      assert bytes[..|bytes|] == bytes;
      assert files[name := bytes] == files;
    } else {
      var n := if |bytes| - off < PAGE_SIZE then |bytes| - off else PAGE_SIZE;
      assert bytes[..off] + bytes[off..off + n] == bytes[..off + n] && bytes[..off][..off] == bytes[..off];
      var next := files[name := bytes[..off + n]];
      assert Apply(ops[0], files) == Some(next);
      assert ops[1..] == Ops(Chunks(name, bytes, off + PAGE_SIZE, id));
      ChunksWrite(name, bytes, off + PAGE_SIZE, id, next);
      assert next[name := bytes] == files[name := bytes];
    }
  }

  lemma FileMatches(c: FileChange, id: Word, files: Files)
    ensures Replay(Ops(FileLog(c, id)), files) == Replay(FileOps(c), files)
  {
    hide Overlay, Chunks;
    if c.Drop? {
      assert Ops(FileLog(c, id)) == FileOps(c);
    } else {
      var chunks, f := Ops(Chunks(c.name, c.bytes, 0, id)), files[c.name := []];
      var write := Write(c.name, 0, c.bytes);
      assert Ops(FileLog(c, id)) == [Create(c.name)] + chunks && FileOps(c) == [Create(c.name)] + [write];
      Created(c.name, chunks, files);
      Created(c.name, [write], files);
      ChunksWrite(c.name, c.bytes, 0, id, f);
      WrittenWhole(c.name, c.bytes, f);
      assert f[c.name := c.bytes] == files[c.name := c.bytes];
    }
  }

  lemma Created(n: Name, rest: seq<Op>, files: Files)
    ensures Replay([Create(n)] + rest, files) == Replay(rest, files[n := []])
  {
    assert ([Create(n)] + rest)[1..] == rest;
  }

  lemma WrittenWhole(n: Name, bytes: Bytes, f: Files)
    requires n in f && f[n] == []
    ensures Replay([Write(n, 0, bytes)], f) == Some(f[n := bytes])
  {
    assert Overlay([], 0, bytes) == bytes;
    assert [Write(n, 0, bytes)][1..] == [];
    assert Replay([], f[n := bytes]) == Some(f[n := bytes]);
  }

  lemma {:induction false} FilesMatch(cs: seq<FileChange>, id: Word, files: Files)
    ensures Replay(Ops(FilesLog(cs, id)), files) == Replay(FilesOps(cs), files)
  {
    if cs == [] {
      assert Ops(FilesLog(cs, id)) == FilesOps(cs);
    } else {
      var front := cs[..|cs| - 1];
      FilesMatch(front, id, files);
      OpsJoin(FilesLog(front, id), FileLog(Last(cs), id));
      ReplayJoin(Ops(FilesLog(front, id)), Ops(FileLog(Last(cs), id)), files);
      ReplayJoin(FilesOps(front), FileOps(Last(cs)), files);
      var after := Replay(FilesOps(front), files);
      if after.Some? { FileMatches(Last(cs), id, after.value); }
    }
  }

  /** A commit does to the files exactly what redoing its log would. */
  lemma CommitMatchesLog(t: Txn, id: Word, files: Files)
    ensures Replay(TxnOps(t, id), files) == Replay(Ops(TxnLog(t, id)), files)
  {
    OpsJoin(TablesLog(t.tables, id), FilesLog(t.changes, id));
    ReplayJoin(Ops(TablesLog(t.tables, id)), Ops(FilesLog(t.changes, id)), files);
    ReplayJoin(Ops(TablesLog(t.tables, id)), FilesOps(t.changes), files);
    var after := Replay(Ops(TablesLog(t.tables, id)), files);
    if after.Some? { FilesMatch(t.changes, id, after.value); }
  }

  // ---- what of it reaches the disk

  /** What is in place of c once the first off bytes are as in d. */
  function Mixed(c: Bytes, d: Bytes, off: nat): (m: Bytes)
    requires |c| <= |d|
    ensures |m| == if |c| >= off then |c| else if |d| <= off then |d| else off
    ensures forall i :: 0 <= i < |m| ==> m[i] == if i < off then d[i] else c[i]
  {
    if |d| <= off then d[..if |c| >= off then |c| else |d|] else if |c| <= off then d[..off] else d[..off] + c[off..]
  }

  lemma ChunkTorn(c: Bytes, d: Bytes, bytes: Bytes, off: nat, n: nat)
    requires Torn(c, d, 0, bytes) && off + n <= |bytes|
    ensures Torn(Mixed(c, d, off), Mixed(c, d, off + n), off, bytes[off..off + n])
  {
    hide Mixed, Overlay;
    var x, y, chunk := Mixed(c, d, off), Mixed(c, d, off + n), bytes[off..off + n];
    assert |x| <= |y| <= |Overlay(x, off, chunk)|;
    forall i | 0 <= i < |y| ensures y[i] == At(x, i) || (off <= i < off + n && y[i] == chunk[i - off]) {
      if off <= i < off + n { assert y[i] == d[i] && At(x, i) == At(c, i); }
    }
  }

  /** Any part of a file's bytes is made up of parts of the chunks they are logged in. */
  lemma {:induction false} ChunksReach(name: Name, bytes: Bytes, off: nat, id: Word, f: Files, c: Bytes, d: Bytes, ops: seq<Op>)
    requires Torn(c, d, 0, bytes)
    requires forall op :: op in Ops(Chunks(name, bytes, off, id)) ==> op in ops
    requires name in f && Reached(ops, f, f[name := Mixed(c, d, off)])
    ensures Reached(ops, f, f[name := d])
    decreases |bytes| - off
  {
    hide Torn, Reached, Mixed, Fragment, Chunks, Ops;
    TornLonger(c, d, bytes);
    ChunksNext(name, bytes, off, id);
    if off >= |bytes| {
      MixedWhole(c, d, bytes, off);
    } else {
      var n := if |bytes| - off < PAGE_SIZE then |bytes| - off else PAGE_SIZE;
      var op := Write(name, off, bytes[off..off + n]);
      assert op in ops;
      var k :| 0 <= k < |ops| && ops[k] == op;
      ChunkTorn(c, d, bytes, off, n);
      MixedNext(c, d, bytes, off, n);
      ChunkFragment(op, f, Mixed(c, d, off), Mixed(c, d, off + n));
      ReachedNext(ops, f, f[name := Mixed(c, d, off)], f[name := Mixed(c, d, off + n)], k);
      ChunksReach(name, bytes, off + PAGE_SIZE, id, f, c, d, ops);
    }
  }

  lemma TornLonger(c: Bytes, d: Bytes, bytes: Bytes)
    requires Torn(c, d, 0, bytes)
    ensures |c| <= |d|
  {
  }

  lemma ChunksNext(name: Name, bytes: Bytes, off: nat, id: Word)
    ensures off < |bytes| ==>
              var n := if |bytes| - off < PAGE_SIZE then |bytes| - off else PAGE_SIZE;
              && Write(name, off, bytes[off..off + n]) in Ops(Chunks(name, bytes, off, id))
              && forall op :: op in Ops(Chunks(name, bytes, off + PAGE_SIZE, id)) ==> op in Ops(Chunks(name, bytes, off, id))
  {
    if off < |bytes| {
      var all := Ops(Chunks(name, bytes, off, id));
      assert all[1..] == Ops(Chunks(name, bytes, off + PAGE_SIZE, id));
      assert all[0] in all;
    }
  }

  lemma ChunkFragment(op: Op, f: Files, c: Bytes, d: Bytes)
    requires op.Write? && Torn(c, d, op.addr, op.bytes)
    ensures Fragment(op, f[op.name := c], f[op.name := d])
  {
  }

  lemma MixedWhole(c: Bytes, d: Bytes, bytes: Bytes, off: nat)
    requires Torn(c, d, 0, bytes) && off >= |bytes|
    ensures Mixed(c, d, off) == d
  {
  }

  lemma MixedNext(c: Bytes, d: Bytes, bytes: Bytes, off: nat, n: nat)
    requires Torn(c, d, 0, bytes) && n == if |bytes| - off < PAGE_SIZE then |bytes| - off else PAGE_SIZE
    requires off < |bytes|
    ensures Mixed(c, d, off + PAGE_SIZE) == Mixed(c, d, off + n)
  {
    if n < PAGE_SIZE {
      MixedWhole(c, d, bytes, off + PAGE_SIZE);
      MixedWhole(c, d, bytes, off + n);
    }
  }

  lemma FileReach(c: FileChange, id: Word, k: nat, f: Files, g: Files, ops: seq<Op>)
    requires k < |FileOps(c)| && Fragment(FileOps(c)[k], f, g) && forall op :: op in Ops(FileLog(c, id)) ==> op in ops
    ensures Reached(ops, f, g)
  {
    var op, log := FileOps(c)[k], Ops(FileLog(c, id));
    if op.Write? {
      if Look(g, c.name) == Look(f, c.name) {
        forall n ensures Look(f, n) == Look(g, n) { assert FragmentTo(op, n, Look(f, n), Look(g, n)); }
        SameFiles(f, g);
        ReachedStart(ops, f);
      } else {
        assert FragmentTo(op, c.name, Look(f, c.name), Look(g, c.name));
        assert log[1..] == Ops(Chunks(c.name, c.bytes, 0, id));
        forall n ensures Look(f[c.name := g[c.name]], n) == Look(g, n) { assert FragmentTo(op, n, Look(f, n), Look(g, n)); }
        SameFiles(f[c.name := g[c.name]], g);
        assert Mixed(f[c.name], g[c.name], 0) == f[c.name];
        assert f[c.name := Mixed(f[c.name], g[c.name], 0)] == f;
        ReachedStart(ops, f);
        ChunksReach(c.name, c.bytes, 0, id, f, f[c.name], g[c.name], ops);
      }
    } else {
      assert log[0] == op && op in log && op in ops;
      var i :| 0 <= i < |ops| && ops[i] == op;
      FragmentReached(ops, i, f, g);
    }
  }

  lemma {:induction false} FilesReach(cs: seq<FileChange>, id: Word, k: nat, f: Files, g: Files, ops: seq<Op>)
    requires k < |FilesOps(cs)| && Fragment(FilesOps(cs)[k], f, g) && forall op :: op in Ops(FilesLog(cs, id)) ==> op in ops
    ensures Reached(ops, f, g)
  {
    hide Fragment, Reached;
    var front := cs[..|cs| - 1];
    OpsJoin(FilesLog(front, id), FileLog(Last(cs), id));
    if k < |FilesOps(front)| {
      FilesReach(front, id, k, f, g, ops);
    } else {
      FileReach(Last(cs), id, k - |FilesOps(front)|, f, g, ops);
    }
  }

  /** Whatever a commit's writes leave on the disk, the operations of its log could have: a file that is written in one go is logged
      a page at a time, but no part of that write is anything but parts of those. */
  lemma CommitLandsAsLogged(t: Txn, id: Word, f: Files, g: Files)
    requires Reached(TxnOps(t, id), f, g)
    ensures Reached(Ops(TxnLog(t, id)), f, g)
  {
    hide Fragment, Reached, Landing, TablesLog, FilesLog, FilesOps;
    var ops, log := TxnOps(t, id), Ops(TxnLog(t, id));
    OpsJoin(TablesLog(t.tables, id), FilesLog(t.changes, id));
    var states := LandingStates(ops, f, g);
    forall k, a, b | 0 <= k < |ops| && Fragment(ops[k], a, b) ensures Reached(log, a, b) {
      var n := |Ops(TablesLog(t.tables, id))|;
      if k < n { FragmentReached(log, k, a, b); } else { FilesReach(t.changes, id, k - n, a, b, log); }
    }
    ReachedBy(ops, log, states);
  }

  // ---- logs that commits write can be redone

  ghost predicate Written(t: Txn, n: Name) {
    || (exists i {:trigger t.tables[i]} :: 0 <= i < |t.tables| && t.tables[i].name == n)
    || (exists i {:trigger t.changes[i]} :: 0 <= i < |t.changes| && t.changes[i].Rewrite? && t.changes[i].name == n)
  }

  ghost predicate Dropped(t: Txn, n: Name) { Drop(n) in t.changes }

  /** No file is both written and removed, and the tables that aren't new have files. */
  ghost predicate Sensible(t: Txn, files: Files) {
    && (forall n {:trigger Dropped(t, n)} :: Dropped(t, n) ==> !Written(t, n))
    && forall i {:trigger t.tables[i]} :: 0 <= i < |t.tables| && !t.tables[i].isNew ==> t.tables[i].name in files
  }

  /** Every write is to a file that is there, or that the log has created by then, and that it doesn't remove. */
  ghost predicate Safe(ops: seq<Op>, files: Files) {
    forall i {:trigger ops[i]} :: 0 <= i < |ops| && ops[i].Write? ==>
      && !Removes(ops, ops[i].name)
      && (ops[i].name in files || exists j {:trigger ops[j]} :: 0 <= j < i && ops[j] == Create(ops[i].name))
  }

  lemma {:induction false} SafeReplays(ops: seq<Op>, files: Files)
    requires Safe(ops, files)
    ensures Replay(ops, files).Some? && WellFormed(ops)
  {
    if ops != [] {
      var op, rest := ops[0], ops[1..];
      assert op.Write? ==> op.name in files;
      var after := Apply(op, files).value;
      forall i | 0 <= i < |rest| && rest[i].Write?
        ensures !Removes(rest, rest[i].name)
        ensures rest[i].name in after || exists j {:trigger rest[j]} :: 0 <= j < i && rest[j] == Create(rest[i].name)
      {
        var n := rest[i].name;
        assert ops[i + 1] == rest[i];
        assert op != Remove(n);
        RestRemoves(ops, n);
        if n !in files && op != Create(n) {
          var j :| 0 <= j < i + 1 && ops[j] == Create(n);
          assert rest[j - 1] == ops[j];
        }
      }
      SafeReplays(rest, after);
    }
  }

  ghost predicate Creates(ops: seq<Op>, n: Name, before: int) { exists j {:trigger ops[j]} :: 0 <= j < before <= |ops| && ops[j] == Create(n) }

  /** The operations in a run of blocks, each of one table or file: only a dropped file's removes, and the others' writes find
      their file. */
  ghost predicate Block(ops: seq<Op>, t: Txn, files: Files) {
    forall i {:trigger BlockAt(ops, t, files, i)} :: 0 <= i < |ops| ==> BlockAt(ops, t, files, i)
  }

  ghost predicate BlockAt(ops: seq<Op>, t: Txn, files: Files, i: int)
    requires 0 <= i < |ops|
  {
    match ops[i]
    case Create(n) => Written(t, n)
    case Remove(n) => Dropped(t, n)
    case Write(n, _, _) => Written(t, n) && (n in files || Creates(ops, n, i))
  }

  lemma BlockJoin(a: seq<Op>, b: seq<Op>, t: Txn, files: Files)
    requires Block(a, t, files) && Block(b, t, files)
    ensures Block(a + b, t, files)
  {
    var c := a + b;
    forall i | 0 <= i < |c| ensures BlockAt(c, t, files, i) {
      if i < |a| {
        assert a[i] == c[i] && BlockAt(a, t, files, i);
        if c[i].Write? && c[i].name !in files {
          var j :| 0 <= j < i && a[j] == Create(c[i].name);
          assert c[j] == a[j];
        }
      } else {
        assert b[i - |a|] == c[i] && BlockAt(b, t, files, i - |a|);
        if c[i].Write? && c[i].name !in files {
          var j :| 0 <= j < i - |a| && b[j] == Create(c[i].name);
          assert c[|a| + j] == b[j];
        }
      }
    }
  }

  lemma TableBlock(t: Txn, files: Files, i: nat, id: Word)
    requires Sensible(t, files) && i < |t.tables|
    ensures Block(Ops(TableLog(t.tables[i], id)), t, files)
  {
    var table := t.tables[i];
    var log := TableLog(table, id);
    var ops := Ops(log);
    assert Written(t, table.name);
    assert table.isNew ==> ops[0] == Create(table.name);
    forall k | 0 <= k < |ops| ensures BlockAt(ops, t, files, k) {
      assert log[k].name == table.name && log[k].kind != RemoveFile;
      assert log[k].kind == CreateFile <==> table.isNew && k == 0;
    }
  }

  lemma {:induction false} ChunkNames(n: Name, bytes: Bytes, off: nat, id: Word)
    ensures forall k :: 0 <= k < |Chunks(n, bytes, off, id)| ==> Chunks(n, bytes, off, id)[k].kind == WriteData && Chunks(n, bytes, off, id)[k].name == n
    decreases |bytes| - off
  {
    if off < |bytes| { ChunkNames(n, bytes, off + PAGE_SIZE, id); }
  }

  lemma FileBlock(t: Txn, files: Files, i: nat, id: Word)
    requires i < |t.changes|
    ensures Block(Ops(FileLog(t.changes[i], id)), t, files)
  {
    var c := t.changes[i];
    if c.Rewrite? {
      assert Written(t, c.name);
      ChunkNames(c.name, c.bytes, 0, id);
      var ops := Ops(FileLog(c, id));
      assert ops[0] == Create(c.name);
      forall k | 0 <= k < |ops| ensures BlockAt(ops, t, files, k) { }
    } else {
      assert Dropped(t, c.name);
    }
  }

  lemma {:induction false} TablesBlock(t: Txn, files: Files, n: nat, id: Word)
    requires Sensible(t, files) && n <= |t.tables|
    ensures Block(Ops(TablesLog(t.tables[..n], id)), t, files)
  {
    if n > 0 {
      assert t.tables[..n][..n - 1] == t.tables[..n - 1];
      TablesBlock(t, files, n - 1, id);
      TableBlock(t, files, n - 1, id);
      OpsJoin(TablesLog(t.tables[..n - 1], id), TableLog(t.tables[n - 1], id));
      BlockJoin(Ops(TablesLog(t.tables[..n - 1], id)), Ops(TableLog(t.tables[n - 1], id)), t, files);
    }
  }

  lemma {:induction false} FilesBlock(t: Txn, files: Files, n: nat, id: Word)
    requires n <= |t.changes|
    ensures Block(Ops(FilesLog(t.changes[..n], id)), t, files)
  {
    if n > 0 {
      assert t.changes[..n][..n - 1] == t.changes[..n - 1];
      FilesBlock(t, files, n - 1, id);
      FileBlock(t, files, n - 1, id);
      OpsJoin(FilesLog(t.changes[..n - 1], id), FileLog(t.changes[n - 1], id));
      BlockJoin(Ops(FilesLog(t.changes[..n - 1], id)), Ops(FileLog(t.changes[n - 1], id)), t, files);
    }
  }

  /** What a sensible commit logs can be done, and redone after a crash. */
  lemma CommitsCanBeRedone(t: Txn, id: Word, files: Files)
    requires Sensible(t, files)
    ensures Replay(Ops(TxnLog(t, id)), files).Some? && WellFormed(Ops(TxnLog(t, id)))
  {
    assert t.tables[..|t.tables|] == t.tables && t.changes[..|t.changes|] == t.changes;
    TablesBlock(t, files, |t.tables|, id);
    FilesBlock(t, files, |t.changes|, id);
    OpsJoin(TablesLog(t.tables, id), FilesLog(t.changes, id));
    var ops := Ops(TxnLog(t, id));
    BlockJoin(Ops(TablesLog(t.tables, id)), Ops(FilesLog(t.changes, id)), t, files);
    forall i | 0 <= i < |ops| && ops[i].Write?
      ensures !Removes(ops, ops[i].name)
      ensures ops[i].name in files || exists j {:trigger ops[j]} :: 0 <= j < i && ops[j] == Create(ops[i].name)
    {
      assert BlockAt(ops, t, files, i);
      forall j | 0 <= j < |ops| ensures ops[j] != Remove(ops[i].name) { assert BlockAt(ops, t, files, j); }
    }
    SafeReplays(ops, files);
  }
}
