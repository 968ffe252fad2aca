// Redoing a log of file operations: where it leads from files that some part of it has already reached.
module Redo {
  import opened Base
  import opened Words

  type Name = Bytes

  type Files = map<Name, Bytes>

  datatype Op = Create(name: Name) | Remove(name: Name) | Write(name: Name, addr: nat, bytes: Bytes)

  /** c with bytes written at addr, which may be past its end. */
  function Overlay(c: Bytes, addr: nat, bytes: Bytes): (r: Bytes)
    ensures |r| == if bytes == [] then |c| else if |c| < addr + |bytes| then addr + |bytes| else |c|
    ensures forall i :: 0 <= i < |r| ==>
              r[i] == if addr <= i < addr + |bytes| then bytes[i - addr] else if i < |c| then c[i] else 0
  {
    if bytes == [] then c
    else if |c| < addr then c + Zeros(addr - |c|) + bytes
    else if |c| < addr + |bytes| then c[..addr] + bytes
    else c[..addr] + bytes + c[addr + |bytes|..]
  }

  function Apply(op: Op, files: Files): Option<Files> {
    match op
    case Create(n) => Some(files[n := []])
    case Remove(n) => Some(files - {n})
    case Write(n, addr, bytes) => if n in files then Some(files[n := Overlay(files[n], addr, bytes)]) else None
  }

  /** The files after every operation in turn, unless one writes to a file that isn't there. */
  function Replay(ops: seq<Op>, files: Files): Option<Files> {
    if ops == [] then Some(files)
    else match Apply(ops[0], files)
      case None => None
      case Some(f) => Replay(ops[1..], f)
  }

  // ---- one file at a time

  function Look(files: Files, n: Name): Option<Bytes> {
    if n in files then Some(files[n]) else None
  }

  datatype Track = Fails | Ends(c: Option<Bytes>)

  function ApplyTo(op: Op, n: Name, c: Option<Bytes>): Track {
    if op.name != n then Ends(c)
    else match op
      case Create(_) => Ends(Some([]))
      case Remove(_) => Ends(None)
      case Write(_, addr, bytes) => if c.Some? then Ends(Some(Overlay(c.value, addr, bytes))) else Fails
  }

  /** What the operations make of one file. */
  function ReplayTo(ops: seq<Op>, n: Name, c: Option<Bytes>): Track {
    if ops == [] then Ends(c)
    else match ApplyTo(ops[0], n, c)
      case Fails => Fails
      case Ends(d) => ReplayTo(ops[1..], n, d)
  }

  lemma {:induction false} ReplayByFile(ops: seq<Op>, files: Files, n: Name)
    ensures Replay(ops, files).Some? ==> ReplayTo(ops, n, Look(files, n)) == Ends(Look(Replay(ops, files).value, n))
  {
    if ops != [] && Apply(ops[0], files).Some? { ReplayByFile(ops[1..], Apply(ops[0], files).value, n); }
  }

  lemma {:induction false} ReplayFails(ops: seq<Op>, files: Files) returns (n: Name)
    requires Replay(ops, files) == None
    ensures ReplayTo(ops, n, Look(files, n)) == Fails
  {
    if Apply(ops[0], files) == None { n := ops[0].name; } else { n := ReplayFails(ops[1..], Apply(ops[0], files).value); }
  }

  lemma SameFiles(f: Files, g: Files)
    requires forall n :: Look(f, n) == Look(g, n)
    ensures f == g
  {
    forall n ensures n in f <==> n in g { assert Look(f, n) == Look(g, n); }
    forall n | n in f ensures f[n] == g[n] { assert Look(f, n) == Look(g, n); }
  }

  lemma {:induction false} ReplayJoin(a: seq<Op>, b: seq<Op>, files: Files)
    ensures Replay(a + b, files) == match Replay(a, files) case None => None case Some(f) => Replay(b, f)
  {
    if a == [] {
      assert a + b == b;
    } else {
      assert (a + b)[1..] == a[1..] + b;
      if Apply(a[0], files).Some? { ReplayJoin(a[1..], b, Apply(a[0], files).value); }
    }
  }

  // ---- what has reached the disk

  function At(c: Bytes, i: nat): Byte { if i < |c| then c[i] else 0 }

  /** d is c with some of the bytes of a write, in any order, and no others, in place. */
  ghost predicate Torn(c: Bytes, d: Bytes, addr: nat, bytes: Bytes) {
    && |c| <= |d| <= |Overlay(c, addr, bytes)|
    && forall i :: 0 <= i < |d| ==> d[i] == At(c, i) || (addr <= i < addr + |bytes| && d[i] == bytes[i - addr])
  }

  /** Some part of op, or nothing of it, has reached file n. */
  ghost predicate FragmentTo(op: Op, n: Name, c: Option<Bytes>, d: Option<Bytes>) {
    || d == c
    || (op.name == n && match op
          case Create(_) => d == Some([])
          case Remove(_) => d == None
          case Write(_, addr, bytes) => c.Some? && d.Some? && Torn(c.value, d.value, addr, bytes))
  }

  ghost predicate Fragment(op: Op, f: Files, g: Files) {
    forall n {:trigger Look(g, n)} :: FragmentTo(op, n, Look(f, n), Look(g, n))
  }

  /** Some part of one of the operations reached the disk. */
  ghost predicate Landed(ops: seq<Op>, f: Files, g: Files) {
    exists k {:trigger ops[k]} :: 0 <= k < |ops| && Fragment(ops[k], f, g)
  }

  /** The disk went through these states as parts of the operations reached it: in any order, any of them any number of times. */
  ghost predicate Landing(ops: seq<Op>, states: seq<Files>) {
    forall i {:trigger states[i]} :: 0 < i < |states| ==> Landed(ops, states[i - 1], states[i])
  }

  ghost predicate Reached(ops: seq<Op>, f: Files, g: Files) {
    exists states: seq<Files> :: |states| > 0 && states[0] == f && states[|states| - 1] == g && Landing(ops, states)
  }

  lemma LandingStates(ops: seq<Op>, f: Files, g: Files) returns (states: seq<Files>)
    requires Reached(ops, f, g)
    ensures |states| > 0 && states[0] == f && states[|states| - 1] == g && Landing(ops, states)
  {
    states :| |states| > 0 && states[0] == f && states[|states| - 1] == g && Landing(ops, states);
  }

  lemma ReachedStart(ops: seq<Op>, f: Files)
    ensures Reached(ops, f, f)
  {
    assert Landing(ops, [f]);
    var states := [f];
    assert states[0] == f && states[|states| - 1] == f;
  }

  lemma ReachedNext(ops: seq<Op>, f: Files, g: Files, h: Files, k: nat)
    requires Reached(ops, f, g) && k < |ops| && Fragment(ops[k], g, h)
    ensures Reached(ops, f, h)
  {
    var states: seq<Files> :| |states| > 0 && states[0] == f && states[|states| - 1] == g && Landing(ops, states);
    var more := states + [h];
    assert Landed(ops, g, h);
    forall i | 0 < i < |more| ensures Landed(ops, more[i - 1], more[i]) {
      if i < |states| { assert more[i] == states[i]; }
    }
    assert more[0] == f && more[|more| - 1] == h;
  }

  /** What some operations reach, others reach that can do every part of those. */
  lemma {:induction false} ReachedBy(ops: seq<Op>, others: seq<Op>, states: seq<Files>)
    requires |states| > 0 && Landing(ops, states)
    requires forall k, f, g {:trigger Fragment(ops[k], f, g)} :: 0 <= k < |ops| && Fragment(ops[k], f, g) ==> Reached(others, f, g)
    ensures Reached(others, states[0], states[|states| - 1])
  {
    var last := |states| - 1;
    if last == 0 {
      ReachedStart(others, states[0]);
    } else {
      var before := states[..last];
      forall i | 0 < i < |before| ensures Landed(ops, before[i - 1], before[i]) { assert states[i] == before[i]; }
      hide Fragment, Reached;
      ReachedBy(ops, others, before);
      var k :| 0 <= k < |ops| && Fragment(ops[k], states[last - 1], states[last]);
      ReachedAfter(others, states[0], states[last - 1], states[last]);
    }
  }

  lemma ReachedAfter(ops: seq<Op>, f: Files, g: Files, h: Files)
    requires Reached(ops, f, g) && Reached(ops, g, h)
    ensures Reached(ops, f, h)
  {
    var a: seq<Files> :| |a| > 0 && a[0] == f && a[|a| - 1] == g && Landing(ops, a);
    var b: seq<Files> :| |b| > 0 && b[0] == g && b[|b| - 1] == h && Landing(ops, b);
    var c := a + b[1..];
    forall i | 0 < i < |c| ensures Landed(ops, c[i - 1], c[i]) {
      if i >= |a| { assert c[i] == b[i - |a| + 1] && c[i - 1] == b[i - |a|]; }
    }
    assert c[0] == f && c[|c| - 1] == h;
  }

  lemma FragmentReached(ops: seq<Op>, k: nat, f: Files, g: Files)
    requires k < |ops| && Fragment(ops[k], f, g)
    ensures Reached(ops, f, g)
  {
    ReachedStart(ops, f);
    ReachedNext(ops, f, f, g, k);
  }

  lemma ApplyIsFragment(op: Op, f: Files)
    requires Apply(op, f).Some?
    ensures Fragment(op, f, Apply(op, f).value)
  {
  }

  /** Making the operations in turn is one way for them to land. */
  lemma {:induction false} ReplayReached(ops: seq<Op>, i: nat, f: Files, g: Files)
    requires i <= |ops| && Reached(ops, f, g) && Replay(ops[i..], g).Some?
    ensures Reached(ops, f, Replay(ops[i..], g).value)
    decreases |ops| - i
  {
    if i < |ops| {
      ApplyIsFragment(ops[i], g);
      var h := Apply(ops[i], g).value;
      ReachedNext(ops, f, g, h, i);
      assert ops[i..][1..] == ops[i + 1..];
      ReplayReached(ops, i + 1, f, h);
    }
  }

  // ---- logs that can be redone

  /** Before the first write to a file that the log removes, it has created or removed it. */
  ghost predicate WellFormed(ops: seq<Op>) { forall n {:trigger Removes(ops, n)} :: Removes(ops, n) ==> TouchedFirst(ops, n) }

  ghost predicate TouchedFirst(ops: seq<Op>, n: Name) {
    forall i {:trigger ops[i]} :: 0 <= i < |ops| && ops[i].Write? && ops[i].name == n ==> TouchedBefore(ops, n, i)
  }

  ghost predicate TouchedBefore(ops: seq<Op>, n: Name, i: int) { exists j {:trigger ops[j]} :: 0 <= j < i <= |ops| && !ops[j].Write? && ops[j].name == n }

  ghost predicate Removes(ops: seq<Op>, n: Name) { exists i :: 0 <= i < |ops| && ops[i] == Remove(n) }

  ghost predicate Touches(ops: seq<Op>, n: Name) { exists i :: 0 <= i < |ops| && !ops[i].Write? && ops[i].name == n }

  ghost predicate Covers(op: Op, n: Name, i: int) {
    op.Write? && op.name == n && op.addr <= i < op.addr + |op.bytes|
  }

  ghost predicate Covered(ops: seq<Op>, n: Name, i: int) { exists k :: 0 <= k < |ops| && Covers(ops[k], n, i) }

  /** How long the writes to n make it at least. */
  function Extent(ops: seq<Op>, n: Name): nat {
    if ops == [] then 0
    else
      var rest, op := Extent(ops[1..], n), ops[0];
      if op.Write? && op.name == n && op.bytes != [] && op.addr + |op.bytes| > rest then op.addr + |op.bytes| else rest
  }

  function Longer(a: nat, b: nat): nat { if a < b then b else a }

  lemma {:induction false} ExtentOf(ops: seq<Op>, n: Name, k: nat)
    requires k < |ops| && ops[k].Write? && ops[k].name == n && ops[k].bytes != []
    ensures ops[k].addr + |ops[k].bytes| <= Extent(ops, n)
  {
    if k > 0 { ExtentOf(ops[1..], n, k - 1); }
  }

  /** c and d differ only where the writes to n will write. */
  ghost predicate Agree(ops: seq<Op>, n: Name, c: Bytes, d: Bytes) {
    && Longer(|c|, Extent(ops, n)) == Longer(|d|, Extent(ops, n))
    && forall i: nat {:trigger Covered(ops, n, i)} :: !Covered(ops, n, i) ==> At(c, i) == At(d, i)
  }

  /** What landing keeps of file n: all of it that isn't written to if it is only written to, and its being there, unless it
      is removed. */
  ghost predicate Near(ops: seq<Op>, n: Name, c: Option<Bytes>, d: Option<Bytes>) {
    if !Touches(ops, n) then c.Some? == d.Some? && (c.Some? ==> Agree(ops, n, c.value, d.value))
    else !Removes(ops, n) && c.Some? ==> d.Some?
  }

  lemma NearStep(ops: seq<Op>, n: Name, c: Option<Bytes>, d: Option<Bytes>, e: Option<Bytes>, k: nat)
    requires Near(ops, n, c, d) && k < |ops| && FragmentTo(ops[k], n, d, e)
    ensures Near(ops, n, c, e)
  {
    if d != e && !Touches(ops, n) {
      var op := ops[k];
      if op.bytes != [] { ExtentOf(ops, n, k); }
      forall i: nat | !Covered(ops, n, i) ensures At(c.value, i) == At(e.value, i) {
        assert !Covers(op, n, i);
      }
    }
  }

  lemma {:induction false} ReachedNear(ops: seq<Op>, f: Files, states: seq<Files>, n: Name)
    requires |states| > 0 && states[0] == f && Landing(ops, states)
    ensures Near(ops, n, Look(f, n), Look(states[|states| - 1], n))
  {
    var last := |states| - 1;
    if last > 0 {
      var before := states[..last];
      forall i | 0 < i < |before| ensures Landed(ops, before[i - 1], before[i]) { assert states[i] == before[i]; }
      ReachedNear(ops, f, before, n);
      var k :| 0 <= k < |ops| && Fragment(ops[k], states[last - 1], states[last]);
      NearStep(ops, n, Look(f, n), Look(states[last - 1], n), Look(states[last], n), k);
    }
  }

  lemma RestTouches(ops: seq<Op>, n: Name)
    requires ops != []
    ensures Touches(ops[1..], n) ==> Touches(ops, n)
  {
    var rest := ops[1..];
    if Touches(rest, n) {
      var i :| 0 <= i < |rest| && !rest[i].Write? && rest[i].name == n;
      assert ops[i + 1] == rest[i];
    }
  }

  /** Writes lead to the same from contents that differ only where they write. */
  lemma {:induction false} WritesConverge(ops: seq<Op>, n: Name, c: Bytes, d: Bytes)
    requires !Touches(ops, n) && Agree(ops, n, c, d)
    ensures ReplayTo(ops, n, Some(c)) == ReplayTo(ops, n, Some(d)) != Fails
  {
    if ops == [] {
      forall i | 0 <= i < |c| ensures c[i] == d[i] {
        assert !Covered(ops, n, i);
        assert c[i] == At(c, i) && d[i] == At(d, i);
      }
      assert c == d;
    } else {
      var op, rest := ops[0], ops[1..];
      RestTouches(ops, n);
      var c', d' := if op.name == n then Overlay(c, op.addr, op.bytes) else c, if op.name == n then Overlay(d, op.addr, op.bytes) else d;
      forall i: nat | !Covered(rest, n, i) ensures At(c', i) == At(d', i) {
        if !Covers(op, n, i) { NotCovered(ops, n, i); }
      }
      WritesConverge(rest, n, c', d');
    }
  }

  lemma NotCovered(ops: seq<Op>, n: Name, i: nat)
    requires ops != [] && !Covers(ops[0], n, i) && !Covered(ops[1..], n, i)
    ensures !Covered(ops, n, i)
  {
    forall k | 0 <= k < |ops| ensures !Covers(ops[k], n, i) {
      if k > 0 { assert ops[1..][k - 1] == ops[k]; }
    }
  }

  lemma RestRemoves(ops: seq<Op>, n: Name)
    requires ops != [] && ops[0] != Remove(n)
    ensures Removes(ops[1..], n) <==> Removes(ops, n)
  {
    var rest := ops[1..];
    if Removes(ops, n) {
      var j :| 0 <= j < |ops| && ops[j] == Remove(n);
      assert rest[j - 1] == ops[j];
    }
    if Removes(rest, n) {
      var j :| 0 <= j < |rest| && rest[j] == Remove(n);
      assert ops[j + 1] == rest[j];
    }
  }

  /** Once a file is created or removed, what it was no longer matters. */
  lemma {:induction false} TouchConverges(ops: seq<Op>, n: Name, c: Option<Bytes>, d: Option<Bytes>)
    requires (Removes(ops, n) ==> TouchedFirst(ops, n)) && Touches(ops, n) && ReplayTo(ops, n, c) != Fails
    requires !Removes(ops, n) && c.Some? ==> d.Some?
    ensures ReplayTo(ops, n, c) == ReplayTo(ops, n, d)
  {
    var op, rest := ops[0], ops[1..];
    var i :| 0 <= i < |ops| && !ops[i].Write? && ops[i].name == n;
    if i > 0 { assert rest[i - 1] == ops[i]; }
    if op.name != n || op.Write? {
      RestRemoves(ops, n);
      var c', d' := ApplyTo(op, n, c), ApplyTo(op, n, d);
      assert op.Write? && op.name == n ==> !Removes(ops, n);
      if Removes(rest, n) { RestTouchedFirst(ops, n); }
      TouchConverges(rest, n, c'.c, d'.c);
    }
  }

  lemma RestTouchedFirst(ops: seq<Op>, n: Name)
    requires ops != [] && TouchedFirst(ops, n) && (ops[0].name != n || ops[0].Write?)
    ensures TouchedFirst(ops[1..], n)
  {
    var rest := ops[1..];
    forall i | 0 <= i < |rest| && rest[i].Write? && rest[i].name == n ensures TouchedBefore(rest, n, i) {
      assert ops[i + 1] == rest[i] && TouchedBefore(ops, n, i + 1);
      var j :| 0 <= j < i + 1 && !ops[j].Write? && ops[j].name == n;
      assert rest[j - 1] == ops[j];
    }
  }

  /** Redoing a well-formed log leads to the same files wherever a crash left them: from those it was made for, or from any
      that some of it has already reached. */
  lemma RedoConverges(ops: seq<Op>, f: Files, g: Files)
    requires WellFormed(ops) && Replay(ops, f).Some? && Reached(ops, f, g)
    ensures Replay(ops, g) == Replay(ops, f)
  {
    var states: seq<Files> :| |states| > 0 && states[0] == f && states[|states| - 1] == g && Landing(ops, states);
    forall n ensures ReplayTo(ops, n, Look(g, n)) == ReplayTo(ops, n, Look(f, n)) != Fails {
      ReachedNear(ops, f, states, n);
      ReplayByFile(ops, f, n);
      if Touches(ops, n) { TouchConverges(ops, n, Look(f, n), Look(g, n)); }
      else if n in f { WritesConverge(ops, n, f[n], g[n]); }
    }
    if Replay(ops, g) == None { var n := ReplayFails(ops, g); }
    forall n ensures Look(Replay(ops, g).value, n) == Look(Replay(ops, f).value, n) {
      ReplayByFile(ops, f, n);
      ReplayByFile(ops, g, n);
    }
    SameFiles(Replay(ops, g).value, Replay(ops, f).value);
  }

  /** A write to a file that isn't there, and hasn't been created, fails. */
  lemma {:induction false} WriteFails(ops: seq<Op>, n: Name, i: nat)
    requires i < |ops| && ops[i].Write? && ops[i].name == n && !TouchedBefore(ops, n, i)
    ensures ReplayTo(ops, n, None) == Fails
  {
    if i > 0 {
      var rest := ops[1..];
      assert ops[0].name == n ==> ops[0].Write?;
      if ops[0].name != n {
        forall j | 0 <= j < i - 1 && !rest[j].Write? ensures rest[j].name != n { assert ops[j + 1] == rest[j]; }
        assert !TouchedBefore(rest, n, i - 1);
        WriteFails(rest, n, i - 1);
      }
    }
  }

  /** A log that can be made can be redone from wherever a crash leaves the files exactly when it is well-formed. Of others a write
      can find its file already gone. */
  lemma SafeToRepeat(ops: seq<Op>, f: Files)
    requires Replay(ops, f).Some?
    ensures WellFormed(ops) <==> forall g {:trigger Reached(ops, f, g)} :: Reached(ops, f, g) ==> Replay(ops, g) == Replay(ops, f)
  {
    if WellFormed(ops) {
      forall g | Reached(ops, f, g) ensures Replay(ops, g) == Replay(ops, f) { RedoConverges(ops, f, g); }
    } else {
      var n :| Removes(ops, n) && !TouchedFirst(ops, n);
      var i :| 0 <= i < |ops| && ops[i].Write? && ops[i].name == n && !TouchedBefore(ops, n, i);
      var k :| 0 <= k < |ops| && ops[k] == Remove(n);
      var g := f - {n};
      ReachedStart(ops, f);
      ApplyIsFragment(ops[k], f);
      ReachedNext(ops, f, f, g, k);
      WriteFails(ops, n, i);
      ReplayByFile(ops, g, n);
      assert Look(g, n) == None && Replay(ops, g) == None;
    }
  }

  /** A log that isn't well-formed may not be redone: its write can find the file already gone. */
  lemma RemovedTooSoon(n: Name, b: Byte)
    ensures var ops, f, g := [Write(n, 0, [b]), Remove(n)], map[n := []], map[];
            Replay(ops, f).Some? && Reached(ops, f, g) && Replay(ops, g) == None
  {
    var ops, f, g: Files := [Write(n, 0, [b]), Remove(n)], map[n := []], map[];
    assert Replay(ops[1..], f[n := [b]]) == Replay(ops[1..][1..], f[n := [b]] - {n});
    ReachedStart(ops, f);
    assert f - {n} == g;
    ApplyIsFragment(ops[1], f);
    ReachedNext(ops, f, f, g, 1);
  }
}
