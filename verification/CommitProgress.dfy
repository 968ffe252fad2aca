// A commit that nothing interrupts returns true, and whatever can go wrong can go wrong at any time.
module CommitProgress {
  import opened Base
  import opened Words
  import opened LogCodec
  import opened Redo
  import opened Commits
  import opened CrashSafety
  import CommitMeaning

  /** Steps of a commit whose log is written without failing, and that no crash cuts short. */
  predicate Smooth(steps: seq<Step>) { forall i {:trigger steps[i]} :: 0 <= i < |steps| ==> SmoothStep(steps[i]) }

  predicate SmoothStep(step: Step) { !step.Crash? && !step.Abort? && !step.Begin? }

  /** The most steps that a commit can still take and get somewhere. */
  function Left(s: State, crc: Checksum): nat
    requires Busy(s.mode) ==> s.calls != [] && Together(Last(s.calls).entries, Last(s.calls).id)
  {
    match s.mode
    case Logging(_, sent) =>
      var c := Last(s.calls);
      Short(|FullLog(c, crc)|, sent) + Short(|FullLog(c, crc)|, |s.log|) + 4 + |c.entries|
    case Applying(_, _, made) => 3 + Short(|Last(s.calls).entries|, made)
    case Resetting(_) => if s.log == [] then 1 else 2
    case _ => 0
  }

  function Short(n: nat, m: nat): nat { if m < n then n - m else 0 }

  /** A commit that will return true unless it is disturbed. */
  predicate Going(m: Mode) { m.Logging? || m.Applying? || m == Resetting(true) }

  predicate Held(s: State) { Busy(s.mode) ==> s.calls != [] && Together(Last(s.calls).entries, Last(s.calls).id) }

  lemma CommitAdvances(crc: Checksum, f: Files, s: State, step: Step, t: State)
    requires Sound(crc, f, s) && CanStep(crc, s, step, t) && Going(s.mode) && SmoothStep(step)
    ensures Held(s) && Held(t) && Left(t, crc) <= Left(s, crc) && (Advances(s, step, t) ==> Left(t, crc) < Left(s, crc))
    ensures s.calls != [] && if Going(t.mode) then t.calls == s.calls else t.mode == Up && t.calls == WithFate(s.calls, Returned(true))
  {
    hide Replay, Ops, CheckCommitted, Image, Reached, WellFormed, Outcome, Fragment, Apply, Made, ReadEntries;
  }

  /** Until it has returned, a commit always has a step to take that gets somewhere: its entries are sent and flushed, and then its
      marker is. */
  lemma CommitNeverStuck(crc: Checksum, f: Files, s: State) returns (step: Step, t: State)
    requires Sound(crc, f, s) && Going(s.mode)
    ensures CanStep(crc, s, step, t) && Advances(s, step, t) && SmoothStep(step)
  {
    hide Replay, Ops, CheckCommitted, Image, Reached, WellFormed, Outcome, Apply, Made;
    var c := Last(s.calls);
    if s.mode.Logging? {
      var full, entries, sent := FullLog(c, crc), |c.entries| * ENTRY_SIZE, s.mode.sent;
      if s.log == full { step, t := Commit, s.(mode := Applying(s.mode.from, s.mode.from, 0)); }
      else if |s.log| < sent { step, t := FlushLog(sent), s.(log := full[..sent]); }
      else {
        assert s.log == full[..|s.log|] && full[..|full|] == full;
        step := Send(if sent < entries then entries else |full|);
        t := s.(mode := s.mode.(sent := step.n));
      }
    } else if s.mode.Applying? {
      if s.mode.made == |Doing(s)| {
        step, t := Finish, s.(mode := Resetting(true), disk := s.mode.view);
      } else {
        step := Make;
        t := NextMade(crc, f, s);
      }
    } else if s.log == [] {
      step, t := Return, s.(mode := Up, calls := WithFate(s.calls, Returned(s.mode.ok)));
    } else {
      step, t := Truncate, s.(log := []);
    }
  }

  lemma NextMade(crc: Checksum, f: Files, s: State) returns (t: State)
    requires Sound(crc, f, s) && s.mode.Applying? && s.mode.made != |Doing(s)|
    ensures CanStep(crc, s, Make, t) && t != s
  {
    hide Replay, CheckCommitted, Image, Reached, WellFormed, Outcome, Apply;
    var ops := Doing(s);
    OneMade(ops, s.mode.from, s.mode.view, s.mode.made);
    t := s.(mode := Applying(s.mode.from, Apply(ops[s.mode.made], s.mode.view).value, s.mode.made + 1));
  }

  /** From a database at rest a commit that can be logged and made can begin, and if nothing fails and nothing crashes it takes no
      more than so many steps that get somewhere, always has another until it has returned, returns true, and then the files are
      exactly what its operations make of them. */
  lemma {:induction false} CommitSucceeds(crc: Checksum, f: Files, states: seq<State>, steps: seq<Step>, entries: seq<Entry>, id: Word)
    requires Run(crc, states, steps) && Sound(crc, f, states[0]) && states[0].mode == Up
    requires steps != [] && steps[0] == Begin(entries, id) && Smooth(steps[1..])
    ensures Held(states[1]) && Held(Last(states))
    ensures Progress(states, steps) + Left(Last(states), crc) <= 1 + Left(states[1], crc)
    ensures Left(states[1], crc) == 2 * |FullLog(Last(states[1].calls), crc)| + 4 + |entries|
    ensures if Last(states).mode == Up
            then Last(states).calls == states[0].calls + [Call(entries, id, Returned(true))] && Some(Last(states).disk) == Replay(Ops(entries), states[0].disk)
            else Going(Last(states).mode) && Last(states).calls == states[0].calls + [Call(entries, id, Running)] && exists step, t :: CanStep(crc, Last(states), step, t) && Advances(Last(states), step, t) && SmoothStep(step)
    decreases |steps|
  {
    hide Next, Sound, Outcome, Left, Replay, Ops, SmoothStep;
    var n := |steps| - 1;
    var last := states[n + 1];
    assert CanStep(crc, states[n], steps[n], last) && CanStep(crc, states[0], steps[0], states[1]);
    RunSound(crc, f, states, steps);
    if n == 0 {
      Begun(crc, f, states[0], entries, id, last);
      assert Progress(states[..1], steps[..0]) == 0;
    } else {
      RunFront(crc, states, steps, n);
      assert forall i :: 0 <= i < n - 1 ==> steps[..n][1..][i] == steps[1..][i];
      CommitSucceeds(crc, f, states[..n + 1], steps[..n], entries, id);
      RunSound(crc, f, states[..n + 1], steps[..n]);
      assert steps[n] == steps[1..][n - 1] && SmoothStep(steps[n]);
      NotUp(crc, states[n], steps[n], last);
      CommitAdvances(crc, f, states[n], steps[n], last);
      if last.mode == Up { UpMeans(crc, f, states[0]); Replayable(crc, states[0], entries, id, states[1]); Returns(crc, f, states[0].calls, states[0].disk, entries, id, last); }
    }
    if last.mode != Up { var step, t := CommitNeverStuck(crc, f, last); }
  }

  lemma Begun(crc: Checksum, f: Files, s: State, entries: seq<Entry>, id: Word, t: State)
    requires Sound(crc, f, s) && CanStep(crc, s, Begin(entries, id), t)
    ensures s != t && Held(t) && Going(t.mode) && t.calls == s.calls + [Call(entries, id, Running)]
    ensures Left(t, crc) == 2 * |FullLog(Last(t.calls), crc)| + 4 + |entries|
  {
    hide Replay, Ops, Image;
  }

  lemma Replayable(crc: Checksum, s: State, entries: seq<Entry>, id: Word, t: State)
    requires CanStep(crc, s, Begin(entries, id), t)
    ensures Replay(Ops(entries), s.disk).Some?
  {
    hide Replay, Ops;
  }

  lemma NotUp(crc: Checksum, s: State, step: Step, t: State)
    requires CanStep(crc, s, step, t) && SmoothStep(step)
    ensures s.mode != Up
  {
    hide Replay, Ops, CheckCommitted, Image, Fragment, Apply, ReadEntries;
  }

  lemma Returns(crc: Checksum, f: Files, calls: seq<Call>, disk: Files, entries: seq<Entry>, id: Word, s: State)
    requires disk == Outcome(calls, f) && Sound(crc, f, s) && s.mode == Up && Replay(Ops(entries), disk).Some?
    requires s.calls == WithFate(calls + [Call(entries, id, Running)], Returned(true))
    ensures s.calls == calls + [Call(entries, id, Returned(true))] && Some(s.disk) == Replay(Ops(entries), disk)
  {
    hide Replay, Ops, Sound;
    UpMeans(crc, f, s);
    assert s.calls[..|s.calls| - 1] == calls;
  }

  lemma CanBegin(crc: Checksum, f: Files, s: State, entries: seq<Entry>, id: Word)
    requires Sound(crc, f, s) && s.mode == Up && Loggable(entries, id) && Replay(Ops(entries), s.disk).Some?
    ensures exists t :: CanStep(crc, s, Begin(entries, id), t)
  {
    hide Replay, Ops;
    assert CanStep(crc, s, Begin(entries, id), s.(mode := Logging(s.disk, 0), calls := s.calls + [Call(entries, id, Running)]));
  }

  /** A transaction that is committed without being disturbed is all there in the files, and nothing else has changed. */
  lemma TransactionCommits(crc: Checksum, f: Files, states: seq<State>, steps: seq<Step>, t: Txn, id: Word) returns (mid: Files)
    requires Run(crc, states, steps) && Sound(crc, f, states[0]) && states[0].mode == Up
    requires steps != [] && steps[0] == Begin(TxnLog(t, id), id) && Smooth(steps[1..]) && Last(states).mode == Up
    requires Sensible(t, states[0].disk) && CommitMeaning.Distinct(t.tables)
    requires forall i {:trigger t.tables[i]} :: 0 <= i < |t.tables| ==> CommitMeaning.Separate(t.tables[i])
    ensures CommitMeaning.TablesSaved(t.tables, states[0].disk, mid) && CommitMeaning.FilesChanged(t.changes, mid, Last(states).disk)
    ensures Last(states).calls == states[0].calls + [Call(TxnLog(t, id), id, Returned(true))]
  {
    hide CanStep, Sound, Smooth, Sensible, CommitMeaning.Distinct, CommitMeaning.Separate, CommitMeaning.TablesSaved, CommitMeaning.FilesChanged,
         Replay, Ops, TxnLog;
    CommitSucceeds(crc, f, states, steps, TxnLog(t, id), id);
    var g;
    mid, g := CommitMeaning.CommitSaves(t, id, states[0].disk);
  }

  // ---- what the disk and the process can do

  /** The process can die at any moment, and writing the log can fail at any moment, leaving on the disk what is there. Of the log any
      length that has been sent can have got there. */
  lemma MayFail(crc: Checksum, f: Files, s: State)
    requires Sound(crc, f, s)
    ensures exists t {:trigger CanStep(crc, s, Crash, t)} :: CanStep(crc, s, Crash, t) && t.mode == Down && t.disk == s.disk && t.log == s.log
    ensures s.mode.Logging? ==> CanStep(crc, s, Abort, s.(mode := Resetting(false)))
    ensures s.mode.Logging? ==> forall n: nat {:trigger FlushLog(n)} :: |s.log| <= n <= s.mode.sent ==>
              CanStep(crc, s, FlushLog(n), s.(log := FullLog(Last(s.calls), crc)[..n]))
  {
    hide Replay, Ops, CheckCommitted, Image, Reached, WellFormed, Outcome, Fragment, Apply, Made;
    assert CanStep(crc, s, Crash, s.(mode := Down, calls := if Busy(s.mode) then WithFate(s.calls, Crashed(PastCommit(s, crc))) else s.calls));
  }

  /** d is c with a write's bytes at the places in got, and at no others. */
  ghost predicate PartOf(c: Bytes, d: Bytes, addr: nat, bytes: Bytes, got: set<nat>) {
    && |c| <= |d| && (|d| > |c| ==> bytes != [] && |d| <= addr + |bytes|)
    && forall i :: 0 <= i < |d| ==> d[i] == if i in got && addr <= i < addr + |bytes| then bytes[i - addr] else if i < |c| then c[i] else 0
  }

  /** Any bytes at all of any write made so far can have reached the disk before the rest of it, whatever else has, and so can any file
      created or removed. */
  lemma AnyPartLands(crc: Checksum, f: Files, s: State, k: nat, got: set<nat>, d: Bytes)
    requires Sound(crc, f, s) && (s.mode.Applying? || s.mode.Redoing?) && k < s.mode.made
    ensures k < |Doing(s)|
    ensures match Doing(s)[k]
            case Create(n) => CanStep(crc, s, Land(k, s.disk[n := []]), s.(disk := s.disk[n := []]))
            case Remove(n) => CanStep(crc, s, Land(k, s.disk - {n}), s.(disk := s.disk - {n}))
            case Write(n, addr, bytes) =>
              n in s.disk && PartOf(s.disk[n], d, addr, bytes, got) ==> CanStep(crc, s, Land(k, s.disk[n := d]), s.(disk := s.disk[n := d]))
  {
    hide Replay, CheckCommitted, Image, Reached, WellFormed, Outcome, Apply, Torn;
    var op := Doing(s)[k];
    if op.Write? && op.name in s.disk && PartOf(s.disk[op.name], d, op.addr, op.bytes, got) {
      PartTorn(s.disk[op.name], d, op.addr, op.bytes, got);
    }
  }

  lemma PartTorn(c: Bytes, d: Bytes, addr: nat, bytes: Bytes, got: set<nat>)
    requires PartOf(c, d, addr, bytes, got)
    ensures Torn(c, d, addr, bytes)
  {
  }

  /** A log that is committed but holds a damaged entry can't be redone: recovery writes nothing and leaves the log where it is. */
  lemma DamagedEntryStops(crc: Checksum, s: State, step: Step, t: State)
    requires s.mode == Down && CheckCommitted(s.log, crc).Some?
    requires var (n, id) := CheckCommitted(s.log, crc).value;
             n * ENTRY_SIZE <= |s.log| ==> exists i: nat {:trigger Damaged(s.log, i, id, crc)} :: i < n && Damaged(s.log, i, id, crc)
    requires CanStep(crc, s, step, t)
    ensures t.mode == Down && t.disk == s.disk && t.log == s.log
  {
    hide CheckCommitted, ReadEntries, Fragment, Replay, Ops, Image;
    EmptyLog(crc);
    var (n, id) := CheckCommitted(s.log, crc).value;
    if n * ENTRY_SIZE <= |s.log| { Unreadable(s.log, n, id, crc); }
  }

  lemma Unreadable(log: Bytes, n: nat, id: Word, crc: Checksum)
    requires n * ENTRY_SIZE <= |log| && exists i: nat {:trigger Damaged(log, i, id, crc)} :: i < n && Damaged(log, i, id, crc)
    ensures ReadEntries(log, n, id, crc) == None
  {
    var i: nat :| i < n && Damaged(log, i, id, crc);
    hide ReadEntries, EntrySpelled;
    forall entries: seq<Entry> ensures ReadEntries(log, n, id, crc) != Some(entries) {
      ReadsExactly(log, n, id, crc, entries);
      if |entries| == n { assert !(EntrySpelled(log, i, entries[i], crc) && entries[i].transID == id); }
    }
  }

  /** Nothing of this transaction is written as what entry i of the log holds. */
  ghost predicate Damaged(log: Bytes, i: nat, id: Word, crc: Checksum) {
    forall e: Entry {:trigger EntrySpelled(log, i, e, crc)} :: e.transID == id ==> !EntrySpelled(log, i, e, crc)
  }
}
