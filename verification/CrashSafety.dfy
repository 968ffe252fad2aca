// Committing through the redo log and recovering from it, with a crash possible at any step of either.
module CrashSafety {
  import opened Base
  import opened Words
  import opened LogCodec
  import opened Redo
  import opened Commits

  /** The entries a committed log holds, if all n parse and are of its transaction. */
  function ReadEntries(log: Bytes, n: nat, id: Word, crc: Checksum): Option<seq<Entry>>
    requires n * ENTRY_SIZE <= |log|
  {
    if n == 0 then Some([])
    else
      var before, e := ReadEntries(log, n - 1, id, crc), ParseEntry(log[(n - 1) * ENTRY_SIZE..n * ENTRY_SIZE], crc);
      if before.None? || e.None? || e.value.transID != id then None else Some(before.value + [e.value])
  }

  /** Reads and verifies every entry of a committed log before any is applied. */
  method VerifyLog(log: Bytes, numEntries: nat, id: Word, crc: Checksum) returns (entries: Option<seq<Entry>>)
    requires numEntries * ENTRY_SIZE <= |log|
    ensures entries == ReadEntries(log, numEntries, id, crc)
  {
    hide ParseEntry;
    var read := [];
    var i := 0;
    while i < numEntries
      invariant i <= numEntries && ReadEntries(log, i, id, crc) == Some(read)
    {
      var e := ParseEntry(log[i * ENTRY_SIZE..(i + 1) * ENTRY_SIZE], crc);
      if e.None? || e.value.transID != id {
        Unread(log, i + 1, numEntries, id, crc);
        return None;
      }
      read := read + [e.value];
      i := i + 1;
    }
    entries := Some(read);
  }

  lemma {:induction false} Unread(log: Bytes, i: nat, n: nat, id: Word, crc: Checksum)
    requires i <= n && n * ENTRY_SIZE <= |log| && ReadEntries(log, i, id, crc) == None
    ensures ReadEntries(log, n, id, crc) == None
    decreases n
  {
    if i < n { Unread(log, i, n - 1, id, crc); }
  }

  /** Entries are read only if every one of them is what that entry is written as, checksum and all, and of the transaction. */
  lemma {:induction false} ReadsExactly(log: Bytes, n: nat, id: Word, crc: Checksum, entries: seq<Entry>)
    requires n * ENTRY_SIZE <= |log|
    ensures ReadEntries(log, n, id, crc) == Some(entries) <==> |entries| == n && forall i {:trigger entries[i]} :: 0 <= i < n ==>
              EntrySpelled(log, i, entries[i], crc) && entries[i].transID == id
    decreases n
  {
    hide ParseEntry, Spells;
    if n > 0 {
      var slice := log[(n - 1) * ENTRY_SIZE..n * ENTRY_SIZE];
      var e := ParseEntry(slice, crc);
      if |entries| == n {
        var front := entries[..n - 1];
        ReadsExactly(log, n - 1, id, crc, front);
        ParsesExactly(slice, crc, entries[n - 1]);
        assert entries == front + [entries[n - 1]];
        forall i | 0 <= i < n - 1 ensures front[i] == entries[i] { }
      } else if ReadEntries(log, n - 1, id, crc).Some? {
        ReadsExactly(log, n - 1, id, crc, ReadEntries(log, n - 1, id, crc).value);
      }
    }
  }

  /** The i-th entry's place in the log holds what e is written as. */
  ghost predicate EntrySpelled(log: Bytes, i: nat, e: Entry, crc: Checksum) {
    (i + 1) * ENTRY_SIZE <= |log| && Spells(log[i * ENTRY_SIZE..(i + 1) * ENTRY_SIZE], e, crc)
  }

  lemma {:induction false} ReadsBack(entries: seq<Entry>, id: Word, crc: Checksum, n: nat)
    requires Together(entries, id) && n <= |entries|
    ensures ReadEntries(Image(entries, id, crc), n, id, crc) == Some(entries[..n])
  {
    hide Logged, Marker, ParseEntry, SerializeEntry, Legal;
    if n > 0 {
      ReadsBack(entries, id, crc, n - 1);
      EntryAt(entries, crc, n - 1);
      RoundTrip(entries[n - 1], crc);
      FrontSlice(Logged(entries, crc), Marker(|entries|, id, crc), (n - 1) * ENTRY_SIZE, n * ENTRY_SIZE);
      assert entries[..n] == entries[..n - 1] + [entries[n - 1]];
    }
  }

  // ---- the machine

  /** How a call of commitTables ended: it hasn't, it returned whether it committed, or a crash cut it short, with its log
      committed by then or not. */
  datatype Fate = Running | Returned(ok: bool) | Crashed(kept: bool)

  datatype Call = Call(entries: seq<Entry>, id: Word, fate: Fate)

  /** What the process is doing. from is the files as the commit found them, start as recovery did, and sent the bytes of the log
      written so far. view is the files as the process sees them once made of the operations have been made: how much of that is
      on the disk is anyone's guess until they are synced. */
  datatype Mode = Up | Logging(from: Files, sent: nat) | Applying(from: Files, view: Files, made: nat) | Resetting(ok: bool)
                | Down | Redoing(start: Files, entries: seq<Entry>, view: Files, made: nat) | Clearing

  /** What the disk holds, what the process is doing, and every call so far. */
  datatype State = State(disk: Files, log: Bytes, mode: Mode, calls: seq<Call>)

  datatype Step =
    | Begin(entries: seq<Entry>, id: Word)   // the log is empty, and a commit starts to fill it
    | Send(n: nat)                           // more of the log is written; the marker only once the entries are synced
    | FlushLog(n: nat)                       // some of what was written reaches the disk
    | Commit                                 // the marker is synced: the commit point
    | Abort                                  // writing the log failed
    | Make                                   // the next change to the files is made
    | Land(k: nat, disk: Files)              // some part of a change that has been made reaches the disk
    | Finish                                 // all changes have been made, and the sync puts them on the disk
    | Truncate                               // the emptied log reaches the disk
    | Return                                 // and is synced
    | Crash                                  // the process dies, or exits so that recovery resolves a failure
    | FindEmpty | FindUncommitted | FindCommitted(entries: seq<Entry>)   // what recovery finds in the log
    | FinishRedo                             // all logged operations have been made again, and the sync puts them on the disk
    | Recover                                // the log is empty again

  predicate Kept(c: Call) { c.fate == Returned(true) || c.fate == Crashed(true) }

  function After(entries: seq<Entry>, files: Files): Files {
    match Replay(Ops(entries), files) case Some(f) => f case None => files
  }

  /** The files that the kept calls, in order, make of f. */
  function Outcome(calls: seq<Call>, f: Files): Files {
    if calls == [] then f
    else if Kept(Last(calls)) then After(Last(calls).entries, Outcome(calls[..|calls| - 1], f))
    else Outcome(calls[..|calls| - 1], f)
  }

  /** What a commit has to be to be logged and made: its entries fit in the log, and its operations can be done, and redone. */
  ghost predicate Loggable(entries: seq<Entry>, id: Word) { Together(entries, id) && WellFormed(Ops(entries)) }

  function WithFate(calls: seq<Call>, fate: Fate): seq<Call>
    requires calls != []
  {
    calls[|calls| - 1 := Last(calls).(fate := fate)]
  }

  function FullLog(c: Call, crc: Checksum): Bytes
    requires Together(c.entries, c.id)
  {
    Image(c.entries, c.id, crc)
  }

  predicate Busy(m: Mode) { m.Logging? || m.Applying? || m.Resetting? }

  /** Whether a crash now leaves a log that recovery will redo. */
  predicate PastCommit(s: State, crc: Checksum)
    requires Busy(s.mode) ==> s.calls != [] && Together(Last(s.calls).entries, Last(s.calls).id)
  {
    s.mode.Applying? || s.mode == Resetting(true)
    || (Busy(s.mode) && s.log == FullLog(Last(s.calls), crc))
  }

  /** The operations being made. */
  function Doing(s: State): seq<Op>
    requires s.mode.Redoing? || (s.mode.Applying? && s.calls != [])
  {
    Ops(if s.mode.Applying? then Last(s.calls).entries else s.mode.entries)
  }

  ghost predicate Next(crc: Checksum, s: State, step: Step, t: State)
    requires Busy(s.mode) ==> s.calls != [] && Together(Last(s.calls).entries, Last(s.calls).id)
  {
    match step
    case Begin(entries, id) =>
      && s.mode == Up && s.log == [] && Loggable(entries, id) && Replay(Ops(entries), s.disk).Some?
      && t == s.(mode := Logging(s.disk, 0), calls := s.calls + [Call(entries, id, Running)])
    case Send(n) =>
      && s.mode.Logging? && s.mode.sent <= n <= |FullLog(Last(s.calls), crc)|
      && (n > |Last(s.calls).entries| * ENTRY_SIZE ==> |s.log| >= |Last(s.calls).entries| * ENTRY_SIZE)
      && t == s.(mode := s.mode.(sent := n))
    case FlushLog(n) =>
      && s.mode.Logging? && |s.log| <= n <= s.mode.sent <= |FullLog(Last(s.calls), crc)|
      && t == s.(log := FullLog(Last(s.calls), crc)[..n])
    case Commit =>
      && s.mode.Logging? && s.log == FullLog(Last(s.calls), crc)
      && t == s.(mode := Applying(s.mode.from, s.mode.from, 0))
    case Abort => s.mode.Logging? && t == s.(mode := Resetting(false))
    case Make =>
      && (s.mode.Applying? || s.mode.Redoing?)
      && (var ops := Doing(s);
          && s.mode.made < |ops| && Apply(ops[s.mode.made], s.mode.view).Some?
          && t == s.(mode := s.mode.(view := Apply(ops[s.mode.made], s.mode.view).value, made := s.mode.made + 1)))
    case Land(k, disk) =>
      && (s.mode.Applying? || s.mode.Redoing?)
      && k < s.mode.made <= |Doing(s)| && Fragment(Doing(s)[k], s.disk, disk)
      && t == s.(disk := disk)
    case Finish =>
      && s.mode.Applying? && s.mode.made == |Doing(s)|
      && t == s.(mode := Resetting(true), disk := s.mode.view)
    case Truncate => (s.mode.Resetting? || s.mode.Clearing?) && t == s.(log := [])
    case Return =>
      && s.mode.Resetting? && s.log == []
      && t == s.(mode := Up, calls := WithFate(s.calls, Returned(s.mode.ok)))
    case Crash => t == s.(mode := Down, calls := if Busy(s.mode) then WithFate(s.calls, Crashed(PastCommit(s, crc))) else s.calls)
    case FindEmpty => s.mode == Down && s.log == [] && t == s.(mode := Up)
    case FindUncommitted => s.mode == Down && s.log != [] && CheckCommitted(s.log, crc) == None && t == s.(mode := Clearing)
    case FindCommitted(entries) =>
      && s.mode == Down && CheckCommitted(s.log, crc).Some?
      && (var (n, id) := CheckCommitted(s.log, crc).value;
          n * ENTRY_SIZE <= |s.log| && ReadEntries(s.log, n, id, crc) == Some(entries))
      && t == s.(mode := Redoing(s.disk, entries, s.disk, 0))
    case FinishRedo =>
      && s.mode.Redoing? && s.mode.made == |Doing(s)|
      && t == s.(mode := Clearing, disk := s.mode.view)
    case Recover => s.mode == Clearing && s.log == [] && t == s.(mode := Up)
  }

  /** What commitTables logs for a sensible transaction, if every entry fits in the log, is a commit that can begin. */
  lemma CommitBegins(t: Txn, id: Word, files: Files)
    requires Sensible(t, files) && Together(TxnLog(t, id), id)
    ensures Loggable(TxnLog(t, id), id) && Replay(Ops(TxnLog(t, id)), files).Some?
    ensures Replay(TxnOps(t, id), files) == Replay(Ops(TxnLog(t, id)), files)
  {
    CommitsCanBeRedone(t, id, files);
    CommitMatchesLog(t, id, files);
  }

  // ---- what every step keeps

  /** A crash cut the last call short after its commit point, and it may be only partly made. */
  ghost predicate Pending(crc: Checksum, f: Files, s: State) {
    && s.calls != [] && var c := Last(s.calls);
       && c.fate == Crashed(true) && Loggable(c.entries, c.id) && s.log == FullLog(c, crc)
       && var before := Outcome(s.calls[..|s.calls| - 1], f);
          Replay(Ops(c.entries), before).Some? && Reached(Ops(c.entries), before, s.disk)
  }

  ghost predicate Settled(crc: Checksum, f: Files, s: State) {
    CheckCommitted(s.log, crc) == None && s.disk == Outcome(s.calls, f)
  }

  /** The first operations make view of f. */
  ghost predicate Made(ops: seq<Op>, f: Files, view: Files, made: nat) { made <= |ops| && Replay(ops[..made], f) == Some(view) }

  lemma NoneMade(ops: seq<Op>, f: Files)
    ensures Made(ops, f, f, 0)
  {
    assert ops[..0] == [];
  }

  lemma OneMade(ops: seq<Op>, f: Files, view: Files, made: nat)
    requires Made(ops, f, view, made) && made < |ops|
    ensures Apply(ops[made], view).Some? ==> Made(ops, f, Apply(ops[made], view).value, made + 1)
    ensures Replay(ops, f).Some? ==> Apply(ops[made], view).Some?
  {
    assert ops[..made + 1] == ops[..made] + [ops[made]] && ops == ops[..made + 1] + ops[made + 1..] && [ops[made]][1..] == [];
    ReplayJoin(ops[..made], [ops[made]], f);
    ReplayJoin(ops[..made + 1], ops[made + 1..], f);
  }

  lemma AllMade(ops: seq<Op>, f: Files, view: Files)
    requires Made(ops, f, view, |ops|)
    ensures Replay(ops, f) == Some(view)
  {
    assert ops[..|ops|] == ops;
  }

  ghost predicate Sound(crc: Checksum, f: Files, s: State) {
    && (Busy(s.mode) ==> s.calls != [] && Last(s.calls).fate == Running && Loggable(Last(s.calls).entries, Last(s.calls).id)
                         && Replay(Ops(Last(s.calls).entries), Outcome(s.calls, f)).Some?)
    && (forall i {:trigger s.calls[i]} :: 0 <= i < |s.calls| && s.calls[i].fate == Running ==> i == |s.calls| - 1 && Busy(s.mode))
    && match s.mode
       case Up => s.log == [] && s.disk == Outcome(s.calls, f)
       case Logging(from, sent) =>
         && sent <= |FullLog(Last(s.calls), crc)| && |s.log| <= sent && s.log <= FullLog(Last(s.calls), crc)
         && s.disk == Outcome(s.calls, f) == from
       case Applying(from, view, made) =>
         && s.log == FullLog(Last(s.calls), crc) && from == Outcome(s.calls, f)
         && Reached(Ops(Last(s.calls).entries), from, s.disk) && Made(Ops(Last(s.calls).entries), from, view, made)
       case Resetting(ok) =>
         if ok then (s.log == FullLog(Last(s.calls), crc) || s.log == []) && s.disk == After(Last(s.calls).entries, Outcome(s.calls, f))
         else s.log <= FullLog(Last(s.calls), crc) && s.disk == Outcome(s.calls, f)
       case Down => Pending(crc, f, s) || Settled(crc, f, s)
       case Redoing(start, entries, view, made) =>
         && Pending(crc, f, s) && entries == Last(s.calls).entries && Made(Ops(entries), start, view, made)
         && Reached(Ops(entries), Outcome(s.calls[..|s.calls| - 1], f), start)
       case Clearing => s.disk == Outcome(s.calls, f) && (Settled(crc, f, s) || Pending(crc, f, s))
  }

  lemma SoundStart(crc: Checksum, f: Files)
    ensures Sound(crc, f, State(f, [], Up, []))
  {
  }

  lemma OutcomeWith(calls: seq<Call>, fate: Fate, f: Files)
    requires calls != [] && Last(calls).fate == Running
    ensures WithFate(calls, fate)[..|calls| - 1] == calls[..|calls| - 1] && Last(WithFate(calls, fate)) == Last(calls).(fate := fate)
    ensures Outcome(calls, f) == Outcome(calls[..|calls| - 1], f)
    ensures Outcome(WithFate(calls, fate), f) ==
              if Kept(Last(calls).(fate := fate)) then After(Last(calls).entries, Outcome(calls, f)) else Outcome(calls, f)
  {
  }

  lemma OnceMade(c: Call, f: Files)
    requires Replay(Ops(c.entries), f).Some?
    ensures Reached(Ops(c.entries), f, After(c.entries, f))
  {
    var ops := Ops(c.entries);
    ReachedStart(ops, f);
    assert ops[0..] == ops;
    ReplayReached(ops, 0, f, f);
  }

  /** A crash leaves files and a log that recovery resolves one way only. */
  lemma CrashSound(crc: Checksum, f: Files, s: State, t: State)
    requires Sound(crc, f, s) && Next(crc, s, Crash, t)
    ensures Sound(crc, f, t)
  {
    hide Replay, Ops, CheckCommitted, Image, Reached, WellFormed, Outcome, After;
    if Busy(s.mode) { CrashedBusy(crc, f, s, t); } else { EmptyLog(crc); }
  }

  lemma CrashedBusy(crc: Checksum, f: Files, s: State, t: State)
    requires Sound(crc, f, s) && Next(crc, s, Crash, t) && Busy(s.mode)
    ensures Pending(crc, f, t) || Settled(crc, f, t)
    ensures forall i {:trigger t.calls[i]} :: 0 <= i < |t.calls| ==> t.calls[i].fate != Running
  {
    hide Replay, Ops, CheckCommitted, Image, Reached, WellFormed, Outcome, After;
    EmptyLog(crc);
    var c := Last(s.calls);
    OutcomeWith(s.calls, Last(t.calls).fate, f);
    ReachedStart(Ops(c.entries), Outcome(s.calls, f));
    OnceMade(c, Outcome(s.calls, f));
    if !PastCommit(s, crc) { CutShort(c, crc, s.log); }
    forall i | 0 <= i < |t.calls| ensures t.calls[i].fate != Running { assert i < |s.calls| - 1 ==> t.calls[i] == s.calls[i]; }
  }

  lemma CutShort(c: Call, crc: Checksum, log: Bytes)
    requires Together(c.entries, c.id)
    ensures log < FullLog(c, crc) ==> CheckCommitted(log, crc) == None
  {
    hide CheckCommitted, Image;
    if log < FullLog(c, crc) { RejectsPrefix(c.entries, c.id, crc, log); }
  }

  lemma EmptyLog(crc: Checksum)
    ensures CheckCommitted([], crc) == None
  {
  }

  /** Recovery finds in the log exactly the call the crash cut short. */
  lemma FoundSound(crc: Checksum, f: Files, s: State, entries: seq<Entry>, t: State)
    requires Sound(crc, f, s) && Next(crc, s, FindCommitted(entries), t)
    ensures Sound(crc, f, t)
  {
    hide Replay, Ops, CheckCommitted, Image, Reached, WellFormed, ReadEntries, Outcome;
    var c := Last(s.calls);
    AcceptsWhole(c.entries, c.id, crc);
    ReadsBack(c.entries, c.id, crc, |c.entries|);
    assert c.entries[..|c.entries|] == c.entries;
    NoneMade(Ops(entries), s.disk);
  }

  /** Redoing the log makes the whole of that call. */
  lemma RedoneSound(crc: Checksum, f: Files, s: State, t: State)
    requires Sound(crc, f, s) && Next(crc, s, FinishRedo, t)
    ensures Sound(crc, f, t)
  {
    hide Replay, Ops, CheckCommitted, Image, Reached, WellFormed, Made;
    var ops, before := Ops(s.mode.entries), Outcome(s.calls[..|s.calls| - 1], f);
    AllMade(ops, s.mode.start, s.mode.view);
    RedoConverges(ops, before, s.mode.start);
    OnceMade(Last(s.calls), before);
  }

  lemma LandSound(crc: Checksum, f: Files, s: State, k: nat, disk: Files, t: State)
    requires Sound(crc, f, s) && Next(crc, s, Land(k, disk), t)
    ensures Sound(crc, f, t)
  {
    hide Replay, Ops, CheckCommitted, Image, Reached, WellFormed, Fragment, Outcome, Made;
    if s.mode.Applying? {
      ReachedNext(Ops(Last(s.calls).entries), s.mode.from, s.disk, disk, k);
    } else {
      ReachedNext(Ops(s.mode.entries), Outcome(s.calls[..|s.calls| - 1], f), s.disk, disk, k);
    }
  }

  lemma LoggingSound(crc: Checksum, f: Files, s: State, step: Step, t: State)
    requires Sound(crc, f, s) && Next(crc, s, step, t) && (step.Send? || step.FlushLog? || step.Commit? || step.Abort? || step.Finish?)
    ensures Sound(crc, f, t)
  {
    hide Replay, Ops, CheckCommitted, Image, Reached, WellFormed, Outcome, Made;
    if step.Commit? {
      ReachedStart(Ops(Last(s.calls).entries), s.disk);
      NoneMade(Ops(Last(s.calls).entries), s.disk);
    }
    if step.Finish? { AllMade(Ops(Last(s.calls).entries), s.mode.from, s.mode.view); }
  }

  lemma MakeSound(crc: Checksum, f: Files, s: State, t: State)
    requires Sound(crc, f, s) && Next(crc, s, Make, t)
    ensures Sound(crc, f, t)
  {
    hide Replay, Ops, CheckCommitted, Image, Reached, WellFormed, Outcome, Made, Apply;
    OneMade(Doing(s), if s.mode.Applying? then s.mode.from else s.mode.start, s.mode.view, s.mode.made);
  }

  lemma ResettingSound(crc: Checksum, f: Files, s: State, step: Step, t: State)
    requires Sound(crc, f, s) && Next(crc, s, step, t) && (step.Truncate? || step.FindEmpty? || step.FindUncommitted? || step.Recover?)
    ensures Sound(crc, f, t)
  {
    EmptyLog(crc);
    hide Replay, Ops, CheckCommitted, Image, Reached, WellFormed, Outcome;
    if s.mode == Down && !Settled(crc, f, s) {
      AcceptsWhole(Last(s.calls).entries, Last(s.calls).id, crc);
    }
  }

  /** Whatever happens next. */
  lemma StepSound(crc: Checksum, f: Files, s: State, step: Step, t: State)
    requires Sound(crc, f, s) && Next(crc, s, step, t)
    ensures Sound(crc, f, t)
  {
    hide Sound;
    match step {
      case Crash => CrashSound(crc, f, s, t);
      case FindCommitted(entries) => FoundSound(crc, f, s, entries, t);
      case FinishRedo => RedoneSound(crc, f, s, t);
      case Make => MakeSound(crc, f, s, t);
      case Land(k, disk) => LandSound(crc, f, s, k, disk, t);
      case Begin(entries, id) => BeginSound(crc, f, s, entries, id, t);
      case Return => ReturnSound(crc, f, s, t);
      case Truncate => ResettingSound(crc, f, s, step, t);
      case FindEmpty => ResettingSound(crc, f, s, step, t);
      case FindUncommitted => ResettingSound(crc, f, s, step, t);
      case Recover => ResettingSound(crc, f, s, step, t);
      case _ => LoggingSound(crc, f, s, step, t);
    }
  }

  lemma BeginSound(crc: Checksum, f: Files, s: State, entries: seq<Entry>, id: Word, t: State)
    requires Sound(crc, f, s) && Next(crc, s, Begin(entries, id), t)
    ensures Sound(crc, f, t)
  {
    hide Replay, Ops, CheckCommitted, Image, Reached, WellFormed;
    assert t.calls[..|s.calls|] == s.calls;
  }

  lemma ReturnSound(crc: Checksum, f: Files, s: State, t: State)
    requires Sound(crc, f, s) && Next(crc, s, Return, t)
    ensures Sound(crc, f, t)
  {
    hide Replay, Ops, CheckCommitted, Image, Reached, WellFormed;
    OutcomeWith(s.calls, Returned(s.mode.ok), f);
    forall i | 0 <= i < |t.calls| ensures t.calls[i].fate != Running { assert i < |s.calls| - 1 ==> t.calls[i] == s.calls[i]; }
  }

  // ---- whole runs

  ghost predicate Run(crc: Checksum, states: seq<State>, steps: seq<Step>) {
    && |states| == |steps| + 1
    && forall i {:trigger steps[i]} :: 0 <= i < |steps| ==> CanStep(crc, states[i], steps[i], states[i + 1])
  }

  ghost predicate CanStep(crc: Checksum, s: State, step: Step, t: State) {
    (Busy(s.mode) ==> s.calls != [] && Together(Last(s.calls).entries, Last(s.calls).id)) && Next(crc, s, step, t)
  }

  lemma RunFront(crc: Checksum, states: seq<State>, steps: seq<Step>, n: nat)
    requires Run(crc, states, steps) && n <= |steps|
    ensures Run(crc, states[..n + 1], steps[..n]) && Last(states[..n + 1]) == states[n]
  {
    hide CanStep;
    forall i | 0 <= i < n ensures CanStep(crc, states[..n + 1][i], steps[..n][i], states[..n + 1][i + 1]) {
      assert CanStep(crc, states[i], steps[i], states[i + 1]);
    }
  }

  lemma RunRest(crc: Checksum, states: seq<State>, steps: seq<Step>)
    requires Run(crc, states, steps) && steps != []
    ensures Run(crc, states[1..], steps[1..]) && Last(states[1..]) == Last(states)
  {
    hide CanStep;
    forall j | 0 <= j < |steps| - 1 ensures CanStep(crc, states[1..][j], steps[1..][j], states[1..][j + 1]) {
      assert CanStep(crc, states[j + 1], steps[j + 1], states[j + 2]);
    }
  }

  lemma {:induction false} RunSound(crc: Checksum, f: Files, states: seq<State>, steps: seq<Step>)
    requires Run(crc, states, steps) && Sound(crc, f, states[0])
    ensures Sound(crc, f, Last(states))
    decreases |steps|
  {
    if steps != [] {
      var n := |steps| - 1;
      hide Next, Sound;
      RunFront(crc, states, steps, n);
      RunSound(crc, f, states[..n + 1], steps[..n]);
      assert CanStep(crc, states[n], steps[n], states[n + 1]);
      StepSound(crc, f, states[n], steps[n], states[n + 1]);
    }
  }

  /** All or nothing, over every run from a database at rest: with any number of crashes, in commits and in recovery, whenever
      the database is up again, or up still, the files are exactly what the kept calls made of them, one after the other. */
  lemma AllOrNothing(crc: Checksum, f: Files, states: seq<State>, steps: seq<Step>)
    requires Run(crc, states, steps) && states[0] == State(f, [], Up, []) && Last(states).mode == Up
    ensures Last(states).disk == Outcome(Last(states).calls, f) && Last(states).log == []
  {
    SoundStart(crc, f);
    RunSound(crc, f, states, steps);
  }

  lemma StepKeepsCalls(crc: Checksum, s: State, step: Step, t: State)
    requires CanStep(crc, s, step, t)
    ensures |s.calls| <= |t.calls| <= |s.calls| + 1
    ensures forall i {:trigger t.calls[i]} :: 0 <= i < |s.calls| ==>
              t.calls[i].entries == s.calls[i].entries && (i < |s.calls| - 1 || !Busy(s.mode) ==> t.calls[i] == s.calls[i])
  {
    hide Replay, Ops, CheckCommitted, Image, WellFormed, Fragment, ReadEntries, Together;
  }

  /** What a call returned, or whether a crash kept it, never changes: a commit that returned true is never undone, nor one that
      returned false done, by anything that comes after. */
  lemma {:induction false} FatesStay(crc: Checksum, f: Files, states: seq<State>, steps: seq<Step>, i: nat)
    requires Run(crc, states, steps) && Sound(crc, f, states[0])
    requires i < |states[0].calls| && states[0].calls[i].fate != Running
    ensures i < |Last(states).calls| && Last(states).calls[i] == states[0].calls[i]
    decreases |steps|
  {
    hide Next, Sound;
    if steps != [] {
      assert CanStep(crc, states[0], steps[0], states[1]);
      StepKeepsCalls(crc, states[0], steps[0], states[1]);
      StepSound(crc, f, states[0], steps[0], states[1]);
      LastRuns(crc, f, states[0]);
      RunRest(crc, states, steps);
      FatesStay(crc, f, states[1..], steps[1..], i);
    }
  }

  lemma LastRuns(crc: Checksum, f: Files, s: State)
    requires Sound(crc, f, s)
    ensures Busy(s.mode) ==> s.calls != [] && Last(s.calls).fate == Running
  {
  }

  function Crashes(steps: seq<Step>): nat {
    if steps == [] then 0 else Crashes(steps[..|steps| - 1]) + if Last(steps).Crash? then 1 else 0
  }

  function InFlight(calls: seq<Call>): nat {
    if calls == [] then 0 else InFlight(calls[..|calls| - 1]) + if Last(calls).fate.Crashed? then 1 else 0
  }

  lemma InFlightWith(calls: seq<Call>, fate: Fate)
    requires calls != [] && Last(calls).fate == Running
    ensures InFlight(WithFate(calls, fate)) == InFlight(calls) + if fate.Crashed? then 1 else 0
  {
    assert WithFate(calls, fate)[..|calls| - 1] == calls[..|calls| - 1];
  }

  lemma StepInFlight(crc: Checksum, f: Files, s: State, step: Step, t: State)
    requires Sound(crc, f, s) && CanStep(crc, s, step, t)
    ensures InFlight(t.calls) <= InFlight(s.calls) + if step.Crash? then 1 else 0
  {
    hide Sound, Replay, Ops, CheckCommitted, Image, WellFormed, Fragment, ReadEntries, Together, Apply;
    LastRuns(crc, f, s);
    if step.Crash? && Busy(s.mode) { InFlightWith(s.calls, Last(t.calls).fate); }
    if step.Return? { InFlightWith(s.calls, Last(t.calls).fate); }
    if step.Begin? { assert t.calls[..|s.calls|] == s.calls; }
  }

  /** And besides the commits that returned true a crash keeps at most one, the one it cut short. */
  lemma {:induction false} OnePerCrash(crc: Checksum, f: Files, states: seq<State>, steps: seq<Step>)
    requires Run(crc, states, steps) && states[0] == State(f, [], Up, [])
    ensures InFlight(Last(states).calls) <= Crashes(steps)
    decreases |steps|
  {
    if steps != [] {
      var n := |steps| - 1;
      hide Next, Sound;
      RunFront(crc, states, steps, n);
      OnePerCrash(crc, f, states[..n + 1], steps[..n]);
      SoundStart(crc, f);
      RunSound(crc, f, states[..n + 1], steps[..n]);
      assert CanStep(crc, states[n], steps[n], states[n + 1]);
      StepInFlight(crc, f, states[n], steps[n], states[n + 1]);
    }
  }

  // ---- recovery always succeeds

  predicate Recovering(m: Mode) { m.Down? || m.Redoing? || m.Clearing? }

  predicate Undisturbed(steps: seq<Step>) { forall i {:trigger steps[i]} :: 0 <= i < |steps| ==> !steps[i].Crash? && !steps[i].Begin? }

  /** A step that gets somewhere: not one that only puts on the disk what will be there anyway. */
  predicate Advances(s: State, step: Step, t: State) { !step.Land? && t != s }

  /** The most steps that recovery can still take and get somewhere. */
  function Remaining(s: State): nat {
    match s.mode
    case Down => if s.calls == [] then 4 else 4 + |Last(s.calls).entries|
    case Redoing(_, entries, _, made) => if made <= |entries| then 3 + |entries| - made else 3
    case Clearing => if s.log == [] then 1 else 2
    case _ => 0
  }

  lemma RecoveryAdvances(crc: Checksum, f: Files, s: State, step: Step, t: State)
    requires Sound(crc, f, s) && CanStep(crc, s, step, t) && Recovering(s.mode) && !step.Crash? && !step.Begin?
    ensures (Recovering(t.mode) || t.mode == Up) && t.calls == s.calls && Remaining(t) <= Remaining(s)
    ensures Advances(s, step, t) ==> Remaining(t) < Remaining(s)
  {
    hide Replay, Ops, CheckCommitted, Image, Reached, WellFormed, Outcome, ReadEntries, Fragment, Apply;
    if step.FindCommitted? {
      var c := Last(s.calls);
      AcceptsWhole(c.entries, c.id, crc);
      ReadsBack(c.entries, c.id, crc, |c.entries|);
      assert c.entries[..|c.entries|] == c.entries;
    }
  }

  /** Until the database is up there is always a step that gets somewhere: no log is ever refused. */
  lemma NeverStuck(crc: Checksum, f: Files, s: State) returns (step: Step, t: State)
    requires Sound(crc, f, s) && Recovering(s.mode)
    ensures CanStep(crc, s, step, t) && Advances(s, step, t) && !step.Crash? && !step.Begin?
  {
    hide Replay, Ops, CheckCommitted, Image, Reached, WellFormed, Outcome, ReadEntries, Apply;
    if s.mode.Down? {
      if s.log == [] {
        step, t := FindEmpty, s.(mode := Up);
      } else if CheckCommitted(s.log, crc) == None {
        step, t := FindUncommitted, s.(mode := Clearing);
      } else {
        var c := Last(s.calls);
        AcceptsWhole(c.entries, c.id, crc);
        ReadsBack(c.entries, c.id, crc, |c.entries|);
        assert c.entries[..|c.entries|] == c.entries;
        step, t := FindCommitted(c.entries), s.(mode := Redoing(s.disk, c.entries, s.disk, 0));
      }
    } else if s.mode.Clearing? {
      if s.log == [] { step, t := Recover, s.(mode := Up); } else { step, t := Truncate, s.(log := []); }
    } else if s.mode.made == |Doing(s)| {
      step, t := FinishRedo, s.(mode := Clearing, disk := s.mode.view);
    } else {
      var ops, before := Doing(s), Outcome(s.calls[..|s.calls| - 1], f);
      RedoConverges(ops, before, s.mode.start);
      OneMade(ops, s.mode.start, s.mode.view, s.mode.made);
      step := Make;
      t := s.(mode := Redoing(s.mode.start, s.mode.entries, Apply(ops[s.mode.made], s.mode.view).value, s.mode.made + 1));
    }
  }

  /** How many steps of a run get somewhere. */
  function Progress(states: seq<State>, steps: seq<Step>): nat
    requires |states| == |steps| + 1
  {
    if steps == [] then 0
    else Progress(states[..|steps|], steps[..|steps| - 1]) + if Advances(states[|steps| - 1], Last(steps), states[|steps|]) then 1 else 0
  }

  /** However long a recovery that isn't disturbed goes on, it takes no more than so many steps that get somewhere, and once it
      can't take another the database is up, with the files the kept commits made. */
  lemma {:induction false} RecoveryFinishes(crc: Checksum, f: Files, states: seq<State>, steps: seq<Step>)
    requires Run(crc, states, steps) && Undisturbed(steps) && Sound(crc, f, states[0]) && Recovering(states[0].mode)
    ensures Progress(states, steps) + Remaining(Last(states)) <= Remaining(states[0]) && Last(states).calls == states[0].calls
    ensures Recovering(Last(states).mode) || (Last(states).mode == Up && Last(states).disk == Outcome(states[0].calls, f) && Last(states).log == [])
    ensures Recovering(Last(states).mode) ==>
              exists step, t :: CanStep(crc, Last(states), step, t) && Advances(Last(states), step, t) && !step.Crash? && !step.Begin?
    decreases |steps|
  {
    hide Next, Sound, Outcome, Remaining;
    RunSound(crc, f, states, steps);
    if steps != [] {
      var n := |steps| - 1;
      RunFront(crc, states, steps, n);
      forall i | 0 <= i < n ensures !steps[..n][i].Crash? && !steps[..n][i].Begin? { assert steps[i] == steps[..n][i]; }
      RecoveryFinishes(crc, f, states[..n + 1], steps[..n]);
      RunSound(crc, f, states[..n + 1], steps[..n]);
      assert CanStep(crc, states[n], steps[n], states[n + 1]);
      assert steps[n] == Last(steps);
      UpStays(crc, states[n], steps[n], states[n + 1]);
      RecoveryAdvances(crc, f, states[n], steps[n], states[n + 1]);
    }
    UpMeans(crc, f, Last(states));
    if Recovering(Last(states).mode) { var step, t := NeverStuck(crc, f, Last(states)); }
  }

  lemma UpStays(crc: Checksum, s: State, step: Step, t: State)
    requires CanStep(crc, s, step, t) && !step.Crash? && !step.Begin?
    ensures s.mode != Up
  {
  }

  lemma UpMeans(crc: Checksum, f: Files, s: State)
    requires Sound(crc, f, s)
    ensures s.mode == Up ==> s.disk == Outcome(s.calls, f) && s.log == []
  {
  }
}
