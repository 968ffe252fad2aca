// A slotted page's arrays: slots sorted by key, each pointing at its record's entries among those of all records.
module PageLayout {
  import opened Base
  import opened Words
  import opened Records

  datatype Slot = Slot(ID: Key, ptr: nat, len: nat, size: nat)

  predicate SlotOK(s: Slot, es: seq<Entry>) {
    s.ptr + s.len <= |es| && s.size == Size(es[s.ptr..s.ptr + s.len])
  }

  predicate Apart(a: Slot, b: Slot) { a.ptr + a.len <= b.ptr || b.ptr + b.len <= a.ptr }

  function Lens(ss: seq<Slot>): nat { if ss == [] then 0 else Lens(ss[..|ss| - 1]) + Last(ss).len }

  function Sizes(ss: seq<Slot>): nat { if ss == [] then 0 else Sizes(ss[..|ss| - 1]) + Last(ss).size }

  /** The slots' ranges are apart and make up the entries. */
  ghost predicate Laid(ss: seq<Slot>, es: seq<Entry>) {
    && (forall i {:trigger ss[i]} :: 0 <= i < |ss| ==> SlotOK(ss[i], es))
    && (forall i, j {:trigger ss[i], ss[j]} :: 0 <= i < j < |ss| ==> Apart(ss[i], ss[j]))
    && Lens(ss) == |es|
  }

  function RecordAt(s: Slot, es: seq<Entry>): Record {
    Record(s.ID, if s.ptr + s.len <= |es| then es[s.ptr..s.ptr + s.len] else [])
  }

  /** The records a page holds, in order of key. */
  function Recs(ss: seq<Slot>, es: seq<Entry>): (r: seq<Record>)
    ensures |r| == |ss| && forall i {:trigger r[i]} :: 0 <= i < |ss| ==> r[i] == RecordAt(ss[i], es)
  {
    seq(|ss|, i requires 0 <= i < |ss| => RecordAt(ss[i], es))
  }

  lemma {:induction false} SumAt(ss: seq<Slot>, i: nat, s: Slot)
    requires i < |ss|
    ensures Lens(ss[i := s]) == Lens(ss) - ss[i].len + s.len && Sizes(ss[i := s]) == Sizes(ss) - ss[i].size + s.size
  {
    var t := ss[i := s];
    if i == |ss| - 1 {
      assert t[..i] == ss[..i];
    } else {
      assert t[..|ss| - 1] == ss[..|ss| - 1][i := s];
      SumAt(ss[..|ss| - 1], i, s);
    }
  }

  lemma {:induction false} SumInsert(ss: seq<Slot>, i: nat, s: Slot)
    requires i <= |ss|
    ensures Lens(InsertAt(ss, i, s)) == Lens(ss) + s.len && Sizes(InsertAt(ss, i, s)) == Sizes(ss) + s.size
  {
    var t := InsertAt(ss, i, s);
    if i == |ss| {
      assert t[..i] == ss;
    } else {
      assert t[..|ss|] == InsertAt(ss[..|ss| - 1], i, s);
      SumInsert(ss[..|ss| - 1], i, s);
    }
  }

  lemma SumRemove(ss: seq<Slot>, i: nat)
    requires i < |ss|
    ensures Lens(RemoveAt(ss, i)) == Lens(ss) - ss[i].len && Sizes(RemoveAt(ss, i)) == Sizes(ss) - ss[i].size
  {
    hide Lens, Sizes;
    SumInsert(RemoveAt(ss, i), i, ss[i]);
    assert InsertAt(RemoveAt(ss, i), i, ss[i]) == ss;
  }

  lemma OneMore(n: nat, b: nat)
    ensures (n + 1) * b == n * b + b
  {
  }

  /** What the header counts is what the records use. */
  lemma {:induction false} RoomUsed(keySize: nat, ss: seq<Slot>, es: seq<Entry>)
    requires forall i {:trigger ss[i]} :: 0 <= i < |ss| ==> SlotOK(ss[i], es)
    ensures Used(keySize, Recs(ss, es)) == |ss| * (keySize + 12) + 6 * Lens(ss) + Sizes(ss)
  {
    if ss != [] {
      var front := ss[..|ss| - 1];
      RoomUsed(keySize, front, es);
      OneMore(|front|, keySize + 12);
      assert Recs(ss, es)[..|ss| - 1] == Recs(front, es);
      assert SlotOK(Last(ss), es);
    }
  }

  // ---- what the operations do to the arrays

  lemma KeptAt(s: Slot, es: seq<Entry>, more: seq<Entry>)
    requires SlotOK(s, es)
    ensures SlotOK(s, es + more) && RecordAt(s, es + more) == RecordAt(s, es)
  {
    hide Size;
    assert (es + more)[s.ptr..s.ptr + s.len] == es[s.ptr..s.ptr + s.len];
  }

  lemma NewAt(es: seq<Entry>, r: Record)
    ensures var s := Slot(r.key, |es|, |r.entries|, Size(r.entries)); SlotOK(s, es + r.entries) && RecordAt(s, es + r.entries) == r
  {
    hide Size;
    assert (es + r.entries)[|es|..|es| + |r.entries|] == r.entries;
  }

  lemma LastApart(s: Slot, t: Slot, es: seq<Entry>)
    requires SlotOK(s, es) && t.ptr == |es|
    ensures Apart(s, t) && Apart(t, s)
  {
    hide Size;
  }

  /** A record is put in: its slot at i, its entries after all others. */
  lemma Inserted(ss: seq<Slot>, es: seq<Entry>, i: nat, r: Record)
    requires Laid(ss, es) && i <= |ss|
    ensures var s := Slot(r.key, |es|, |r.entries|, Size(r.entries));
            && Laid(InsertAt(ss, i, s), es + r.entries)
            && Recs(InsertAt(ss, i, s), es + r.entries) == InsertAt(Recs(ss, es), i, r)
  {
    hide Lens, Sizes, Size, SlotOK, RecordAt, Apart;
    var s, all := Slot(r.key, |es|, |r.entries|, Size(r.entries)), es + r.entries;
    var t := InsertAt(ss, i, s);
    SumInsert(ss, i, s);
    NewAt(es, r);
    forall j | 0 <= j < |t| ensures SlotOK(t[j], all) && (j != i ==> RecordAt(t[j], all) == RecordAt(t[j], es)) {
      if j != i { KeptAt(ss[if j < i then j else j - 1], es, r.entries); }
    }
    forall j, k {:trigger t[j], t[k]} | 0 <= j < k < |t| ensures Apart(t[j], t[k]) {
      if j == i { LastApart(ss[k - 1], s, es); } else if k == i { LastApart(ss[j], s, es); }
    }
    assert Recs(t, all) == InsertAt(Recs(ss, es), i, r);
  }

  /** A slot once the entries of d have gone. */
  function Rebased(s: Slot, d: Slot): Slot { if s.ptr > d.ptr && s.ptr >= d.len then s.(ptr := s.ptr - d.len) else s }

  function AllRebased(ss: seq<Slot>, d: Slot): (r: seq<Slot>)
    ensures |r| == |ss| && forall i {:trigger r[i]} :: 0 <= i < |ss| ==> r[i] == Rebased(ss[i], d)
  {
    seq(|ss|, i requires 0 <= i < |ss| => Rebased(ss[i], d))
  }

  function Cut(es: seq<Entry>, d: Slot): seq<Entry>
    requires d.ptr + d.len <= |es|
  {
    es[..d.ptr] + es[d.ptr + d.len..]
  }

  lemma {:induction false} RebasedSums(ss: seq<Slot>, d: Slot)
    ensures Lens(AllRebased(ss, d)) == Lens(ss) && Sizes(AllRebased(ss, d)) == Sizes(ss)
  {
    if ss != [] {
      assert AllRebased(ss, d)[..|ss| - 1] == AllRebased(ss[..|ss| - 1], d);
      RebasedSums(ss[..|ss| - 1], d);
    }
  }

  lemma OneRebased(s: Slot, d: Slot, es: seq<Entry>)
    requires SlotOK(s, es) && SlotOK(d, es) && Apart(s, d)
    ensures SlotOK(Rebased(s, d), Cut(es, d)) && RecordAt(Rebased(s, d), Cut(es, d)) == RecordAt(s, es)
    ensures Rebased(s, d).ptr == if s.ptr >= d.ptr + d.len then s.ptr - d.len else s.ptr
  {
    hide Size;
    var t, c := Rebased(s, d), Cut(es, d);
    if s.ptr >= d.ptr + d.len {
      CutAbove(es, d, s.ptr, s.len);
    } else {
      CutBelow(es, d, s.ptr, s.len);
    }
  }

  lemma CutBelow(es: seq<Entry>, d: Slot, ptr: nat, len: nat)
    requires ptr + len <= d.ptr && d.ptr + d.len <= |es|
    ensures Cut(es, d)[ptr..ptr + len] == es[ptr..ptr + len]
  {
  }

  lemma CutAbove(es: seq<Entry>, d: Slot, ptr: nat, len: nat)
    requires d.ptr + d.len <= ptr && ptr + len <= |es|
    ensures Cut(es, d)[ptr - d.len..ptr - d.len + len] == es[ptr..ptr + len]
  {
  }

  lemma RebasedAt(ss: seq<Slot>, es: seq<Entry>, i: nat, j: nat)
    requires Laid(ss, es) && i < |ss| && j < |ss| && j != i
    ensures SlotOK(ss[i], es) && SlotOK(Rebased(ss[j], ss[i]), Cut(es, ss[i]))
    ensures RecordAt(Rebased(ss[j], ss[i]), Cut(es, ss[i])) == RecordAt(ss[j], es)
  {
    assert SlotOK(ss[j], es) && SlotOK(ss[i], es) && Apart(ss[j], ss[i]);
    OneRebased(ss[j], ss[i], es);
  }

  lemma RebasedApart(ss: seq<Slot>, es: seq<Entry>, i: nat, j: nat, k: nat)
    requires Laid(ss, es) && i < |ss| && j < k < |ss| && j != i && k != i
    ensures Apart(Rebased(ss[j], ss[i]), Rebased(ss[k], ss[i]))
  {
    var d, x, y := ss[i], ss[j], ss[k];
    assert Apart(x, y) && Apart(x, d) && Apart(y, d) && SlotOK(x, es) && SlotOK(y, es) && SlotOK(d, es);
    OneRebased(x, d, es);
    OneRebased(y, d, es);
    hide Size, Cut;
  }

  /** A record is taken out, and its entries. */
  lemma Removed(ss: seq<Slot>, es: seq<Entry>, i: nat)
    requires Laid(ss, es) && i < |ss|
    ensures SlotOK(ss[i], es)
    ensures Laid(AllRebased(RemoveAt(ss, i), ss[i]), Cut(es, ss[i]))
    ensures Recs(AllRebased(RemoveAt(ss, i), ss[i]), Cut(es, ss[i])) == RemoveAt(Recs(ss, es), i)
    ensures Sizes(AllRebased(RemoveAt(ss, i), ss[i])) == Sizes(ss) - ss[i].size
  {
    hide Lens, Sizes, Size, Cut, Rebased, RecordAt, Apart, AllRebased, SlotOK;
    var d, rest := ss[i], RemoveAt(ss, i);
    assert SlotOK(d, es);
    CutLength(es, d);
    var t, c := AllRebased(rest, d), Cut(es, d);
    SumRemove(ss, i);
    RebasedSums(rest, d);
    forall j | 0 <= j < |t| ensures SlotOK(t[j], c) && RecordAt(t[j], c) == RecordAt(rest[j], es) {
      assert t[j] == Rebased(rest[j], d) && rest[j] == ss[if j < i then j else j + 1];
      RebasedAt(ss, es, i, if j < i then j else j + 1);
    }
    forall j, k {:trigger t[j], t[k]} | 0 <= j < k < |t| ensures Apart(t[j], t[k]) {
      assert t[j] == Rebased(rest[j], d) && rest[j] == ss[if j < i then j else j + 1];
      assert t[k] == Rebased(rest[k], d) && rest[k] == ss[if k < i then k else k + 1];
      RebasedApart(ss, es, i, if j < i then j else j + 1, if k < i then k else k + 1);
    }
    SameRecords(t, c, rest, es);
    RemovedRecords(ss, es, i);
  }

  lemma SameRecords(a: seq<Slot>, c: seq<Entry>, b: seq<Slot>, es: seq<Entry>)
    requires |a| == |b| && forall j {:trigger a[j]} {:trigger b[j]} :: 0 <= j < |a| ==> RecordAt(a[j], c) == RecordAt(b[j], es)
    ensures Recs(a, c) == Recs(b, es)
  {
    hide RecordAt;
  }

  lemma RemovedRecords(ss: seq<Slot>, es: seq<Entry>, i: nat)
    requires i < |ss|
    ensures Recs(RemoveAt(ss, i), es) == RemoveAt(Recs(ss, es), i)
  {
    hide RecordAt;
  }

  lemma CutLength(es: seq<Entry>, d: Slot)
    requires SlotOK(d, es)
    ensures d.ptr + d.len <= |es| && |Cut(es, d)| == |es| - d.len
  {
  }

  lemma ReplacedAt(s: Slot, es: seq<Entry>, n: nat, e: Entry)
    requires SlotOK(s, es) && n < s.len
    ensures s.size + |e.data| - |es[s.ptr + n].data| >= 0
    ensures var t, now := s.(size := s.size + |e.data| - |es[s.ptr + n].data|), es[s.ptr + n := e];
            SlotOK(t, now) && RecordAt(t, now) == Record(s.ID, RecordAt(s, es).entries[n := e])
  {
    var mine, now := es[s.ptr..s.ptr + s.len], es[s.ptr + n := e];
    SizeAt(mine, n, e);
    hide Size;
    assert mine[n] == es[s.ptr + n] && now[s.ptr..s.ptr + s.len] == mine[n := e];
  }

  lemma OtherAt(s: Slot, d: Slot, es: seq<Entry>, n: nat, e: Entry)
    requires SlotOK(s, es) && SlotOK(d, es) && n < d.len && (Apart(s, d) || Apart(d, s))
    ensures SlotOK(s, es[d.ptr + n := e]) && RecordAt(s, es[d.ptr + n := e]) == RecordAt(s, es)
  {
    hide Size;
    assert es[d.ptr + n := e][s.ptr..s.ptr + s.len] == es[s.ptr..s.ptr + s.len];
  }

  lemma SameApart(a: Slot, b: Slot, c: Slot)
    requires c.ptr == b.ptr && c.len == b.len
    ensures Apart(a, b) <==> Apart(a, c)
    ensures Apart(b, a) <==> Apart(c, a)
  {
  }

  /** One entry of record i is replaced. */
  lemma Replaced(ss: seq<Slot>, es: seq<Entry>, i: nat, n: nat, e: Entry)
    requires Laid(ss, es) && i < |ss| && n < ss[i].len
    ensures ss[i].ptr + ss[i].len <= |es| && ss[i].size + |e.data| - |es[ss[i].ptr + n].data| >= 0
    ensures var s := ss[i].(size := ss[i].size + |e.data| - |es[ss[i].ptr + n].data|);
            && Laid(ss[i := s], es[ss[i].ptr + n := e])
            && Recs(ss[i := s], es[ss[i].ptr + n := e]) == Recs(ss, es)[i := Record(s.ID, Recs(ss, es)[i].entries[n := e])]
            && Sizes(ss[i := s]) == Sizes(ss) - ss[i].size + s.size
  {
    hide Lens, Sizes, Size, SlotOK, RecordAt, Apart;
    InRange(ss[i], es);
    ReplacedAt(ss[i], es, n, e);
    var now, s := es[ss[i].ptr + n := e], ss[i].(size := ss[i].size + |e.data| - |es[ss[i].ptr + n].data|);
    var t := ss[i := s];
    SumAt(ss, i, s);
    forall j | 0 <= j < |t| ensures SlotOK(t[j], now) && (j != i ==> RecordAt(t[j], now) == RecordAt(t[j], es)) {
      if j != i {
        assert t[j] == ss[j] && (Apart(ss[j], ss[i]) || Apart(ss[i], ss[j]));
        OtherAt(ss[j], ss[i], es, n, e);
      }
    }
    forall j, k {:trigger t[j], t[k]} | 0 <= j < k < |t| ensures Apart(t[j], t[k]) {
      assert Apart(ss[j], ss[k]);
      SameApart(ss[j], ss[i], s);
      SameApart(ss[k], ss[i], s);
    }
    assert Recs(t, now) == Recs(ss, es)[i := Record(s.ID, Recs(ss, es)[i].entries[n := e])];
  }

  lemma InRange(s: Slot, es: seq<Entry>)
    requires SlotOK(s, es)
    ensures s.ptr + s.len <= |es| && |RecordAt(s, es).entries| == s.len
  {
  }

  lemma SizeAt(es: seq<Entry>, n: nat, e: Entry)
    requires n < |es|
    ensures Size(es[n := e]) == Size(es) + |e.data| - |es[n].data|
    ensures Size(es) >= |es[n].data|
  {
    assert es == es[..n] + [es[n]] + es[n + 1..] && es[n := e] == es[..n] + [e] + es[n + 1..];
    SizeSplit(es[..n] + [es[n]], es[n + 1..]);
    SizeSplit(es[..n], [es[n]]);
    SizeSplit(es[..n] + [e], es[n + 1..]);
    SizeSplit(es[..n], [e]);
    SizeOne(e);
    SizeOne(es[n]);
  }

  lemma SlotOf(from: Slot, all: seq<Entry>, at: nat)
    requires SlotOK(from, all)
    ensures from.ptr + from.len <= |all| && RecordAt(from, all) == Record(from.ID, all[from.ptr..from.ptr + from.len])
    ensures from.(ptr := at) == Slot(from.ID, at, from.len, Size(all[from.ptr..from.ptr + from.len]))
  {
  }

  lemma AtEnd<T>(s: seq<T>, x: T)
    ensures InsertAt(s, |s|, x) == s + [x]
  {
  }

  /** A record copied in after the others, as a split does. */
  lemma Appended(ss: seq<Slot>, es: seq<Entry>, from: Slot, all: seq<Entry>)
    requires Laid(ss, es) && SlotOK(from, all)
    ensures from.ptr + from.len <= |all|
    ensures var s, more := from.(ptr := |es|), es + all[from.ptr..from.ptr + from.len];
            Laid(ss + [s], more) && Recs(ss + [s], more) == Recs(ss, es) + [RecordAt(from, all)] && Sizes(ss + [s]) == Sizes(ss) + from.size
  {
    hide Laid, Lens, Sizes, Size, Recs, RecordAt, SlotOK, InsertAt;
    SlotOf(from, all, |es|);
    Inserted(ss, es, |ss|, RecordAt(from, all));
    AtEnd(ss, from.(ptr := |es|));
    AtEnd(Recs(ss, es), RecordAt(from, all));
    SumInsert(ss, |ss|, from.(ptr := |es|));
  }

  /** The records' sizes add up to that of all the entries. */
  lemma {:induction false} TotalSize(ss: seq<Slot>, es: seq<Entry>)
    requires Laid(ss, es)
    ensures Sizes(ss) == Size(es)
    decreases |ss|
  {
    if ss == [] {
      assert es == [];
    } else {
      Removed(ss, es, 0);
      TotalSize(AllRebased(RemoveAt(ss, 0), ss[0]), Cut(es, ss[0]));
      CutSize(es, ss[0]);
    }
  }

  lemma CutSize(es: seq<Entry>, d: Slot)
    requires SlotOK(d, es)
    ensures Size(Cut(es, d)) == Size(es) - d.size
  {
    var a, b, c := es[..d.ptr], es[d.ptr..d.ptr + d.len], es[d.ptr + d.len..];
    SizeSplit(a + b, c);
    SizeSplit(a, b);
    SizeSplit(a, c);
    assert es == a + b + c;
  }
}
