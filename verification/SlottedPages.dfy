// A page in memory: arrays of slots and entries that records are put in, taken out of and moved between in place.
module SlottedPages {
  import opened Base
  import opened Words
  import opened Records
  import opened PageLayout

  const NO_SLOT: Slot := Slot(0, 0, 0, 0)
  const NO_ENTRY: Entry := Entry(Kind.Int, [])

  class SlottedPage {
    const keySize: nat
    const arrCap: nat
    var numRecords: nat
    var numEntries: nat
    var usedData: nat
    var minKey: Key
    var maxKey: Key
    var slots: array<Slot>
    var entries: array<Entry>

    ghost function Slots(): seq<Slot>
      reads this, slots
      requires numRecords <= slots.Length
    {
      slots[..numRecords]
    }

    ghost function Entries(): seq<Entry>
      reads this, entries
      requires numEntries <= entries.Length
    {
      entries[..numEntries]
    }

    /** The records in the page, in order of key. */
    ghost function Contents(): seq<Record>
      reads this, slots, entries
      requires numRecords <= slots.Length && numEntries <= entries.Length
    {
      Recs(Slots(), Entries())
    }

    /** The slots are sorted, their ranges make up the entries, and the header counts and bounds what is there. */
    ghost predicate Valid()
      reads this, slots, entries
    {
      && numRecords <= slots.Length && numEntries <= entries.Length
      && Laid(Slots(), Entries()) && usedData == Sizes(Slots())
      && SortedRecords(Contents())
      && Bounded()
    }

    ghost predicate Bounded()
      reads this, slots
    {
      numRecords <= slots.Length &&
      if numRecords == 0 then minKey == 0 == maxKey else minKey == slots[0].ID && maxKey == slots[numRecords - 1].ID
    }

    constructor (numSlots: nat, numCells: nat, capacity: nat, keySize: nat)
      ensures Valid() && Contents() == [] && arrCap == capacity && this.keySize == keySize && fresh(slots) && fresh(entries)
    {
      arrCap, this.keySize := capacity, keySize;
      numRecords, numEntries, usedData, minKey, maxKey := 0, 0, 0, 0, 0;
      slots := new Slot[numSlots](i => NO_SLOT);
      entries := new Entry[numCells](i => NO_ENTRY);
    }

    function SPRecordBytes(size: nat, len: nat): (n: nat) { keySize + 12 + 6 * len + size }

    function SPUsedBytes(): nat
      reads this
    {
      numRecords * (keySize + 12) + 6 * numEntries + usedData
    }

    /** The bytes the header says are used are those of the records. */
    lemma UsedIs()
      requires Valid()
      ensures SPUsedBytes() == Used(keySize, Contents())
    {
      hide Sizes, Lens, Size, Used, Recs, SortedRecords, Bounded;
      RoomUsed(keySize, Slots(), Entries());
    }

    lemma SlotKeys()
      requires numRecords <= slots.Length && numEntries <= entries.Length
      ensures |Contents()| == numRecords && forall i {:trigger slots[i]} {:trigger Contents()[i]} :: 0 <= i < numRecords ==> Contents()[i].key == slots[i].ID
    {
      forall i | 0 <= i < numRecords ensures Contents()[i].key == slots[i].ID { assert Contents()[i] == RecordAt(Slots()[i], Entries()); }
    }

    /** Binary search of the slots: the index of key's record, or the one it would be inserted at. */
    method SearchSlotArray(key: Key) returns (index: nat)
      requires Valid()
      ensures index == Position(Contents(), key)
    {
      hide Laid, Lens, Sizes, Size, Recs, Bounded;
      ghost var c := Contents();
      SlotKeys();
      var lo, hi := 0, numRecords;
      while lo < hi
        invariant 0 <= lo <= hi <= numRecords
        invariant forall j {:trigger c[j]} :: 0 <= j < lo ==> c[j].key < key
        invariant forall j {:trigger c[j]} :: hi <= j < numRecords ==> key <= c[j].key
      {
        var mid := lo + (hi - lo) / 2;
        if slots[mid].ID < key { lo := mid + 1; } else { hi := mid; }
      }
      PositionFound(c, key, lo);
      index := lo;
    }

    method SPSearch(key: Key) returns (r: Option<nat>)
      requires Valid()
      ensures r == if Holds(Contents(), key) then Some(Position(Contents(), key)) else None
    {
      var index := SearchSlotArray(key);
      if index >= numRecords { return None; }
      assert Contents()[index].key == slots[index].ID;
      r := if slots[index].ID != key then None else Some(index);
    }

    method SPRead(key: Key) returns (r: Option<seq<Entry>>)
      requires Valid()
      ensures r == if Holds(Contents(), key) then Some(Contents()[Position(Contents(), key)].entries) else None
    {
      hide Laid, Lens, Sizes, Size, Recs, Bounded;
      SlotKeys();
      var index := SearchSlotArray(key);
      if index >= numRecords { return None; }
      var s := slots[index];
      if s.ID != key { return None; }
      RecordIn(index);
      r := Some(entries[s.ptr..s.ptr + s.len]);
    }

    lemma RecordIn(i: nat)
      requires Valid() && i < numRecords
      ensures SlotOK(slots[i], Entries()) && slots[i].ptr + slots[i].len <= numEntries
      ensures Contents()[i] == Record(slots[i].ID, entries[slots[i].ptr..slots[i].ptr + slots[i].len])
    {
      var s := Slots()[i];
      assert SlotOK(s, Entries());
      assert Entries()[s.ptr..s.ptr + s.len] == entries[s.ptr..s.ptr + s.len];
    }

    /** Sets the bounds from the slots. */
    method UpdateKeyBounds()
      requires numRecords <= slots.Length
      modifies this`minKey, this`maxKey
      ensures Bounded()
    {
      if numRecords == 0 {
        minKey, maxKey := 0, 0;
        return;
      }
      minKey := slots[0].ID;
      maxKey := slots[numRecords - 1].ID;
    }

    /** Makes the arrays larger, if they are too small for a record of len entries more. */
    method Grow(len: nat)
      requires numRecords <= slots.Length && numEntries <= entries.Length
      modifies this`slots, this`entries
      ensures numRecords < slots.Length && numEntries + len <= entries.Length
      ensures Slots() == old(Slots()) && Entries() == old(Entries())
      ensures (slots == old(slots) || fresh(slots)) && (entries == old(entries) || fresh(entries))
    {
      if numRecords >= slots.Length {
        var more := new Slot[3 * slots.Length / 2 + 1](i => NO_SLOT);
        CopySlots(slots, more, numRecords);
        slots := more;
      }
      if numEntries + len > entries.Length {
        var more := new Entry[3 * (numEntries + len) / 2 + 1](i => NO_ENTRY);
        CopyEntries(entries[..], 0, more, 0, numEntries);
        entries := more;
      }
    }

    lemma WithRecord(ss: seq<Slot>, es: seq<Entry>, i: nat, r: Record)
      requires Laid(ss, es) && SortedRecords(Recs(ss, es)) && !Holds(Recs(ss, es), r.key) && i == Position(Recs(ss, es), r.key) && i <= |ss|
      ensures var t, all := InsertAt(ss, i, Slot(r.key, |es|, |r.entries|, Size(r.entries))), es + r.entries;
              && Laid(t, all) && SortedRecords(Recs(t, all)) && Recs(t, all) == InsertAt(Recs(ss, es), i, r)
              && Sizes(t) == Sizes(ss) + Size(r.entries)
    {
      hide Laid, Lens, Sizes, Recs, SortedRecords, Position, InsertAt, Holds, Size;
      Inserted(ss, es, i, r);
      InsertSorted(Recs(ss, es), r);
      SumInsert(ss, i, Slot(r.key, |es|, |r.entries|, Size(r.entries)));
    }

    /** Puts in a record whose key the page doesn't hold, if there is room. */
    method SPInsert(r: Record) returns (ok: bool)
      requires Valid() && !Holds(Contents(), r.key)
      modifies this, slots, entries
      ensures Valid() && ok == (old(Used(keySize, Contents())) + RecordBytes(keySize, r) <= arrCap)
      ensures Contents() == if ok then InsertAt(old(Contents()), Position(old(Contents()), r.key), r) else old(Contents())
      ensures (slots == old(slots) || fresh(slots)) && (entries == old(entries) || fresh(entries))
    {
      hide Laid, Lens, Sizes, Recs, SortedRecords, Bounded, Position, InsertAt, Holds, Size;
      UsedIs();
      if SPUsedBytes() + SPRecordBytes(Size(r.entries), |r.entries|) > arrCap { return false; }
      var index := SearchSlotArray(r.key);
      WithRecord(Slots(), Entries(), index, r);
      Grow(|r.entries|);
      PutRecord(index, r);
      ok := true;
    }

    method PutRecord(index: nat, r: Record)
      requires index <= numRecords < slots.Length && numEntries + |r.entries| <= entries.Length
      modifies this`numRecords, this`numEntries, this`usedData, this`minKey, this`maxKey, slots, entries
      ensures numRecords <= slots.Length && numEntries <= entries.Length && Bounded()
      ensures usedData == old(usedData) + Size(r.entries) && Entries() == old(Entries()) + r.entries
      ensures Slots() == InsertAt(old(Slots()), index, Slot(r.key, old(numEntries), |r.entries|, Size(r.entries)))
    {
      hide Size, InsertAt;
      InsertSlot(slots, index, numRecords, Slot(r.key, numEntries, |r.entries|, Size(r.entries)));
      numRecords := numRecords + 1;
      CopyEntries(r.entries, 0, entries, numEntries, |r.entries|);
      numEntries := numEntries + |r.entries|;
      usedData := usedData + Size(r.entries);
      UpdateKeyBounds();
    }

    /** Takes out the record with this key: the entries after its own are moved up, and the slots that point at them follow. */
    method SPDelete(key: Key) returns (ok: bool)
      requires Valid()
      modifies this, slots, entries
      ensures Valid() && ok == old(Holds(Contents(), key)) && slots == old(slots) && entries == old(entries)
      ensures Contents() == if ok then RemoveAt(old(Contents()), Position(old(Contents()), key)) else old(Contents())
    {
      hide Laid, Lens, Sizes, Size, Recs, SortedRecords, Bounded, Position, RemoveAt, AllRebased, Cut, SlotOK;
      SlotKeys();
      var index := SearchSlotArray(key);
      if index >= numRecords || slots[index].ID != key { return false; }
      ghost var ss, es := Slots(), Entries();
      PageLayout.Removed(ss, es, index);
      RemoveSorted(Recs(ss, es), index);
      RecordIn(index);
      SizeIn(ss, es, index);
      TakeRecord(index);
      ok := true;
    }

    method TakeRecord(index: nat)
      requires index < numRecords <= slots.Length && numEntries <= entries.Length
      requires slots[index].ptr + slots[index].len <= numEntries && slots[index].size <= usedData && After(Slots(), index)
      modifies this`numRecords, this`numEntries, this`usedData, this`minKey, this`maxKey, slots, entries
      ensures numRecords <= slots.Length && numEntries <= entries.Length && Bounded()
      ensures usedData == old(usedData) - old(slots[index].size) && Entries() == Cut(old(Entries()), old(slots[index]))
      ensures Slots() == AllRebased(RemoveAt(old(Slots()), index), old(slots[index]))
    {
      hide Cut, RemoveAt, Rebased;
      var deleted := slots[index];
      usedData := usedData - deleted.size;
      CloseEntries(deleted);
      ghost var ss, es := Slots(), Entries();
      RebaseSlots(index, deleted);
      var oldNumEntries := numEntries;
      numEntries := numEntries - deleted.len;
      ClearEntries(numEntries, oldNumEntries);
      ghost var rebased := Slots();
      ShiftSlotArrayL(slots, index, numRecords);
      numRecords := numRecords - 1;
      RemoveRebased(ss, rebased, index, deleted);
      UpdateKeyBounds();
    }

    method CloseEntries(d: Slot)
      requires numEntries <= entries.Length && d.ptr + d.len <= numEntries
      modifies entries
      ensures entries[..numEntries - d.len] == Cut(old(Entries()), d)
    {
      hide Cut;
      ghost var es := Entries();
      var i: nat := d.ptr;
      CutStarts(es, d);
      while i < numEntries - d.len
        invariant d.ptr <= i <= numEntries - d.len && entries[..i] == Cut(es, d)[..i]
        invariant forall j {:trigger entries[j]} :: i <= j < numEntries ==> entries[j] == es[j]
      {
        CutNext(es, d, i);
        entries[i] := entries[i + d.len];
        i := i + 1;
      }
      assert Cut(es, d)[..i] == Cut(es, d);
    }

    method ClearEntries(from: nat, to: nat)
      requires from <= to <= entries.Length
      modifies entries
      ensures entries[..from] == old(entries[..from])
    {
      for i := from to to
        invariant entries[..from] == old(entries[..from])
      {
        entries[i] := NO_ENTRY;
      }
    }

    method RebaseSlots(index: nat, d: Slot)
      requires index < numRecords <= slots.Length && d == slots[index] && After(Slots(), index)
      modifies slots
      ensures forall i :: 0 <= i < numRecords ==> slots[i] == if i == index then old(slots[i]) else Rebased(old(slots[i]), d)
    {
      ghost var ss := Slots();
      for i := 0 to numRecords
        invariant forall j :: 0 <= j < numRecords ==> slots[j] == if j >= i || j == index then ss[j] else Rebased(ss[j], d)
      {
        if i == index { continue; }
        assert slots[i] == ss[i];
        if slots[i].ptr > d.ptr { slots[i] := slots[i].(ptr := slots[i].ptr - d.len); }
      }
    }

    /** Replaces the first entries of the record with this key, if it has as many. */
    method SPUpdate(key: Key, new_: seq<Entry>) returns (ok: bool)
      requires Valid()
      modifies this`usedData, slots, entries
      ensures Valid() && ok == (old(Holds(Contents(), key)) && |new_| <= |old(Contents())[Position(old(Contents()), key)].entries|)
      ensures Contents() == if ok then Changed(old(Contents()), Position(old(Contents()), key), new_) else old(Contents())
    {
      hide Laid, Lens, Sizes, Size, Recs, Position, SlotOK, Bounded, Changed, SortedRecords, Overwrite;
      SlotKeys();
      var index := SearchSlotArray(key);
      if index >= numRecords || slots[index].ID != key { return false; }
      var s := slots[index];
      RecordIn(index);
      if s.len < |new_| { return false; }
      ghost var c := Contents();
      Unchanged(c, index, new_);
      for i := 0 to |new_|
        invariant Laid(Slots(), Entries()) && usedData == Sizes(Slots()) && Contents() == Changed(c, index, new_[..i])
        invariant slots[index].len == s.len && Bounded()
      {
        ChangeNext(c, index, new_, i);
        ReplaceEntry(index, i, new_[i]);
      }
      assert new_[..|new_|] == new_;
      ChangedSorted(c, index, new_);
      ok := true;
    }

    /** Moves the records from index on into an empty page, and gathers the entries of those that stay. */
    method SPSplit(upper: SlottedPage, index0: nat)
      requires Valid() && upper.Valid() && upper.numRecords == 0 && upper != this && upper.slots != slots && upper.entries != entries
      modifies this, slots, upper, upper.slots, upper.entries
      ensures Valid() && upper.Valid()
      ensures var c, i := old(Contents()), if index0 < old(numRecords) then index0 else old(numRecords);
              Contents() == c[..i] && upper.Contents() == c[i..]
    {
      hide Laid, Lens, Sizes, Recs, SortedRecords, Bounded;
      var index := if index0 > numRecords then numRecords else index0;
      MoveUpper(upper, index);
      KeepLower(index);
    }

    method MoveUpper(upper: SlottedPage, index: nat)
      requires Valid() && index <= numRecords && upper != this && upper.slots != slots && upper.entries != entries
      modifies upper, upper.slots, upper.entries
      ensures upper.Valid() && upper.Contents() == Contents()[index..] && upper.slots != slots && upper.entries != entries
    {
      hide Laid, Lens, Sizes, Recs, SlotOK, Size, SortedRecords;
      SplitFacts(index);
      var movedSlots := numRecords - index;
      var movedEntries := CountEntries(slots, index, numRecords);
      upper.MakeRoom(movedSlots, movedEntries);
      upper.numEntries, upper.usedData := Gather(slots, index, numRecords, entries, upper.slots, upper.entries);
      upper.numRecords := movedSlots;
      upper.UpdateKeyBounds();
    }

    /** Makes an empty page's arrays large enough. */
    method MakeRoom(movedSlots: nat, movedEntries: nat)
      modifies this`slots, this`entries
      ensures movedSlots <= slots.Length && movedEntries <= entries.Length
      ensures (slots == old(slots) || fresh(slots)) && (entries == old(entries) || fresh(entries))
    {
      if movedSlots > slots.Length { slots := new Slot[movedSlots](i => NO_SLOT); }
      if movedEntries > entries.Length { entries := new Entry[movedEntries](i => NO_ENTRY); }
    }

    method KeepLower(index: nat)
      requires Valid() && index <= numRecords
      modifies this, slots
      ensures Valid() && Contents() == old(Contents())[..index]
    {
      hide Laid, Lens, Sizes, Recs, SlotOK, Size, SortedRecords;
      SplitFacts(index);
      var kept := new Entry[entries.Length](i => NO_ENTRY);
      numEntries, usedData := Gather(slots, 0, index, entries, slots, kept);
      entries := kept;
      numRecords := index;
      UpdateKeyBounds();
    }

    lemma SplitFacts(index: nat)
      requires Valid() && index <= numRecords
      ensures forall i :: 0 <= i < numRecords ==> SlotOK(slots[i], entries[..])
      ensures Recs(slots[0..index], entries[..]) == Contents()[..index] && Recs(slots[index..numRecords], entries[..]) == Contents()[index..]
      ensures SortedRecords(Contents()[..index]) && SortedRecords(Contents()[index..])
      ensures Lens(slots[0..index]) <= numEntries
    {
      hide Lens, Sizes, Recs, SlotOK, Size, SortedRecords;
      var ss, es := Slots(), Entries();
      assert es <= entries[..];
      EachOK(ss, es, entries[..]);
      RecsOf(ss, entries[..], index);
      SplitSorted(Contents(), index);
      LensParts(ss, index);
      assert slots[index..numRecords] == ss[index..] && slots[0..index] == ss[..index];
    }

    /** Replaces entry n of record index; the record's size, and the page's, follow. */
    method ReplaceEntry(index: nat, n: nat, e: Entry)
      requires index < numRecords <= slots.Length && numEntries <= entries.Length && Laid(Slots(), Entries()) && n < slots[index].len
      requires usedData == Sizes(Slots()) && Bounded()
      modifies this`usedData, slots, entries
      ensures Laid(Slots(), Entries()) && usedData == Sizes(Slots()) && Bounded() && slots[index].len == old(slots[index].len)
      ensures var c := old(Contents()); Contents() == c[index := Record(c[index].key, c[index].entries[n := e])]
    {
      hide Laid, Lens, Sizes, Size, Recs;
      ghost var ss, es := Slots(), Entries();
      SizeIn(ss, es, index);
      Replaced(ss, es, index, n, e);
      var at := slots[index].ptr + n;
      var change := |e.data| - |entries[at].data|;
      slots[index] := slots[index].(size := slots[index].size + change);
      usedData := usedData + change;
      entries[at] := e;
      assert Slots() == ss[index := slots[index]] && Entries() == es[at := e];
    }
  }

  method CountEntries(slots: array<Slot>, lo: nat, hi: nat) returns (n: nat)
    requires lo <= hi <= slots.Length
    ensures n == Lens(slots[lo..hi])
  {
    n := 0;
    assert slots[lo..lo] == [];
    for i := lo to hi
      invariant n == Lens(slots[lo..i])
    {
      assert slots[lo..i + 1][..i - lo] == slots[lo..i];
      n := n + slots[i].len;
    }
  }

  lemma SplitSorted(c: seq<Record>, i: nat)
    requires SortedRecords(c) && i <= |c|
    ensures SortedRecords(c[..i]) && SortedRecords(c[i..])
  {
  }

  lemma EachOK(ss: seq<Slot>, es: seq<Entry>, all: seq<Entry>)
    requires Laid(ss, es) && es <= all
    ensures forall i {:trigger ss[i]} :: 0 <= i < |ss| ==> SlotOK(ss[i], all) && RecordAt(ss[i], all) == RecordAt(ss[i], es)
    ensures Recs(ss, all) == Recs(ss, es)
  {
    forall i | 0 <= i < |ss| ensures SlotOK(ss[i], all) && RecordAt(ss[i], all) == RecordAt(ss[i], es) {
      assert SlotOK(ss[i], es) && all[ss[i].ptr..ss[i].ptr + ss[i].len] == es[ss[i].ptr..ss[i].ptr + ss[i].len];
    }
  }

  lemma CutStarts(es: seq<Entry>, d: Slot)
    requires d.ptr + d.len <= |es|
    ensures |Cut(es, d)| == |es| - d.len && Cut(es, d)[..d.ptr] == es[..d.ptr]
  {
  }

  lemma CutNext(es: seq<Entry>, d: Slot, i: nat)
    requires d.ptr <= i && i + d.len < |es|
    ensures |Cut(es, d)| == |es| - d.len && Cut(es, d)[..i + 1] == Cut(es, d)[..i] + [es[i + d.len]]
  {
  }

  lemma RemoveRebased(ss: seq<Slot>, rebased: seq<Slot>, i: nat, d: Slot)
    requires i < |ss| == |rebased| && forall j :: 0 <= j < |ss| ==> rebased[j] == if j == i then ss[j] else Rebased(ss[j], d)
    ensures RemoveAt(rebased, i) == AllRebased(RemoveAt(ss, i), d)
  {
    hide Rebased;
  }

  lemma RecsOf(ss: seq<Slot>, es: seq<Entry>, i: nat)
    requires i <= |ss|
    ensures Recs(ss[..i], es) == Recs(ss, es)[..i] && Recs(ss[i..], es) == Recs(ss, es)[i..]
  {
  }

  lemma {:induction false} LensParts(ss: seq<Slot>, i: nat)
    requires i <= |ss|
    ensures Lens(ss) == Lens(ss[..i]) + Lens(ss[i..])
    decreases |ss|
  {
    if i == |ss| {
      assert ss[..i] == ss;
    } else {
      var front := ss[..|ss| - 1];
      LensParts(front, i);
      assert front[..i] == ss[..i] && ss[i..][..|ss| - i - 1] == front[i..];
    }
  }

  lemma LensNext(ss: seq<Slot>, i: nat)
    requires i < |ss|
    ensures Lens(ss[..i + 1]) == Lens(ss[..i]) + ss[i].len <= Lens(ss)
  {
    LensParts(ss, i + 1);
    assert ss[..i + 1][..i] == ss[..i];
  }

  /** The slots whose entries come after those of slot i. */
  ghost predicate After(ss: seq<Slot>, i: nat) {
    i < |ss| && forall j {:trigger ss[j]} :: 0 <= j < |ss| && j != i && ss[j].ptr > ss[i].ptr ==> ss[j].ptr >= ss[i].ptr + ss[i].len
  }

  lemma SizeIn(ss: seq<Slot>, es: seq<Entry>, i: nat)
    requires i < |ss| && Laid(ss, es)
    ensures ss[i].size <= Sizes(ss) && After(ss, i)
  {
    SumRemove(ss, i);
    hide Sizes, Lens, Size;
    forall j | 0 <= j < |ss| && j != i && ss[j].ptr > ss[i].ptr ensures ss[j].ptr >= ss[i].ptr + ss[i].len { assert Apart(ss[i], ss[j]); }
  }

  /** The records with the first entries of one of them replaced. */
  ghost function Changed(c: seq<Record>, i: nat, new_: seq<Entry>): seq<Record>
    requires i < |c| && |new_| <= |c[i].entries|
  {
    c[i := Record(c[i].key, Overwrite(c[i].entries, new_))]
  }

  lemma ChangedSorted(c: seq<Record>, i: nat, new_: seq<Entry>)
    requires i < |c| && |new_| <= |c[i].entries| && SortedRecords(c)
    ensures SortedRecords(Changed(c, i, new_))
  {
  }

  lemma Unchanged(c: seq<Record>, i: nat, new_: seq<Entry>)
    requires i < |c|
    ensures Changed(c, i, new_[..0]) == c
  {
    assert Overwrite(c[i].entries, new_[..0]) == c[i].entries;
  }

  lemma ChangeNext(c: seq<Record>, i: nat, new_: seq<Entry>, n: nat)
    requires i < |c| && n < |new_| <= |c[i].entries|
    ensures var now := Changed(c, i, new_[..n]);
            Changed(c, i, new_[..n + 1]) == now[i := Record(now[i].key, now[i].entries[n := new_[n]])]
  {
    assert Overwrite(c[i].entries, new_[..n + 1]) == Overwrite(c[i].entries, new_[..n])[n := new_[n]];
  }

  /** Copies the records of some slots into other arrays, their entries one after the other. The slots can be copied over themselves. */
  method Gather(from: array<Slot>, lo: nat, hi: nat, cells: array<Entry>, to: array<Slot>, dst: array<Entry>) returns (n: nat, data: nat)
    requires lo <= hi <= from.Length && hi - lo <= to.Length && (from == to ==> lo == 0) && cells != dst
    requires forall i :: lo <= i < hi ==> SlotOK(from[i], cells[..])
    requires Lens(from[lo..hi]) <= dst.Length
    modifies to, dst
    ensures n <= dst.Length && Laid(to[..hi - lo], dst[..n]) && data == Sizes(to[..hi - lo])
    ensures Recs(to[..hi - lo], dst[..n]) == old(Recs(from[lo..hi], cells[..])) && to[hi - lo..] == old(to[hi - lo..])
  {
    hide Laid, Lens, Sizes, Recs, SlotOK, Gathered;
    n, data := 0, 0;
    ghost var ss, es, rest := from[lo..hi], cells[..], to[hi - lo..];
    assert forall j {:trigger ss[j]} :: 0 <= j < |ss| ==> ss[j] == from[lo + j];
    NothingGathered(ss, es);
    assert to[..0] == [] && dst[..0] == [];
    for i := lo to hi
      invariant n <= dst.Length && Gathered(ss, es, i - lo, to[..i - lo], dst[..n], data) && cells[..] == es
      invariant forall j :: i <= j < hi ==> from[j] == ss[j - lo]
      invariant forall j :: hi - lo <= j < to.Length ==> to[j] == rest[j - (hi - lo)]
    {
      var s := from[i];
      assert s == ss[i - lo];
      GatherNext(ss, es, i - lo, to[..i - lo], dst[..n], data);
      GatherOne(s, cells, to, i - lo, dst, n);
      n := n + s.len;
      data := data + s.size;
    }
    AllGathered(ss, es, to[..hi - lo], dst[..n], data);
    assert to[hi - lo..] == rest;
  }

  /** The first k of the slots ss have been gathered, as out, and their entries as made. */
  ghost predicate Gathered(ss: seq<Slot>, es: seq<Entry>, k: nat, out: seq<Slot>, made: seq<Entry>, data: nat) {
    && k <= |ss| && (forall j {:trigger ss[j]} :: 0 <= j < |ss| ==> SlotOK(ss[j], es))
    && |made| == Lens(ss[..k]) && Laid(out, made) && data == Sizes(out) && Recs(out, made) == Recs(ss, es)[..k]
  }

  lemma NothingGathered(ss: seq<Slot>, es: seq<Entry>)
    requires forall j {:trigger ss[j]} :: 0 <= j < |ss| ==> SlotOK(ss[j], es)
    ensures Gathered(ss, es, 0, [], [], 0)
  {
    assert ss[..0] == [];
    NothingLaid([], []);
  }

  lemma GatherNext(ss: seq<Slot>, es: seq<Entry>, k: nat, out: seq<Slot>, made: seq<Entry>, data: nat)
    requires Gathered(ss, es, k, out, made, data) && k < |ss|
    ensures ss[k].ptr + ss[k].len <= |es| && |made| + ss[k].len <= Lens(ss)
    ensures Gathered(ss, es, k + 1, out + [ss[k].(ptr := |made|)], made + es[ss[k].ptr..ss[k].ptr + ss[k].len], data + ss[k].size)
  {
    hide Laid, Lens, Sizes, Recs, SlotOK, RecordAt, Gathered;
    GatheredParts(ss, es, k, out, made, data);
    LensNext(ss, k);
    Appended(out, made, ss[k], es);
    RecsNext(ss, es, k);
    var s, more := ss[k].(ptr := |made|), es[ss[k].ptr..ss[k].ptr + ss[k].len];
    assert |made + more| == Lens(ss[..k + 1]);
    IsGathered(ss, es, k + 1, out + [s], made + more, data + ss[k].size);
  }

  lemma GatheredParts(ss: seq<Slot>, es: seq<Entry>, k: nat, out: seq<Slot>, made: seq<Entry>, data: nat)
    requires Gathered(ss, es, k, out, made, data)
    ensures k <= |ss| && (forall j {:trigger ss[j]} :: 0 <= j < |ss| ==> SlotOK(ss[j], es))
    ensures |made| == Lens(ss[..k]) && Laid(out, made) && data == Sizes(out) && Recs(out, made) == Recs(ss, es)[..k]
  {
    hide Laid, Lens, Sizes, Recs, SlotOK, RecordAt;
  }

  lemma IsGathered(ss: seq<Slot>, es: seq<Entry>, k: nat, out: seq<Slot>, made: seq<Entry>, data: nat)
    requires k <= |ss| && forall j {:trigger ss[j]} :: 0 <= j < |ss| ==> SlotOK(ss[j], es)
    requires |made| == Lens(ss[..k]) && Laid(out, made) && data == Sizes(out) && Recs(out, made) == Recs(ss, es)[..k]
    ensures Gathered(ss, es, k, out, made, data)
  {
    hide Laid, Lens, Sizes, Recs, SlotOK, RecordAt;
  }

  lemma AllGathered(ss: seq<Slot>, es: seq<Entry>, out: seq<Slot>, made: seq<Entry>, data: nat)
    requires Gathered(ss, es, |ss|, out, made, data)
    ensures Laid(out, made) && data == Sizes(out) && Recs(out, made) == Recs(ss, es)
  {
    hide Laid, Lens, Sizes, Recs, SlotOK;
    assert Recs(ss, es)[..|ss|] == Recs(ss, es);
  }

  method GatherOne(s: Slot, cells: array<Entry>, to: array<Slot>, pos: nat, dst: array<Entry>, n: nat)
    requires s.ptr + s.len <= cells.Length && pos < to.Length && n + s.len <= dst.Length && cells != dst
    modifies to, dst
    ensures to[..pos + 1] == old(to[..pos]) + [s.(ptr := n)] && forall j :: pos < j < to.Length ==> to[j] == old(to[j])
    ensures dst[..n + s.len] == old(dst[..n]) + cells[s.ptr..s.ptr + s.len]
  {
    CopyEntries(cells[..], s.ptr, dst, n, s.len);
    to[pos] := s.(ptr := n);
  }

  lemma RecsNext(ss: seq<Slot>, es: seq<Entry>, i: nat)
    requires i < |ss|
    ensures Recs(ss, es)[..i + 1] == Recs(ss, es)[..i] + [RecordAt(ss[i], es)]
  {
  }

  lemma NothingLaid(ss: seq<Slot>, es: seq<Entry>)
    requires ss == [] && es == []
    ensures Laid(ss, es) && Recs(ss, es) == [] && Sizes(ss) == 0 && Lens(ss) == 0
  {
  }

  method CopySlots(from: array<Slot>, to: array<Slot>, n: nat)
    requires n <= from.Length && n <= to.Length && from != to
    modifies to
    ensures to[..n] == from[..n]
  {
    for i := 0 to n
      invariant to[..i] == from[..i]
    {
      to[i] := from[i];
    }
  }

  /** Copies n entries from one place to another. */
  method CopyEntries(from: seq<Entry>, at: nat, to: array<Entry>, pos: nat, n: nat)
    requires at + n <= |from| && pos + n <= to.Length
    modifies to
    ensures to[..] == old(to[..pos]) + from[at..at + n] + old(to[pos + n..])
  {
    ghost var before, after := to[..pos], to[pos + n..];
    for i := 0 to n
      invariant to[..pos] == before && to[pos + n..] == after && to[pos..pos + i] == from[at..at + i]
    {
      to[pos + i] := from[at + i];
    }
  }

  /** Moves the slots from start on one place to the right, over the last. */
  method ShiftSlotArrayR(a: array<Slot>, start: nat, len: nat)
    requires start < len <= a.Length
    modifies a
    ensures a[..] == old(a[..start + 1]) + old(a[start..len - 1]) + old(a[len..])
  {
    var i := len - 1;
    while i > start
      invariant start <= i < len
      invariant forall j :: 0 <= j < a.Length ==> a[j] == if i < j < len then old(a[j - 1]) else old(a[j])
    {
      a[i] := a[i - 1];
      i := i - 1;
    }
  }

  /** Puts a slot in at index, before those that are there. */
  method InsertSlot(a: array<Slot>, index: nat, len: nat, s: Slot)
    requires index <= len < a.Length
    modifies a
    ensures a[..len + 1] == InsertAt(old(a[..len]), index, s)
  {
    ShiftSlotArrayR(a, index, len + 1);
    a[index] := s;
  }

  /** Moves the slots after target one place to the left, over it. */
  method ShiftSlotArrayL(a: array<Slot>, target: nat, len: nat)
    requires target < len <= a.Length
    modifies a
    ensures a[..len - 1] == RemoveAt(old(a[..len]), target)
  {
    var i: nat := target;
    while i < len - 1
      invariant target <= i < len
      invariant forall j :: 0 <= j < len ==> a[j] == if target <= j < i then old(a[j + 1]) else old(a[j])
    {
      a[i] := a[i + 1];
      i := i + 1;
    }
  }
}
