// A page's records as a sorted sequence, and how much room they take.
module Records {
  import opened Base
  import opened Words

  datatype Kind = Int | Text | Date | Time

  datatype Entry = Entry(kind: Kind, data: seq<Byte>)

  datatype Record = Record(key: Key, entries: seq<Entry>)

  /** The bytes of data in a record's entries. */
  function Size(entries: seq<Entry>): nat {
    if entries == [] then 0 else Size(entries[..|entries| - 1]) + |Last(entries).data|
  }

  lemma {:induction false} SizeSplit(a: seq<Entry>, b: seq<Entry>)
    ensures Size(a + b) == Size(a) + Size(b)
  {
    if b == [] {
      assert a + b == a;
    } else {
      assert (a + b)[..|a + b| - 1] == a + b[..|b| - 1];
      SizeSplit(a, b[..|b| - 1]);
    }
  }

  /** A record's entries, the first of them replaced. */
  function Overwrite(entries: seq<Entry>, new_: seq<Entry>): seq<Entry>
    requires |new_| <= |entries|
  {
    new_ + entries[|new_|..]
  }

  lemma OverwriteNext(entries: seq<Entry>, new_: seq<Entry>, i: nat)
    requires i < |new_| <= |entries|
    ensures Size(Overwrite(entries, new_[..i + 1])) == Size(Overwrite(entries, new_[..i])) + |new_[i].data| - |entries[i].data|
  {
    SizeSplit(new_[..i], entries[i..]);
    SizeSplit(new_[..i + 1], entries[i + 1..]);
    SizeSplit(new_[..i], [new_[i]]);
    SizeSplit([entries[i]], entries[i + 1..]);
    assert new_[..i + 1] == new_[..i] + [new_[i]] && entries[i..] == [entries[i]] + entries[i + 1..];
    SizeOne(new_[i]); SizeOne(entries[i]);
  }

  lemma SizeOne(e: Entry)
    ensures Size([e]) == |e.data|
  {
    assert [e][..0] == [];
  }

  /** The room a record takes in a page: its slot, and each entry's data with the 6 bytes before it. */
  function RecordBytes(keySize: nat, r: Record): (n: nat)
    ensures n > 0
  {
    keySize + 12 + 6 * |r.entries| + Size(r.entries)
  }

  function Used(keySize: nat, recs: seq<Record>): nat {
    if recs == [] then 0 else Used(keySize, recs[..|recs| - 1]) + RecordBytes(keySize, Last(recs))
  }

  lemma EmptyUses(keySize: nat, recs: seq<Record>)
    ensures recs == [] ==> Used(keySize, recs) == 0
  {
  }

  lemma {:induction false} UsedSplit(keySize: nat, a: seq<Record>, b: seq<Record>)
    ensures Used(keySize, a + b) == Used(keySize, a) + Used(keySize, b)
  {
    if b == [] {
      assert a + b == a;
    } else {
      assert (a + b)[..|a + b| - 1] == a + b[..|b| - 1];
      UsedSplit(keySize, a, b[..|b| - 1]);
    }
  }

  lemma UsedCut(keySize: nat, recs: seq<Record>, i: nat)
    requires i <= |recs|
    ensures Used(keySize, recs) == Used(keySize, recs[..i]) + Used(keySize, recs[i..])
    ensures i < |recs| ==> Used(keySize, recs[..i + 1]) == Used(keySize, recs[..i]) + RecordBytes(keySize, recs[i])
    ensures i < |recs| ==> Used(keySize, recs[i..]) > 0
    ensures i > 0 ==> Used(keySize, recs[..i]) > 0
  {
    assert recs == recs[..i] + recs[i..];
    UsedSplit(keySize, recs[..i], recs[i..]);
    if i < |recs| {
      assert recs[..i + 1] == recs[..i] + [recs[i]] && recs[..i + 1][..i] == recs[..i];
      assert Last(recs[i..]) == Last(recs);
    }
  }

  lemma UsedInsert(keySize: nat, recs: seq<Record>, i: nat, r: Record)
    requires i <= |recs|
    ensures Used(keySize, InsertAt(recs, i, r)) == Used(keySize, recs) + RecordBytes(keySize, r)
  {
    UsedCut(keySize, recs, i);
    UsedSplit(keySize, recs[..i] + [r], recs[i..]);
    UsedSplit(keySize, recs[..i], [r]);
    assert [r][..0] == [] && Used(keySize, [r]) == RecordBytes(keySize, r);
  }

  lemma UsedRemove(keySize: nat, recs: seq<Record>, i: nat)
    requires i < |recs|
    ensures Used(keySize, RemoveAt(recs, i)) == Used(keySize, recs) - RecordBytes(keySize, recs[i])
  {
    UsedCut(keySize, recs, i); UsedCut(keySize, recs, i + 1);
    UsedSplit(keySize, recs[..i], recs[i + 1..]);
  }

  lemma UsedEach(keySize: nat, recs: seq<Record>, i: nat)
    requires i < |recs|
    ensures RecordBytes(keySize, recs[i]) <= Used(keySize, recs)
  {
    UsedCut(keySize, recs, i);
    UsedCut(keySize, recs, i + 1);
  }

  /** Every record fits in a page on its own. */
  predicate AllSmall(keySize: nat, capacity: nat, recs: seq<Record>) {
    forall i {:trigger recs[i]} :: 0 <= i < |recs| ==> RecordBytes(keySize, recs[i]) <= capacity
  }

  lemma EachSmall(keySize: nat, capacity: nat, recs: seq<Record>)
    ensures Used(keySize, recs) <= capacity ==> AllSmall(keySize, capacity, recs)
  {
    forall i | 0 <= i < |recs| ensures RecordBytes(keySize, recs[i]) <= Used(keySize, recs) { UsedEach(keySize, recs, i); }
  }

  predicate SortedRecords(recs: seq<Record>) {
    forall i, j :: 0 <= i < j < |recs| ==> recs[i].key < recs[j].key
  }

  /** The index of k's record, or the one it would be inserted at. */
  function Position(recs: seq<Record>, k: int): (i: nat)
    ensures i <= |recs|
    ensures forall j :: 0 <= j < i ==> recs[j].key < k
    ensures i < |recs| ==> k <= recs[i].key
  {
    if recs == [] || k <= recs[0].key then 0 else 1 + Position(recs[1..], k)
  }

  predicate Holds(recs: seq<Record>, k: int) {
    Position(recs, k) < |recs| && recs[Position(recs, k)].key == k
  }

  lemma PositionFound(recs: seq<Record>, k: int, i: nat)
    requires i <= |recs|
    requires forall j :: 0 <= j < i ==> recs[j].key < k
    requires i < |recs| ==> k <= recs[i].key
    ensures Position(recs, k) == i
  {
    var p := Position(recs, k);
    assert p < |recs| ==> k <= recs[p].key;
  }

  lemma PositionCut(recs: seq<Record>, k: int, keep: nat)
    requires keep <= |recs|
    ensures keep <= Position(recs, k) ==> Position(recs[keep..], k) == Position(recs, k) - keep
    ensures Position(recs, k) <= keep ==> Position(recs[..keep], k) == Position(recs, k)
  {
    var p := Position(recs, k);
    if keep <= p { PositionFound(recs[keep..], k, p - keep); }
    if p <= keep { PositionFound(recs[..keep], k, p); }
  }

  lemma HoldsAny(recs: seq<Record>, i: nat)
    requires SortedRecords(recs) && i < |recs|
    ensures Position(recs, recs[i].key) == i && Holds(recs, recs[i].key)
  {
    PositionFound(recs, recs[i].key, i);
  }

  lemma InsertSorted(recs: seq<Record>, r: Record)
    requires SortedRecords(recs) && !Holds(recs, r.key)
    ensures SortedRecords(InsertAt(recs, Position(recs, r.key), r))
    ensures forall x :: x in InsertAt(recs, Position(recs, r.key), r) <==> x in recs || x == r
  {
    var p := Position(recs, r.key);
    InsertMembers(recs, p, r);
    assert p < |recs| ==> r.key < recs[p].key;
    assert forall j :: 0 <= j < p ==> recs[j].key < r.key;
    hide Position, Holds;
    SortedWith(recs, p, r, InsertAt(recs, p, r));
  }

  lemma SortedWith(recs: seq<Record>, p: nat, r: Record, s: seq<Record>)
    requires SortedRecords(recs) && p <= |recs| && |s| == |recs| + 1
    requires forall j {:trigger s[j]} :: 0 <= j < |s| ==> s[j] == if j < p then recs[j] else if j == p then r else recs[j - 1]
    requires p < |recs| ==> r.key < recs[p].key
    requires forall j :: 0 <= j < p ==> recs[j].key < r.key
    ensures SortedRecords(s)
  {
    forall i, j | 0 <= i < j < |s| ensures s[i].key < s[j].key {
      if j == p { assert recs[i].key < r.key; }
      if i == p { assert recs[p].key <= recs[j - 1].key; }
    }
  }

  lemma RemoveSorted(recs: seq<Record>, i: nat)
    requires SortedRecords(recs) && i < |recs|
    ensures SortedRecords(RemoveAt(recs, i))
    ensures forall x :: x in RemoveAt(recs, i) <==> x in recs && x.key != recs[i].key
  {
    var s := RemoveAt(recs, i);
    assert recs == recs[..i] + [recs[i]] + recs[i + 1..];
  }
}
