// Choosing where to split a page.
module PageSplit {
  import opened Base
  import opened Records

  /** A record waiting to be inserted at pos, taking needed bytes, or none. */
  datatype Newcomer = Nobody | Incoming(pos: nat, needed: nat)

  function Lower(keySize: nat, recs: seq<Record>, x: Newcomer, keep: nat, inUpper: bool): nat
    requires keep <= |recs|
  {
    Used(keySize, recs[..keep]) + if x.Incoming? && !inUpper then x.needed else 0
  }

  function Upper(keySize: nat, recs: seq<Record>, x: Newcomer, keep: nat, inUpper: bool): nat
    requires keep <= |recs|
  {
    Used(keySize, recs[keep..]) + if x.Incoming? && inUpper then x.needed else 0
  }

  /** Keeping the first keep records is a way to split: neither page is empty or over-full, and the newcomer
      goes where its key belongs. */
  ghost predicate Legal(keySize: nat, capacity: nat, recs: seq<Record>, x: Newcomer, keep: nat, inUpper: bool) {
    && keep <= |recs|
    && (match x case Nobody => !inUpper case Incoming(pos, _) => if inUpper then keep <= pos else pos <= keep)
    && 0 < Lower(keySize, recs, x, keep, inUpper) <= capacity
    && 0 < Upper(keySize, recs, x, keep, inUpper) <= capacity
  }

  function Uneven(keySize: nat, recs: seq<Record>, x: Newcomer, keep: nat, inUpper: bool): nat
    requires keep <= |recs|
  {
    var lower, upper := Lower(keySize, recs, x, keep, inUpper), Upper(keySize, recs, x, keep, inUpper);
    if lower > upper then lower - upper else upper - lower
  }

  /** (keep, inUpper) is legal, and no less even than any legal split before (n, m). */
  ghost predicate BestBefore(keySize: nat, capacity: nat, recs: seq<Record>, x: Newcomer, n: nat, m: nat,
                             found: bool, keep: nat, inUpper: bool, best: nat) {
    && (found ==> Legal(keySize, capacity, recs, x, keep, inUpper) && best == Uneven(keySize, recs, x, keep, inUpper))
    && (!found ==> best == 0xFFFF_FFFF)
    && forall k: nat, up: bool {:trigger Legal(keySize, capacity, recs, x, k, up)} ::
         Legal(keySize, capacity, recs, x, k, up) && (k < n || (k == n && (if up then 1 else 0) < m)) ==>
           found && best <= Uneven(keySize, recs, x, k, up)
  }

  /** One split, weighed against the best so far. below is the room the records before it take. */
  method Consider(keySize: nat, capacity: nat, recs: seq<Record>, x: Newcomer, n: nat, up: bool, total: nat, below: nat,
                  found0: bool, keep0: nat, inUpper0: bool, best0: nat)
    returns (found: bool, keep: nat, inUpper: bool, best: nat)
    requires n <= |recs| && below == Used(keySize, recs[..n]) && total == Used(keySize, recs)
    ensures if Legal(keySize, capacity, recs, x, n, up) && Uneven(keySize, recs, x, n, up) < best0
            then found && keep == n && inUpper == up && best == Uneven(keySize, recs, x, n, up)
            else found == found0 && keep == keep0 && inUpper == inUpper0 && best == best0
  {
    UsedCut(keySize, recs, n);
    hide Used;
    found, keep, inUpper, best := found0, keep0, inUpper0, best0;
    var wrongSide := match x case Nobody => up case Incoming(pos, _) => if up then pos < n else pos > n;
    if wrongSide { return; }
    var extra := if x.Incoming? then x.needed else 0;
    var lower: nat := below + if up then 0 else extra;
    var upper: nat := total - below + if up then extra else 0;
    if lower == 0 || upper == 0 || lower > capacity || upper > capacity { return; }
    var difference: nat := if lower > upper then lower - upper else upper - lower;
    if difference < best {
      best, keep, inUpper, found := difference, n, up, true;
    }
  }

  lemma BestAfter(keySize: nat, capacity: nat, recs: seq<Record>, x: Newcomer, n: nat, m: nat,
                  found: bool, keep: nat, inUpper: bool, best: nat, f: bool, k: nat, u: bool, b: nat)
    requires capacity < 0xFFFF_FFFF && n <= |recs| && m <= 1
    requires BestBefore(keySize, capacity, recs, x, n, m, found, keep, inUpper, best)
    requires if Legal(keySize, capacity, recs, x, n, m == 1) && Uneven(keySize, recs, x, n, m == 1) < best
             then f && k == n && u == (m == 1) && b == Uneven(keySize, recs, x, n, m == 1)
             else f == found && k == keep && u == inUpper && b == best
    ensures BestBefore(keySize, capacity, recs, x, n, m + 1, f, k, u, b)
  {
    hide Used;
  }

  lemma BestNext(keySize: nat, capacity: nat, recs: seq<Record>, x: Newcomer, n: nat,
                 found: bool, keep: nat, inUpper: bool, best: nat)
    requires BestBefore(keySize, capacity, recs, x, n, 2, found, keep, inUpper, best)
    ensures BestBefore(keySize, capacity, recs, x, n + 1, 0, found, keep, inUpper, best)
  {
    hide Used;
  }

  /** The most even legal split, if there is one. */
  method ChooseSplit(keySize: nat, capacity: nat, recs: seq<Record>, x: Newcomer)
    returns (found: bool, keep: nat, inUpper: bool)
    requires capacity < 0xFFFF_FFFF
    ensures found ==> Legal(keySize, capacity, recs, x, keep, inUpper)
    ensures forall k: nat, up: bool :: Legal(keySize, capacity, recs, x, k, up) ==>
              found && Uneven(keySize, recs, x, keep, inUpper) <= Uneven(keySize, recs, x, k, up)
  {
    hide Legal, Uneven;
    var total := Used(keySize, recs);
    var below: nat := 0;
    var best: nat := 0xFFFF_FFFF;
    found, keep, inUpper := false, 0, false;
    var n: nat := 0;
    NothingBefore(keySize, capacity, recs, x);
    while n <= |recs|
      invariant n <= |recs| + 1
      invariant n <= |recs| ==> below == Used(keySize, recs[..n])
      invariant BestBefore(keySize, capacity, recs, x, n, 0, found, keep, inUpper, best)
    {
      hide BestBefore;
      UsedCut(keySize, recs, n);
      var m: nat := 0;
      while m <= 1
        invariant m <= 2
        invariant BestBefore(keySize, capacity, recs, x, n, m, found, keep, inUpper, best)
      {
        var f, k, u, b := Consider(keySize, capacity, recs, x, n, m == 1, total, below, found, keep, inUpper, best);
        BestAfter(keySize, capacity, recs, x, n, m, found, keep, inUpper, best, f, k, u, b);
        found, keep, inUpper, best := f, k, u, b;
        m := m + 1;
      }
      BestNext(keySize, capacity, recs, x, n, found, keep, inUpper, best);
      if n < |recs| { below := below + RecordBytes(keySize, recs[n]); }
      n := n + 1;
    }
    BestOfAll(keySize, capacity, recs, x, found, keep, inUpper, best);
  }

  lemma NothingBefore(keySize: nat, capacity: nat, recs: seq<Record>, x: Newcomer)
    ensures BestBefore(keySize, capacity, recs, x, 0, 0, false, 0, false, 0xFFFF_FFFF)
  {
  }

  lemma BestOfAll(keySize: nat, capacity: nat, recs: seq<Record>, x: Newcomer, found: bool, keep: nat, inUpper: bool, best: nat)
    requires BestBefore(keySize, capacity, recs, x, |recs| + 1, 0, found, keep, inUpper, best)
    ensures found ==> Legal(keySize, capacity, recs, x, keep, inUpper)
    ensures forall k: nat, up: bool :: Legal(keySize, capacity, recs, x, k, up) ==>
              found && Uneven(keySize, recs, x, keep, inUpper) <= Uneven(keySize, recs, x, k, up)
  {
    hide Used;
  }

  /** A record that sorts first can always be split off on its own. */
  lemma FirstAlwaysSplits(keySize: nat, capacity: nat, recs: seq<Record>, needed: nat)
    requires recs != [] && Used(keySize, recs) <= capacity && 0 < needed <= capacity
    ensures Legal(keySize, capacity, recs, Incoming(0, needed), 0, false)
  {
    assert recs[0..] == recs && recs[..0] == [];
    UsedCut(keySize, recs, 0);
  }

  /** So can one that sorts last. */
  lemma LastAlwaysSplits(keySize: nat, capacity: nat, recs: seq<Record>, needed: nat)
    requires recs != [] && Used(keySize, recs) <= capacity && 0 < needed <= capacity
    ensures Legal(keySize, capacity, recs, Incoming(|recs|, needed), |recs|, true)
  {
    assert recs[..|recs|] == recs && recs[|recs|..] == [];
    UsedCut(keySize, recs, |recs|);
  }

  /** The two pages a page is cut into, the newcomer r among them. */
  ghost predicate CutWith(keySize: nat, capacity: nat, recs: seq<Record>, r: Record, lower: seq<Record>, upper: seq<Record>) {
    && lower + upper == InsertAt(recs, Position(recs, r.key), r) && lower != [] && upper != []
    && Used(keySize, lower) <= capacity && Used(keySize, upper) <= capacity
  }

  lemma UsedAny(keySize: nat, recs: seq<Record>)
    ensures Used(keySize, recs) > 0 ==> recs != []
  {
  }

  lemma InsertJoin<T>(l: seq<T>, u: seq<T>, i: nat, x: T)
    requires i <= |l| + |u|
    ensures i <= |l| ==> InsertAt(l, i, x) + u == InsertAt(l + u, i, x)
    ensures |l| <= i ==> l + InsertAt(u, i - |l|, x) == InsertAt(l + u, i, x)
  {
  }

  /** A legal split puts the newcomer in its place in one page or the other. */
  lemma LegalCuts(keySize: nat, capacity: nat, recs: seq<Record>, r: Record, keep: nat, inUpper: bool)
    requires Legal(keySize, capacity, recs, Incoming(Position(recs, r.key), RecordBytes(keySize, r)), keep, inUpper)
    ensures var l, u := recs[..keep], recs[keep..];
            CutWith(keySize, capacity, recs, r,
                    if inUpper then l else InsertAt(l, Position(l, r.key), r), if inUpper then InsertAt(u, Position(u, r.key), r) else u)
  {
    var l, u, pos := recs[..keep], recs[keep..], Position(recs, r.key);
    hide Used, InsertAt, Position;
    assert recs == l + u;
    InsertJoin(l, u, pos, r);
    UsedAny(keySize, l); UsedAny(keySize, u);
    PositionCut(recs, r.key, keep);
    if inUpper { UsedInsert(keySize, u, pos - keep, r); } else { UsedInsert(keySize, l, pos, r); }
  }
}
