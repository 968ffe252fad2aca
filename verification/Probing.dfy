// Open addressing: a circle of slots in which a key is looked for from its home slot on, up to the first empty one.
module Probing {
  import opened Base

  datatype Slot<V> = Empty | Full(key: Addr, value: V)

  /** How many slots on from a slot b is. */
  function Dist(n: nat, a: nat, b: nat): (d: nat)
    requires a < n && b < n
    ensures d < n
  {
    if b >= a then b - a else b + n - a
  }

  function Next(n: nat, a: nat): nat
    requires a < n
  {
    (a + 1) % n
  }

  lemma Steps(n: nat, a: nat, b: nat)
    requires a < n && b < n
    ensures Next(n, a) < n && Next(n, a) == (if a + 1 == n then 0 else a + 1)
    ensures a != b ==> Dist(n, Next(n, a), b) == Dist(n, a, b) - 1
    ensures b != Next(n, a) && n > 1 ==> Dist(n, b, Next(n, a)) == Dist(n, b, a) + 1
  {
    if a + 1 == n { assert (a + 1) % n == 0; } else { assert (a + 1) % n == a + 1; }
  }

  function Home(hash: Addr -> nat, n: nat, k: Addr): (h: nat)
    requires n > 0
    ensures h < n
  {
    hash(k) % n
  }

  /** Looking for the key at p, slot j is passed on the way. */
  predicate OnWay<V>(s: seq<Slot<V>>, hash: Addr -> nat, p: nat, j: nat)
    requires p < |s| && j < |s|
  {
    s[p].Full? && Dist(|s|, Home(hash, |s|, s[p].key), j) < Dist(|s|, Home(hash, |s|, s[p].key), p)
  }

  /** No key is in two slots, and on the way to a key there is no empty slot, except perhaps hole on the way to those from stop on. */
  ghost predicate Reachable<V>(s: seq<Slot<V>>, hash: Addr -> nat, hole: nat, stop: nat)
    requires hole < |s| && stop < |s|
  {
    && (forall p, q {:trigger s[p], s[q]} :: 0 <= p < q < |s| && s[p].Full? && s[q].Full? ==> s[p].key != s[q].key)
    && (forall p, j {:trigger OnWay(s, hash, p, j)} :: 0 <= p < |s| && 0 <= j < |s| && OnWay(s, hash, p, j) && s[j].Empty? ==>
          j == hole && Dist(|s|, hole, p) >= Dist(|s|, hole, stop))
  }

  ghost predicate Sound<V>(s: seq<Slot<V>>, hash: Addr -> nat) {
    && |s| > 0
    && (forall p, q {:trigger s[p], s[q]} :: 0 <= p < q < |s| && s[p].Full? && s[q].Full? ==> s[p].key != s[q].key)
    && (forall p, j {:trigger OnWay(s, hash, p, j)} :: 0 <= p < |s| && 0 <= j < |s| && OnWay(s, hash, p, j) ==> s[j].Full?)
    && (exists e :: 0 <= e < |s| && s[e].Empty?)
  }

  /** The slots hold exactly the entries of m. */
  ghost predicate Holds<V>(s: seq<Slot<V>>, m: map<Addr, V>) {
    && (forall p {:trigger s[p]} :: 0 <= p < |s| && s[p].Full? ==> s[p].key in m && m[s[p].key] == s[p].value)
    && (forall k {:trigger k in m} :: k in m ==> exists p :: 0 <= p < |s| && s[p].Full? && s[p].key == k)
  }

  function Taken<V>(s: seq<Slot<V>>): nat {
    if s == [] then 0 else Taken(s[..|s| - 1]) + if Last(s).Full? then 1 else 0
  }

  lemma {:induction false} TakenAt<V>(s: seq<Slot<V>>, i: nat, x: Slot<V>)
    requires i < |s|
    ensures Taken(s[i := x]) == Taken(s) + (if x.Full? then 1 else 0) - (if s[i].Full? then 1 else 0)
  {
    var t := s[i := x];
    if i == |s| - 1 {
      assert t[..|s| - 1] == s[..|s| - 1];
    } else {
      assert t[..|s| - 1] == s[..|s| - 1][i := x];
      TakenAt(s[..|s| - 1], i, x);
    }
  }

  lemma {:induction false} TakenAll<V>(s: seq<Slot<V>>)
    ensures Taken(s) <= |s| && (Taken(s) < |s| ==> exists e :: 0 <= e < |s| && s[e].Empty?)
    ensures (forall i :: 0 <= i < |s| ==> s[i].Empty?) ==> Taken(s) == 0
  {
    if s != [] {
      TakenAll(s[..|s| - 1]);
      if Taken(s) < |s| && Last(s).Full? {
        var e :| 0 <= e < |s| - 1 && s[..|s| - 1][e].Empty?;
        assert s[e].Empty?;
      }
    }
  }

  /** The slot a probe for k stops at. */
  ghost predicate Stops<V>(s: seq<Slot<V>>, hash: Addr -> nat, k: Addr, p: nat) {
    && p < |s| && (s[p].Full? ==> s[p].key == k)
    && forall j {:trigger s[j]} :: 0 <= j < |s| && Dist(|s|, Home(hash, |s|, k), j) < Dist(|s|, Home(hash, |s|, k), p) ==> s[j].Full? && s[j].key != k
  }

  lemma Passes<V>(s: seq<Slot<V>>, hash: Addr -> nat, q: nat, p: nat)
    requires q < |s| && p < |s| && s[q].Full?
    ensures var h := Home(hash, |s|, s[q].key); Dist(|s|, h, p) < Dist(|s|, h, q) ==> OnWay(s, hash, q, p)
  {
  }

  /** A probe stops at the key if it is there. */
  lemma StopsAt<V>(s: seq<Slot<V>>, hash: Addr -> nat, m: map<Addr, V>, k: Addr, p: nat)
    requires Sound(s, hash) && Holds(s, m) && Stops(s, hash, k, p)
    ensures s[p].Full? <==> k in m
    ensures s[p].Full? ==> m[k] == s[p].value
  {
    if k in m {
      var q :| 0 <= q < |s| && s[q].Full? && s[q].key == k;
      var h := Home(hash, |s|, k);
      assert Dist(|s|, h, q) == Dist(|s|, h, p) ==> q == p;
      Passes(s, hash, q, p);
    }
  }

  /** A key is put in the slot a probe for it stops at. */
  lemma Put<V>(s: seq<Slot<V>>, hash: Addr -> nat, m: map<Addr, V>, k: Addr, v: V, p: nat)
    requires Sound(s, hash) && Holds(s, m) && Stops(s, hash, k, p)
    requires s[p].Empty? ==> Taken(s) + 1 < |s|
    ensures Sound(s[p := Full(k, v)], hash) && Holds(s[p := Full(k, v)], m[k := v])
    ensures Taken(s[p := Full(k, v)]) == Taken(s) + if k in m then 0 else 1
  {
    hide Home;
    var t := s[p := Full(k, v)];
    StopsAt(s, hash, m, k, p);
    TakenAt(s, p, Full(k, v));
    TakenAll(t);
    if s[p].Full? { var e :| 0 <= e < |s| && s[e].Empty?; assert t[e].Empty?; }
    forall x, y {:trigger t[x], t[y]} | 0 <= x < y < |t| && t[x].Full? && t[y].Full? ensures t[x].key != t[y].key {
      if x == p || y == p { var o := if x == p then y else x; assert t[o] == s[o]; }
    }
    forall x, j | 0 <= x < |t| && 0 <= j < |t| && OnWay(t, hash, x, j) ensures t[j].Full? {
      if x != p { assert OnWay(s, hash, x, j); }
    }
    var now := m[k := v];
    forall x | x in now ensures exists q :: 0 <= q < |t| && t[q].Full? && t[q].key == x {
      if x == k { assert t[p].key == k; } else {
        var q :| 0 <= q < |s| && s[q].Full? && s[q].key == x;
        assert t[q].key == x;
      }
    }
  }

  // ---- removal

  /** Removing an entry: hole is to be empty, those from hole up to i don't need it, and i comes before the empty slot e. */
  ghost predicate Closing<V>(s: seq<Slot<V>>, hash: Addr -> nat, m: map<Addr, V>, hole: nat, i: nat, e: nat) {
    && hole < |s| && i < |s| && e < |s| && hole != i && hole != e && s[e].Empty? && Dist(|s|, hole, i) <= Dist(|s|, hole, e)
    && Reachable(s[hole := Empty], hash, hole, i) && Holds(s[hole := Empty], m)
    && (forall j {:trigger s[j]} :: 0 <= j < |s| && 0 < Dist(|s|, hole, j) < Dist(|s|, hole, i) ==> s[j].Full?)
  }

  lemma ClosingStarts<V>(s: seq<Slot<V>>, hash: Addr -> nat, m: map<Addr, V>, p: nat, e: nat)
    requires Sound(s, hash) && Holds(s, m) && p < |s| && s[p].Full? && e < |s| && s[e].Empty?
    ensures Next(|s|, p) < |s| && Closing(s, hash, m - {s[p].key}, p, Next(|s|, p), e)
  {
    var t := s[p := Empty];
    Steps(|s|, p, e);
    Steps(|s|, p, p);
    forall x, j | 0 <= x < |t| && 0 <= j < |t| && OnWay(t, hash, x, j) && t[j].Empty?
      ensures j == p && Dist(|t|, p, x) >= Dist(|t|, p, Next(|s|, p))
    {
      assert OnWay(s, hash, x, j);
    }
    forall k | k in m - {s[p].key} ensures exists q :: 0 <= q < |t| && t[q].Full? && t[q].key == k {
      var q :| 0 <= q < |s| && s[q].Full? && s[q].key == k;
      assert t[q] == s[q];
    }
  }

  lemma SkipReachable<V>(t: seq<Slot<V>>, hash: Addr -> nat, hole: nat, i: nat)
    requires hole < |t| && i < |t| && hole != i && t[i].Full? && Reachable(t, hash, hole, i) && t[hole].Empty?
    requires 0 < Dist(|t|, hole, Home(hash, |t|, t[i].key)) <= Dist(|t|, hole, i)
    requires Next(|t|, i) != hole
    ensures Next(|t|, i) < |t| && Reachable(t, hash, hole, Next(|t|, i))
  {
    hide Home;
    Steps(|t|, i, hole);
    assert !OnWay(t, hash, i, hole);
    forall x, j | 0 <= x < |t| && 0 <= j < |t| && OnWay(t, hash, x, j) && t[j].Empty?
      ensures j == hole && Dist(|t|, hole, x) >= Dist(|t|, hole, Next(|t|, i))
    {
      assert x != i;
    }
  }

  /** An entry whose home is past the hole doesn't need it. */
  lemma Skip<V>(s: seq<Slot<V>>, hash: Addr -> nat, m: map<Addr, V>, hole: nat, i: nat, e: nat)
    requires Closing(s, hash, m, hole, i, e) && s[i].Full?
    requires 0 < Dist(|s|, hole, Home(hash, |s|, s[i].key)) <= Dist(|s|, hole, i)
    ensures Next(|s|, i) < |s| && Closing(s, hash, m, hole, Next(|s|, i), e) && Dist(|s|, Next(|s|, i), e) < Dist(|s|, i, e)
  {
    hide Home, Reachable, Holds;
    Steps(|s|, i, e);
    Steps(|s|, i, hole);
    SkipReachable(s[hole := Empty], hash, hole, i);
  }

  /** The slots with entry i moved to hole. */
  function Moved<V>(s: seq<Slot<V>>, hole: nat, i: nat): (w: seq<Slot<V>>)
    requires hole < |s| && i < |s|
    ensures |w| == |s|
    ensures forall j {:trigger w[j]} :: 0 <= j < |s| ==> w[j] == if j == i then Empty else if j == hole then s[i] else s[j]
  {
    s[hole := s[i]][i := Empty]
  }

  lemma MovedReachable<V>(s: seq<Slot<V>>, hash: Addr -> nat, hole: nat, i: nat)
    requires hole < |s| && i < |s| && hole != i && s[i].Full? && Reachable(s[hole := Empty], hash, hole, i)
    requires !(0 < Dist(|s|, hole, Home(hash, |s|, s[i].key)) <= Dist(|s|, hole, i))
    ensures Next(|s|, i) < |s| && Reachable(Moved(s, hole, i), hash, i, Next(|s|, i))
  {
    hide Home, Moved;
    var t, w, n := s[hole := Empty], Moved(s, hole, i), |s|;
    Steps(n, i, i);
    assert t[i] == s[i] == w[hole];
    forall x, y {:trigger w[x], w[y]} | 0 <= x < y < n && w[x].Full? && w[y].Full? ensures w[x].key != w[y].key {
      var x', y' := if x == hole then i else x, if y == hole then i else y;
      assert t[x'] == w[x] && t[y'] == w[y];
    }
    forall x, j | 0 <= x < n && 0 <= j < n && OnWay(w, hash, x, j) && w[j].Empty?
      ensures j == i && Dist(n, i, x) >= Dist(n, i, Next(n, i))
    {
      var x' := if x == hole then i else x;
      assert t[x'] == w[x] && w[j].Empty?;
      assert OnWay(t, hash, x', j);
    }
  }

  lemma MovedHolds<V>(s: seq<Slot<V>>, m: map<Addr, V>, hole: nat, i: nat)
    requires hole < |s| && i < |s| && hole != i && s[i].Full? && Holds(s[hole := Empty], m)
    ensures Holds(Moved(s, hole, i), m) && Taken(Moved(s, hole, i)) == Taken(s[hole := Empty])
  {
    var t, u := s[hole := Empty], s[hole := s[i]];
    var w := Moved(s, hole, i);
    TakenAt(s, hole, Empty);
    TakenAt(s, hole, s[i]);
    TakenAt(u, i, Empty);
    forall x | 0 <= x < |s| && w[x].Full? ensures w[x].key in m && m[w[x].key] == w[x].value {
      assert t[if x == hole then i else x] == w[x];
    }
    forall k | k in m ensures exists q :: 0 <= q < |s| && w[q].Full? && w[q].key == k {
      var q :| 0 <= q < |s| && t[q].Full? && t[q].key == k;
      assert w[if q == i then hole else q].key == k;
    }
  }

  /** Any other is moved into it, and leaves a hole where it was. */
  lemma Move<V>(s: seq<Slot<V>>, hash: Addr -> nat, m: map<Addr, V>, hole: nat, i: nat, e: nat)
    requires Closing(s, hash, m, hole, i, e) && s[i].Full?
    requires !(0 < Dist(|s|, hole, Home(hash, |s|, s[i].key)) <= Dist(|s|, hole, i))
    ensures Next(|s|, i) < |s| && Closing(s[hole := s[i]], hash, m, i, Next(|s|, i), e) && Dist(|s|, Next(|s|, i), e) < Dist(|s|, i, e)
    ensures Taken(s[hole := s[i]][i := Empty]) == Taken(s[hole := Empty])
  {
    hide Home, Reachable, Holds;
    Steps(|s|, i, e);
    Steps(|s|, i, i);
    MovedReachable(s, hash, hole, i);
    MovedHolds(s, m, hole, i);
  }

  /** At an empty slot the hole can be left: nothing beyond was looked for across it. */
  lemma Closed<V>(s: seq<Slot<V>>, hash: Addr -> nat, m: map<Addr, V>, hole: nat, i: nat, e: nat)
    requires Closing(s, hash, m, hole, i, e) && s[i].Empty?
    ensures Sound(s[hole := Empty], hash) && Holds(s[hole := Empty], m)
  {
    var t, n := s[hole := Empty], |s|;
    assert t[hole].Empty?;
    forall x, j | 0 <= x < n && 0 <= j < n && OnWay(t, hash, x, j) ensures t[j].Full? {
      if t[j].Empty? {
        assert j == hole && Dist(n, hole, x) >= Dist(n, hole, i);
        assert t[i].Empty? && x != i;
        assert OnWay(t, hash, x, i);
      }
    }
  }
}
