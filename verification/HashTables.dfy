// The hash tables keyed by address: the one of pending changes, which grows, and the node cache's, which doesn't.
module HashTables {
  import opened Base
  import opened Probing
  import opened TreeView

  /** Pending changes by address. */
  class AddrTable<V> {
    const hash: Addr -> nat
    var count: nat
    var entries: array<Slot<V>>

    ghost var contents: map<Addr, V>

    ghost predicate Valid()
      reads this, entries
    {
      && count == Taken(entries[..]) && 5 * count <= 4 * entries.Length
      && Probing.Holds(entries[..], contents) && 0 !in contents
      && (entries.Length > 0 ==> Sound(entries[..], hash))
    }

    constructor (hash: Addr -> nat)
      ensures Valid() && contents == map[] && fresh(entries)
    {
      this.hash := hash;
      count := 0;
      entries := new Slot<V>[0];
      contents := map[];
    }

    /** The slot with this key, or the first empty one where it is looked for. */
    method FindAddrEntry(key: Addr, slots: array<Slot<V>>) returns (p: nat)
      requires Sound(slots[..], hash)
      ensures Stops(slots[..], hash, key, p)
    {
      p := FindEntry(hash, key, slots);
    }

    method FindAddrTable(key: Addr) returns (r: Option<V>)
      requires Valid()
      ensures r == if key in contents then Some(contents[key]) else None
    {
      if entries.Length == 0 { return None; }
      var p := FindAddrEntry(key, entries);
      StopsAt(entries[..], hash, contents, key, p);
      r := if entries[p].Full? then Some(entries[p].value) else None;
    }

    /** Moves every entry to a larger table. */
    method AdjustAddrCapacity(capacity: nat)
      requires Valid() && capacity > 0 && 5 * (count + 1) <= 4 * capacity
      modifies this`entries
      ensures Valid() && fresh(entries) && entries.Length == capacity
    {
      hide Taken, Sound, Home;
      var bigger := new Slot<V>[capacity](i => Empty);
      ghost var s, moved: map<Addr, V> := entries[..], map[];
      NoneTaken(bigger[..], hash);
      assert s[..0] == [];
      NoneTaken(s[..0], hash);
      var i := 0;
      while i < entries.Length
        invariant 0 <= i <= entries.Length && fresh(bigger) && bigger.Length == capacity && entries[..] == s
        invariant Sound(bigger[..], hash) && Probing.Holds(bigger[..], moved) && Probing.Holds(s[..i], moved)
        invariant Taken(bigger[..]) == Taken(s[..i])
      {
        OneMore(s, hash, moved, i);
        var e := entries[i];
        if e.Full? {
          TakenUpTo(s, i);
          var p := FindAddrEntry(e.key, bigger);
          StopsAt(bigger[..], hash, moved, e.key, p);
          Put(bigger[..], hash, moved, e.key, e.value, p);
          ghost var now := bigger[..][p := Full(e.key, e.value)];
          bigger[p] := e;
          assert bigger[..] == now;
          moved := moved[e.key := e.value];
        }
        i := i + 1;
      }
      assert s[..i] == s;
      OneContents(s, moved, contents);
      entries := bigger;
    }

    method InsertAddrTable(key: Addr, value: V)
      requires Valid() && key != 0
      modifies this, entries
      ensures Valid() && contents == old(contents)[key := value] && (entries == old(entries) || fresh(entries))
    {
      if 5 * (count + 1) > 4 * entries.Length {
        AdjustAddrCapacity(if entries.Length < 8 then 8 else 2 * entries.Length);
      }
      var p := FindAddrEntry(key, entries);
      StopsAt(entries[..], hash, contents, key, p);
      Put(entries[..], hash, contents, key, value, p);
      ghost var now := entries[..][p := Full(key, value)];
      var isNew := entries[p].Empty?;
      entries[p] := Full(key, value);
      assert entries[..] == now;
      if isNew { count := count + 1; }
      contents := contents[key := value];
    }

    /** Removes a key, closing the gap it leaves, and hands its value over. */
    method RemoveAddrTable(key: Addr) returns (r: Option<V>)
      requires Valid()
      modifies this, entries
      ensures Valid() && contents == old(contents) - {key} && entries == old(entries)
      ensures r == if key in old(contents) then Some(old(contents[key])) else None
    {
      hide Taken, Sound, Home, Closing, Probing.Holds, Stops, Next, Dist;
      if entries.Length == 0 {
        NothingHeld(entries[..], contents);
        return None;
      }
      var p := FindAddrEntry(key, entries);
      StopsIn(entries[..], hash, key, p);
      StopsAt(entries[..], hash, contents, key, p);
      if entries[p].Empty? {
        assert contents - {key} == contents;
        return None;
      }
      r := Some(entries[p].value);
      ghost var e := SomeEmpty(entries[..], hash);
      ghost var rest := contents - {key};
      NextIs(entries.Length, p);
      var hole, i := p, (p + 1) % entries.Length;
      ClosingStarts(entries[..], hash, contents, p, e);
      TakenAt(entries[..], p, Empty);
      while entries[i].Full?
        invariant 0 <= hole < entries.Length && 0 <= i < entries.Length && e < entries.Length && entries == old(entries) && contents == old(contents) && count == old(count)
        invariant Closing(entries[..], hash, rest, hole, i, e) && Taken(entries[..][hole := Empty]) == count - 1
        decreases Dist(entries.Length, i, e)
      {
        ClosingParts(entries[..], hash, rest, hole, i, e);
        NextIs(entries.Length, i);
        var home := hash(entries[i].key) % entries.Length;
        var homeInRange := if hole < i then home > hole && home <= i else home > hole || home <= i;
        InRange(entries.Length, hole, home, i);
        if homeInRange {
          Skip(entries[..], hash, rest, hole, i, e);
          i := (i + 1) % entries.Length;
          continue;
        }
        Move(entries[..], hash, rest, hole, i, e);
        ghost var moved := entries[..][hole := entries[i]];
        entries[hole] := entries[i];
        assert entries[..] == moved;
        hole := i;
        i := (i + 1) % entries.Length;
      }
      Closed(entries[..], hash, rest, hole, i, e);
      ghost var closed := entries[..][hole := Empty];
      entries[hole] := Empty;
      assert entries[..] == closed;
      count := count - 1;
      contents := rest;
    }
  }

  /** The nodes at the top of a tree, the root and its children, as the file has them. */
  class NodeCache {
    const hash: Addr -> nat
    var maxNodes: nat
    var count: nat
    var slots: array<Slot<Node>>

    ghost var contents: map<Addr, Node>

    ghost predicate Valid()
      reads this, slots
    {
      && count == Taken(slots[..]) && count <= maxNodes && 2 * maxNodes <= slots.Length
      && Probing.Holds(slots[..], contents) && 0 !in contents
      && (slots.Length > 0 ==> maxNodes > 0 && Sound(slots[..], hash))
    }

    constructor (hash: Addr -> nat, maxNodes: nat)
      ensures Valid() && contents == map[] && fresh(slots) && this.maxNodes == maxNodes && (slots.Length == 0 <==> maxNodes == 0)
    {
      this.hash, this.maxNodes, count, contents := hash, maxNodes, 0, map[];
      var slotCount := 0;
      if maxNodes != 0 {
        slotCount := 8;
        while slotCount < 2 * maxNodes
          invariant slotCount >= 8
        {
          slotCount := slotCount * 2;
        }
      }
      slots := new Slot<Node>[slotCount](i => Empty);
      new;
      NoneTaken(slots[..], hash);
    }

    method FindSlot(addr: Addr) returns (p: nat)
      requires Valid() && slots.Length > 0
      ensures Stops(slots[..], hash, addr, p) && p < slots.Length && (slots[p].Full? ==> slots[p].key == addr)
      ensures slots[p].Full? <==> addr in contents
      ensures slots[p].Full? ==> contents[addr] == slots[p].value
    {
      p := FindEntry(hash, addr, slots);
      StopsAt(slots[..], hash, contents, addr, p);
    }

    method NodeCacheGet(addr: Addr) returns (r: Option<Node>)
      requires Valid()
      ensures r == if addr in contents then Some(contents[addr]) else None
    {
      if slots.Length == 0 { return None; }
      var p := FindSlot(addr);
      r := if slots[p].Full? then Some(slots[p].value) else None;
    }

    /** Whether a node read from the file is to be kept: it is the root or one of its children, and is there already or there is room. */
    ghost predicate Wanted(addr: Addr, n: Node, root: Addr)
      reads this
    {
      maxNodes > 0 && addr != 0 && root != 0 && (addr == root || n.parent == root) && (addr in contents || |contents| < maxNodes)
    }

    method NodeCacheOffer(addr: Addr, n: Node, root: Addr) returns (kept: bool)
      requires Valid() && (slots.Length == 0 <==> maxNodes == 0)
      modifies this`count, this`contents, slots
      ensures Valid() && kept == old(Wanted(addr, n, root)) && contents == if kept then old(contents)[addr := n] else old(contents)
    {
      hide Taken, Sound, Home, Stops;
      CountIs(slots[..], hash, contents);
      if slots.Length == 0 || addr == 0 || root == 0 { return false; }
      if addr != root && n.parent != root { return false; }
      var p := FindSlot(addr);
      if slots[p].Empty? {
        if count >= maxNodes { return false; }
        count := count + 1;
      }
      Put(slots[..], hash, contents, addr, n, p);
      ghost var now := slots[..][p := Full(addr, n)];
      slots[p] := Full(addr, n);
      assert slots[..] == now;
      contents := contents[addr := n];
      kept := true;
    }

    /** Replaces a node that is in the cache, when it has been written to the file. */
    method NodeCacheUpdate(addr: Addr, n: Node) returns (was: bool)
      requires Valid()
      modifies this`contents, slots
      ensures Valid() && was == (addr in old(contents)) && contents == if was then old(contents)[addr := n] else old(contents)
    {
      hide Taken, Sound, Home, Stops;
      if slots.Length == 0 { NothingHeld(slots[..], contents); return false; }
      var p := FindSlot(addr);
      if slots[p].Empty? { return false; }
      Put(slots[..], hash, contents, addr, n, p);
      ghost var now := slots[..][p := Full(addr, n)];
      slots[p] := Full(addr, n);
      assert slots[..] == now;
      contents := contents[addr := n];
      was := true;
    }

    /** Drops a node, when it has been deleted from the file. */
    method NodeCacheRemove(addr: Addr) returns (was: bool)
      requires Valid()
      modifies this`count, this`contents, slots
      ensures Valid() && was == (addr in old(contents)) && contents == old(contents) - {addr}
    {
      hide Taken, Sound, Home, Stops;
      assert addr !in contents ==> contents - {addr} == contents;
      if slots.Length == 0 { NothingHeld(slots[..], contents); return false; }
      var p := FindSlot(addr);
      if slots[p].Empty? { return false; }
      EmptySlot(p);
      was := true;
    }

    /** Empties a slot and closes the gap that leaves. */
    method EmptySlot(p: nat)
      requires Valid() && p < slots.Length && slots[p].Full?
      modifies this`count, this`contents, slots
      ensures Valid() && contents == old(contents) - {old(slots[p].key)}
    {
      hide Taken, Sound, Home, Closing, Probing.Holds, Next, Dist;
      ghost var e := SomeEmpty(slots[..], hash);
      ghost var rest := contents - {slots[p].key};
      NextIs(slots.Length, p);
      var hole, j := p, (p + 1) % slots.Length;
      ClosingStarts(slots[..], hash, contents, p, e);
      TakenAt(slots[..], p, Empty);
      while slots[j].Full?
        invariant 0 <= hole < slots.Length && 0 <= j < slots.Length && e < slots.Length && contents == old(contents) && count == old(count)
        invariant Closing(slots[..], hash, rest, hole, j, e) && Taken(slots[..][hole := Empty]) == count - 1
        decreases Dist(slots.Length, j, e)
      {
        ClosingParts(slots[..], hash, rest, hole, j, e);
        NextIs(slots.Length, j);
        var home := hash(slots[j].key) % slots.Length;
        Behind(slots.Length, hole, home, j);
        if (j + slots.Length - home) % slots.Length >= (j + slots.Length - hole) % slots.Length {
          Move(slots[..], hash, rest, hole, j, e);
          ghost var moved := slots[..][hole := slots[j]];
          slots[hole] := slots[j];
          assert slots[..] == moved;
          hole := j;
        } else {
          Skip(slots[..], hash, rest, hole, j, e);
        }
        j := (j + 1) % slots.Length;
      }
      Closed(slots[..], hash, rest, hole, j, e);
      ghost var closed := slots[..][hole := Empty];
      slots[hole] := Empty;
      assert slots[..] == closed;
      count := count - 1;
      contents := rest;
    }

    /** Drops every node, when the tree has a different root. */
    method NodeCacheClear()
      requires Valid()
      modifies this`count, this`contents, slots
      ensures Valid() && contents == map[]
    {
      for i := 0 to slots.Length
        invariant forall j :: 0 <= j < i ==> slots[j].Empty?
      {
        slots[i] := Empty;
      }
      count := 0;
      contents := map[];
      NoneTaken(slots[..], hash);
    }
  }

  /** Looks at slot after slot, starting with the key's home. */
  method FindEntry<V>(hash: Addr -> nat, key: Addr, slots: array<Slot<V>>) returns (p: nat)
    requires Sound(slots[..], hash)
    ensures Stops(slots[..], hash, key, p)
  {
    var n := slots.Length;
    ghost var s := slots[..];
    ghost var h := Home(hash, n, key);
    ghost var e :| 0 <= e < n && s[e].Empty?;
    p := hash(key) % n;
    while slots[p].Full? && slots[p].key != key
      invariant p < n && Dist(n, h, p) <= Dist(n, h, e)
      invariant forall j {:trigger s[j]} :: 0 <= j < n && Dist(n, h, j) < Dist(n, h, p) ==> s[j].Full? && s[j].key != key
      decreases Dist(n, h, e) - Dist(n, h, p)
    {
      Steps(n, p, h);
      Steps(n, p, e);
      p := (p + 1) % n;
    }
  }

  lemma NoneTaken<V>(s: seq<Slot<V>>, hash: Addr -> nat)
    requires forall j :: 0 <= j < |s| ==> s[j].Empty?
    ensures Taken(s) == 0 && (|s| > 0 ==> Sound(s, hash)) && Probing.Holds(s, map[])
  {
    TakenAll(s);
  }

  lemma SomeEmpty<V>(s: seq<Slot<V>>, hash: Addr -> nat) returns (e: nat)
    requires Sound(s, hash)
    ensures e < |s| && s[e].Empty?
  {
    e :| 0 <= e < |s| && s[e].Empty?;
  }

  lemma StopsIn<V>(s: seq<Slot<V>>, hash: Addr -> nat, k: Addr, p: nat)
    requires Stops(s, hash, k, p)
    ensures p < |s| && (s[p].Full? ==> s[p].key == k)
  {
  }

  lemma NothingHeld<V>(s: seq<Slot<V>>, m: map<Addr, V>)
    requires Probing.Holds(s, m) && s == []
    ensures m == map[]
  {
    forall k ensures k !in m {}
  }

  lemma ClosingParts<V>(s: seq<Slot<V>>, hash: Addr -> nat, m: map<Addr, V>, hole: nat, i: nat, e: nat)
    requires Closing(s, hash, m, hole, i, e)
    ensures hole < |s| && i < |s| && e < |s| && hole != i
    ensures s[i].Full? ==> Home(hash, |s|, s[i].key) == hash(s[i].key) % |s|
  {
  }

  lemma InRange(n: nat, hole: nat, home: nat, i: nat)
    requires hole < n && home < n && i < n && hole != i
    ensures (if hole < i then home > hole && home <= i else home > hole || home <= i) <==> 0 < Dist(n, hole, home) <= Dist(n, hole, i)
  {
  }

  lemma Back(n: nat, a: nat, j: nat)
    requires a < n && j < n
    ensures (j + n - a) % n == Dist(n, a, j)
  {
    var d := Dist(n, a, j);
    assert (j + n - a) / n == if j >= a then 1 else 0 by { if j >= a { assert j + n - a == 1 * n + d; } }
  }

  lemma Behind(n: nat, hole: nat, home: nat, j: nat)
    requires hole < n && home < n && j < n && hole != j
    ensures (j + n - home) % n >= (j + n - hole) % n <==> !(0 < Dist(n, hole, home) <= Dist(n, hole, j))
  {
    Back(n, home, j);
    Back(n, hole, j);
  }

  /** The slots hold as many entries as are taken. */
  lemma {:induction false} CountIs<V>(s: seq<Slot<V>>, hash: Addr -> nat, m: map<Addr, V>)
    requires Probing.Holds(s, m) && (|s| > 0 ==> Sound(s, hash))
    ensures |m| == Taken(s)
  {
    KeysTaken(s);
    assert m.Keys == KeysOf(s);
    assert |m| == |m.Keys|;
  }

  ghost function KeysOf<V>(s: seq<Slot<V>>): set<Addr> { set p | 0 <= p < |s| && s[p].Full? :: s[p].key }

  lemma {:induction false} KeysTaken<V>(s: seq<Slot<V>>)
    requires forall p, q {:trigger s[p], s[q]} :: 0 <= p < q < |s| && s[p].Full? && s[q].Full? ==> s[p].key != s[q].key
    ensures |KeysOf(s)| == Taken(s)
  {
    if s != [] {
      var t := s[..|s| - 1];
      KeysTaken(t);
      if Last(s).Full? {
        assert KeysOf(s) == KeysOf(t) + {Last(s).key};
        assert Last(s).key !in KeysOf(t);
      } else {
        assert KeysOf(s) == KeysOf(t);
      }
    }
  }

  lemma NextIs(n: nat, a: nat)
    requires a < n
    ensures 0 <= (a + 1) % n == Next(n, a) < n
  {
  }

  lemma OneMore<V>(s: seq<Slot<V>>, hash: Addr -> nat, m: map<Addr, V>, i: nat)
    requires Sound(s, hash) && i < |s| && Probing.Holds(s[..i], m)
    ensures s[i].Full? ==> s[i].key !in m && Probing.Holds(s[..i + 1], m[s[i].key := s[i].value]) && Taken(s[..i + 1]) == Taken(s[..i]) + 1
    ensures s[i].Empty? ==> Probing.Holds(s[..i + 1], m) && Taken(s[..i + 1]) == Taken(s[..i])
  {
    var t := s[..i + 1];
    assert t[..i] == s[..i];
    var now := if s[i].Full? then m[s[i].key := s[i].value] else m;
    forall k | k in now ensures exists p :: 0 <= p < |t| && t[p].Full? && t[p].key == k {
      if k in m {
        var p :| 0 <= p < |s[..i]| && s[..i][p].Full? && s[..i][p].key == k;
        assert t[p].key == k;
      } else {
        assert t[i].key == k;
      }
    }
    forall p | 0 <= p < |t| && t[p].Full? ensures t[p].key in now && now[t[p].key] == t[p].value {
      if p < i { assert s[..i][p] == t[p]; }
    }
  }

  lemma OneContents<V>(s: seq<Slot<V>>, a: map<Addr, V>, b: map<Addr, V>)
    requires Probing.Holds(s, a) && Probing.Holds(s, b)
    ensures a == b
  {
    forall k ensures k in a <==> k in b {}
    forall k | k in a ensures a[k] == b[k] {
      var p :| 0 <= p < |s| && s[p].Full? && s[p].key == k;
    }
  }

  lemma {:induction false} TakenUpTo<V>(s: seq<Slot<V>>, i: nat)
    requires i < |s| && s[i].Full?
    ensures Taken(s[..i]) + 1 <= Taken(s)
  {
    if i + 1 == |s| {
      assert s[..|s| - 1] == s[..i];
    } else {
      assert s[..|s| - 1][..i] == s[..i];
      TakenUpTo(s[..|s| - 1], i);
    }
  }
}
