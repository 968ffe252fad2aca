// Where a table file's nodes and pages lie, and how new ones are given their addresses.
module Stripes {

  /** The fixed part of a table's header: a unit is one node stripe and then ratio page stripes. */
  datatype Layout = Layout(metalen: nat, ratio: nat, pageLen: nat, nodeLen: nat, pageSize: nat, nodeSize: nat) {
    predicate Valid() {
      metalen > 0 && ratio > 0 && pageLen > 0 && nodeLen > 0 && pageSize > 0 && nodeSize > 0
    }
  }

  /** The part of the header that allocation moves on. */
  datatype Cursor = Cursor(pageStripes: nat, nodeStripes: nat, pageFree: nat, nodeFree: nat)

  function NodeStripeBytes(l: Layout): nat { l.nodeLen * l.nodeSize }

  function PageStripeBytes(l: Layout): nat { l.pageLen * l.pageSize }

  function UnitBytes(l: Layout): nat { NodeStripeBytes(l) + l.ratio * PageStripeBytes(l) }

  function UnitStart(l: Layout, unit: nat): (r: nat)
    ensures r >= l.metalen
  {
    l.metalen + unit * UnitBytes(l)
  }

  /** How far into its unit's page stripes page stripe i starts. */
  function StripeOffset(l: Layout, i: nat): nat
    requires l.ratio > 0
  {
    (i % l.ratio) * PageStripeBytes(l)
  }

  /** The start of page stripe i, counting from 0. */
  function PageStripeStart(l: Layout, i: nat): nat
    requires l.Valid()
  {
    UnitStart(l, i / l.ratio) + NodeStripeBytes(l) + StripeOffset(l, i)
  }

  /** A place for an object: the j-th page of page stripe i, or the j-th node of node stripe i. */
  datatype Slot = PageSlot(i: nat, j: nat) | NodeSlot(i: nat, j: nat)

  predicate Exists(l: Layout, s: Slot) {
    match s case PageSlot(_, j) => j < l.pageLen case NodeSlot(_, j) => j < l.nodeLen
  }

  function Start(l: Layout, s: Slot): nat
    requires l.Valid()
  {
    match s
    case PageSlot(i, j) => PageStripeStart(l, i) + j * l.pageSize
    case NodeSlot(i, j) => UnitStart(l, i) + j * l.nodeSize
  }

  function End(l: Layout, s: Slot): nat
    requires l.Valid()
  {
    Start(l, s) + match s case PageSlot(_, _) => l.pageSize case NodeSlot(_, _) => l.nodeSize
  }

  // ---- the layout's arithmetic

  lemma MulMono(a: nat, b: nat, c: nat)
    requires a <= b
    ensures a * c <= b * c
  {
  }

  lemma MulStep(a: nat, b: nat, c: nat)
    requires a < b
    ensures a * c + c <= b * c
  {
    MulMono(a + 1, b, c);
    assert (a + 1) * c == a * c + c;
  }

  /** A slot lies within its unit, past the unit's node stripe if it is a page. */
  function UnitOf(l: Layout, s: Slot): nat
    requires l.Valid()
  {
    match s case PageSlot(i, _) => i / l.ratio case NodeSlot(i, _) => i
  }

  lemma InStripe(l: Layout, s: Slot)
    requires l.Valid() && Exists(l, s)
    ensures s.PageSlot? ==> s.j * l.pageSize + l.pageSize <= PageStripeBytes(l)
    ensures s.NodeSlot? ==> s.j * l.nodeSize + l.nodeSize <= NodeStripeBytes(l)
  {
    if s.PageSlot? { MulStep(s.j, l.pageLen, l.pageSize); } else { MulStep(s.j, l.nodeLen, l.nodeSize); }
  }

  lemma StripeInUnit(l: Layout, i: nat)
    requires l.Valid()
    ensures StripeOffset(l, i) + PageStripeBytes(l) + NodeStripeBytes(l) <= UnitBytes(l)
    ensures NodeStripeBytes(l) <= UnitBytes(l)
  {
    hide PageStripeBytes, NodeStripeBytes;
    MulStep(i % l.ratio, l.ratio, PageStripeBytes(l));
  }

  lemma InUnit(l: Layout, s: Slot)
    requires l.Valid() && Exists(l, s)
    ensures UnitStart(l, UnitOf(l, s)) <= Start(l, s) && End(l, s) <= UnitStart(l, UnitOf(l, s)) + UnitBytes(l)
    ensures s.NodeSlot? ==> End(l, s) <= UnitStart(l, UnitOf(l, s)) + NodeStripeBytes(l)
    ensures s.PageSlot? ==>
              var base := UnitStart(l, UnitOf(l, s)) + NodeStripeBytes(l) + StripeOffset(l, s.i);
              base <= Start(l, s) && End(l, s) <= base + PageStripeBytes(l)
  {
    match s
    case NodeSlot(i, j) => NodeInUnit(l, i, j);
    case PageSlot(i, j) =>
      PageInStripe(l, i, j);
      PageStripeInUnit(l, i);
      hide Start, End, UnitStart, UnitBytes, PageStripeBytes, NodeStripeBytes, StripeOffset;
  }

  lemma NodeInUnit(l: Layout, i: nat, j: nat)
    requires l.Valid() && j < l.nodeLen
    ensures var s := NodeSlot(i, j);
            UnitStart(l, i) <= Start(l, s) && End(l, s) <= UnitStart(l, i) + NodeStripeBytes(l) <= UnitStart(l, i) + UnitBytes(l)
  {
    InStripe(l, NodeSlot(i, j));
    StripeInUnit(l, i);
    hide UnitStart, UnitBytes, NodeStripeBytes, PageStripeStart;
  }

  lemma PageInStripe(l: Layout, i: nat, j: nat)
    requires l.Valid() && j < l.pageLen
    ensures PageStripeStart(l, i) <= Start(l, PageSlot(i, j))
    ensures End(l, PageSlot(i, j)) <= PageStripeStart(l, i) + PageStripeBytes(l)
  {
    InStripe(l, PageSlot(i, j));
    hide PageStripeBytes, PageStripeStart;
  }

  lemma PageStripeInUnit(l: Layout, i: nat)
    requires l.Valid()
    ensures UnitStart(l, i / l.ratio) <= PageStripeStart(l, i)
    ensures PageStripeStart(l, i) + PageStripeBytes(l) <= UnitStart(l, i / l.ratio) + UnitBytes(l)
  {
    StripeInUnit(l, i);
    hide UnitStart, UnitBytes, PageStripeBytes, NodeStripeBytes, StripeOffset;
  }

  ghost predicate Apart(l: Layout, s: Slot, t: Slot)
    requires l.Valid()
  {
    End(l, s) <= Start(l, t) || End(l, t) <= Start(l, s)
  }

  lemma UnitsApart(l: Layout, u: nat, v: nat)
    requires l.Valid() && u < v
    ensures UnitStart(l, u) + UnitBytes(l) <= UnitStart(l, v)
  {
    hide UnitBytes;
    MulStep(u, v, UnitBytes(l));
  }

  lemma StripesApart(l: Layout, i: nat, m: nat)
    requires l.Valid() && i % l.ratio < m % l.ratio
    ensures StripeOffset(l, i) + PageStripeBytes(l) <= StripeOffset(l, m)
  {
    hide PageStripeBytes;
    MulStep(i % l.ratio, m % l.ratio, PageStripeBytes(l));
  }

  lemma StripePlace(l: Layout, i: nat, m: nat)
    requires l.ratio > 0 && i / l.ratio == m / l.ratio && i % l.ratio == m % l.ratio
    ensures i == m
  {
    assert i == l.ratio * (i / l.ratio) + i % l.ratio && m == l.ratio * (m / l.ratio) + m % l.ratio;
  }

  lemma SameStripeApart(l: Layout, s: Slot, t: Slot)
    requires l.Valid() && Exists(l, s) && Exists(l, t) && s.i == t.i && s.j < t.j && s.PageSlot? == t.PageSlot?
    ensures End(l, s) <= Start(l, t)
  {
    hide PageStripeStart, UnitStart;
    if s.PageSlot? { MulStep(s.j, t.j, l.pageSize); } else { MulStep(s.j, t.j, l.nodeSize); }
  }

  lemma SlotsInUnitApart(l: Layout, s: Slot, t: Slot)
    requires l.Valid() && Exists(l, s) && Exists(l, t) && s != t && UnitOf(l, s) == UnitOf(l, t)
    ensures Apart(l, s, t)
  {
    InUnit(l, s); InUnit(l, t);
    hide Start, End, UnitStart, UnitBytes, NodeStripeBytes, PageStripeBytes, StripeOffset;
    if s.PageSlot? == t.PageSlot? && s.i == t.i {
      if s.j < t.j { SameStripeApart(l, s, t); } else { SameStripeApart(l, t, s); }
    } else if s.PageSlot? && t.PageSlot? {
      if s.i % l.ratio == t.i % l.ratio { StripePlace(l, s.i, t.i); }
      else if s.i % l.ratio < t.i % l.ratio { StripesApart(l, s.i, t.i); }
      else { StripesApart(l, t.i, s.i); }
    } else {
      if s.PageSlot? { StripeAtLeast(l, s); } else { StripeAtLeast(l, t); }
    }
  }

  lemma StripeAtLeast(l: Layout, s: Slot)
    requires l.Valid() && Exists(l, s) && s.PageSlot?
    ensures UnitStart(l, UnitOf(l, s)) + NodeStripeBytes(l) <= Start(l, s)
  {
    hide UnitStart, NodeStripeBytes, PageStripeBytes, StripeOffset;
  }

  lemma SlotNonEmpty(l: Layout, s: Slot)
    requires l.Valid()
    ensures Start(l, s) < End(l, s)
  {
    hide UnitStart, PageStripeStart;
  }

  /** No two slots overlap, and none overlaps the header. */
  lemma SlotsApart(l: Layout, s: Slot, t: Slot)
    requires l.Valid() && Exists(l, s) && Exists(l, t) && s != t
    ensures Apart(l, s, t) && Start(l, s) >= l.metalen && Start(l, s) != Start(l, t)
  {
    InUnit(l, s); InUnit(l, t);
    SlotNonEmpty(l, s); SlotNonEmpty(l, t);
    hide Start, End, UnitBytes, UnitStart;
    var u, v := UnitOf(l, s), UnitOf(l, t);
    if u == v { SlotsInUnitApart(l, s, t); }
    else if u < v { UnitsApart(l, u, v); }
    else { UnitsApart(l, v, u); }
  }

  ghost predicate Holds(l: Layout, s: Slot, a: nat)
    requires l.Valid()
  {
    Exists(l, s) && Start(l, s) <= a < End(l, s)
  }

  lemma Divide(n: nat, d: nat, m: nat)
    requires d > 0 && n < m * d
    ensures n == n / d * d + n % d && n / d < m
  {
    if n / d >= m { MulMono(m, n / d, d); }
  }

  lemma DivideAny(n: nat, d: nat)
    requires d > 0
    ensures n == n / d * d + n % d && n % d < d
  {
  }

  lemma PlaceOf(l: Layout, u: nat, k: nat)
    requires l.Valid() && k < l.ratio
    ensures (u * l.ratio + k) / l.ratio == u && (u * l.ratio + k) % l.ratio == k
  {
    var n := u * l.ratio + k;
    DivideAny(n, l.ratio);
    if n / l.ratio < u { MulStep(n / l.ratio, u, l.ratio); }
    if n / l.ratio > u { MulStep(u, n / l.ratio, l.ratio); }
  }

  /** The slot that the address off bytes into a unit is in. */
  lemma SlotInUnit(l: Layout, u: nat, off: nat) returns (s: Slot)
    requires l.Valid() && off < UnitBytes(l)
    ensures Holds(l, s, UnitStart(l, u) + off)
  {
    if off < NodeStripeBytes(l) {
      Divide(off, l.nodeSize, l.nodeLen);
      s := NodeSlot(u, off / l.nodeSize);
    } else {
      s := PageInUnit(l, u, off - NodeStripeBytes(l));
    }
  }

  lemma PageInUnit(l: Layout, u: nat, off: nat) returns (s: Slot)
    requires l.Valid() && off < l.ratio * PageStripeBytes(l)
    ensures Holds(l, s, UnitStart(l, u) + NodeStripeBytes(l) + off)
  {
    MulStep(0, l.pageLen, l.pageSize);
    var bytes := PageStripeBytes(l);
    Divide(off, bytes, l.ratio);
    var k, rest := off / bytes, off % bytes;
    DivideAny(off, bytes);
    Divide(rest, l.pageSize, l.pageLen);
    PlaceOf(l, u, k);
    s := PageSlot(u * l.ratio + k, rest / l.pageSize);
    hide UnitStart, NodeStripeBytes, PageStripeBytes;
  }

  /** The slots tile the file: past the header every address is in exactly one. */
  lemma SlotsTile(l: Layout, a: nat) returns (s: Slot)
    requires l.Valid() && a >= l.metalen
    ensures Holds(l, s, a) && forall t {:trigger Holds(l, t, a)} :: Holds(l, t, a) ==> t == s
  {
    MulStep(0, l.nodeLen, l.nodeSize);
    var off := a - l.metalen;
    DivideAny(off, UnitBytes(l));
    s := SlotInUnit(l, off / UnitBytes(l), off % UnitBytes(l));
    hide Start, End, UnitBytes;
    forall t | Holds(l, t, a) ensures t == s { if t != s { SlotsApart(l, s, t); } }
  }

  // ---- allocation

  /** The stripe being filled with pages, or with nodes, is full up to the free pointer and no further. */
  ghost predicate Valid(l: Layout, c: Cursor) {
    && l.Valid() && c.pageStripes > 0 && c.nodeStripes > 0
    && (exists j: nat :: j <= l.pageLen && PageFreeAt(l, c, j))
    && (exists j: nat :: j <= l.nodeLen && NodeFreeAt(l, c, j))
  }

  ghost predicate PageFreeAt(l: Layout, c: Cursor, j: nat)
    requires l.Valid() && c.pageStripes > 0
  {
    c.pageFree == PageStripeStart(l, c.pageStripes - 1) + j * l.pageSize
  }

  ghost predicate NodeFreeAt(l: Layout, c: Cursor, j: nat)
    requires l.Valid() && c.nodeStripes > 0
  {
    c.nodeFree == UnitStart(l, c.nodeStripes - 1) + j * l.nodeSize
  }

  /** Whether a slot has been given out. */
  ghost predicate Taken(l: Layout, c: Cursor, s: Slot)
    requires l.Valid()
  {
    && Exists(l, s)
    && match s
       case PageSlot(i, _) => i + 1 < c.pageStripes || (i + 1 == c.pageStripes && Start(l, s) < c.pageFree)
       case NodeSlot(i, _) => i + 1 < c.nodeStripes || (i + 1 == c.nodeStripes && Start(l, s) < c.nodeFree)
  }

  lemma Below(j: nat, k: nat, size: nat)
    requires size > 0
    ensures j * size < k * size <==> j < k
  {
    if j < k { MulStep(j, k, size); } else { MulMono(k, j, size); }
  }

  /** In terms of the free pointer's place in its stripe, a slot is taken when it comes before that. */
  lemma TakenWhen(l: Layout, c: Cursor, s: Slot, j: nat)
    requires l.Valid() && c.pageStripes > 0 && c.nodeStripes > 0
    requires if s.PageSlot? then PageFreeAt(l, c, j) else NodeFreeAt(l, c, j)
    ensures Taken(l, c, s) <==>
              Exists(l, s) && var n := if s.PageSlot? then c.pageStripes else c.nodeStripes; s.i + 1 < n || (s.i + 1 == n && s.j < j)
  {
    hide PageStripeStart, UnitStart;
    Below(s.j, j, if s.PageSlot? then l.pageSize else l.nodeSize);
  }

  /** Gives out the next page: the first slot that wasn't taken, in a new stripe once the current one is full. */
  method AllocPage(l: Layout, c: Cursor) returns (d: Cursor, out: nat, ghost s: Slot)
    requires Valid(l, c)
    ensures Valid(l, d) && s.PageSlot? && Exists(l, s) && out == Start(l, s)
    ensures !Taken(l, c, s) && forall t :: Taken(l, d, t) <==> Taken(l, c, t) || t == s
    ensures forall t {:trigger Exists(l, t)} :: Exists(l, t) && t.PageSlot? && !Taken(l, c, t) ==> s.i < t.i || (s.i == t.i && s.j <= t.j)
  {
    hide PageStripeStart, UnitStart;
    ghost var j: nat :| j <= l.pageLen && PageFreeAt(l, c, j);
    ghost var k: nat :| k <= l.nodeLen && NodeFreeAt(l, c, k);
    Below(j, l.pageLen, l.pageSize);
    d := c;
    if d.pageFree >= PageStripeStart(l, d.pageStripes - 1) + PageStripeBytes(l) {
      d := d.(pageStripes := d.pageStripes + 1);
      d := d.(pageFree := PageStripeStart(l, d.pageStripes - 1));
    }
    ghost var m := if d.pageStripes == c.pageStripes then j else 0;
    s := PageSlot(d.pageStripes - 1, m);
    out := d.pageFree;
    d := d.(pageFree := d.pageFree + l.pageSize);
    assert PageFreeAt(l, d, m + 1) by { assert (m + 1) * l.pageSize == m * l.pageSize + l.pageSize; }
    assert NodeFreeAt(l, d, k);
    TakenWhen(l, c, s, j);
    forall t ensures Taken(l, d, t) <==> Taken(l, c, t) || t == s {
      TakenWhen(l, c, t, if t.PageSlot? then j else k);
      TakenWhen(l, d, t, if t.PageSlot? then m + 1 else k);
    }
    forall t | Exists(l, t) && t.PageSlot? && !Taken(l, c, t) ensures s.i < t.i || (s.i == t.i && s.j <= t.j) { TakenWhen(l, c, t, j); }
  }

  /** Gives out the next node, in the same way. */
  method AllocNode(l: Layout, c: Cursor) returns (d: Cursor, out: nat, ghost s: Slot)
    requires Valid(l, c)
    ensures Valid(l, d) && s.NodeSlot? && Exists(l, s) && out == Start(l, s)
    ensures !Taken(l, c, s) && forall t :: Taken(l, d, t) <==> Taken(l, c, t) || t == s
    ensures forall t {:trigger Exists(l, t)} :: Exists(l, t) && t.NodeSlot? && !Taken(l, c, t) ==> s.i < t.i || (s.i == t.i && s.j <= t.j)
  {
    hide PageStripeStart, UnitStart;
    ghost var j: nat :| j <= l.pageLen && PageFreeAt(l, c, j);
    ghost var k: nat :| k <= l.nodeLen && NodeFreeAt(l, c, k);
    Below(k, l.nodeLen, l.nodeSize);
    d := c;
    if d.nodeFree >= UnitStart(l, d.nodeStripes - 1) + NodeStripeBytes(l) {
      d := d.(nodeStripes := d.nodeStripes + 1);
      d := d.(nodeFree := UnitStart(l, d.nodeStripes - 1));
    }
    ghost var m := if d.nodeStripes == c.nodeStripes then k else 0;
    s := NodeSlot(d.nodeStripes - 1, m);
    out := d.nodeFree;
    d := d.(nodeFree := d.nodeFree + l.nodeSize);
    assert NodeFreeAt(l, d, m + 1) by { assert (m + 1) * l.nodeSize == m * l.nodeSize + l.nodeSize; }
    assert PageFreeAt(l, d, j);
    TakenWhen(l, c, s, k);
    forall t ensures Taken(l, d, t) <==> Taken(l, c, t) || t == s {
      TakenWhen(l, c, t, if t.PageSlot? then j else k);
      TakenWhen(l, d, t, if t.PageSlot? then j else m + 1);
    }
    forall t | Exists(l, t) && t.NodeSlot? && !Taken(l, c, t) ensures s.i < t.i || (s.i == t.i && s.j <= t.j) { TakenWhen(l, c, t, k); }
  }

  /** Some object given out starts at a. */
  ghost predicate Used(l: Layout, c: Cursor, a: nat)
    requires l.Valid()
  {
    exists s :: Taken(l, c, s) && Start(l, s) == a
  }

  /** Nothing is ever at address 0, which is in the header. */
  lemma NeverZero(l: Layout, c: Cursor)
    requires l.Valid()
    ensures !Used(l, c, 0)
  {
    hide Start;
    forall t | Taken(l, c, t) ensures Start(l, t) > 0 {
      SlotsApart(l, t, if t.PageSlot? then NodeSlot(0, 0) else PageSlot(0, 0));
    }
  }

  /** After an allocation the addresses in use are those from before and the new one, which is new. */
  lemma FreshAddress(l: Layout, c: Cursor, d: Cursor, s: Slot)
    requires l.Valid() && Exists(l, s) && !Taken(l, c, s)
    requires forall t :: Taken(l, d, t) <==> Taken(l, c, t) || t == s
    ensures Start(l, s) > 0 && !Used(l, c, Start(l, s))
    ensures forall a {:trigger Used(l, d, a)} :: Used(l, d, a) <==> Used(l, c, a) || a == Start(l, s)
  {
    hide Start;
    forall t | Taken(l, c, t) ensures Start(l, t) != Start(l, s) { SlotsApart(l, s, t); }
    assert Start(l, s) > 0 by { SlotsApart(l, s, if s.PageSlot? then NodeSlot(0, 0) else PageSlot(0, 0)); }
    forall a ensures Used(l, d, a) <==> Used(l, c, a) || a == Start(l, s) {
      if Used(l, d, a) {
        var t :| Taken(l, d, t) && Start(l, t) == a;
        assert Taken(l, c, t) || t == s;
      }
      if Used(l, c, a) {
        var t :| Taken(l, c, t) && Start(l, t) == a;
        assert Taken(l, d, t);
      }
      assert Taken(l, d, s);
    }
  }

  /** A new table's cursor: the first node stripe follows the header and the first page stripe follows that. */
  function NewCursor(l: Layout): Cursor {
    Cursor(1, 1, l.metalen + l.nodeLen * l.nodeSize, l.metalen)
  }

  lemma NewCursorValid(l: Layout)
    requires l.Valid()
    ensures Valid(l, NewCursor(l)) && forall s :: !Taken(l, NewCursor(l), s)
  {
    var c := NewCursor(l);
    assert 0 * UnitBytes(l) == 0 && 0 * PageStripeBytes(l) == 0 && 0 / l.ratio == 0 && 0 % l.ratio == 0;
    assert PageFreeAt(l, c, 0) && NodeFreeAt(l, c, 0);
    forall s ensures !Taken(l, c, s) { TakenWhen(l, c, s, 0); }
  }

  /** Any interleaving of allocations, true for a page and false for a node, gives out ranges that lie past
      the header and don't overlap each other or anything given out before. */
  method AllocRun(l: Layout, c: Cursor, kinds: seq<bool>) returns (d: Cursor, starts: seq<nat>, ghost slots: seq<Slot>)
    requires Valid(l, c)
    ensures Valid(l, d) && |starts| == |slots| == |kinds|
    ensures forall i :: 0 <= i < |kinds| ==>
              Exists(l, slots[i]) && slots[i].PageSlot? == kinds[i] && starts[i] == Start(l, slots[i]) && starts[i] >= l.metalen
    ensures forall i, j :: 0 <= i < j < |kinds| ==> Apart(l, slots[i], slots[j])
    ensures forall i, t :: 0 <= i < |kinds| && Taken(l, c, t) ==> Apart(l, slots[i], t)
  {
    d, starts, slots := c, [], [];
    for n := 0 to |kinds|
      invariant Valid(l, d) && |starts| == |slots| == n
      invariant forall i :: 0 <= i < n ==> Exists(l, slots[i]) && slots[i].PageSlot? == kinds[i] && starts[i] == Start(l, slots[i])
      invariant forall t :: Taken(l, d, t) <==> Taken(l, c, t) || t in slots
      invariant forall i, j :: 0 <= i < j < n ==> slots[i] != slots[j]
      invariant forall i :: 0 <= i < n ==> !Taken(l, c, slots[i])
    {
      var out;
      ghost var s;
      if kinds[n] { d, out, s := AllocPage(l, d); } else { d, out, s := AllocNode(l, d); }
      starts, slots := starts + [out], slots + [s];
    }
    forall i, j | 0 <= i < j < |kinds| ensures Apart(l, slots[i], slots[j]) { SlotsApart(l, slots[i], slots[j]); }
    forall i, t | 0 <= i < |kinds| && Taken(l, c, t) ensures Apart(l, slots[i], t) { SlotsApart(l, slots[i], t); }
    forall i | 0 <= i < |kinds| ensures starts[i] >= l.metalen {
      SlotsApart(l, slots[i], if slots[i].PageSlot? then NodeSlot(0, 0) else PageSlot(0, 0));
    }
  }
}
