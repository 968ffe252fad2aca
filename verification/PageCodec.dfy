// A page as the bytes of a table file: a header, slots growing forwards and entries growing backwards.
module PageCodec {
  import opened Base
  import opened Words
  import opened Records
  import opened PageLayout
  import opened Buffers
  import opened NodeCodec

  /** A page's header and the parts of its arrays that are in use. */
  datatype Page = Page(minKey: Key, maxKey: Key, usedData: nat, arrCap: nat, maxEntries: nat, maxSlots: nat, slots: seq<Slot>, entries: seq<Entry>)

  const MAX_CELLS: nat := 65536

  function PageHeaderSize(keySize: nat): nat { 25 + 2 * keySize }

  function SlotSize(keySize: nat): (n: nat)
    ensures n > 0
  {
    keySize + 12
  }

  function Code(k: Kind): Byte { match k case Int => 105 case Text => 115 case Date => 100 case Time => 116 }

  /** The type a code stands for: the first if it stands for none. */
  function KindOf(b: Byte): Kind { if b == 115 then Text else if b == 100 then Date else if b == 116 then Time else Kind.Int }

  const BACKSLASH: Byte := 92

  function PageHeader(p: Page, keySize: nat): (h: Bytes)
    ensures |h| == PageHeaderSize(keySize)
  {
    [0] + Put(p.minKey, keySize) + Put(p.maxKey, keySize) + Put(p.usedData, 4) + Put(|p.slots|, 4) + Put(|p.entries|, 4)
    + Put(p.arrCap, 4) + Put(p.maxEntries, 4) + Put(p.maxSlots, 4)
  }

  function SlotBytes(s: Slot, keySize: nat): (b: Bytes)
    ensures |b| == SlotSize(keySize)
  {
    Put(s.ID, keySize) + Put(s.len, 4) + Put(s.size, 4) + Put(s.ptr, 4)
  }

  function SlotsBytes(ss: seq<Slot>, keySize: nat): Bytes {
    if ss == [] then [] else SlotBytes(ss[0], keySize) + SlotsBytes(ss[1..], keySize)
  }

  function EntryBytes(e: Entry): (b: Bytes)
    ensures |b| == |e.data| + 6
  {
    e.data + Put(|e.data|, 4) + [BACKSLASH, Code(e.kind)]
  }

  /** The first entry is at the very end. */
  function Tail(es: seq<Entry>): Bytes {
    if es == [] then [] else Tail(es[1..]) + EntryBytes(es[0])
  }

  function Gap(p: Page, keySize: nat, pageSize: nat): int { pageSize - PageHeaderSize(keySize) - |SlotsBytes(p.slots, keySize)| - |Tail(p.entries)| }

  function PageBytes(p: Page, keySize: nat, pageSize: nat): (r: Bytes)
    requires Gap(p, keySize, pageSize) >= 0
    ensures |r| == pageSize
  {
    PageHeader(p, keySize) + SlotsBytes(p.slots, keySize) + Zeros(Gap(p, keySize, pageSize)) + Tail(p.entries)
  }

  // ---- reading

  function SlotAt(raw: Bytes, off: nat, keySize: nat): Slot
    requires keySize <= KEY_MAX && off + SlotSize(keySize) <= |raw|
  {
    Slot(KeyOf(raw[off..off + keySize]), Get(raw[off + keySize + 8..off + keySize + 12]), Get(raw[off + keySize..off + keySize + 4]),
         Get(raw[off + keySize + 4..off + keySize + 8]))
  }

  function SlotsAt(raw: Bytes, off: nat, keySize: nat, count: nat): seq<Slot>
    requires keySize <= KEY_MAX
    decreases count
  {
    if count == 0 || off + SlotSize(keySize) > |raw| then []
    else [SlotAt(raw, off, keySize)] + SlotsAt(raw, off + SlotSize(keySize), keySize, count - 1)
  }

  /** count entries before cursor, none of them reaching below slotEnd. */
  function EntriesAt(raw: Bytes, cursor: nat, slotEnd: nat, count: nat): Option<seq<Entry>>
    requires cursor <= |raw|
    decreases count
  {
    if count == 0 then Some([])
    else if cursor < slotEnd + 6 then None
    else
      var size := Get(raw[cursor - 6..cursor - 2]);
      if size > cursor - 6 - slotEnd then None
      else
        var e := Entry(KindOf(raw[cursor - 1]), raw[cursor - 6 - size..cursor - 6]);
        var rest := EntriesAt(raw, cursor - 6 - size, slotEnd, count - 1);
        if rest == None then None else Some([e] + rest.value)
  }

  function Field(raw: Bytes, keySize: nat, i: nat): nat
    requires |raw| >= PageHeaderSize(keySize) && i < 6
  {
    Get(raw[1 + 2 * keySize + 4 * i..1 + 2 * keySize + 4 * i + 4])
  }

  /** The page some bytes are of, if they can be a page's. */
  function PageOf(raw: Bytes, keySize: nat): Option<Page>
    requires keySize <= KEY_MAX && |raw| >= PageHeaderSize(keySize)
  {
    var numRecords, numEntries := Field(raw, keySize, 1), Field(raw, keySize, 2);
    var arrCap, maxEntries, maxSlots := Field(raw, keySize, 3), Field(raw, keySize, 4), Field(raw, keySize, 5);
    if raw[0] != 0 || numRecords > maxSlots || numEntries > maxEntries || maxSlots > MAX_CELLS || maxEntries > MAX_CELLS
       || numRecords > (|raw| - PageHeaderSize(keySize)) / SlotSize(keySize) then None
    else
      var slotEnd := PageHeaderSize(keySize) + numRecords * SlotSize(keySize);
      var entries := EntriesAt(raw, |raw|, slotEnd, numEntries);
      if entries == None then None
      else Some(Page(KeyOf(raw[1..1 + keySize]), KeyOf(raw[1 + keySize..1 + 2 * keySize]), Field(raw, keySize, 0), arrCap, maxEntries, maxSlots,
                     SlotsAt(raw, PageHeaderSize(keySize), keySize, numRecords), entries.value))
  }

  // ---- what is written is read back

  ghost predicate SlotWritable(s: Slot, keySize: nat) { s.ID < Pow256(keySize) && s.ptr < WORD && s.len < WORD && s.size < WORD }

  lemma SlotBack(a: Bytes, s: Slot, keySize: nat, b: Bytes)
    requires keySize <= KEY_MAX && SlotWritable(s, keySize)
    ensures SlotAt(a + SlotBytes(s, keySize) + b, |a|, keySize) == s
  {
    hide Put, Get, Pow256;
    WordWidth();
    PutGet(s.ID, keySize);
    PutGet(s.len, 4);
    PutGet(s.size, 4);
    PutGet(s.ptr, 4);
    var raw, off := a + SlotBytes(s, keySize) + b, |a|;
    assert raw[off..off + keySize] == Put(s.ID, keySize) && raw[off + keySize..off + keySize + 4] == Put(s.len, 4);
    assert raw[off + keySize + 4..off + keySize + 8] == Put(s.size, 4) && raw[off + keySize + 8..off + keySize + 12] == Put(s.ptr, 4);
  }

  lemma {:induction false} SlotsBack(a: Bytes, ss: seq<Slot>, keySize: nat, b: Bytes)
    requires keySize <= KEY_MAX && forall s {:trigger s in ss} :: s in ss ==> SlotWritable(s, keySize)
    ensures SlotsAt(a + SlotsBytes(ss, keySize) + b, |a|, keySize, |ss|) == ss
    decreases |ss|
  {
    hide SlotBytes, SlotAt, SlotWritable;
    if ss != [] {
      var first, rest := SlotBytes(ss[0], keySize), SlotsBytes(ss[1..], keySize);
      assert ss[0] in ss;
      forall s | s in ss[1..] ensures SlotWritable(s, keySize) { assert s in ss; }
      SlotsBack(a + first, ss[1..], keySize, b);
      SlotBack(a, ss[0], keySize, rest + b);
      Shift(a, first, rest, b);
      assert a + first + (rest + b) == (a + first) + rest + b;
    }
  }

  lemma EntryBack(a: Bytes, e: Entry, b: Bytes)
    requires |e.data| < WORD
    ensures var raw, cursor := a + EntryBytes(e) + b, |a| + |e.data| + 6;
            && Get(raw[cursor - 6..cursor - 2]) == |e.data| && Entry(KindOf(raw[cursor - 1]), raw[cursor - 6 - |e.data|..cursor - 6]) == e
  {
    hide Put, Get, Pow256;
    WordWidth();
    PutGet(|e.data|, 4);
    var raw, cursor := a + EntryBytes(e) + b, |a| + |e.data| + 6;
    assert raw[cursor - 6..cursor - 2] == Put(|e.data|, 4) && raw[cursor - 6 - |e.data|..cursor - 6] == e.data;
    assert raw[cursor - 1] == Code(e.kind);
  }

  lemma EntriesNext(raw: Bytes, cursor: nat, slotEnd: nat, count: nat, e: Entry, rest: seq<Entry>)
    requires count > 0 && slotEnd + 6 + |e.data| <= cursor <= |raw|
    requires Get(raw[cursor - 6..cursor - 2]) == |e.data| && Entry(KindOf(raw[cursor - 1]), raw[cursor - 6 - |e.data|..cursor - 6]) == e
    requires EntriesAt(raw, cursor - 6 - |e.data|, slotEnd, count - 1) == Some(rest)
    ensures EntriesAt(raw, cursor, slotEnd, count) == Some([e] + rest)
  {
    hide Get, KindOf;
  }

  lemma TailUnfold(es: seq<Entry>)
    requires es != []
    ensures Tail(es) == Tail(es[1..]) + EntryBytes(es[0]) && [es[0]] + es[1..] == es
  {
    hide EntryBytes;
  }

  lemma Rejoined(a: Bytes, rest: Bytes, last: Bytes, b: Bytes)
    ensures a + (rest + last) + b == a + rest + last + b == a + rest + (last + b)
  {
  }

  lemma {:induction false} EntriesBack(a: Bytes, es: seq<Entry>, b: Bytes, slotEnd: nat)
    requires slotEnd <= |a| && |a| + |Tail(es)| < WORD
    ensures EntriesAt(a + Tail(es) + b, |a| + |Tail(es)|, slotEnd, |es|) == Some(es)
    decreases |es|
  {
    hide EntryBytes, Get, KindOf, Put, Tail;
    if es != [] {
      hide EntriesAt;
      TailUnfold(es);
      var last, rest := EntryBytes(es[0]), Tail(es[1..]);
      EntriesBack(a, es[1..], last + b, slotEnd);
      EntryBack(a + rest, es[0], b);
      Rejoined(a, rest, last, b);
      EntriesNext(a + Tail(es) + b, |a| + |Tail(es)|, slotEnd, |es|, es[0], es[1..]);
    }
  }

  lemma {:induction false} SlotsLength(ss: seq<Slot>, keySize: nat)
    ensures |SlotsBytes(ss, keySize)| == |ss| * SlotSize(keySize)
  {
    if ss != [] {
      SlotsLength(ss[1..], keySize);
      Distribute(|ss| - 1, SlotSize(keySize));
    }
  }

  lemma {:induction false} TailLength(es: seq<Entry>)
    ensures |Tail(es)| == 6 * |es| + Size(es)
  {
    if es != [] {
      TailLength(es[1..]);
      SizeSplit([es[0]], es[1..]);
      SizeOne(es[0]);
      assert [es[0]] + es[1..] == es;
    }
  }

  /** A page that the header's limits allow, whose arrays are sound and whose records fit. */
  ghost predicate Legal(p: Page, keySize: nat, pageSize: nat) {
    && keySize <= KEY_MAX && PageHeaderSize(keySize) <= pageSize < WORD && p.arrCap == pageSize - PageHeaderSize(keySize)
    && p.minKey < Pow256(keySize) && p.maxKey < Pow256(keySize) && (forall s {:trigger s in p.slots} :: s in p.slots ==> s.ID < Pow256(keySize))
    && |p.slots| <= p.maxSlots <= MAX_CELLS && |p.entries| <= p.maxEntries <= MAX_CELLS
    && Laid(p.slots, p.entries) && p.usedData == Sizes(p.slots)
    && Used(keySize, Recs(p.slots, p.entries)) <= p.arrCap
  }

  /** The slots of a page that fits never meet its entries. */
  lemma NeverMeet(p: Page, keySize: nat, pageSize: nat)
    requires Legal(p, keySize, pageSize)
    ensures Gap(p, keySize, pageSize) == p.arrCap - Used(keySize, Recs(p.slots, p.entries)) >= 0
    ensures p.usedData <= pageSize && |p.entries| <= pageSize && |p.slots| * SlotSize(keySize) <= p.arrCap
  {
    hide Pow256, Sizes, Lens, Size, Recs, Used;
    SlotsLength(p.slots, keySize);
    TailLength(p.entries);
    RoomUsed(keySize, p.slots, p.entries);
    TotalSize(p.slots, p.entries);
  }

  lemma SlotsWritable(p: Page, keySize: nat, pageSize: nat)
    requires Legal(p, keySize, pageSize)
    ensures forall s {:trigger s in p.slots} :: s in p.slots ==> SlotWritable(s, keySize)
  {
    hide Pow256, Recs, Used;
    NeverMeet(p, keySize, pageSize);
    forall s | s in p.slots ensures SlotWritable(s, keySize) {
      var i :| 0 <= i < |p.slots| && p.slots[i] == s;
      SumRemove(p.slots, i);
      assert SlotOK(s, p.entries);
    }
  }

  lemma HeaderFields(p: Page, keySize: nat, rest: Bytes)
    requires p.minKey < Pow256(keySize) && p.maxKey < Pow256(keySize) && p.usedData < WORD && p.arrCap < WORD
    requires |p.slots| <= p.maxSlots <= MAX_CELLS && |p.entries| <= p.maxEntries <= MAX_CELLS
    ensures var raw := PageHeader(p, keySize) + rest;
            && raw[0] == 0 && Get(raw[1..1 + keySize]) == p.minKey && Get(raw[1 + keySize..1 + 2 * keySize]) == p.maxKey
            && Field(raw, keySize, 0) == p.usedData && Field(raw, keySize, 1) == |p.slots| && Field(raw, keySize, 2) == |p.entries|
            && Field(raw, keySize, 3) == p.arrCap && Field(raw, keySize, 4) == p.maxEntries && Field(raw, keySize, 5) == p.maxSlots
  {
    hide Put, Get, Pow256;
    WordWidth();
    var raw, o := PageHeader(p, keySize) + rest, 1 + 2 * keySize;
    PutGet(p.minKey, keySize); PutGet(p.maxKey, keySize);
    PutGet(p.usedData, 4); PutGet(|p.slots|, 4); PutGet(|p.entries|, 4);
    PutGet(p.arrCap, 4); PutGet(p.maxEntries, 4); PutGet(p.maxSlots, 4);
    assert raw[1..1 + keySize] == Put(p.minKey, keySize) && raw[1 + keySize..o] == Put(p.maxKey, keySize);
    assert raw[o..o + 4] == Put(p.usedData, 4) && raw[o + 4..o + 8] == Put(|p.slots|, 4) && raw[o + 8..o + 12] == Put(|p.entries|, 4);
    assert raw[o + 12..o + 16] == Put(p.arrCap, 4) && raw[o + 16..o + 20] == Put(p.maxEntries, 4) && raw[o + 20..o + 24] == Put(p.maxSlots, 4);
  }

  lemma Quotient(n: nat, d: nat, size: nat)
    requires d > 0 && n * d <= size
    ensures n <= size / d
  {
    if n > size / d {
      Monotone(size / d + 1, n, d);
      Distribute(size / d, d);
    }
  }

  /** A page whose records fit is read back as it was. */
  lemma PageRoundTrip(p: Page, keySize: nat, pageSize: nat)
    requires Legal(p, keySize, pageSize)
    ensures Gap(p, keySize, pageSize) >= 0 && PageOf(PageBytes(p, keySize, pageSize), keySize) == Some(p)
  {
    hide Put, Get, Pow256, Laid, Sizes, Recs, Used, SlotsAt, SlotsBytes, EntriesAt, Tail, Field, PageHeader, Zeros;
    NeverMeet(p, keySize, pageSize);
    SlotsWritable(p, keySize, pageSize);
    var head, ss, es := PageHeader(p, keySize), SlotsBytes(p.slots, keySize), Tail(p.entries);
    var pad := Zeros(Gap(p, keySize, pageSize));
    var raw := PageBytes(p, keySize, pageSize);
    SlotsLength(p.slots, keySize);
    assert raw == head + ss + pad + es == head + (ss + pad + es) == head + ss + (pad + es) == (head + ss + pad) + es + [];
    HeaderFields(p, keySize, ss + pad + es);
    SlotsBack(head, p.slots, keySize, pad + es);
    EntriesBack(head + ss + pad, p.entries, [], PageHeaderSize(keySize) + |p.slots| * SlotSize(keySize));
    Quotient(|p.slots|, SlotSize(keySize), pageSize - PageHeaderSize(keySize));
  }

  // ---- and nothing else is

  /** The entries before cursor, each with its size and a code of its type. Their separators may be anything. */
  ghost predicate EntriesSpelled(raw: Bytes, cursor: nat, slotEnd: nat, es: seq<Entry>)
    requires cursor <= |raw|
    decreases |es|
  {
    if es == [] then true
    else
      var size := |es[0].data|;
      && slotEnd + 6 + size <= cursor && size < WORD
      && raw[cursor - 6 - size..cursor - 2] == es[0].data + Put(size, 4) && KindOf(raw[cursor - 1]) == es[0].kind
      && EntriesSpelled(raw, cursor - 6 - size, slotEnd, es[1..])
  }

  function SlotEnd(p: Page, keySize: nat): (end: nat)
    ensures end >= PageHeaderSize(keySize)
  {
    PageHeaderSize(keySize) + |SlotsBytes(p.slots, keySize)|
  }

  /** raw is how p is written, within the limits on what a page can hold. */
  ghost predicate PageSpelled(raw: Bytes, p: Page, keySize: nat) {
    && p.minKey < Pow256(keySize) && p.maxKey < Pow256(keySize) && p.usedData < WORD && p.arrCap < WORD
    && |p.slots| <= p.maxSlots <= MAX_CELLS && |p.entries| <= p.maxEntries <= MAX_CELLS
    && (forall s {:trigger s in p.slots} :: s in p.slots ==> SlotWritable(s, keySize))
    && SlotEnd(p, keySize) <= |raw| && raw[..PageHeaderSize(keySize)] == PageHeader(p, keySize)
    && raw[PageHeaderSize(keySize)..SlotEnd(p, keySize)] == SlotsBytes(p.slots, keySize)
    && EntriesSpelled(raw, |raw|, SlotEnd(p, keySize), p.entries)
  }

  lemma EntriesExactly(raw: Bytes, cursor: nat, slotEnd: nat, count: nat, es: seq<Entry>)
    requires cursor <= |raw|
    ensures EntriesAt(raw, cursor, slotEnd, count) == Some(es) <==> |es| == count && EntriesSpelled(raw, cursor, slotEnd, es)
  {
    hide EntriesAt, EntriesSpelled;
    if EntriesAt(raw, cursor, slotEnd, count) == Some(es) { ReadEntriesSpelled(raw, cursor, slotEnd, count, es); }
    if |es| == count && EntriesSpelled(raw, cursor, slotEnd, es) { SpelledEntriesRead(raw, cursor, slotEnd, es); }
  }

  lemma {:induction false} ReadEntriesSpelled(raw: Bytes, cursor: nat, slotEnd: nat, count: nat, es: seq<Entry>)
    requires cursor <= |raw| && EntriesAt(raw, cursor, slotEnd, count) == Some(es)
    ensures |es| == count && EntriesSpelled(raw, cursor, slotEnd, es)
    decreases count
  {
    hide Put, Get, KindOf, Pow256;
    if count > 0 {
      var size := Get(raw[cursor - 6..cursor - 2]);
      SizeExactly(raw, cursor, slotEnd, es);
      var rest := EntriesAt(raw, cursor - 6 - size, slotEnd, count - 1);
      assert es[1..] == rest.value && |es[0].data| == size;
      ReadEntriesSpelled(raw, cursor - 6 - size, slotEnd, count - 1, es[1..]);
    }
  }

  lemma {:induction false} SpelledEntriesRead(raw: Bytes, cursor: nat, slotEnd: nat, es: seq<Entry>)
    requires cursor <= |raw| && EntriesSpelled(raw, cursor, slotEnd, es)
    ensures EntriesAt(raw, cursor, slotEnd, |es|) == Some(es)
    decreases |es|
  {
    hide Put, Get, KindOf, Pow256;
    if es != [] {
      SizeExactly(raw, cursor, slotEnd, es);
      SpelledEntriesRead(raw, cursor - 6 - |es[0].data|, slotEnd, es[1..]);
      assert es == [es[0]] + es[1..];
    }
  }

  lemma SizeExactly(raw: Bytes, cursor: nat, slotEnd: nat, es: seq<Entry>)
    requires cursor <= |raw| && cursor >= slotEnd + 6
    ensures var size := Get(raw[cursor - 6..cursor - 2]);
            && size < WORD
            && (es != [] && slotEnd + 6 + |es[0].data| <= cursor && |es[0].data| < WORD ==>
                  (raw[cursor - 6 - |es[0].data|..cursor - 2] == es[0].data + Put(|es[0].data|, 4) <==>
                     size == |es[0].data| && raw[cursor - 6 - |es[0].data|..cursor - 6] == es[0].data))
  {
    hide Put, Get, Pow256;
    WordWidth();
    var four := raw[cursor - 6..cursor - 2];
    GetBound(four);
    GetPut(four);
    if es != [] && slotEnd + 6 + |es[0].data| <= cursor && |es[0].data| < WORD {
      PutGet(|es[0].data|, 4);
      var at := cursor - 6 - |es[0].data|;
      assert raw[at..cursor - 2] == raw[at..cursor - 6] + four;
      SameParts(raw[at..cursor - 6], es[0].data, four, Put(|es[0].data|, 4));
    }
  }

  lemma SameParts(a: Bytes, b: Bytes, c: Bytes, d: Bytes)
    requires |a| == |b|
    ensures a + c == b + d <==> a == b && c == d
  {
    if a + c == b + d {
      assert a == (a + c)[..|a|] && c == (a + c)[|a|..] && b == (b + d)[..|a|] && d == (b + d)[|a|..];
    }
  }

  /** Slots that have been read are, written again, the bytes they were read from. */
  lemma {:induction false} SlotsSpelled(raw: Bytes, off: nat, keySize: nat, count: nat)
    requires keySize <= KEY_MAX && off + count * SlotSize(keySize) <= |raw|
    ensures var ss := SlotsAt(raw, off, keySize, count);
            && |ss| == count && SlotsBytes(ss, keySize) == raw[off..off + count * SlotSize(keySize)]
            && forall s {:trigger s in ss} :: s in ss ==> SlotWritable(s, keySize)
    decreases count
  {
    hide SlotBytes, SlotAt, SlotWritable;
    if count > 0 {
      var size := SlotSize(keySize);
      Distribute(count - 1, size);
      Monotone(0, count - 1, size);
      SlotSpelled(raw, off, keySize);
      SlotsSpelled(raw, off + size, keySize, count - 1);
      assert raw[off..off + count * size] == raw[off..off + size] + raw[off + size..off + count * size];
    }
  }

  lemma SlotSpelled(raw: Bytes, off: nat, keySize: nat)
    requires keySize <= KEY_MAX && off + SlotSize(keySize) <= |raw|
    ensures SlotBytes(SlotAt(raw, off, keySize), keySize) == raw[off..off + SlotSize(keySize)] && SlotWritable(SlotAt(raw, off, keySize), keySize)
  {
    hide Put, Get, Pow256;
    WordWidth();
    var m := off + keySize;
    GetPut(raw[off..m]); GetPut(raw[m..m + 4]); GetPut(raw[m + 4..m + 8]); GetPut(raw[m + 8..m + 12]);
    GetBound(raw[off..m]); GetBound(raw[m..m + 4]); GetBound(raw[m + 4..m + 8]); GetBound(raw[m + 8..m + 12]);
    assert raw[off..off + SlotSize(keySize)] == raw[off..m] + raw[m..m + 4] + raw[m + 4..m + 8] + raw[m + 8..m + 12];
  }

  lemma FieldSpelled(raw: Bytes, keySize: nat, i: nat)
    requires |raw| >= PageHeaderSize(keySize) && i < 6
    ensures Field(raw, keySize, i) < WORD && Put(Field(raw, keySize, i), 4) == raw[1 + 2 * keySize + 4 * i..1 + 2 * keySize + 4 * i + 4]
  {
    hide Put, Get, Pow256;
    WordWidth();
    GetBound(raw[1 + 2 * keySize + 4 * i..1 + 2 * keySize + 4 * i + 4]);
    GetPut(raw[1 + 2 * keySize + 4 * i..1 + 2 * keySize + 4 * i + 4]);
  }

  lemma HeaderParts(raw: Bytes, keySize: nat, o: nat)
    requires |raw| >= PageHeaderSize(keySize) && o == 1 + 2 * keySize
    ensures raw[..PageHeaderSize(keySize)] == [raw[0]] + raw[1..1 + keySize] + raw[1 + keySize..o] + raw[o..o + 4] + raw[o + 4..o + 8]
                                              + raw[o + 8..o + 12] + raw[o + 12..o + 16] + raw[o + 16..o + 20] + raw[o + 20..o + 24]
  {
  }

  lemma HeaderSpelled(raw: Bytes, keySize: nat, p: Page)
    requires |raw| >= PageHeaderSize(keySize)
    requires raw[0] == 0 && p.minKey == Get(raw[1..1 + keySize]) && p.maxKey == Get(raw[1 + keySize..1 + 2 * keySize]) && p.usedData == Field(raw, keySize, 0)
    requires |p.slots| == Field(raw, keySize, 1) && |p.entries| == Field(raw, keySize, 2) && p.arrCap == Field(raw, keySize, 3)
    requires p.maxEntries == Field(raw, keySize, 4) && p.maxSlots == Field(raw, keySize, 5)
    ensures p.minKey < Pow256(keySize) && p.maxKey < Pow256(keySize) && p.usedData < WORD && p.arrCap < WORD
    ensures raw[..PageHeaderSize(keySize)] == PageHeader(p, keySize)
  {
    hide Put, Get, Pow256, Field;
    var o := 1 + 2 * keySize;
    HeaderParts(raw, keySize, o);
    GetPut(raw[1..1 + keySize]); GetPut(raw[1 + keySize..o]);
    GetBound(raw[1..1 + keySize]); GetBound(raw[1 + keySize..o]);
    FieldSpelled(raw, keySize, 0); FieldSpelled(raw, keySize, 1); FieldSpelled(raw, keySize, 2);
    FieldSpelled(raw, keySize, 3); FieldSpelled(raw, keySize, 4); FieldSpelled(raw, keySize, 5);
  }

  lemma HeaderValues(raw: Bytes, keySize: nat, p: Page)
    requires |raw| >= PageHeaderSize(keySize) && raw[..PageHeaderSize(keySize)] == PageHeader(p, keySize)
    requires p.minKey < Pow256(keySize) && p.maxKey < Pow256(keySize) && p.usedData < WORD && p.arrCap < WORD
    requires |p.slots| <= p.maxSlots <= MAX_CELLS && |p.entries| <= p.maxEntries <= MAX_CELLS
    ensures raw[0] == 0 && Get(raw[1..1 + keySize]) == p.minKey && Get(raw[1 + keySize..1 + 2 * keySize]) == p.maxKey
    ensures Field(raw, keySize, 0) == p.usedData && Field(raw, keySize, 1) == |p.slots| && Field(raw, keySize, 2) == |p.entries|
    ensures Field(raw, keySize, 3) == p.arrCap && Field(raw, keySize, 4) == p.maxEntries && Field(raw, keySize, 5) == p.maxSlots
  {
    hide Put, Get, Pow256, Field, PageHeader;
    HeaderFields(p, keySize, raw[PageHeaderSize(keySize)..]);
    assert raw == PageHeader(p, keySize) + raw[PageHeaderSize(keySize)..];
  }

  /** Bytes are read as a page exactly if they are that page's: those of a node, or of an object marked as deleted, never are. */
  lemma PageReadsExactly(raw: Bytes, keySize: nat, p: Page)
    requires keySize <= KEY_MAX && |raw| >= PageHeaderSize(keySize)
    ensures PageOf(raw, keySize) == Some(p) <==> PageSpelled(raw, p, keySize)
  {
    hide PageOf, PageSpelled;
    if PageOf(raw, keySize) == Some(p) { ReadPageSpelled(raw, keySize, p); }
    if PageSpelled(raw, p, keySize) { SpelledPageRead(raw, keySize, p); }
  }

  lemma ReadPageSpelled(raw: Bytes, keySize: nat, p: Page)
    requires keySize <= KEY_MAX && |raw| >= PageHeaderSize(keySize) && PageOf(raw, keySize) == Some(p)
    ensures PageSpelled(raw, p, keySize)
  {
    hide Put, Get, Pow256, SlotsAt, SlotsBytes, EntriesAt, EntriesSpelled, Field, PageHeader, SlotWritable;
    var o, size, n := PageHeaderSize(keySize), SlotSize(keySize), Field(raw, keySize, 1);
    Within(n, size, |raw| - o);
    SlotsSpelled(raw, o, keySize, n);
    EntriesExactly(raw, |raw|, o + n * size, Field(raw, keySize, 2), p.entries);
    HeaderSpelled(raw, keySize, p);
  }

  lemma Within(n: nat, d: nat, size: nat)
    requires d > 0 && n <= size / d
    ensures n * d <= size
  {
    Monotone(n, size / d, d);
  }

  lemma SpelledPageRead(raw: Bytes, keySize: nat, p: Page)
    requires keySize <= KEY_MAX && |raw| >= PageHeaderSize(keySize) && PageSpelled(raw, p, keySize)
    ensures PageOf(raw, keySize) == Some(p)
  {
    hide Put, Get, Pow256, SlotsAt, SlotsBytes, EntriesAt, EntriesSpelled, Field, PageHeader, SlotWritable;
    var o, size := PageHeaderSize(keySize), SlotSize(keySize);
    HeaderValues(raw, keySize, p);
    SlotsLength(p.slots, keySize);
    Quotient(|p.slots|, size, |raw| - o);
    var head, ss, rest := raw[..o], SlotsBytes(p.slots, keySize), raw[SlotEnd(p, keySize)..];
    assert raw == head + ss + rest;
    SlotsBack(head, p.slots, keySize, rest);
    EntriesExactly(raw, |raw|, SlotEnd(p, keySize), |p.entries|, p.entries);
  }

  lemma {:induction false} RoomForTail(raw: Bytes, cursor: nat, slotEnd: nat, es: seq<Entry>)
    requires slotEnd <= cursor <= |raw| && EntriesSpelled(raw, cursor, slotEnd, es)
    ensures slotEnd + |Tail(es)| <= cursor
    decreases |es|
  {
    hide Put, KindOf;
    if es != [] { RoomForTail(raw, cursor - 6 - |es[0].data|, slotEnd, es[1..]); }
  }

  /** A page that has been read fits where it was read from. Written again its header and slots are the bytes they were read from, and
      it is read again. */
  lemma PageWrittenAgain(raw: Bytes, keySize: nat, p: Page)
    requires keySize <= KEY_MAX && PageHeaderSize(keySize) <= |raw| < WORD && PageOf(raw, keySize) == Some(p)
    ensures Gap(p, keySize, |raw|) >= 0
    ensures var again, end := PageBytes(p, keySize, |raw|), SlotEnd(p, keySize);
            end <= |raw| && again[..end] == raw[..end] && PageOf(again, keySize) == Some(p)
  {
    hide Put, Get, Pow256, SlotsBytes, EntriesAt, EntriesSpelled, PageHeader, SlotWritable, PageOf, Tail, Zeros;
    PageReadsExactly(raw, keySize, p);
    RoomForTail(raw, |raw|, SlotEnd(p, keySize), p.entries);
    var o, end, es := PageHeaderSize(keySize), SlotEnd(p, keySize), Tail(p.entries);
    var again, pad := PageBytes(p, keySize, |raw|), Zeros(Gap(p, keySize, |raw|));
    assert raw[..end] == raw[..o] + raw[o..end];
    assert again[..end] == PageHeader(p, keySize) + SlotsBytes(p.slots, keySize);
    assert again[..o] == PageHeader(p, keySize) && again[o..end] == SlotsBytes(p.slots, keySize);
    assert again == again[..end] + pad + es + [];
    EntriesBack(again[..end] + pad, p.entries, [], end);
    EntriesExactly(again, |again|, end, |p.entries|, p.entries);
    PageReadsExactly(again, keySize, p);
  }

  // ---- writing and reading

  lemma {:induction false} TailLast(es: seq<Entry>, i: nat)
    requires i < |es|
    ensures Tail(es[..i + 1]) == EntryBytes(es[i]) + Tail(es[..i])
    decreases i
  {
    hide EntryBytes;
    if i == 0 {
      assert es[..1][1..] == [] && es[..0] == [];
    } else {
      TailLast(es[1..], i - 1);
      assert es[..i + 1][1..] == es[1..][..i] && es[..i][1..] == es[1..][..i - 1];
    }
  }

  lemma TailGrows(es: seq<Entry>, i: nat)
    requires i <= |es|
    ensures |Tail(es[..i])| <= |Tail(es)|
  {
    TailLength(es[..i]);
    TailLength(es);
    SizeSplit(es[..i], es[i..]);
    assert es == es[..i] + es[i..];
  }

  lemma {:induction false} SlotsJoin(a: seq<Slot>, b: seq<Slot>, keySize: nat)
    ensures SlotsBytes(a + b, keySize) == SlotsBytes(a, keySize) + SlotsBytes(b, keySize)
  {
    hide SlotBytes;
    if a == [] {
      assert a + b == b;
    } else {
      assert (a + b)[1..] == a[1..] + b;
      SlotsJoin(a[1..], b, keySize);
    }
  }

  lemma SlotsNext(ss: seq<Slot>, i: nat, keySize: nat)
    requires i < |ss|
    ensures SlotsBytes(ss[..i + 1], keySize) == SlotsBytes(ss[..i], keySize) + SlotBytes(ss[i], keySize)
    ensures |SlotsBytes(ss[..i + 1], keySize)| <= |SlotsBytes(ss, keySize)|
  {
    SlotsJoin(ss[..i], [ss[i]], keySize);
    SlotsJoin(ss[..i + 1], ss[i + 1..], keySize);
    assert ss[..i + 1] == ss[..i] + [ss[i]] && ss == ss[..i + 1] + ss[i + 1..];
    assert SlotsBytes([ss[i]], keySize) == SlotBytes(ss[i], keySize) + SlotsBytes([], keySize);
  }

  method SerializePage(p: Page, keySize: nat, pageSize: nat) returns (buffer: array<Byte>)
    requires Gap(p, keySize, pageSize) >= 0
    ensures fresh(buffer) && buffer[..] == PageBytes(p, keySize, pageSize)
  {
    hide Put, Zeros, PageHeader, SlotsBytes, SlotBytes, Tail;
    buffer := new Byte[pageSize](i => 0);
    AllZero(buffer[..]);
    var offset := SerializePageHeader(buffer, p, keySize);
    offset := SerializeSlots(buffer, offset, p.slots, keySize);
    SerializeEntries(buffer, offset, p.entries);
    assert buffer[..] == buffer[..offset] + buffer[offset..];
    assert PageHeader(p, keySize) + SlotsBytes(p.slots, keySize) + (Zeros(Gap(p, keySize, pageSize)) + Tail(p.entries)) == PageBytes(p, keySize, pageSize);
  }

  method SerializePageHeader(buffer: array<Byte>, p: Page, keySize: nat) returns (offset: nat)
    requires PageHeaderSize(keySize) <= buffer.Length && buffer[..] == Zeros(buffer.Length)
    modifies buffer
    ensures offset == PageHeaderSize(keySize) && buffer[..offset] == PageHeader(p, keySize) && buffer[offset..] == Zeros(buffer.Length - offset)
  {
    hide Put, Zeros, PageHeader;
    assert buffer[0..] == buffer[..];
    offset := Append(buffer, 0, [0]);
    offset := Append(buffer, offset, Put(p.minKey, keySize));
    offset := Append(buffer, offset, Put(p.maxKey, keySize));
    offset := Append(buffer, offset, Put(p.usedData, 4));
    offset := Append(buffer, offset, Put(|p.slots|, 4));
    offset := Append(buffer, offset, Put(|p.entries|, 4));
    offset := Append(buffer, offset, Put(p.arrCap, 4));
    offset := Append(buffer, offset, Put(p.maxEntries, 4));
    offset := Append(buffer, offset, Put(p.maxSlots, 4));
    PageHeaderIs(p, keySize);
  }

  lemma PageHeaderIs(p: Page, keySize: nat)
    ensures PageHeader(p, keySize) == [] + [0] + Put(p.minKey, keySize) + Put(p.maxKey, keySize) + Put(p.usedData, 4) + Put(|p.slots|, 4)
                                      + Put(|p.entries|, 4) + Put(p.arrCap, 4) + Put(p.maxEntries, 4) + Put(p.maxSlots, 4)
  {
    hide Put;
  }

  method SerializeSlots(buffer: array<Byte>, start: nat, ss: seq<Slot>, keySize: nat) returns (offset: nat)
    requires start + |SlotsBytes(ss, keySize)| <= buffer.Length && buffer[start..] == Zeros(buffer.Length - start)
    modifies buffer
    ensures offset == start + |SlotsBytes(ss, keySize)| && buffer[..offset] == old(buffer[..start]) + SlotsBytes(ss, keySize)
    ensures buffer[offset..] == Zeros(buffer.Length - offset)
  {
    hide Put, Zeros, SlotBytes;
    ghost var before := buffer[..start];
    offset := start;
    for i := 0 to |ss|
      invariant offset == start + |SlotsBytes(ss[..i], keySize)| <= buffer.Length && buffer[offset..] == Zeros(buffer.Length - offset)
      invariant buffer[..offset] == before + SlotsBytes(ss[..i], keySize)
    {
      SlotsNext(ss, i, keySize);
      offset := Append(buffer, offset, SlotBytes(ss[i], keySize));
    }
    assert ss[..|ss|] == ss;
  }

  /** Entries are written one before another from the end. */
  method SerializeEntries(buffer: array<Byte>, offset: nat, es: seq<Entry>)
    requires offset + |Tail(es)| <= buffer.Length && buffer[offset..] == Zeros(buffer.Length - offset)
    modifies buffer
    ensures buffer[..offset] == old(buffer[..offset]) && buffer[offset..] == Zeros(buffer.Length - offset - |Tail(es)|) + Tail(es)
  {
    hide Put, EntryBytes, Zeros;
    ghost var before := buffer[..offset];
    var entryOffset := 0;
    assert buffer[offset..buffer.Length] == buffer[offset..];
    for i := 0 to |es|
      invariant entryOffset == |Tail(es[..i])| && offset + entryOffset <= buffer.Length
      invariant buffer[..offset] == before && buffer[offset..buffer.Length - entryOffset] == Zeros(buffer.Length - entryOffset - offset)
      invariant buffer[buffer.Length - entryOffset..] == Tail(es[..i])
    {
      TailLast(es, i);
      TailGrows(es, i + 1);
      var addition := |es[i].data| + 6;
      PutBefore(buffer, offset, buffer.Length - entryOffset, EntryBytes(es[i]));
      entryOffset := entryOffset + addition;
    }
    assert es[..|es|] == es;
    assert buffer[offset..] == buffer[offset..buffer.Length - entryOffset] + buffer[buffer.Length - entryOffset..];
  }

  /** Writes bytes at the end of a run of zeros. */
  method PutBefore(buffer: array<Byte>, offset: nat, end: nat, bytes: Bytes)
    requires offset + |bytes| <= end <= buffer.Length && buffer[offset..end] == Zeros(end - offset)
    modifies buffer
    ensures buffer[..offset] == old(buffer[..offset]) && buffer[offset..end - |bytes|] == Zeros(end - |bytes| - offset)
    ensures buffer[end - |bytes|..] == bytes + old(buffer[end..])
  {
    hide Zeros;
    ghost var before, zeros := buffer[..offset], buffer[offset..end];
    ZerosCut(end - offset, end - |bytes| - offset);
    WriteAt(buffer, end - |bytes|, bytes);
    assert buffer[offset..end - |bytes|] == zeros[..end - |bytes| - offset];
  }

  lemma ZerosCut(n: nat, m: nat)
    requires m <= n
    ensures Zeros(n)[..m] == Zeros(m)
  {
  }

  method ReadPage(raw: Bytes, keySize: nat) returns (r: Option<Page>)
    requires keySize <= KEY_MAX && |raw| >= PageHeaderSize(keySize)
    ensures r == PageOf(raw, keySize)
  {
    hide Get, SlotsAt, EntriesAt;
    if raw[0] != 0 { return None; }
    var minKey, maxKey := KeyOf(raw[1..1 + keySize]), KeyOf(raw[1 + keySize..1 + 2 * keySize]);
    var usedData, numRecords, numEntries := Field(raw, keySize, 0), Field(raw, keySize, 1), Field(raw, keySize, 2);
    var arrCap, maxEntries, maxSlots := Field(raw, keySize, 3), Field(raw, keySize, 4), Field(raw, keySize, 5);
    if numRecords > maxSlots || numEntries > maxEntries || maxSlots > MAX_CELLS || maxEntries > MAX_CELLS
       || numRecords > (|raw| - PageHeaderSize(keySize)) / SlotSize(keySize)
    {
      return None;
    }
    var slots, slotEnd := ReadSlots(raw, PageHeaderSize(keySize), keySize, numRecords);
    var entries := ReadEntries(raw, slotEnd, numEntries);
    if entries == None { return None; }
    r := Some(Page(minKey, maxKey, usedData, arrCap, maxEntries, maxSlots, slots, entries.value));
  }

  method ReadSlots(raw: Bytes, start: nat, keySize: nat, count: nat) returns (slots: seq<Slot>, offset: nat)
    requires keySize <= KEY_MAX && start <= |raw| && count <= (|raw| - start) / SlotSize(keySize)
    ensures slots == SlotsAt(raw, start, keySize, count) && offset == start + count * SlotSize(keySize)
  {
    hide Get, SlotAt;
    slots, offset := [], start;
    for i := 0 to count
      invariant offset == start + i * SlotSize(keySize)
      invariant slots + SlotsAt(raw, offset, keySize, count - i) == SlotsAt(raw, start, keySize, count)
    {
      Distribute(i, SlotSize(keySize));
      Within(i + 1, SlotSize(keySize), |raw| - start);
      slots := slots + [SlotAt(raw, offset, keySize)];
      offset := offset + SlotSize(keySize);
    }
  }

  function Before(es: seq<Entry>, rest: Option<seq<Entry>>): Option<seq<Entry>> { if rest == None then None else Some(es + rest.value) }

  method ReadEntries(raw: Bytes, slotEnd: nat, count: nat) returns (r: Option<seq<Entry>>)
    ensures r == EntriesAt(raw, |raw|, slotEnd, count)
  {
    hide Get, KindOf;
    var es, cursor: nat := [], |raw|;
    NoneBefore(EntriesAt(raw, cursor, slotEnd, count));
    for i := 0 to count
      invariant cursor <= |raw| && Before(es, EntriesAt(raw, cursor, slotEnd, count - i)) == EntriesAt(raw, |raw|, slotEnd, count)
    {
      if cursor < slotEnd + 6 { return None; }
      var size := Get(raw[cursor - 6..cursor - 2]);
      if size > cursor - 6 - slotEnd { return None; }
      var e := Entry(KindOf(raw[cursor - 1]), raw[cursor - 6 - size..cursor - 6]);
      BeforeNext(es, e, EntriesAt(raw, cursor - 6 - size, slotEnd, count - i - 1));
      es := es + [e];
      cursor := cursor - 6 - size;
    }
    assert es + [] == es;
    r := Some(es);
  }

  lemma NoneBefore(rest: Option<seq<Entry>>)
    ensures Before([], rest) == rest
  {
    if rest != None { assert [] + rest.value == rest.value; }
  }

  lemma BeforeNext(es: seq<Entry>, e: Entry, rest: Option<seq<Entry>>)
    ensures Before(es + [e], rest) == if rest == None then None else Before(es, Some([e] + rest.value))
  {
    if rest != None { assert es + [e] + rest.value == es + ([e] + rest.value); }
  }
}
