// Fields written one after another into a buffer of bytes, and read back.
module Buffers {
  import opened Base
  import opened Words

  /** Numbers as fields of the same width. */
  function Fields(ns: seq<nat>, width: nat): Bytes {
    if ns == [] then [] else Put(ns[0], width) + Fields(ns[1..], width)
  }

  /** count numbers from off on. */
  function Numbers(raw: Bytes, off: nat, width: nat, count: nat): (ns: seq<nat>)
    ensures Small(ns, width)
    decreases count
  {
    if off + width <= |raw| then GetBound(raw[off..off + width]); if count == 0 then [] else [Get(raw[off..off + width])] + Numbers(raw, off + width, width, count - 1)
    else []
  }

  lemma {:induction false} FieldsLength(ns: seq<nat>, width: nat)
    ensures |Fields(ns, width)| == |ns| * width
  {
    if ns != [] {
      FieldsLength(ns[1..], width);
      Distribute(|ns| - 1, width);
    }
  }

  lemma Distribute(n: nat, width: nat)
    ensures (n + 1) * width == n * width + width
  {
  }

  lemma {:induction false} FieldsJoin(a: seq<nat>, b: seq<nat>, width: nat)
    ensures Fields(a + b, width) == Fields(a, width) + Fields(b, width)
  {
    if a == [] {
      assert a + b == b;
    } else {
      assert (a + b)[1..] == a[1..] + b;
      FieldsJoin(a[1..], b, width);
    }
  }

  lemma FieldsNext(ns: seq<nat>, i: nat, width: nat)
    requires i < |ns|
    ensures Fields(ns[..i + 1], width) == Fields(ns[..i], width) + Put(ns[i], width)
    ensures |Fields(ns[..i], width)| == i * width && i * width + width == (i + 1) * width
  {
    assert ns[..i + 1] == ns[..i] + [ns[i]];
    FieldsJoin(ns[..i], [ns[i]], width);
    assert Fields([ns[i]], width) == Put(ns[i], width) + Fields([], width);
    FieldsLength(ns[..i], width);
    Distribute(i, width);
  }

  predicate Small(ns: seq<nat>, width: nat) { forall n {:trigger n in ns} :: n in ns ==> n < Pow256(width) }

  /** Fields are read back as they were written. */
  lemma {:induction false} FieldsBack(a: Bytes, ns: seq<nat>, width: nat, b: Bytes)
    requires Small(ns, width)
    ensures Numbers(a + Fields(ns, width) + b, |a|, width, |ns|) == ns
    decreases |ns|
  {
    hide Put, Get, Pow256, Small, Fields, Numbers;
    FieldsUnfold(ns, width);
    var raw := a + Fields(ns, width) + b;
    NumbersUnfold(raw, |a|, width, |ns|);
    if ns != [] {
      var first, rest := Put(ns[0], width), Fields(ns[1..], width);
      SmallParts(ns, width);
      PutGet(ns[0], width);
      FieldsBack(a + first, ns[1..], width, b);
      Shift(a, first, rest, b);
    }
  }

  lemma Shift(a: Bytes, first: Bytes, rest: Bytes, b: Bytes)
    ensures a + (first + rest) + b == (a + first) + rest + b
    ensures |a| + |first| <= |a + (first + rest) + b| && (a + (first + rest) + b)[|a|..|a| + |first|] == first
  {
  }

  lemma SmallParts(ns: seq<nat>, width: nat)
    requires Small(ns, width) && ns != []
    ensures ns[0] < Pow256(width) && Small(ns[1..], width)
  {
    hide Pow256;
    assert ns[0] in ns;
    forall n | n in ns[1..] ensures n < Pow256(width) { assert n in ns; }
  }

  lemma FieldsUnfold(ns: seq<nat>, width: nat)
    ensures Fields(ns, width) == if ns == [] then [] else Put(ns[0], width) + Fields(ns[1..], width)
  {
  }

  lemma NumbersUnfold(raw: Bytes, off: nat, width: nat, count: nat)
    ensures Numbers(raw, off, width, count) ==
            if count == 0 || off + width > |raw| then [] else [Get(raw[off..off + width])] + Numbers(raw, off + width, width, count - 1)
  {
  }

  lemma NumbersNext(raw: Bytes, off: nat, width: nat, count: nat, i: nat)
    requires i < count && off + count * width <= |raw|
    ensures off + i * width + width == off + (i + 1) * width <= |raw|
    ensures Numbers(raw, off + i * width, width, count - i) == [Get(raw[off + i * width..off + i * width + width])] + Numbers(raw, off + (i + 1) * width, width, count - i - 1)
  {
    Distribute(i, width);
    Monotone(i + 1, count, width);
  }

  lemma {:induction false} Monotone(i: nat, n: nat, width: nat)
    requires i <= n
    ensures i * width <= n * width
  {
    if i < n {
      Monotone(i, n - 1, width);
      Distribute(n - 1, width);
    }
  }

  /** Numbers that have been read are, as fields again, the bytes they were read from. */
  lemma {:induction false} NumbersSpelled(raw: Bytes, off: nat, width: nat, count: nat)
    requires off + count * width <= |raw|
    ensures |Numbers(raw, off, width, count)| == count && Fields(Numbers(raw, off, width, count), width) == raw[off..off + count * width]
    decreases count
  {
    hide Put, Get, Fields, Numbers;
    NumbersUnfold(raw, off, width, count);
    FieldsUnfold(Numbers(raw, off, width, count), width);
    if count > 0 {
      Distribute(count - 1, width);
      Monotone(0, count - 1, width);
      NumbersSpelled(raw, off + width, width, count - 1);
      GetPut(raw[off..off + width]);
      assert raw[off..off + count * width] == raw[off..off + width] + raw[off + width..off + count * width];
    }
  }

  /** Writes bytes over those from off on. */
  method WriteAt(buffer: array<Byte>, off: nat, bytes: Bytes)
    requires off + |bytes| <= buffer.Length
    modifies buffer
    ensures buffer[..] == old(buffer[..off]) + bytes + old(buffer[off + |bytes|..])
  {
    ghost var before, after := buffer[..off], buffer[off + |bytes|..];
    for i := 0 to |bytes|
      invariant buffer[..off] == before && buffer[off + |bytes|..] == after && buffer[off..off + i] == bytes[..i]
    {
      buffer[off + i] := bytes[i];
    }
    assert buffer[off..off + |bytes|] == bytes;
  }

  /** Appends to what has been written up to off; the rest is still zero. */
  method Append(buffer: array<Byte>, off: nat, bytes: Bytes) returns (end: nat)
    requires off + |bytes| <= buffer.Length && buffer[off..] == Zeros(buffer.Length - off)
    modifies buffer
    ensures end == off + |bytes| && buffer[..end] == old(buffer[..off]) + bytes && buffer[end..] == Zeros(buffer.Length - end)
  {
    WriteAt(buffer, off, bytes);
    end := off + |bytes|;
    assert buffer[end..] == old(buffer[end..]) == old(buffer[off..])[|bytes|..];
  }

  method AppendFields(buffer: array<Byte>, off: nat, ns: seq<nat>, width: nat) returns (end: nat)
    requires off + |ns| * width <= buffer.Length && buffer[off..] == Zeros(buffer.Length - off)
    modifies buffer
    ensures end == off + |ns| * width && buffer[..end] == old(buffer[..off]) + Fields(ns, width) && buffer[end..] == Zeros(buffer.Length - end)
  {
    hide Put, Fields, Zeros;
    ghost var before := buffer[..off];
    end := off;
    assert Fields(ns[..0], width) == [] by { FieldsLength(ns[..0], width); }
    for i := 0 to |ns|
      invariant end == off + i * width && end <= buffer.Length && buffer[..end] == before + Fields(ns[..i], width) && buffer[end..] == Zeros(buffer.Length - end)
    {
      FieldsNext(ns, i, width);
      Monotone(i + 1, |ns|, width);
      end := Append(buffer, end, Put(ns[i], width));
    }
    assert ns[..|ns|] == ns;
  }

  method ReadFields(raw: Bytes, off: nat, width: nat, count: nat) returns (ns: seq<nat>)
    requires off + count * width <= |raw|
    ensures ns == Numbers(raw, off, width, count)
  {
    hide Get;
    ns := [];
    var at := off;
    for i := 0 to count
      invariant at == off + i * width && Numbers(raw, off, width, count) == ns + Numbers(raw, at, width, count - i)
    {
      NumbersNext(raw, off, width, count, i);
      ns := ns + [Get(raw[at..at + width])];
      at := at + width;
    }
  }
}
