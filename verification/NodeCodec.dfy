// A node as the bytes of a table file.
module NodeCodec {
  import opened Base
  import opened Words
  import opened TreeView
  import opened Buffers

  const KEY_MAX: nat := 24

  function HeaderSize(keySize: nat): nat { 30 + keySize }

  function KeyCount(children: nat, isLeaf: bool): int { if isLeaf then children else children - 1 }

  lemma KeyWidth(keySize: nat)
    requires keySize <= KEY_MAX
    ensures Pow256(keySize) <= KEY_LIMIT
    decreases KEY_MAX - keySize
  {
    WordWidth();
    if keySize == KEY_MAX {
      assert Pow256(9) == 256 * Pow256(8) && Pow256(10) == 256 * Pow256(9) && Pow256(11) == 256 * Pow256(10) && Pow256(12) == 256 * Pow256(11);
      assert Pow256(13) == 256 * Pow256(12) && Pow256(14) == 256 * Pow256(13) && Pow256(15) == 256 * Pow256(14) && Pow256(16) == 256 * Pow256(15);
      assert Pow256(17) == 256 * Pow256(16) && Pow256(18) == 256 * Pow256(17) && Pow256(19) == 256 * Pow256(18) && Pow256(20) == 256 * Pow256(19);
      assert Pow256(21) == 256 * Pow256(20) && Pow256(22) == 256 * Pow256(21) && Pow256(23) == 256 * Pow256(22) && Pow256(24) == 256 * Pow256(23);
    } else {
      KeyWidth(keySize + 1);
    }
  }

  /** A key's bytes as the key. */
  function KeyOf(b: Bytes): (k: Key)
    requires |b| <= KEY_MAX
    ensures k == Get(b)
  {
    GetBound(b);
    KeyWidth(|b|);
    Get(b)
  }

  function AsKeys(ns: seq<nat>, keySize: nat): (ks: seq<Key>)
    requires Small(ns, keySize) && keySize <= KEY_MAX
    ensures ks == ns
  {
    KeyWidth(keySize);
    assert forall i :: 0 <= i < |ns| ==> ns[i] in ns;
    seq(|ns|, i requires 0 <= i < |ns| => ns[i])
  }

  /** A node whose fields fit where they are written: a leaf has a key for each child, an inner node one fewer. */
  ghost predicate Writable(n: Node, keySize: nat, M: nat) {
    && |n.children| <= M < WORD && |n.keys| == KeyCount(|n.children|, n.isLeaf)
    && n.parent < Pow256(8) && n.prev < Pow256(8) && n.next < Pow256(8)
    && n.maxKey < Pow256(keySize) && Small(n.children, 8) && Small(n.keys, keySize)
  }

  function Header(n: Node, keySize: nat): (h: Bytes)
    ensures |h| == HeaderSize(keySize)
  {
    [1] + Put(n.parent, 8) + Put(n.prev, 8) + Put(n.next, 8) + Put(|n.children|, 4) + Put(n.maxKey, keySize) + [if n.isLeaf then 1 else 0]
  }

  function Body(n: Node, keySize: nat): (b: Bytes)
    ensures |b| == |n.children| * 8 + |n.keys| * keySize
  {
    FieldsLength(n.children, 8);
    FieldsLength(n.keys, keySize);
    Fields(n.children, 8) + Fields(n.keys, keySize)
  }

  /** The bytes of a node: its header, its children, its keys and zeros. */
  function NodeBytes(n: Node, keySize: nat, nodeSize: nat): (r: Bytes)
    requires HeaderSize(keySize) + |n.children| * 8 + |n.keys| * keySize <= nodeSize
    ensures |r| == nodeSize
  {
    Header(n, keySize) + Body(n, keySize) + Zeros(nodeSize - HeaderSize(keySize) - |Body(n, keySize)|)
  }

  /** The node some bytes are of, if they can be a node's. */
  function NodeOf(raw: Bytes, keySize: nat, M: nat): Option<Node>
    requires keySize <= KEY_MAX && |raw| >= HeaderSize(keySize)
  {
    var count := Get(raw[25..29]);
    var isLeaf := raw[29 + keySize] != 0;
    var keylim := KeyCount(count, isLeaf);
    if raw[0] != 1 || count > M || HeaderSize(keySize) + count * 8 + keylim * keySize > |raw| then None
    else
      Some(Node(Numbers(raw, HeaderSize(keySize), 8, count),
                AsKeys(Numbers(raw, HeaderSize(keySize) + count * 8, keySize, if keylim < 0 then 0 else keylim), keySize),
                Get(raw[1..9]), Get(raw[9..17]), Get(raw[17..25]), KeyOf(raw[29..29 + keySize]), isLeaf))
  }

  lemma HeaderBack(n: Node, keySize: nat, M: nat, rest: Bytes)
    requires Writable(n, keySize, M)
    ensures var raw := Header(n, keySize) + rest;
            && raw[0] == 1 && Get(raw[1..9]) == n.parent && Get(raw[9..17]) == n.prev && Get(raw[17..25]) == n.next
            && Get(raw[25..29]) == |n.children| && Get(raw[29..29 + keySize]) == n.maxKey
            && raw[29 + keySize] == if n.isLeaf then 1 else 0
  {
    hide Put, Get, Pow256, Small;
    WordWidth();
    var raw := Header(n, keySize) + rest;
    PutGet(n.parent, 8);
    PutGet(n.prev, 8);
    PutGet(n.next, 8);
    PutGet(|n.children|, 4);
    PutGet(n.maxKey, keySize);
    assert raw[1..9] == Put(n.parent, 8) && raw[9..17] == Put(n.prev, 8) && raw[17..25] == Put(n.next, 8);
    assert raw[25..29] == Put(|n.children|, 4) && raw[29..29 + keySize] == Put(n.maxKey, keySize);
  }

  lemma BodyBack(n: Node, keySize: nat, M: nat, head: Bytes, rest: Bytes)
    requires Writable(n, keySize, M)
    ensures var raw := head + Body(n, keySize) + rest;
            && Numbers(raw, |head|, 8, |n.children|) == n.children
            && Numbers(raw, |head| + |n.children| * 8, keySize, |n.keys|) == n.keys
  {
    hide Put, Get, Pow256, Small, Fields, Numbers;
    var c, k := Fields(n.children, 8), Fields(n.keys, keySize);
    FieldsLength(n.children, 8);
    FieldsBack(head, n.children, 8, k + rest);
    FieldsBack(head + c, n.keys, keySize, rest);
    assert head + Body(n, keySize) + rest == head + c + (k + rest) == (head + c) + k + rest;
  }

  /** A node that has been written is read back as it was. */
  lemma NodeRoundTrip(n: Node, keySize: nat, M: nat, nodeSize: nat)
    requires keySize <= KEY_MAX && Writable(n, keySize, M) && HeaderSize(keySize) + |n.children| * 8 + |n.keys| * keySize <= nodeSize
    ensures NodeOf(NodeBytes(n, keySize, nodeSize), keySize, M) == Some(n)
  {
    hide Put, Get, Pow256, Small, Fields, Numbers, Header, Body, Zeros;
    var head, body := Header(n, keySize), Body(n, keySize);
    var pad := Zeros(nodeSize - HeaderSize(keySize) - |body|);
    HeaderBack(n, keySize, M, body + pad);
    BodyBack(n, keySize, M, head, pad);
    assert head + body + pad == head + (body + pad);
  }

  /** Every node with at most M children fits. */
  lemma NodeFits(n: Node, keySize: nat, M: nat)
    requires Writable(n, keySize, M)
    ensures HeaderSize(keySize) + |n.children| * 8 + |n.keys| * keySize <= HeaderSize(keySize) + M * (8 + keySize)
  {
    hide Pow256, Small;
    Monotone(|n.children|, M, 8);
    Monotone(|n.keys|, M, keySize);
    Spread(M, keySize);
  }

  lemma Spread(M: nat, keySize: nat)
    ensures M * (8 + keySize) == M * 8 + M * keySize
  {
  }

  // ---- and nothing else is

  function Front(n: Node, keySize: nat): (h: Bytes)
    ensures |h| == HeaderSize(keySize) - 1
  {
    [1] + Put(n.parent, 8) + Put(n.prev, 8) + Put(n.next, 8) + Put(|n.children|, 4) + Put(n.maxKey, keySize)
  }

  function BodyEnd(n: Node, keySize: nat): (end: nat)
    ensures end >= HeaderSize(keySize)
  {
    HeaderSize(keySize) + |Fields(n.children, 8)| + |Fields(n.keys, keySize)|
  }

  /** raw starts with n's bytes. A leaf is one whatever its flag is, if that isn't 0; an inner node without children has no keys. */
  ghost predicate NodeSpelled(raw: Bytes, n: Node, keySize: nat, M: nat) {
    && |n.children| <= M && |n.children| < WORD && |n.keys| == (if KeyCount(|n.children|, n.isLeaf) < 0 then 0 else KeyCount(|n.children|, n.isLeaf))
    && n.parent < Pow256(8) && n.prev < Pow256(8) && n.next < Pow256(8)
    && n.maxKey < Pow256(keySize) && Small(n.children, 8) && Small(n.keys, keySize)
    && BodyEnd(n, keySize) <= |raw| && raw[..29 + keySize] == Front(n, keySize) && (raw[29 + keySize] != 0 <==> n.isLeaf)
    && raw[HeaderSize(keySize)..BodyEnd(n, keySize)] == Fields(n.children, 8) + Fields(n.keys, keySize)
  }

  /** Bytes are read as a node exactly if they are that node's: those of a page, or of an object marked as deleted, never are. */
  lemma NodeReadsExactly(raw: Bytes, keySize: nat, M: nat, n: Node)
    requires keySize <= KEY_MAX && |raw| >= HeaderSize(keySize)
    ensures NodeOf(raw, keySize, M) == Some(n) <==> NodeSpelled(raw, n, keySize, M)
  {
    hide NodeOf, NodeSpelled;
    if NodeOf(raw, keySize, M) == Some(n) { ReadNodeSpelled(raw, keySize, M, n); }
    if NodeSpelled(raw, n, keySize, M) { SpelledNodeRead(raw, keySize, M, n); }
  }

  lemma ReadNodeSpelled(raw: Bytes, keySize: nat, M: nat, n: Node)
    requires keySize <= KEY_MAX && |raw| >= HeaderSize(keySize) && NodeOf(raw, keySize, M) == Some(n)
    ensures NodeSpelled(raw, n, keySize, M)
  {
    hide Put, Get, Pow256, Fields, Numbers, Small, Front;
    var o, count := HeaderSize(keySize), Get(raw[25..29]);
    var keylim := KeyCount(count, raw[29 + keySize] != 0);
    var keys := if keylim < 0 then 0 else keylim;
    KeysFit(o, count, keylim, keySize, |raw|);
    ReadBody(raw, o, count, keys, keySize);
    ReadFront(raw, keySize, n);
  }

  lemma ReadFront(raw: Bytes, keySize: nat, n: Node)
    requires |raw| >= HeaderSize(keySize) && raw[0] == 1 && n.parent == Get(raw[1..9]) && n.prev == Get(raw[9..17]) && n.next == Get(raw[17..25])
    requires |n.children| == Get(raw[25..29]) && n.maxKey == Get(raw[29..29 + keySize])
    ensures raw[..29 + keySize] == Front(n, keySize) && |n.children| < WORD
    ensures n.parent < Pow256(8) && n.prev < Pow256(8) && n.next < Pow256(8) && n.maxKey < Pow256(keySize)
  {
    hide Put, Get, Pow256;
    WordWidth();
    GetPut(raw[1..9]); GetPut(raw[9..17]); GetPut(raw[17..25]); GetPut(raw[25..29]); GetPut(raw[29..29 + keySize]);
    GetBound(raw[1..9]); GetBound(raw[9..17]); GetBound(raw[17..25]); GetBound(raw[25..29]); GetBound(raw[29..29 + keySize]);
    assert raw[..29 + keySize] == [raw[0]] + raw[1..9] + raw[9..17] + raw[17..25] + raw[25..29] + raw[29..29 + keySize];
  }

  lemma ReadBody(raw: Bytes, o: nat, count: nat, keys: nat, keySize: nat)
    requires o + count * 8 + keys * keySize <= |raw|
    ensures var c, k := Numbers(raw, o, 8, count), Numbers(raw, o + count * 8, keySize, keys);
            && |c| == count && |k| == keys && o + |Fields(c, 8)| + |Fields(k, keySize)| <= |raw|
            && raw[o..o + |Fields(c, 8)| + |Fields(k, keySize)|] == Fields(c, 8) + Fields(k, keySize)
  {
    hide Put, Get, Pow256, Fields, Numbers, Small;
    Monotone(0, keys, keySize);
    NumbersSpelled(raw, o, 8, count);
    NumbersSpelled(raw, o + count * 8, keySize, keys);
    var m, end := o + count * 8, o + count * 8 + keys * keySize;
    assert raw[o..end] == raw[o..m] + raw[m..end];
  }

  lemma SpelledNodeRead(raw: Bytes, keySize: nat, M: nat, n: Node)
    requires keySize <= KEY_MAX && |raw| >= HeaderSize(keySize) && NodeSpelled(raw, n, keySize, M)
    ensures NodeOf(raw, keySize, M) == Some(n)
  {
    hide Put, Get, Pow256, Fields, Numbers, Small, Body;
    SpelledFront(raw, keySize, n);
    SpelledBody(raw, HeaderSize(keySize), n.children, n.keys, keySize);
    FieldsLength(n.children, 8);
    FieldsLength(n.keys, keySize);
    var keylim := KeyCount(|n.children|, n.isLeaf);
    if keylim < 0 {
      assert keylim == -1 && |n.children| == 0;
      assert keylim * keySize <= 0;
    }
    assert HeaderSize(keySize) + |n.children| * 8 + keylim * keySize <= |raw|;
  }

  lemma SpelledFront(raw: Bytes, keySize: nat, n: Node)
    requires |raw| >= HeaderSize(keySize) && raw[..29 + keySize] == Front(n, keySize) && |n.children| < WORD
    requires n.parent < Pow256(8) && n.prev < Pow256(8) && n.next < Pow256(8) && n.maxKey < Pow256(keySize)
    ensures raw[0] == 1 && Get(raw[1..9]) == n.parent && Get(raw[9..17]) == n.prev && Get(raw[17..25]) == n.next
    ensures Get(raw[25..29]) == |n.children| && Get(raw[29..29 + keySize]) == n.maxKey
  {
    hide Put, Get, Pow256;
    WordWidth();
    PutGet(n.parent, 8); PutGet(n.prev, 8); PutGet(n.next, 8); PutGet(|n.children|, 4); PutGet(n.maxKey, keySize);
    assert raw == Front(n, keySize) + raw[29 + keySize..];
    assert raw[1..9] == Put(n.parent, 8) && raw[9..17] == Put(n.prev, 8);
    assert raw[17..25] == Put(n.next, 8) && raw[25..29] == Put(|n.children|, 4);
    assert raw[29..29 + keySize] == Put(n.maxKey, keySize);
  }

  lemma SpelledBody(raw: Bytes, o: nat, children: seq<nat>, keys: seq<nat>, keySize: nat)
    requires Small(children, 8) && Small(keys, keySize) && o + |Fields(children, 8)| + |Fields(keys, keySize)| <= |raw|
    requires raw[o..o + |Fields(children, 8)| + |Fields(keys, keySize)|] == Fields(children, 8) + Fields(keys, keySize)
    ensures Numbers(raw, o, 8, |children|) == children
    ensures Numbers(raw, o + |Fields(children, 8)|, keySize, |keys|) == keys
  {
    hide Put, Get, Pow256, Fields, Numbers, Small;
    var c, k := Fields(children, 8), Fields(keys, keySize);
    Parts(raw, o, c, k);
    SpelledNumbers(raw, o, children, 8);
    SpelledNumbers(raw, o + |c|, keys, keySize);
  }

  lemma Parts(raw: Bytes, o: nat, c: Bytes, k: Bytes)
    requires o + |c| + |k| <= |raw| && raw[o..o + |c| + |k|] == c + k
    ensures raw[o..o + |c|] == c && raw[o + |c|..o + |c| + |k|] == k
  {
    assert raw[o..o + |c|] == raw[o..o + |c| + |k|][..|c|] && raw[o + |c|..o + |c| + |k|] == raw[o..o + |c| + |k|][|c|..];
  }

  lemma SpelledNumbers(raw: Bytes, o: nat, ns: seq<nat>, width: nat)
    requires Small(ns, width) && o + |Fields(ns, width)| <= |raw| && raw[o..o + |Fields(ns, width)|] == Fields(ns, width)
    ensures Numbers(raw, o, width, |ns|) == ns
  {
    hide Put, Get, Pow256, Fields, Numbers, Small;
    var fields := Fields(ns, width);
    assert raw == raw[..o] + fields + raw[o + |fields|..];
    FieldsBack(raw[..o], ns, width, raw[o + |fields|..]);
  }

  lemma BodyFields(n: Node, keySize: nat)
    ensures Body(n, keySize) == Fields(n.children, 8) + Fields(n.keys, keySize)
  {
  }

  /** A node that has been read is, written again, the bytes it was read from, and is read again. */
  lemma NodeWrittenAgain(raw: Bytes, keySize: nat, M: nat, n: Node)
    requires keySize <= KEY_MAX && |raw| >= HeaderSize(keySize) && NodeOf(raw, keySize, M) == Some(n)
    ensures HeaderSize(keySize) + |n.children| * 8 + |n.keys| * keySize == BodyEnd(n, keySize) <= |raw|
    ensures var again, o := NodeBytes(n, keySize, |raw|), HeaderSize(keySize);
            && again[..o - 1] == raw[..o - 1] && again[o..BodyEnd(n, keySize)] == raw[o..BodyEnd(n, keySize)] && NodeOf(again, keySize, M) == Some(n)
  {
    hide Put, Get, Pow256, Fields, Numbers, Small, NodeOf, Body, Zeros;
    NodeReadsExactly(raw, keySize, M, n);
    BodyFields(n, keySize);
    FieldsLength(n.children, 8);
    FieldsLength(n.keys, keySize);
    var again, o, body := NodeBytes(n, keySize, |raw|), HeaderSize(keySize), Body(n, keySize);
    assert Header(n, keySize) == Front(n, keySize) + [if n.isLeaf then 1 else 0];
    assert again[..o - 1] == Front(n, keySize) && again[o..BodyEnd(n, keySize)] == body;
    NodeReadsExactly(again, keySize, M, n);
  }

  // ---- writing and reading

  method SerializeNode(n: Node, keySize: nat, nodeSize: nat) returns (buffer: array<Byte>)
    requires |n.keys| == KeyCount(|n.children|, n.isLeaf)
    requires HeaderSize(keySize) + |n.children| * 8 + |n.keys| * keySize <= nodeSize
    ensures fresh(buffer) && buffer[..] == NodeBytes(n, keySize, nodeSize)
  {
    hide Put, Fields, Zeros, Header, Body, NodeBytes;
    buffer := new Byte[nodeSize](i => 0);
    AllZero(buffer[..]);
    var offset := SerializeFields(buffer, n, keySize);
    ghost var front, pad := buffer[..offset], buffer[offset..];
    BytesAre(n, keySize, nodeSize, front, pad);
    assert buffer[..] == front + pad;
  }

  lemma AllZero(s: Bytes)
    requires forall i :: 0 <= i < |s| ==> s[i] == 0
    ensures s == Zeros(|s|)
  {
  }

  lemma BytesAre(n: Node, keySize: nat, nodeSize: nat, front: Bytes, pad: Bytes)
    requires HeaderSize(keySize) + |n.children| * 8 + |n.keys| * keySize <= nodeSize
    requires front == Header(n, keySize) + Fields(n.children, 8) + Fields(n.keys, keySize) && |front| <= nodeSize && pad == Zeros(nodeSize - |front|)
    ensures front + pad == NodeBytes(n, keySize, nodeSize)
  {
    hide Put, Fields, Zeros, Header;
    assert front == Header(n, keySize) + Body(n, keySize);
  }

  method SerializeFields(buffer: array<Byte>, n: Node, keySize: nat) returns (offset: nat)
    requires HeaderSize(keySize) + |n.children| * 8 + |n.keys| * keySize <= buffer.Length && buffer[..] == Zeros(buffer.Length)
    modifies buffer
    ensures offset <= buffer.Length && buffer[offset..] == Zeros(buffer.Length - offset)
    ensures buffer[..offset] == Header(n, keySize) + Fields(n.children, 8) + Fields(n.keys, keySize)
  {
    hide Put, Fields, Zeros, Header;
    Monotone(0, |n.keys|, keySize);
    offset := SerializeHeader(buffer, n, keySize);
    offset := AppendFields(buffer, offset, n.children, 8);
    offset := AppendFields(buffer, offset, n.keys, keySize);
  }

  method SerializeHeader(buffer: array<Byte>, n: Node, keySize: nat) returns (offset: nat)
    requires HeaderSize(keySize) <= buffer.Length && buffer[..] == Zeros(buffer.Length)
    modifies buffer
    ensures offset == HeaderSize(keySize) && buffer[..offset] == Header(n, keySize) && buffer[offset..] == Zeros(buffer.Length - offset)
  {
    hide Put, Zeros, Header;
    assert buffer[0..] == buffer[..];
    offset := Append(buffer, 0, [1]);
    offset := Append(buffer, offset, Put(n.parent, 8));
    offset := Append(buffer, offset, Put(n.prev, 8));
    offset := Append(buffer, offset, Put(n.next, 8));
    offset := Append(buffer, offset, Put(|n.children|, 4));
    offset := Append(buffer, offset, Put(n.maxKey, keySize));
    offset := Append(buffer, offset, [if n.isLeaf then 1 else 0]);
    HeaderIs(n, keySize);
  }

  lemma HeaderIs(n: Node, keySize: nat)
    ensures Header(n, keySize) == [] + [1] + Put(n.parent, 8) + Put(n.prev, 8) + Put(n.next, 8) + Put(|n.children|, 4) + Put(n.maxKey, keySize)
                                  + [if n.isLeaf then 1 else 0]
  {
    hide Put;
  }

  method ReadNode(raw: Bytes, keySize: nat, M: nat) returns (r: Option<Node>)
    requires keySize <= KEY_MAX && |raw| >= HeaderSize(keySize)
    ensures r == NodeOf(raw, keySize, M)
  {
    hide Put, Get, Pow256, Small, Numbers;
    if raw[0] != 1 { return None; }
    var parent, prev, next := Get(raw[1..9]), Get(raw[9..17]), Get(raw[17..25]);
    var childCount := Get(raw[25..29]);
    if childCount > M { return None; }
    var maxKey := KeyOf(raw[29..29 + keySize]);
    var isLeaf := raw[29 + keySize] != 0;
    var keylim := childCount;
    if !isLeaf { keylim := keylim - 1; }
    if HeaderSize(keySize) + childCount * 8 + keylim * keySize > |raw| { return None; }
    KeysFit(HeaderSize(keySize), childCount, keylim, keySize, |raw|);
    var children := ReadFields(raw, HeaderSize(keySize), 8, childCount);
    var keys := ReadFields(raw, HeaderSize(keySize) + childCount * 8, keySize, if keylim < 0 then 0 else keylim);
    r := Some(Node(children, AsKeys(keys, keySize), parent, prev, next, maxKey, isLeaf));
  }

  lemma KeysFit(head: nat, count: nat, keylim: int, keySize: nat, size: nat)
    requires head + count * 8 + keylim * keySize <= size && head <= size && (keylim == count || keylim == count - 1)
    ensures head + count * 8 + (if keylim < 0 then 0 else keylim) * keySize <= size && head + count * 8 <= size
  {
    if keylim >= 0 { Monotone(0, keylim, keySize); }
  }
}
