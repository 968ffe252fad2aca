// The redo log's bytes: entries of a fixed size, and the marker that commits them.
module LogCodec {
  import opened Base
  import opened Words

  const PAGE_SIZE: nat := 4096
  const NAME_LEN: nat := 260
  const WAL_MAGIC: nat := 0x1054_9800
  const COMMIT_TAG: nat := 0x434F_4D54
  const ENTRY_SIZE: nat := 4 + 4 + NAME_LEN + 8 + 2 + PAGE_SIZE + 4
  const MARKER_SIZE: nat := 16

  datatype Kind = WritePage | WriteNode | WriteMeta | WriteDelete | WriteData | CreateFile | RemoveFile

  function Code(k: Kind): (c: nat)
    ensures 1 <= c <= 7
  {
    match k
    case WritePage => 1 case WriteNode => 2 case WriteMeta => 3 case WriteDelete => 4
    case WriteData => 5 case CreateFile => 6 case RemoveFile => 7
  }

  function KindOf(c: nat): (k: Kind)
    requires 1 <= c <= 7
    ensures Code(k) == c
  {
    if c == 1 then WritePage else if c == 2 then WriteNode else if c == 3 then WriteMeta else if c == 4 then WriteDelete
    else if c == 5 then WriteData else if c == 6 then CreateFile else RemoveFile
  }

  datatype Entry = Entry(kind: Kind, transID: Word, name: Bytes, addr: nat, payload: Bytes)

  /** What buildEntry accepts: a name that fits, NUL included, and a payload no larger than a page. */
  predicate Legal(e: Entry) {
    && |e.name| < NAME_LEN && 0 !in e.name && |e.payload| <= PAGE_SIZE && e.addr < WORD * WORD
  }

  /** The checksum of some bytes: any function of them. */
  type Checksum = Bytes -> Word

  function Padded(s: Bytes, n: nat): (r: Bytes)
    requires |s| <= n
    ensures |r| == n
  {
    s + Zeros(n - |s|)
  }

  function Summed(e: Entry): (r: Bytes)
    requires Legal(e)
    ensures |r| == ENTRY_SIZE - 4
  {
    Put(WAL_MAGIC + Code(e.kind), 4) + Put(e.transID, 4) + Padded(e.name, NAME_LEN) + Put(e.addr, 8) + Put(|e.payload|, 2)
    + Padded(e.payload, PAGE_SIZE)
  }

  function SerializeEntry(e: Entry, crc: Checksum): (r: Bytes)
    requires Legal(e)
    ensures |r| == ENTRY_SIZE
  {
    Summed(e) + Put(crc(Summed(e)), 4)
  }

  /** A string up to its NUL. */
  function UpToZero(s: Bytes): (r: Bytes)
    ensures |r| <= |s| && r == s[..|r|] && 0 !in r
    ensures |r| < |s| ==> s[|r|] == 0
  {
    if s == [] || s[0] == 0 then [] else [s[0]] + UpToZero(s[1..])
  }

  /** The entry some bytes spell, if its magic, type, name, length and checksum are valid. */
  function ParseEntry(buf: Bytes, crc: Checksum): Option<Entry>
    requires |buf| == ENTRY_SIZE
  {
    var magic, transID, name, addr, len := Get(buf[..4]), Get(buf[4..8]), buf[8..268], Get(buf[268..276]), Get(buf[276..278]);
    var kind := magic % 0x100;
    if magic - kind != WAL_MAGIC || kind < 1 || kind > 7 then None
    else if len > PAGE_SIZE || name[NAME_LEN - 1] != 0 then None
    else if Get(buf[4374..]) != crc(buf[..4374]) then None
    else WordsRead(buf); Some(Entry(KindOf(kind), transID, UpToZero(name), addr, buf[278..278 + len]))
  }

  lemma WordsRead(buf: Bytes)
    requires |buf| == ENTRY_SIZE
    ensures Get(buf[4..8]) < WORD && Get(buf[268..276]) < WORD * WORD
  {
    WordWidth();
    GetBound(buf[4..8]);
    GetBound(buf[268..276]);
  }

  /** Where a serialized entry's fields are. */
  lemma Fields(e: Entry, crc: Checksum)
    requires Legal(e)
    ensures var r := SerializeEntry(e, crc);
            && r[..4] == Put(WAL_MAGIC + Code(e.kind), 4) && r[4..8] == Put(e.transID, 4)
            && r[8..268] == Padded(e.name, NAME_LEN) && r[268..276] == Put(e.addr, 8) && r[276..278] == Put(|e.payload|, 2)
            && r[278..4374] == Padded(e.payload, PAGE_SIZE) && r[..4374] == Summed(e) && r[4374..] == Put(crc(Summed(e)), 4)
  {
    hide Put, Padded;
  }

  lemma {:induction false} UpToZeroStops(s: Bytes, rest: Bytes)
    requires 0 !in s && rest != [] && rest[0] == 0
    ensures UpToZero(s + rest) == s
  {
    if s == [] {
      assert s + rest == rest;
    } else {
      assert (s + rest)[1..] == s[1..] + rest;
      UpToZeroStops(s[1..], rest);
    }
  }

  /** What a serialized entry's fields are read back as. */
  lemma FieldValues(e: Entry, crc: Checksum)
    requires Legal(e)
    ensures var r := SerializeEntry(e, crc);
            && Get(r[..4]) == WAL_MAGIC + Code(e.kind) && Get(r[4..8]) == e.transID && Get(r[268..276]) == e.addr
            && Get(r[276..278]) == |e.payload| && Get(r[4374..]) == crc(r[..4374])
            && UpToZero(r[8..268]) == e.name && r[8..268][NAME_LEN - 1] == 0 && r[278..278 + |e.payload|] == e.payload
  {
    hide Put, Get, SerializeEntry, UpToZero, Summed, Pow256;
    Fields(e, crc);
    WordWidth();
    PutGet(WAL_MAGIC + Code(e.kind), 4);
    PutGet(e.transID, 4);
    PutGet(e.addr, 8);
    PutGet(|e.payload|, 2);
    PutGet(crc(Summed(e)), 4);
    UpToZeroStops(e.name, Zeros(NAME_LEN - |e.name|));
    PaddedStart(e.payload, PAGE_SIZE);
    var r := SerializeEntry(e, crc);
    assert r[278..278 + |e.payload|] == r[278..4374][..|e.payload|];
  }

  /** Parsing undoes serializing, whatever the checksum is. */
  lemma RoundTrip(e: Entry, crc: Checksum)
    requires Legal(e)
    ensures ParseEntry(SerializeEntry(e, crc), crc) == Some(e)
  {
    FieldValues(e, crc);
    hide SerializeEntry, Get, UpToZero;
  }

  lemma PaddedStart(s: Bytes, n: nat)
    requires |s| <= n
    ensures Padded(s, n)[..|s|] == s
  {
  }

  /** buf is how e is written: the magic, then every field where it belongs, and the checksum of all of it. What follows a name's NUL
      and a payload's length may be anything. */
  ghost predicate Spells(buf: Bytes, e: Entry, crc: Checksum) {
    && |buf| == ENTRY_SIZE && |e.name| < NAME_LEN && 0 !in e.name && |e.payload| <= PAGE_SIZE && e.addr < WORD * WORD
    && buf[..4] == Put(WAL_MAGIC + Code(e.kind), 4) && buf[4..8] == Put(e.transID, 4)
    && buf[8..8 + |e.name|] == e.name && buf[8 + |e.name|] == 0 && buf[8 + NAME_LEN - 1] == 0
    && buf[268..276] == Put(e.addr, 8) && buf[276..278] == Put(|e.payload|, 2) && buf[278..278 + |e.payload|] == e.payload
    && buf[4374..] == Put(crc(buf[..4374]), 4)
  }

  /** Only what an entry is written as, with its checksum, is read as that entry. */
  lemma ParsesExactly(buf: Bytes, crc: Checksum, e: Entry)
    requires |buf| == ENTRY_SIZE
    ensures ParseEntry(buf, crc) == Some(e) <==> Spells(buf, e, crc)
  {
    if ParseEntry(buf, crc) == Some(e) { ParsedSpells(buf, crc, e); }
    if Spells(buf, e, crc) { SpellsParsed(buf, crc, e); }
  }

  lemma ParsedSpells(buf: Bytes, crc: Checksum, e: Entry)
    requires |buf| == ENTRY_SIZE && ParseEntry(buf, crc) == Some(e)
    ensures Spells(buf, e, crc)
  {
    hide Put, Get, UpToZero;
    WordsRead(buf);
    GetPut(buf[..4]); GetPut(buf[4..8]); GetPut(buf[268..276]); GetPut(buf[276..278]); GetPut(buf[4374..]);
    var name := buf[8..268];
    assert name[..|e.name|] == buf[8..8 + |e.name|];
    StopsBefore(name);
  }

  lemma {:induction false} StopsBefore(s: Bytes)
    requires s != [] && s[|s| - 1] == 0
    ensures |UpToZero(s)| < |s|
  {
    if s[0] != 0 { StopsBefore(s[1..]); }
  }

  lemma SpellsParsed(buf: Bytes, crc: Checksum, e: Entry)
    requires Spells(buf, e, crc)
    ensures ParseEntry(buf, crc) == Some(e)
  {
    hide Put, Get, UpToZero, Pow256;
    WordWidth();
    PutGet(WAL_MAGIC + Code(e.kind), 4);
    PutGet(e.transID, 4);
    PutGet(e.addr, 8);
    PutGet(|e.payload|, 2);
    PutGet(crc(buf[..4374]), 4);
    var name := buf[8..268];
    assert name == e.name + name[|e.name|..];
    UpToZeroStops(e.name, name[|e.name|..]);
  }

  // ---- the whole log

  function Marker(count: nat, transID: Word, crc: Checksum): (r: Bytes)
    ensures |r| == MARKER_SIZE
  {
    var fields := Put(COMMIT_TAG, 4) + Put(count, 4) + Put(transID, 4);
    fields + Put(crc(fields), 4)
  }

  /** Entries of one transaction. */
  predicate Together(entries: seq<Entry>, transID: Word) {
    |entries| < WORD && forall i :: 0 <= i < |entries| ==> Legal(entries[i]) && entries[i].transID == transID
  }

  lemma OneLonger(n: nat)
    ensures (n + 1) * ENTRY_SIZE == n * ENTRY_SIZE + ENTRY_SIZE
  {
  }

  function Logged(entries: seq<Entry>, crc: Checksum): (r: Bytes)
    requires forall i :: 0 <= i < |entries| ==> Legal(entries[i])
    ensures |r| == |entries| * ENTRY_SIZE
  {
    if entries == [] then [] else OneLonger(|entries| - 1); Logged(entries[..|entries| - 1], crc) + SerializeEntry(Last(entries), crc)
  }

  /** What a committed transaction's log holds. */
  function Image(entries: seq<Entry>, transID: Word, crc: Checksum): (r: Bytes)
    requires Together(entries, transID)
    ensures |r| == |entries| * ENTRY_SIZE + MARKER_SIZE
  {
    Logged(entries, crc) + Marker(|entries|, transID, crc)
  }

  /** Whether a log is committed: the number of its entries and their transaction, if a valid marker ends it and the rest of
      it is exactly that many entries long. */
  function CheckCommitted(log: Bytes, crc: Checksum): Option<(nat, Word)> {
    var size := |log|;
    if size < MARKER_SIZE || (size - MARKER_SIZE) % ENTRY_SIZE != 0 then None
    else
      var marker := log[size - MARKER_SIZE..];
      if Get(marker[..4]) != COMMIT_TAG then None
      else if Get(marker[12..]) != crc(marker[..12]) then None
      else if Get(marker[4..8]) != ((size - MARKER_SIZE) / ENTRY_SIZE) % WORD then None
      else MarkerWords(marker); Some((Get(marker[4..8]), Get(marker[8..12])))
  }

  lemma MarkerWords(marker: Bytes)
    requires |marker| == MARKER_SIZE
    ensures Get(marker[8..12]) < WORD
  {
    WordWidth();
    GetBound(marker[8..12]);
  }

  lemma FrontSlice(a: Bytes, b: Bytes, i: nat, j: nat)
    requires i <= j <= |a|
    ensures (a + b)[i..j] == a[i..j]
  {
  }

  /** The bytes of entry i. */
  lemma {:induction false} EntryAt(entries: seq<Entry>, crc: Checksum, i: nat)
    requires i < |entries| && forall j :: 0 <= j < |entries| ==> Legal(entries[j])
    ensures 0 <= i * ENTRY_SIZE <= (i + 1) * ENTRY_SIZE <= |Logged(entries, crc)|
    ensures Logged(entries, crc)[i * ENTRY_SIZE..(i + 1) * ENTRY_SIZE] == SerializeEntry(entries[i], crc)
  {
    hide SerializeEntry, Legal;
    var n := |entries| - 1;
    var front, entry := Logged(entries[..n], crc), SerializeEntry(entries[n], crc);
    OneLonger(n);
    OneLonger(i);
    assert Logged(entries, crc) == front + entry && |front| == n * ENTRY_SIZE;
    if i < n {
      EntryAt(entries[..n], crc, i);
      FrontSlice(front, entry, i * ENTRY_SIZE, (i + 1) * ENTRY_SIZE);
    }
  }

  lemma MarkerFields(count: nat, transID: Word, crc: Checksum)
    requires count < WORD
    ensures var m := Marker(count, transID, crc);
            Get(m[..4]) == COMMIT_TAG && Get(m[4..8]) == count && Get(m[8..12]) == transID && Get(m[12..]) == crc(m[..12])
  {
    hide Put, Get, Pow256;
    WordWidth();
    PutGet(COMMIT_TAG, 4); PutGet(count, 4); PutGet(transID, 4);
    var fields := Put(COMMIT_TAG, 4) + Put(count, 4) + Put(transID, 4);
    PutGet(crc(fields), 4);
    var m := Marker(count, transID, crc);
    assert m[..4] == Put(COMMIT_TAG, 4) && m[4..8] == Put(count, 4) && m[8..12] == Put(transID, 4);
    assert m[..12] == fields && m[12..] == Put(crc(fields), 4);
  }

  /** A log that reached the disk whole is accepted. */
  lemma AcceptsWhole(entries: seq<Entry>, transID: Word, crc: Checksum)
    requires Together(entries, transID)
    ensures CheckCommitted(Image(entries, transID, crc), crc) == Some((|entries|, transID))
  {
    hide Logged, Marker, Get;
    var log := Image(entries, transID, crc);
    assert log[|log| - MARKER_SIZE..] == Marker(|entries|, transID, crc);
    MarkerFields(|entries|, transID, crc);
  }

  ghost predicate Sealed(log: Bytes, body: Bytes, m: nat, id: Word, crc: Checksum) {
    |body| == m * ENTRY_SIZE && log == body + Marker(m % WORD, id, crc)
  }

  /** A log is accepted exactly if it is so many entries long, and the marker for that many, with its checksum, follows them. The
      marker has room for the count modulo 2^32. */
  lemma AcceptsSealed(log: Bytes, crc: Checksum, n: nat, id: Word)
    ensures CheckCommitted(log, crc) == Some((n, id)) <==> exists body: Bytes, m: nat :: Sealed(log, body, m, id, crc) && m % WORD == n
  {
    hide CheckCommitted, Sealed;
    if CheckCommitted(log, crc) == Some((n, id)) { var body, m := AcceptedSealed(log, crc, n, id); }
    if exists body: Bytes, m: nat :: Sealed(log, body, m, id, crc) && m % WORD == n {
      var body: Bytes, m: nat :| Sealed(log, body, m, id, crc) && m % WORD == n;
      SealedAccepted(log, body, m, id, crc);
    }
  }

  ghost predicate SealedBy(log: Bytes, body: Bytes, n: nat, id: Word, crc: Checksum) {
    |body| == n * ENTRY_SIZE && log == body + Marker(n, id, crc)
  }

  /** Of logs of fewer than 2^32 entries it is exactly that many. */
  lemma AcceptsExactly(log: Bytes, crc: Checksum, n: nat, id: Word)
    requires |log| < WORD * ENTRY_SIZE + MARKER_SIZE
    ensures CheckCommitted(log, crc) == Some((n, id)) <==> exists body: Bytes :: SealedBy(log, body, n, id, crc)
  {
    hide CheckCommitted, Marker;
    if CheckCommitted(log, crc) == Some((n, id)) {
      var body, m := AcceptedSealed(log, crc, n, id);
      assert m < WORD && m % WORD == m;
      assert SealedBy(log, body, n, id, crc);
    }
    if exists body: Bytes :: SealedBy(log, body, n, id, crc) {
      var body: Bytes :| SealedBy(log, body, n, id, crc);
      assert n < WORD && n % WORD == n;
      SealedAccepted(log, body, n, id, crc);
    }
  }

  lemma AcceptedSealed(log: Bytes, crc: Checksum, n: nat, id: Word) returns (body: Bytes, m: nat)
    requires CheckCommitted(log, crc) == Some((n, id))
    ensures Sealed(log, body, m, id, crc) && m % WORD == n
  {
    hide Put, Get;
    var size := |log|;
    var marker := log[size - MARKER_SIZE..];
    body, m := log[..size - MARKER_SIZE], (size - MARKER_SIZE) / ENTRY_SIZE;
    GetPut(marker[..4]); GetPut(marker[4..8]); GetPut(marker[8..12]); GetPut(marker[12..]);
    assert marker[..12] == marker[..4] + marker[4..8] + marker[8..12] && marker == marker[..12] + marker[12..];
    assert log == body + marker;
  }

  lemma SealedAccepted(log: Bytes, body: Bytes, m: nat, id: Word, crc: Checksum)
    requires Sealed(log, body, m, id, crc)
    ensures CheckCommitted(log, crc) == Some((m % WORD, id))
  {
    hide Marker, Get;
    MarkerFields(m % WORD, id, crc);
    assert log[|log| - MARKER_SIZE..] == Marker(m % WORD, id, crc);
  }

  /** A committed log whose checksum isn't what was written is rejected, whatever the checksum is. */
  lemma RejectsDamaged(entries: seq<Entry>, transID: Word, crc: Checksum, log: Bytes)
    requires Together(entries, transID) && |log| == |Image(entries, transID, crc)| && log != Image(entries, transID, crc)
    requires log[..|log| - 4] == Image(entries, transID, crc)[..|log| - 4]
    ensures CheckCommitted(log, crc) == None
  {
    hide Logged, Get, Put;
    var image := Image(entries, transID, crc);
    var marker, other := log[|log| - MARKER_SIZE..], image[|log| - MARKER_SIZE..];
    assert other == Marker(|entries|, transID, crc);
    assert other[12..] == Put(crc(other[..12]), 4);
    assert marker[..12] == log[..|log| - 4][|log| - MARKER_SIZE..] == other[..12];
    assert log == log[..|log| - 4] + marker[12..] && image == image[..|log| - 4] + other[12..];
    NotNumber(marker[12..], crc(marker[..12]));
  }

  lemma NotNumber(four: Bytes, n: nat)
    requires |four| == 4 && four != Put(n, 4)
    ensures Get(four) != n
  {
    GetPut(four);
  }

  lemma Quotient(n: nat, m: nat)
    requires n % ENTRY_SIZE == 0 && n < m * ENTRY_SIZE
    ensures n == n / ENTRY_SIZE * ENTRY_SIZE && n / ENTRY_SIZE < m
  {
  }

  lemma MagicIsNoTag(e: Entry, crc: Checksum)
    requires Legal(e)
    ensures Get(SerializeEntry(e, crc)[..4]) == WAL_MAGIC + Code(e.kind) != COMMIT_TAG
  {
    Fields(e, crc);
    WordWidth();
    PutGet(WAL_MAGIC + Code(e.kind), 4);
  }

  /** And one that didn't is not, at whatever byte it stops and whatever the checksum is: where the marker would be there is
      the start of an entry, whose magic is never the commit tag. */
  lemma RejectsPrefix(entries: seq<Entry>, transID: Word, crc: Checksum, log: Bytes)
    requires Together(entries, transID) && log < Image(entries, transID, crc)
    ensures CheckCommitted(log, crc) == None
  {
    hide SerializeEntry, Logged, Marker, Get, Put, Image;
    var size := |log|;
    if size >= MARKER_SIZE && (size - MARKER_SIZE) % ENTRY_SIZE == 0 {
      Quotient(size - MARKER_SIZE, |entries|);
      var i := (size - MARKER_SIZE) / ENTRY_SIZE;
      StartsEntry(entries, transID, crc, log, i);
      MagicIsNoTag(entries[i], crc);
    }
  }

  lemma StartsEntry(entries: seq<Entry>, transID: Word, crc: Checksum, log: Bytes, i: nat)
    requires Together(entries, transID) && log < Image(entries, transID, crc) && i < |entries| && |log| == i * ENTRY_SIZE + MARKER_SIZE
    ensures log[|log| - MARKER_SIZE..][..4] == SerializeEntry(entries[i], crc)[..4]
  {
    hide SerializeEntry, Marker, Logged;
    EntryAt(entries, crc, i);
    SameFront(log, Logged(entries, crc), Image(entries, transID, crc), i * ENTRY_SIZE, (i + 1) * ENTRY_SIZE);
  }

  lemma SameFront(a: Bytes, b: Bytes, w: Bytes, at: nat, end: nat)
    requires a <= w && b <= w && at + 4 <= |a| && at + 4 <= end <= |b|
    ensures a[at..][..4] == b[at..end][..4]
  {
    assert a[at..][..4] == w[at..at + 4] && b[at..end][..4] == w[at..at + 4];
  }

  /** log is what a crash has left of an image: each byte it is long enough for is there, or still zero, and the bytes of the
      marker's tag aren't all there. */
  ghost predicate Ragged(log: Bytes, image: Bytes) {
    && |log| <= |image| && (forall i :: 0 <= i < |log| ==> log[i] == image[i] || log[i] == 0)
    && (|log| == |image| >= MARKER_SIZE ==> log[|log| - MARKER_SIZE..][..4] != image[|log| - MARKER_SIZE..][..4])
  }

  lemma FirstByte(n: nat)
    requires n < WORD
    ensures Put(n, 4)[0] == n / 0x100_0000
  {
    assert Put(n / 0x100_0000, 1) == Put(n / 0x1_0000_0000, 0) + [n / 0x100_0000 % 256];
    assert Put(n / 0x1_0000, 2) == Put(n / 0x1_0000 / 256, 1) + [n / 0x1_0000 % 256];
    assert Put(n / 256, 3) == Put(n / 256 / 256, 2) + [n / 256 % 256];
  }

  lemma EntryStart(e: Entry, crc: Checksum)
    requires Legal(e)
    ensures SerializeEntry(e, crc)[0] == 0x10 && Put(COMMIT_TAG, 4)[0] == 0x43
  {
    FirstByte(WAL_MAGIC + Code(e.kind));
    FirstByte(COMMIT_TAG);
    assert SerializeEntry(e, crc)[0] == Put(WAL_MAGIC + Code(e.kind), 4)[0];
  }

  /** Nor is a log that only some of the bytes of have reached the disk, in whatever order, accepted: again whatever the checksum is. */
  lemma RejectsTorn(entries: seq<Entry>, transID: Word, crc: Checksum, log: Bytes)
    requires Together(entries, transID) && Ragged(log, Image(entries, transID, crc))
    ensures CheckCommitted(log, crc) == None
  {
    hide SerializeEntry, Logged, Get, Put, Image, Legal;
    var size := |log|;
    if size >= MARKER_SIZE && (size - MARKER_SIZE) % ENTRY_SIZE == 0 {
      if size < |Image(entries, transID, crc)| {
        Quotient(size - MARKER_SIZE, |entries|);
        var i := (size - MARKER_SIZE) / ENTRY_SIZE;
        ImageAt(entries, transID, crc, i);
        EntryStart(entries[i], crc);
        if log[size - MARKER_SIZE..][..4] != Put(COMMIT_TAG, 4) { NotNumber(log[size - MARKER_SIZE..][..4], COMMIT_TAG); }
      } else {
        ImageTag(entries, transID, crc);
        if log[size - MARKER_SIZE..][..4] != Put(COMMIT_TAG, 4) { NotNumber(log[size - MARKER_SIZE..][..4], COMMIT_TAG); }
      }
    }
  }

  lemma ImageAt(entries: seq<Entry>, transID: Word, crc: Checksum, i: nat)
    requires Together(entries, transID) && i < |entries|
    ensures i * ENTRY_SIZE < |Image(entries, transID, crc)| && Image(entries, transID, crc)[i * ENTRY_SIZE] == SerializeEntry(entries[i], crc)[0]
  {
    hide SerializeEntry, Marker;
    EntryAt(entries, crc, i);
    assert Logged(entries, crc)[i * ENTRY_SIZE..(i + 1) * ENTRY_SIZE][0] == SerializeEntry(entries[i], crc)[0];
  }

  lemma ImageTag(entries: seq<Entry>, transID: Word, crc: Checksum)
    requires Together(entries, transID)
    ensures var image := Image(entries, transID, crc); image[|image| - MARKER_SIZE..][..4] == Put(COMMIT_TAG, 4)
  {
    hide Logged, Put;
    var image := Image(entries, transID, crc);
    assert image[|image| - MARKER_SIZE..] == Marker(|entries|, transID, crc);
  }
}
