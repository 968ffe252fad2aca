// Ordering keys, addresses and the sequence operations the storage engine's arrays are shifted by.
module Base {

  /** One more than the largest ordering key: a text key is 24 zero-padded bytes compared as unsigned
      bytes, an integer key is 8. Either is ordered as the big-endian number its bytes spell. */
  const KEY_LIMIT: int := 0x1_0000_0000_0000_0000_0000_0000_0000_0000_0000_0000_0000_0000

  type Key = k: int | 0 <= k < KEY_LIMIT

  /** A byte offset in a table file. 0 is never a node or a page: the file's header is there. */
  type Addr = nat

  datatype Option<T> = None | Some(value: T)

  predicate Sorted(s: seq<int>) {
    forall i, j :: 0 <= i < j < |s| ==> s[i] < s[j]
  }

  function InsertAt<T>(s: seq<T>, i: nat, x: T): (r: seq<T>)
    requires i <= |s|
    ensures |r| == |s| + 1
    ensures forall j :: 0 <= j < |r| ==> r[j] == if j < i then s[j] else if j == i then x else s[j - 1]
  {
    s[..i] + [x] + s[i..]
  }

  function RemoveAt<T>(s: seq<T>, i: nat): (r: seq<T>)
    requires i < |s|
    ensures |r| == |s| - 1
    ensures forall j :: 0 <= j < |r| ==> r[j] == if j < i then s[j] else s[j + 1]
  {
    s[..i] + s[i + 1..]
  }

  function Last<T>(s: seq<T>): T
    requires |s| > 0
  {
    s[|s| - 1]
  }

  lemma InsertMembers<T>(s: seq<T>, i: nat, x: T)
    requires i <= |s|
    ensures forall y {:trigger y in s} {:trigger y in InsertAt(s, i, x)} :: y in InsertAt(s, i, x) <==> y in s || y == x
  {
    var r := InsertAt(s, i, x);
    hide InsertAt;
    forall y ensures y in r <==> y in s || y == x {
      if y in r { var j :| 0 <= j < |r| && r[j] == y; }
      if y in s {
        var j :| 0 <= j < |s| && s[j] == y;
        assert r[if j < i then j else j + 1] == y;
      }
      assert r[i] == x;
    }
  }

  /** Moving one element across the middle of two joined sequences. */
  lemma TakeFirst<T>(a: seq<T>, b: seq<T>)
    requires |b| > 0
    ensures (a + b)[..|a| + 1] == a + [b[0]] && (a + b)[|a| + 1..] == b[1..]
  {
  }

  lemma GiveLast<T>(a: seq<T>, b: seq<T>)
    requires |a| > 0
    ensures (a + b)[..|a| - 1] == a[..|a| - 1] && (a + b)[|a| - 1..] == [Last(a)] + b
  {
  }

  /** The same across an element between them, which changes places with the one that moves. */
  lemma TakeAcross<T>(a: seq<T>, x: T, b: seq<T>)
    requires |b| > 0
    ensures var k := a + [x] + b; k[..|a| + 1] == a + [x] && k[|a| + 2..] == b[1..] && k[|a| + 1] == b[0]
  {
  }

  lemma GiveAcross<T>(a: seq<T>, x: T, b: seq<T>)
    requires |a| > 0
    ensures var k := a + [x] + b; k[..|a| - 1] == a[..|a| - 1] && k[|a|..] == [x] + b && k[|a| - 1] == a[|a| - 1]
  {
  }
}
