// Integers as the bytes they are written as, most significant first.
module Words {
  import opened Base

  type Byte = b: int | 0 <= b < 256

  type Bytes = seq<Byte>

  function Pow256(width: nat): (n: nat)
    ensures n > 0
  {
    if width == 0 then 1 else 256 * Pow256(width - 1)
  }

  /** n's lowest width bytes. */
  function Put(n: nat, width: nat): (s: Bytes)
    ensures |s| == width
  {
    if width == 0 then [] else Put(n / 256, width - 1) + [n % 256]
  }

  function Get(s: Bytes): nat {
    if s == [] then 0 else 256 * Get(s[..|s| - 1]) + Last(s)
  }

  lemma {:induction false} PutGet(n: nat, width: nat)
    requires n < Pow256(width)
    ensures Get(Put(n, width)) == n
  {
    if width > 0 {
      PutGet(n / 256, width - 1);
      assert Put(n, width)[..width - 1] == Put(n / 256, width - 1);
    }
  }

  lemma {:induction false} GetBound(s: Bytes)
    ensures Get(s) < Pow256(|s|)
  {
    if s != [] { GetBound(s[..|s| - 1]); }
  }

  /** Bytes that are read back as a number are the bytes that number is written as. */
  lemma {:induction false} GetPut(s: Bytes)
    ensures Put(Get(s), |s|) == s
  {
    if s != [] {
      GetPut(s[..|s| - 1]);
      assert s == s[..|s| - 1] + [Last(s)];
    }
  }

  const WORD: nat := 0x1_0000_0000

  type Word = n: nat | n < WORD

  lemma WordWidth()
    ensures Pow256(2) == 0x1_0000 && Pow256(4) == WORD && Pow256(8) == WORD * WORD
  {
    assert Pow256(0) == 1 && Pow256(1) == 256 && Pow256(2) == 65536;
    assert Pow256(3) == 0x100_0000 && Pow256(4) == WORD;
    assert Pow256(5) == 256 * WORD && Pow256(6) == 65536 * WORD && Pow256(7) == 0x100_0000 * WORD;
  }

  function Zeros(n: nat): (s: Bytes)
    ensures |s| == n && forall i :: 0 <= i < n ==> s[i] == 0
  {
    seq(n, i => 0)
  }
}
