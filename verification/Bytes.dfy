/** Bytes and little-endian numbers. */
module Bytes {
  import opened Common

  type byte = x: int | 0 <= x < 0x100

  function FromLe(s: seq<byte>): nat {
    if s == [] then 0 else s[0] as nat + 0x100 * FromLe(s[1..])
  }

  function ToLe(n: nat, len: nat): (s: seq<byte>)
    ensures |s| == len
  {
    if len == 0 then [] else [n % 0x100] + ToLe(n / 0x100, len - 1)
  }

  function Limit(len: nat): (p: nat)
    ensures p > 0
  {
    if len == 0 then 1 else 0x100 * Limit(len - 1)
  }

  /** Bytes written in little-endian order read back as the number, if it fits. */
  lemma {:induction false} FromToLe(n: nat, len: nat)
    requires n < Limit(len)
    ensures FromLe(ToLe(n, len)) == n
  {
    if len > 0 {
      assert ToLe(n, len)[1..] == ToLe(n / 0x100, len - 1);
      FromToLe(n / 0x100, len - 1);
    }
  }

  /** Bytes are the little-endian form of the number they read as. */
  lemma {:induction false} ToFromLe(s: seq<byte>)
    ensures FromLe(s) < Limit(|s|)
    ensures ToLe(FromLe(s), |s|) == s
  {
    if s != [] {
      ToFromLe(s[1..]);
      assert FromLe(s) / 0x100 == FromLe(s[1..]);
    }
  }

  lemma LimitIsU32()
    ensures Limit(4) == U32
  {
    assert Limit(1) == 0x100 && Limit(2) == 0x1_0000 && Limit(3) == 0x100_0000;
  }

  /** The 32-bit word at a byte offset. */
  function Word(s: seq<byte>, off: nat): (w: nat)
    requires off + 4 <= |s|
    ensures w < U32
  {
    LimitIsU32();
    ToFromLe(s[off..off + 4]);
    FromLe(s[off..off + 4])
  }

  function Le32(n: nat): (s: seq<byte>)
    ensures |s| == 4
  {
    ToLe(n, 4)
  }

  lemma WordOfLe32(s: seq<byte>, off: nat, n: nat)
    requires n < U32 && off + 4 <= |s| && s[off..off + 4] == Le32(n)
    ensures Word(s, off) == n
  {
    LimitIsU32();
    FromToLe(n, 4);
  }

  lemma Le32OfWord(s: seq<byte>, off: nat)
    requires off + 4 <= |s|
    ensures Le32(Word(s, off)) == s[off..off + 4]
  {
    ToFromLe(s[off..off + 4]);
  }

  lemma SliceOfSlice(s: seq<byte>, a: nat, b: nat, c: nat, d: nat)
    requires a <= b <= |s| && c <= d <= b - a
    ensures s[a..b][c..d] == s[a + c..a + d]
  {
    assert forall k :: c <= k < d ==> s[a..b][k] == s[a + k];
  }
}
