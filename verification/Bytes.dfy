/** Bytes, fixed-width unsigned integers, little-endian words and in-place overwriting of a byte sequence. */
module Bytes {
  type byte = b: int | 0 <= b < 0x100
  type u16 = x: int | 0 <= x < 0x1_0000
  type u32 = x: int | 0 <= x < 0x1_0000_0000
  type u64 = x: int | 0 <= x < 0x1_0000_0000_0000_0000

  const U32_MAX: int := 0xFFFF_FFFF

  datatype Option<+T> = None | Some(value: T)

  /** Addition of one and subtraction of one on a `uint32_t`, with wrap-around. */
  function Inc32(x: u32): u32 {
    if x == U32_MAX then 0 else x + 1
  }

  function Dec32(x: u32): u32 {
    if x == 0 then U32_MAX else x - 1
  }

  function Pow256(w: nat): (p: nat)
    ensures p > 0
  {
    if w == 0 then 1 else 0x100 * Pow256(w - 1)
  }

  /** The `w` low bytes of `n`, least significant first: what `memcpy` of a packed integer writes. */
  function Encode(n: nat, w: nat): (bs: seq<byte>)
    ensures |bs| == w
  {
    if w == 0 then [] else [n % 0x100] + Encode(n / 0x100, w - 1)
  }

  /** The integer a little-endian byte string denotes: what `memcpy` into a packed integer reads. */
  function Decode(bs: seq<byte>): (n: nat)
    ensures n < Pow256(|bs|)
  {
    if bs == [] then 0 else bs[0] + 0x100 * Decode(bs[1..])
  }

  function Decode16(bs: seq<byte>): u16
    requires |bs| == 2
  {
    Decode(bs)
  }

  function Decode32(bs: seq<byte>): u32
    requires |bs| == 4
  {
    Decode(bs)
  }

  function Decode64(bs: seq<byte>): u64
    requires |bs| == 8
  {
    Decode(bs)
  }

  lemma {:induction false} DecodeEncode(n: nat, w: nat)
    requires n < Pow256(w)
    ensures Decode(Encode(n, w)) == n
  {
    if w == 0 {
    } else {
      DecodeEncode(n / 0x100, w - 1);
      assert Encode(n, w)[1..] == Encode(n / 0x100, w - 1);
    }
  }

  lemma {:induction false} EncodeDecode(bs: seq<byte>)
    ensures Encode(Decode(bs), |bs|) == bs
  {
    if bs == [] {
    } else {
      EncodeDecode(bs[1..]);
      assert Decode(bs) % 0x100 == bs[0] && Decode(bs) / 0x100 == Decode(bs[1..]);
    }
  }

  /** Different bytes are different integers. */
  lemma DecodeInjective(a: seq<byte>, b: seq<byte>)
    requires |a| == |b| && a != b
    ensures Decode(a) != Decode(b)
  {
    EncodeDecode(a);
    EncodeDecode(b);
  }

  /** `s` with the bytes at `off` overwritten by `d`: one `memcpy` into a buffer. */
  function Splice(s: seq<byte>, off: nat, d: seq<byte>): (r: seq<byte>)
    requires off + |d| <= |s|
    ensures |r| == |s|
    ensures forall i :: 0 <= i < |r| ==> r[i] == if off <= i < off + |d| then d[i - off] else s[i]
  {
    seq(|s|, i requires 0 <= i < |s| => if off <= i < off + |d| then d[i - off] else s[i])
  }

  /** Overwriting inside a window of `s` is overwriting that window. */
  lemma SpliceWindow(s: seq<byte>, base: nat, n: nat, off: nat, d: seq<byte>)
    requires base + n <= |s| && off + |d| <= n
    ensures Splice(s, base + off, d)[base..base + n] == Splice(s[base..base + n], off, d)
  {
  }

  lemma SliceOfSlice(s: seq<byte>, a: nat, b: nat, c: nat, d: nat)
    requires a + c <= a + d <= b <= |s|
    ensures s[a..b][c..d] == s[a + c..a + d]
  {
    forall k | 0 <= k < d - c
      ensures s[a..b][c..d][k] == s[a + c..a + d][k]
    {
      assert s[a..b][c + k] == s[a + c + k];
    }
  }

  lemma JoinSlices(s: seq<byte>, a: nat, b: nat, c: nat)
    requires a <= b <= c <= |s|
    ensures s[a..b] + s[b..c] == s[a..c]
  {
  }

  function Repeat(b: byte, n: nat): (r: seq<byte>)
    ensures |r| == n && forall i :: 0 <= i < n ==> r[i] == b
  {
    seq(n, i => b)
  }

  /** The first `k` bytes erased to 0xFF: how far an erase has come. */
  function EraseTo(s: seq<byte>, k: nat): (r: seq<byte>)
    requires k <= |s|
    ensures |r| == |s|
    ensures forall i :: 0 <= i < |s| ==> r[i] == if i < k then 0xFF else s[i]
  {
    Splice(s, 0, Repeat(0xFF, k))
  }
}
