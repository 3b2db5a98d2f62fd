/** The checksum every layer uses: a fold of a byte step, seeded with the checksum so far. */
module Crc {
  import opened Bytes

  /** How one byte advances the checksum. Every result of this project holds for every step. */
  type Step = (u32, byte) -> u32

  function Crc32(step: Step, seed: u32, data: seq<byte>): u32
    decreases |data|
  {
    if data == [] then seed else Crc32(step, step(seed, data[0]), data[1..])
  }

  /** A checksum accumulated piece by piece equals the checksum of the whole. */
  lemma {:induction false} Crc32Concat(step: Step, seed: u32, a: seq<byte>, b: seq<byte>)
    ensures Crc32(step, seed, a + b) == Crc32(step, Crc32(step, seed, a), b)
    decreases |a|
  {
    if a == [] {
      assert a + b == b;
    } else {
      assert (a + b)[1..] == a[1..] + b;
      Crc32Concat(step, step(seed, a[0]), a[1..], b);
    }
  }

  /** Neither a difference in the checksum so far nor one in the byte is lost by a step. */
  ghost predicate Injective(step: Step) {
    && (forall s: u32, t: u32, b: byte :: step(s, b) == step(t, b) ==> s == t)
    && (forall s: u32, b: byte, d: byte :: step(s, b) == step(s, d) ==> b == d)
  }

  lemma {:induction false} SeedMatters(step: Step, s: u32, t: u32, data: seq<byte>)
    requires Injective(step) && s != t
    ensures Crc32(step, s, data) != Crc32(step, t, data)
    decreases |data|
  {
    if data == [] {
    } else {
      SeedMatters(step, step(s, data[0]), step(t, data[0]), data[1..]);
    }
  }

  /** Then a checksum detects every change of one byte. */
  lemma {:induction false} OneByteDetected(step: Step, seed: u32, data: seq<byte>, k: nat, x: byte)
    requires Injective(step) && k < |data| && x != data[k]
    ensures Crc32(step, seed, data[k := x]) != Crc32(step, seed, data)
    decreases |data|
  {
    var changed := data[k := x];
    if k == 0 {
      assert changed[1..] == data[1..];
      SeedMatters(step, step(seed, x), step(seed, data[0]), data[1..]);
    } else {
      assert changed[1..] == data[1..][k - 1 := x];
      OneByteDetected(step, step(seed, data[0]), data[1..], k - 1, x);
    }
  }

  /** There are such steps. */
  lemma SumIsInjective(step: Step)
    requires forall s: u32, b: byte :: step(s, b) == if s + b > U32_MAX then s + b - 0x1_0000_0000 else s + b
    ensures Injective(step)
  {
  }
}
