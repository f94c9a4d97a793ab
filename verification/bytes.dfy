/**
  Bytes, digests and fixed-width integer encodings, with the facts every encoder of the
  rollup relies on: a fixed-width encoding can be read back, and parts of fixed length can
  be told apart after concatenation.
 */
module Bytes {
  type byte = x: int | 0 <= x < 256
  type u32 = x: int | 0 <= x < 0x1_0000_0000
  type u64 = x: int | 0 <= x < 0x1_0000_0000_0000_0000

  const TWO_TO_THE_32: int := 0x1_0000_0000
  const TWO_TO_THE_64: int := 0x1_0000_0000_0000_0000

  /** A 32-byte hash value: `H256`, `bytes32` and `hashlib.sha256(..).digest()` alike. */
  type Digest = s: seq<byte> | |s| == 32 witness seq(32, _ => 0)

  const ZERO: Digest := Le(0, 32)

  /** A hash function. Nothing is assumed about it beyond what a lemma asks for. */
  type Hash = seq<byte> -> Digest

  /** `h` does not collide on the finitely many preimages in `xs`. */
  ghost predicate CollisionFreeOn<X, Y(!new)>(h: X -> Y, xs: set<X>) {
    forall x, y :: x in xs && y in xs && h(x) == h(y) ==> x == y
  }

  /** `h` never produces the all-zero digest on `xs`. */
  ghost predicate NonZeroOn(h: Hash, xs: set<seq<byte>>) {
    forall x :: x in xs ==> h(x) != ZERO
  }

  function Pow256(k: nat): nat {
    if k == 0 then 1 else 256 * Pow256(k - 1)
  }

  /** `to_le_bytes` at width `k`. */
  function Le(n: nat, k: nat): (bs: seq<byte>)
    ensures |bs| == k
  {
    if k == 0 then [] else [n % 256] + Le(n / 256, k - 1)
  }

  /** `to_be_bytes` at width `k`. */
  function Be(n: nat, k: nat): (bs: seq<byte>)
    ensures |bs| == k
  {
    if k == 0 then [] else Be(n / 256, k - 1) + [n % 256]
  }

  function FromLe(bs: seq<byte>): nat {
    if bs == [] then 0 else bs[0] + 256 * FromLe(bs[1..])
  }

  function FromBe(bs: seq<byte>): nat {
    if bs == [] then 0 else 256 * FromBe(bs[..|bs| - 1]) + bs[|bs| - 1]
  }

  lemma {:induction false} LeRoundTrip(n: nat, k: nat)
    requires n < Pow256(k)
    ensures FromLe(Le(n, k)) == n
  {
    if k == 0 {
    } else {
      LeRoundTrip(n / 256, k - 1);
      assert Le(n, k)[1..] == Le(n / 256, k - 1);
    }
  }

  lemma {:induction false} BeRoundTrip(n: nat, k: nat)
    requires n < Pow256(k)
    ensures FromBe(Be(n, k)) == n
  {
    if k == 0 {
    } else {
      BeRoundTrip(n / 256, k - 1);
      assert Be(n, k)[..k - 1] == Be(n / 256, k - 1);
    }
  }

  lemma {:induction false} BeOfFromBe(bs: seq<byte>)
    ensures Be(FromBe(bs), |bs|) == bs
    ensures FromBe(bs) < Pow256(|bs|)
  {
    if bs == [] {
    } else {
      var front := bs[..|bs| - 1];
      BeOfFromBe(front);
      assert FromBe(bs) / 256 == FromBe(front);
      assert bs == front + [bs[|bs| - 1]];
    }
  }

  lemma Widths()
    ensures Pow256(2) == 0x1_0000
    ensures Pow256(4) == TWO_TO_THE_32
    ensures Pow256(8) == TWO_TO_THE_64
  {
    assert Pow256(2) == 256 * 256;
    assert Pow256(4) == 256 * (256 * Pow256(2));
    assert Pow256(6) == 256 * (256 * Pow256(4));
  }

  /** Two in-range integers with the same 8-byte little-endian form are equal. */
  lemma Le8Injective(a: u64, b: u64)
    requires Le(a, 8) == Le(b, 8)
    ensures a == b
  {
    Widths();
    LeRoundTrip(a, 8);
    LeRoundTrip(b, 8);
  }

  lemma WrapShift(a: int, b: int)
    ensures (a % TWO_TO_THE_64 + b) % TWO_TO_THE_64 == (a + b) % TWO_TO_THE_64
  {
  }

  /** A total that fits a word has lost nothing to carries. */
  lemma NoCarry(total: nat, carries: nat, expected: nat)
    requires total + TWO_TO_THE_64 * carries == expected < TWO_TO_THE_64
    ensures total == expected && carries == 0
  {
  }

  /** Two counters kept modulo 2^64 coincide when they differ by a multiple of it. */
  lemma WrapEqual(x: nat, y: nat, a: nat, b: nat)
    requires x == a % TWO_TO_THE_64 && y == b % TWO_TO_THE_64 && a < b
    ensures x == y <==> (b - a) % TWO_TO_THE_64 == 0
    ensures b - a < TWO_TO_THE_64 ==> x != y
  {
  }
}
