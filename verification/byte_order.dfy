/**
  Byte-order reversal on words (solidity/contracts/risc0/Util.sol) and the bytes of words.
 */
module ByteOrder {
  import opened Bytes
  import opened MachineBytes

  /** Five exchanges of neighbours: bytes, then groups of 2, 4, 8 and 16 bytes. */
  function ReverseByteOrderUint256(input: bv256): bv256 {
    var v := ((input & 0xFF00FF00FF00FF00FF00FF00FF00FF00FF00FF00FF00FF00FF00FF00FF00FF00) >> 8)
             | ((input & 0x00FF00FF00FF00FF00FF00FF00FF00FF00FF00FF00FF00FF00FF00FF00FF00FF) << 8);
    var v := ((v & 0xFFFF0000FFFF0000FFFF0000FFFF0000FFFF0000FFFF0000FFFF0000FFFF0000) >> 16)
             | ((v & 0x0000FFFF0000FFFF0000FFFF0000FFFF0000FFFF0000FFFF0000FFFF0000FFFF) << 16);
    var v := ((v & 0xFFFFFFFF00000000FFFFFFFF00000000FFFFFFFF00000000FFFFFFFF00000000) >> 32)
             | ((v & 0x00000000FFFFFFFF00000000FFFFFFFF00000000FFFFFFFF00000000FFFFFFFF) << 32);
    var v := ((v & 0xFFFFFFFFFFFFFFFF0000000000000000FFFFFFFFFFFFFFFF0000000000000000) >> 64)
             | ((v & 0x0000000000000000FFFFFFFFFFFFFFFF0000000000000000FFFFFFFFFFFFFFFF) << 64);
    (v >> 128) | (v << 128)
  }

  function ReverseByteOrderUint32(input: bv32): bv32 {
    var v := ((input & 0xFF00FF00) >> 8) | ((input & 0x00FF00FF) << 8);
    (v >> 16) | (v << 16)
  }

  function ReverseByteOrderUint16(input: bv16): bv16 {
    (input >> 8) | ((input & 0x00FF) << 8)
  }

  /** Byte `i` of a word, counting from the least significant. */
  function ByteAt(v: bv256, i: bv256): bv256
    requires i < 32
  {
    (v >> (i << 3)) & 0xFF
  }

  /** All 32 bytes change places with their mirror images. */
  lemma Reverse256Bytes(v: bv256, i: bv256)
    requires i < 32
    ensures ByteAt(ReverseByteOrderUint256(v), i) == ByteAt(v, 31 - i)
  {
  }

  lemma Reverse256Involution(v: bv256)
    ensures ReverseByteOrderUint256(ReverseByteOrderUint256(v)) == v
  {
  }

  // ----- Words as bytes -----

  /** Machine bytes as numbers. */
  function Ints(bs: seq<bv8>): (r: seq<byte>)
    ensures |r| == |bs|
  {
    if bs == [] then [] else [bs[0] as int] + Ints(bs[1..])
  }

  lemma {:induction false} IntsInjective(a: seq<bv8>, b: seq<bv8>)
    requires Ints(a) == Ints(b)
    ensures a == b
  {
    assert |a| == |Ints(a)| == |Ints(b)| == |b|;
    if a != [] {
      assert Ints(a)[0] == Ints(b)[0] && Ints(a)[1..] == Ints(a[1..]) && Ints(b)[1..] == Ints(b[1..]);
      ByteInjective(a[0], b[0]);
      IntsInjective(a[1..], b[1..]);
      assert a == [a[0]] + a[1..] && b == [b[0]] + b[1..];
    }
  }

  function BytesHighFirst(v: bv32): seq<bv8> {
    [((v >> 24) & 0xFF) as bv8, ((v >> 16) & 0xFF) as bv8, ((v >> 8) & 0xFF) as bv8, (v & 0xFF) as bv8]
  }

  function BytesLowFirst(v: bv32): seq<bv8> {
    [(v & 0xFF) as bv8, ((v >> 8) & 0xFF) as bv8, ((v >> 16) & 0xFF) as bv8, ((v >> 24) & 0xFF) as bv8]
  }

  function PairHighFirst(v: bv16): seq<bv8> {
    [((v >> 8) & 0xFF) as bv8, (v & 0xFF) as bv8]
  }

  function PairLowFirst(v: bv16): seq<bv8> {
    [(v & 0xFF) as bv8, ((v >> 8) & 0xFF) as bv8]
  }

  /** Big-endian bytes of a 32-bit word, as `abi.encodePacked` writes them. */
  function Be32(v: bv32): seq<byte> { Ints(BytesHighFirst(v)) }

  /** Little-endian bytes, as the zkVM hashes them. */
  function Le32(v: bv32): seq<byte> { Ints(BytesLowFirst(v)) }

  function Be16(v: bv16): seq<byte> { Ints(PairHighFirst(v)) }

  lemma Reversed32(v: bv32)
    ensures BytesHighFirst(ReverseByteOrderUint32(v)) == BytesLowFirst(v)
  {
  }

  /** Byte `i` of the result is byte `3 - i` of the input. */
  lemma Reverse32Mirrors(v: bv32, i: bv32)
    requires i < 4
    ensures (ReverseByteOrderUint32(v) >> (i << 3)) & 0xFF == (v >> ((3 - i) << 3)) & 0xFF
  {
  }

  lemma Reverse16Mirrors(v: bv16, i: bv16)
    requires i < 2
    ensures (ReverseByteOrderUint16(v) >> (i << 3)) & 0xFF == (v >> ((1 - i) << 3)) & 0xFF
  {
  }

  /** The first byte written little-endian is the lowest, the last the highest. */
  lemma Le32At(v: bv32)
    ensures Le32(v) == [((v & 0xFF) as bv8) as int, (((v >> 8) & 0xFF) as bv8) as int,
                        (((v >> 16) & 0xFF) as bv8) as int, (((v >> 24) & 0xFF) as bv8) as int]
  {
    IntsFour((v & 0xFF) as bv8, ((v >> 8) & 0xFF) as bv8, ((v >> 16) & 0xFF) as bv8, ((v >> 24) & 0xFF) as bv8);
  }

  lemma IntsFour(a: bv8, b: bv8, c: bv8, d: bv8)
    ensures Ints([a, b, c, d]) == [a as int, b as int, c as int, d as int]
  {
    assert [a, b, c, d][1..] == [b, c, d] && [b, c, d][1..] == [c, d] && [c, d][1..] == [d] && [d][1..] == [];
    assert Ints([d]) == [d as int];
    assert Ints([c, d]) == [c as int, d as int];
    assert Ints([b, c, d]) == [b as int, c as int, d as int];
  }

  lemma Reversed32Twice(v: bv32)
    ensures ReverseByteOrderUint32(ReverseByteOrderUint32(v)) == v
  {
  }

  /** Writing a reversed word big-endian is writing the word little-endian; reversing twice is nothing. */
  lemma Reverse32Bytes(v: bv32)
    ensures Be32(ReverseByteOrderUint32(v)) == Le32(v)
    ensures ReverseByteOrderUint32(ReverseByteOrderUint32(v)) == v
  {
    Reversed32(v);
    Reversed32Twice(v);
  }

  lemma Reversed16(v: bv16)
    ensures PairHighFirst(ReverseByteOrderUint16(v)) == PairLowFirst(v)
  {
  }

  lemma Reversed16Twice(v: bv16)
    ensures ReverseByteOrderUint16(ReverseByteOrderUint16(v)) == v
  {
  }

  lemma Reverse16Bytes(v: bv16)
    ensures Be16(ReverseByteOrderUint16(v)) == Ints(PairLowFirst(v))
    ensures ReverseByteOrderUint16(ReverseByteOrderUint16(v)) == v
  {
    Reversed16(v);
    Reversed16Twice(v);
  }

  lemma Le32Injective(v: bv32, w: bv32)
    requires Le32(v) == Le32(w)
    ensures v == w
  {
    var a, b := BytesLowFirst(v), BytesLowFirst(w);
    IntsInjective(a, b);
    assert a[0] == b[0] && a[1] == b[1] && a[2] == b[2] && a[3] == b[3];
    SameBytesSameWord(v, w);
  }

  lemma SameBytesSameWord(v: bv32, w: bv32)
    requires v & 0xFF == w & 0xFF && (v >> 8) & 0xFF == (w >> 8) & 0xFF
    requires (v >> 16) & 0xFF == (w >> 16) & 0xFF && (v >> 24) & 0xFF == (w >> 24) & 0xFF
    ensures v == w
  {
  }

  // ----- Checked narrowing -----

  /** `SafeCast.toUint16` of a value in range: the word with this value. */
  function ToUint16(n: nat): (v: bv16)
    requires n < 0x1_0000
  {
    ((ByteWord(n / 256) as bv16) << 8) | (ByteWord(n % 256) as bv16)
  }

  lemma WordOfBytes(h: bv8, l: bv8)
    ensures PairLowFirst(((h as bv16) << 8) | (l as bv16)) == [l, h]
  {
  }

  lemma FromLeTwo(a: byte, b: byte)
    ensures FromLe([a, b]) == a + 256 * b
  {
    assert [a, b][1..] == [b] && [b][1..] == [];
    assert FromLe([b]) == b;
  }

  lemma IntsTwo(a: bv8, b: bv8)
    ensures Ints([a, b]) == [a as int, b as int]
  {
    assert [a, b][1..] == [b] && [b][1..] == [];
    assert Ints([b]) == [b as int];
  }

  lemma ToUint16Bytes(n: nat)
    requires n < 0x1_0000
    ensures Ints(PairLowFirst(ToUint16(n))) == [n % 256, n / 256]
    ensures FromLe([n % 256, n / 256]) == n
  {
    var h, l := ByteWord(n / 256), ByteWord(n % 256);
    WordOfBytes(h, l);
    IntsTwo(l, h);
    ByteWordValue(n / 256);
    ByteWordValue(n % 256);
    FromLeTwo(n % 256, n / 256);
  }
}
