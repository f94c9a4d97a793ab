/**
  Structural hashing (solidity/contracts/risc0/StructHash.sol): tagged structs and lists.
 */
module StructHash {
  import opened Bytes
  import opened Options
  import opened Sequences
  import opened ByteOrder

  /** Digests laid end to end, as `abi.encodePacked` writes a `bytes32[]`. */
  function Flatten(down: seq<Digest>): (bs: seq<byte>)
    ensures |bs| == 32 * |down|
  {
    if down == [] then [] else down[0] + Flatten(down[1..])
  }

  /** `bytes2((downLen << 8) | (downLen >> 8))`. */
  function DownLenLE(n: nat): seq<byte>
    requires n < 0x1_0000
  {
    var downLen := ToUint16(n);
    Be16((downLen << 8) | (downLen >> 8))
  }

  function StructPreimage(tag: Digest, down: seq<Digest>, data: seq<byte>): seq<byte>
    requires |down| < 0x1_0000
  {
    tag + Flatten(down) + data + DownLenLE(|down|)
  }

  /** None when the length does not fit 16 bits and the cast reverts. */
  function TaggedStruct(sha: Hash, tag: Digest, down: seq<Digest>, data: seq<byte>): Option<Digest> {
    if |down| >= 0x1_0000 then None else Some(sha(StructPreimage(tag, down, data)))
  }

  lemma DownLenBytes(n: nat)
    requires n < 0x1_0000
    ensures DownLenLE(n) == [n % 256, n / 256]
    ensures FromLe(DownLenLE(n)) == n
  {
    var v := ToUint16(n);
    assert (v << 8) | (v >> 8) == ReverseByteOrderUint16(v);
    Reverse16Bytes(v);
    ToUint16Bytes(n);
  }

  lemma {:induction false} FlattenAt(down: seq<Digest>, i: nat)
    requires i < |down|
    ensures Flatten(down)[32 * i..32 * i + 32] == down[i]
  {
    if i > 0 {
      FlattenAt(down[1..], i - 1);
      assert Flatten(down)[32 * i..32 * i + 32] == Flatten(down[1..])[32 * (i - 1)..32 * (i - 1) + 32];
    }
  }

  /** Where the parts stand: tag, digests in order, data, and the number of digests in two bytes. */
  lemma StructLayout(tag: Digest, down: seq<Digest>, data: seq<byte>)
    requires |down| < 0x1_0000
    ensures var bytes, n := StructPreimage(tag, down, data), 32 + 32 * |down|;
            && |bytes| == n + |data| + 2
            && bytes[..32] == tag
            && (forall i :: 0 <= i < |down| ==> bytes[32 + 32 * i..64 + 32 * i] == down[i])
            && bytes[n..n + |data|] == data
            && FromLe(bytes[n + |data|..]) == |down|
  {
    var bytes, n := StructPreimage(tag, down, data), 32 + 32 * |down|;
    DownLenBytes(|down|);
    assert bytes[..32] == tag && bytes[32..n] == Flatten(down);
    assert bytes[n..n + |data|] == data && bytes[n + |data|..] == DownLenLE(|down|);
    forall i | 0 <= i < |down| ensures bytes[32 + 32 * i..64 + 32 * i] == down[i] {
      FlattenAt(down, i);
      assert bytes[32 + 32 * i..64 + 32 * i] == bytes[32..n][32 * i..32 * i + 32];
    }
  }

  lemma {:induction false} FlattenInjective(a: seq<Digest>, b: seq<Digest>)
    requires |a| == |b| && Flatten(a) == Flatten(b)
    ensures a == b
  {
    if a == [] {
    } else {
      SplitConcat(a[0], Flatten(a[1..]), b[0], Flatten(b[1..]));
      FlattenInjective(a[1..], b[1..]);
      assert a == [a[0]] + a[1..] && b == [b[0]] + b[1..];
    }
  }

  /**
    A struct's preimage can be read in one way only: the length at its end says where the
    digests stop and the free-form data begins.
   */
  lemma StructPreimageInjective(tag: Digest, down: seq<Digest>, data: seq<byte>,
                                tag': Digest, down': seq<Digest>, data': seq<byte>)
    requires |down| < 0x1_0000 && |down'| < 0x1_0000
    requires StructPreimage(tag, down, data) == StructPreimage(tag', down', data')
    ensures tag == tag' && down == down' && data == data'
  {
    DownLenBytes(|down|);
    DownLenBytes(|down'|);
    SplitConcat(tag + Flatten(down) + data, DownLenLE(|down|), tag' + Flatten(down') + data', DownLenLE(|down'|));
    SplitConcat(tag + Flatten(down), data, tag' + Flatten(down'), data');
    SplitConcat(tag, Flatten(down), tag', Flatten(down'));
    FlattenInjective(down, down');
  }

  /** Equal struct digests, equal structs, unless SHA-256 collides on these two preimages. */
  lemma TaggedStructBinds(sha: Hash, tag: Digest, down: seq<Digest>, data: seq<byte>,
                          tag': Digest, down': seq<Digest>, data': seq<byte>)
    requires |down| < 0x1_0000 && |down'| < 0x1_0000
    requires CollisionFreeOn(sha, {StructPreimage(tag, down, data), StructPreimage(tag', down', data')})
    requires TaggedStruct(sha, tag, down, data) == TaggedStruct(sha, tag', down', data')
    ensures tag == tag' && down == down' && data == data'
  {
    StructPreimageInjective(tag, down, data, tag', down', data');
  }

  // ----- Lists -----

  function ConsPreimage(tag: Digest, head: Digest, tail: Digest): seq<byte> {
    StructPreimage(tag, [head, tail], [])
  }

  function TaggedListCons(sha: Hash, tag: Digest, head: Digest, tail: Digest): Digest {
    sha(ConsPreimage(tag, head, tail))
  }

  /** The list's hash by recursion: the empty list is zero, and a head is put before its tail. */
  function ListHash(sha: Hash, tag: Digest, list: seq<Digest>): Digest {
    if list == [] then ZERO else TaggedListCons(sha, tag, list[0], ListHash(sha, tag, list[1..]))
  }

  /** What is hashed for a list: the tag, its head, the hash of its tail, and the two bytes of the number 2. */
  lemma ListHashIs(sha: Hash, tag: Digest, head: Digest, tail: seq<Digest>)
    ensures ListHash(sha, tag, []) == ZERO
    ensures ListHash(sha, tag, [head] + tail) == sha(tag + head + ListHash(sha, tag, tail) + [2, 0])
  {
    var rest := ListHash(sha, tag, tail);
    assert ([head] + tail)[1..] == tail;
    DownLenBytes(2);
    assert [head, rest][1..] == [rest] && [rest][1..] == [];
    assert Flatten([rest]) == rest && Flatten([head, rest]) == head + rest;
    assert ConsPreimage(tag, head, rest) == tag + head + rest + [2, 0];
  }

  /** `taggedList` walks from the back, and computes the recursive hash. */
  method TaggedList(sha: Hash, tag: Digest, list: seq<Digest>) returns (curr: Digest)
    ensures curr == ListHash(sha, tag, list)
  {
    curr := ZERO;
    for i := 0 to |list|
      invariant curr == ListHash(sha, tag, list[|list| - i..])
    {
      var rest := list[|list| - 1 - i..];
      assert rest[1..] == list[|list| - i..];
      curr := TaggedListCons(sha, tag, list[|list| - 1 - i], curr);
    }
    assert list[0..] == list;
  }

  ghost function ListInputs(sha: Hash, tag: Digest, list: seq<Digest>): set<seq<byte>> {
    if list == [] then {}
    else ListInputs(sha, tag, list[1..]) + {ConsPreimage(tag, list[0], ListHash(sha, tag, list[1..]))}
  }

  lemma NonEmptyListIsNotZero(sha: Hash, tag: Digest, list: seq<Digest>, used: set<seq<byte>>)
    requires list != [] && NonZeroOn(sha, used) && ListInputs(sha, tag, list) <= used
    ensures ListHash(sha, tag, list) != ZERO
  {
    assert ConsPreimage(tag, list[0], ListHash(sha, tag, list[1..])) in used;
  }

  /** Equal list hashes, equal lists, lengths included. */
  lemma {:induction false} ListHashBinds(sha: Hash, tag: Digest, xs: seq<Digest>, ys: seq<Digest>, used: set<seq<byte>>)
    requires CollisionFreeOn(sha, used) && NonZeroOn(sha, used)
    requires ListInputs(sha, tag, xs) <= used && ListInputs(sha, tag, ys) <= used
    requires ListHash(sha, tag, xs) == ListHash(sha, tag, ys)
    ensures xs == ys
  {
    if xs != [] && ys != [] {
      var a, b := ListHash(sha, tag, xs[1..]), ListHash(sha, tag, ys[1..]);
      assert ConsPreimage(tag, xs[0], a) in used && ConsPreimage(tag, ys[0], b) in used;
      StructPreimageInjective(tag, [xs[0], a], [], tag, [ys[0], b], []);
      assert [xs[0], a][0] == [ys[0], b][0] && [xs[0], a][1] == [ys[0], b][1];
      ListHashBinds(sha, tag, xs[1..], ys[1..], used);
      assert xs == [xs[0]] + xs[1..] && ys == [ys[0]] + ys[1..];
    } else if xs != [] {
      NonEmptyListIsNotZero(sha, tag, xs, used);
    } else if ys != [] {
      NonEmptyListIsNotZero(sha, tag, ys, used);
    }
  }
}
