/**
  The sparse Merkle tree wrapper (executor/lib/smt): account leaves, key derivation and the
  tree object. The tree crate itself is a parameter: its root is some function of the leaf
  hashes that are not zero.
 */
module Smt {
  import opened Bytes
  import opened Sequences
  import opened Options
  import opened Text

  /** One account; the guest's `LeafData` has the same two fields. */
  datatype AccountData = AccountData(balance: u64, nonce: u64)

  const EMPTY := AccountData(0, 0)

  /**
    The cryptography the programs call. `recover` stands for parsing `r || s`, public key
    recovery and dropping the point's format byte; it fails when any of them does.
   */
  datatype Primitives = Primitives(
    sha256: Hash,
    keccak: Hash,
    merkle: map<Digest, Digest> -> Digest,
    recover: (Digest, seq<byte>, nat) -> Option<seq<byte>>)

  // ----- Leaves -----

  function LeafBytes(a: AccountData): seq<byte> {
    Le(a.balance, 8) + Le(a.nonce, 8)
  }

  function ToH256(p: Primitives, a: AccountData): Digest {
    if a.balance == 0 && a.nonce == 0 then ZERO else p.sha256(LeafBytes(a))
  }

  /** SHA-256 neither collides on 16-byte strings nor sends one of them to zero. */
  ghost predicate LeafHashSound(p: Primitives) {
    && (forall x, y :: |x| == |y| == 16 && p.sha256(x) == p.sha256(y) ==> x == y)
    && (forall x :: |x| == 16 ==> p.sha256(x) != ZERO)
  }

  /** `to_h256`, which lays the two words out in a 16-byte buffer. */
  method LeafHash(p: Primitives, a: AccountData) returns (h: Digest)
    ensures h == ToH256(p, a)
  {
    if a.balance == 0 && a.nonce == 0 {
      return ZERO;
    }
    var data := new byte[16](_ => 0);
    var balance, nonce := Le(a.balance, 8), Le(a.nonce, 8);
    forall i | 0 <= i < 8 {
      data[i] := balance[i];
    }
    forall i | 0 <= i < 8 {
      data[8 + i] := nonce[i];
    }
    assert data[..] == LeafBytes(a);
    h := p.sha256(data[..]);
  }

  /** A leaf's bytes: the balance and then the nonce, each in eight bytes from the least significant. */
  lemma LeafLayout(a: AccountData)
    ensures |LeafBytes(a)| == 16
    ensures FromLe(LeafBytes(a)[..8]) == a.balance && FromLe(LeafBytes(a)[8..]) == a.nonce
  {
    Widths();
    LeRoundTrip(a.balance, 8);
    LeRoundTrip(a.nonce, 8);
    assert LeafBytes(a)[..8] == Le(a.balance, 8) && LeafBytes(a)[8..] == Le(a.nonce, 8);
  }

  lemma ToH256Injective(p: Primitives, a: AccountData, b: AccountData)
    requires LeafHashSound(p) && ToH256(p, a) == ToH256(p, b)
    ensures a == b
  {
    if a != EMPTY && b != EMPTY {
      assert LeafBytes(a) == LeafBytes(b);
      SplitConcat(Le(a.balance, 8), Le(a.nonce, 8), Le(b.balance, 8), Le(b.nonce, 8));
      Le8Injective(a.balance, b.balance);
      Le8Injective(a.nonce, b.nonce);
    }
  }

  // ----- Trees -----

  /** The stored leaves; a key that is absent holds the empty account. */
  type Leaves = map<Digest, AccountData>

  function Get(t: Leaves, key: Digest): AccountData {
    if key in t then t[key] else EMPTY
  }

  /** Writing a leaf whose hash is zero removes it. */
  function Updated(p: Primitives, t: Leaves, key: Digest, value: AccountData): Leaves {
    if ToH256(p, value) == ZERO then t - {key} else t[key := value]
  }

  function LeafHashes(p: Primitives, t: Leaves): map<Digest, Digest> {
    map key | key in t :: ToH256(p, t[key])
  }

  function RootOf(p: Primitives, t: Leaves): Digest {
    p.merkle(LeafHashes(p, t))
  }

  /** No stored leaf is empty: what every sequence of updates from the empty tree keeps. */
  ghost predicate Canonical(t: Leaves) {
    forall key :: key in t ==> t[key] != EMPTY
  }

  /** A root commits to the leaves, given that the two leaf-hash maps involved do not collide. */
  lemma RootBinding(p: Primitives, s: Leaves, t: Leaves)
    requires LeafHashSound(p)
    requires CollisionFreeOn(p.merkle, {LeafHashes(p, s), LeafHashes(p, t)})
    requires RootOf(p, s) == RootOf(p, t)
    ensures s == t
  {
    var hs, ht := LeafHashes(p, s), LeafHashes(p, t);
    assert hs == ht;
    assert s.Keys == hs.Keys == ht.Keys == t.Keys;
    forall key | key in s ensures s[key] == t[key] {
      assert hs[key] == ht[key];
      ToH256Injective(p, s[key], t[key]);
    }
  }

  /** Canonical trees that answer every read alike are the same tree. */
  lemma SameReadsSameTree(s: Leaves, t: Leaves)
    requires Canonical(s) && Canonical(t)
    requires forall key :: Get(s, key) == Get(t, key)
    ensures s == t
  {
    forall key ensures key in s <==> key in t {
      assert Get(s, key) == Get(t, key);
    }
    forall key | key in s ensures s[key] == t[key] {
      assert Get(s, key) == Get(t, key);
    }
  }

  /** The tree crate answers an absent key with the empty account. */
  predicate VerifyInclusion(t: Leaves, key: Digest, expected: AccountData) {
    Get(t, key) == expected
  }

  /** A write is read back at its key, whatever it wrote, and disturbs no other key. */
  lemma WriteReadsBack(p: Primitives, t: Leaves, key: Digest, value: AccountData, other: Digest, e: AccountData)
    requires LeafHashSound(p)
    ensures VerifyInclusion(Updated(p, t, key, value), other, e) <==>
            if other == key then e == value else VerifyInclusion(t, other, e)
  {
    assert value != EMPTY ==> |LeafBytes(value)| == 16;
  }

  class Tree {
    var leaves: Leaves

    constructor ()
      ensures leaves == map[]
    {
      leaves := map[];
    }

    method Update(p: Primitives, key: Digest, value: AccountData)
      modifies this
      ensures leaves == Updated(p, old(leaves), key, value)
    {
      var hash := LeafHash(p, value);
      if hash == ZERO {
        leaves := leaves - {key};
      } else {
        leaves := leaves[key := value];
      }
    }

    function Root(p: Primitives): Digest
      reads this
    {
      RootOf(p, leaves)
    }
  }

  // ----- Addresses and digests as text -----

  function AddressOf(text: Text): (r: Option<seq<byte>>)
    ensures r.Some? ==> |r.value| == 20
  {
    var clean := StripPrefix(text);
    if |clean| != 40 then None else DecodePairs(clean, true)
  }

  /** `hex_to_address`, which fills a 20-byte buffer two characters at a time. */
  method HexToAddress(text: Text) returns (r: Option<seq<byte>>)
    ensures r == AddressOf(text)
  {
    var clean := StripPrefix(text);
    if |clean| != 40 {
      return None;
    }
    var buffer := new byte[20];
    assert clean[0..] == clean;
    for i := 0 to 20
      invariant DecodePairs(clean, true) == Prepend(buffer[..i], DecodePairs(clean[2 * i..], true))
    {
      DecodeStep(clean, 2 * i, buffer[..i], true);
      ghost var done := buffer[..i];
      match PairValue(clean[2 * i], clean[2 * i + 1], true)
      case None =>
        return None;
      case Some(b) =>
        buffer[i] := b;
        assert buffer[..i + 1] == done + [b];
    }
    assert buffer[..20] == buffer[..];
    r := Some(buffer[..]);
  }

  function AddressToTreeKey(p: Primitives, address: seq<byte>): Digest {
    p.keccak(address)
  }

  /** Case does not matter once an address has been read. */
  lemma AddressIgnoresCase(text: Text)
    requires AddressOf(text).Some?
    ensures AddressOf(Lower(text)) == AddressOf(text)
  {
    var clean := StripPrefix(text);
    DecodeIgnoresCase(clean, true);
    assert StripPrefix(Lower(text)) == Lower(clean);
  }

  /** `hex_encode`, which appends two digits a byte. */
  method EncodeHex(bytes: seq<byte>) returns (result: Text)
    ensures result == HexEncode(bytes)
  {
    result := [];
    assert bytes[0..] == bytes;
    for i := 0 to |bytes|
      invariant result + HexEncode(bytes[i..]) == HexEncode(bytes)
    {
      assert bytes[i..][1..] == bytes[i + 1..];
      result := result + [HexDigit(bytes[i] / 16), HexDigit(bytes[i] % 16)];
    }
    assert bytes[|bytes|..] == [];
  }

  function H256ToHex(d: Digest): Text {
    "0x" + HexEncode(d)
  }

  /** A digest's text: `0x` and then 64 digits. */
  lemma H256Text(d: Digest)
    ensures |H256ToHex(d)| == 66 && H256ToHex(d)[..2] == "0x" && H256ToHex(d)[2..] == HexEncode(d)
  {
    DecodeOfEncode(d, true);
  }

  lemma H256ToHexInjective(d: Digest, e: Digest)
    requires H256ToHex(d) == H256ToHex(e)
    ensures d == e
  {
    SplitConcat<ascii>("0x", HexEncode(d), "0x", HexEncode(e));
    DecodeOfEncode(d, true);
    DecodeOfEncode(e, true);
  }
}
