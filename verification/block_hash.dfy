/**
  The hash chain over L2 blocks (sequencer/src/BlockController.py): how a block's bytes are
  built from its transactions, and what a head hash commits to.
 */
module BlockHash {
  import opened Bytes
  import opened Options
  import opened Sequences
  import opened Text

  /** A transaction as stored; a deposit has no receiver and no nonce. */
  datatype Transaction = Transaction(
    sender: Text, receiver: Option<Text>, nonce: Option<int>, amount: real, receivedAt: int)

  // ----- Python's conversions; None stands for the exception they raise -----

  predicate IsSpace(c: ascii) {
    c == ' ' || (9 as char) <= c <= (13 as char)
  }

  /** `bytes.fromhex`: pairs of digits, with white space allowed between bytes. */
  function FromHex(s: Text): Option<seq<byte>> {
    if s == [] then Some([])
    else if IsSpace(s[0]) then FromHex(s[1..])
    else if |s| == 1 then None
    else
      var first, rest := PairValue(s[0], s[1], false), FromHex(s[2..]);
      if first.Some? && rest.Some? then Some([first.value] + rest.value) else None
  }

  function HexToBytes(s: Text): Option<seq<byte>> {
    FromHex(StripPrefix(s))
  }

  function ToBytes8(n: int): (r: Option<seq<byte>>)
    ensures r.Some? ==> |r.value| == 8
  {
    if 0 <= n < TWO_TO_THE_64 then Some(Le(n, 8)) else None
  }

  /** `int(x)` drops the fraction, towards zero. */
  function Truncate(x: real): int {
    if x < 0.0 then -(-x).Floor else x.Floor
  }

  /** Without white space, the reader takes exactly the digit pairs. */
  lemma {:induction false} FromHexIsStrict(s: Text)
    requires forall i :: 0 <= i < |s| ==> !IsSpace(s[i])
    ensures FromHex(s) == DecodePairs(s, false)
  {
    if |s| >= 2 {
      FromHexIsStrict(s[2..]);
    }
  }

  /** White space in front is skipped; inside a pair it is an error. */
  lemma SpacesBetweenBytes(c: ascii, s: Text)
    ensures IsSpace(c) ==> FromHex([c] + s) == FromHex(s)
    ensures !IsSpace(c) && s != [] && IsSpace(s[0]) ==> FromHex([c] + s).None?
  {
    assert ([c] + s)[1..] == s;
  }

  /** Amounts lose their fraction and never grow. */
  lemma TruncateTowardsZero(x: real)
    ensures x >= 0.0 ==> Truncate(x) as real <= x < Truncate(x) as real + 1.0 && Truncate(x) >= 0
    ensures x < 0.0 ==> x <= Truncate(x) as real < x + 1.0 && Truncate(x) <= 0
  {
  }

  /** Eight bytes that read back to the number, least significant first; nothing else converts. */
  lemma ToBytes8Reads(n: int)
    ensures ToBytes8(n).Some? <==> 0 <= n < 0x1_0000_0000_0000_0000
    ensures ToBytes8(n).Some? ==> FromLe(ToBytes8(n).value) == n
  {
    Widths();
    if 0 <= n < TWO_TO_THE_64 {
      LeRoundTrip(n, 8);
    }
  }

  // ----- Transactions -----

  /** What the transaction's hash is taken of; None when a field cannot be converted. */
  function TransactionBytes(t: Transaction): Option<seq<byte>> {
    var sender := HexToBytes(t.sender);
    var receiver := if t.receiver.Some? then HexToBytes(t.receiver.value) else Some(['0' as int]);
    var nonce := if t.nonce.Some? then ToBytes8(t.nonce.value) else None;
    var amount, received := ToBytes8(Truncate(t.amount)), ToBytes8(t.receivedAt);
    if sender.Some? && receiver.Some? && nonce.Some? && amount.Some? && received.Some?
    then Some(sender.value + receiver.value + nonce.value + amount.value + received.value)
    else None
  }

  function TransactionHash(sha: Hash, t: Transaction): Option<Digest> {
    match TransactionBytes(t)
    case None => None
    case Some(bytes) => Some(sha(bytes))
  }

  /** The committed body of a transaction: addresses as bytes, the amount in whole units. */
  datatype Body = Body(sender: seq<byte>, receiver: seq<byte>, nonce: u64, amount: u64, receivedAt: u64)

  /** A transaction with a receiver whose fields can all be converted. */
  predicate Converts(t: Transaction) {
    TransactionBytes(t).Some? && t.receiver.Some?
  }

  function BodyOf(t: Transaction): Body
    requires Converts(t)
  {
    Body(HexToBytes(t.sender).value, HexToBytes(t.receiver.value).value,
         t.nonce.value, Truncate(t.amount), t.receivedAt)
  }

  /** A transfer from a 20-byte address whose numbers fit their eight bytes. */
  predicate IsTransfer(t: Transaction) {
    Converts(t) && |BodyOf(t).sender| == 20
  }

  /** A transaction converts exactly if its addresses are hexadecimal and its three numbers fit eight bytes. */
  lemma ConvertsIff(t: Transaction)
    ensures Converts(t) <==>
            && HexToBytes(t.sender).Some?
            && t.receiver.Some? && HexToBytes(t.receiver.value).Some?
            && t.nonce.Some? && 0 <= t.nonce.value < TWO_TO_THE_64
            && 0 <= Truncate(t.amount) < TWO_TO_THE_64
            && 0 <= t.receivedAt < TWO_TO_THE_64
  {
  }

  /** Where the parts stand: sender, receiver, then nonce, amount and time in eight bytes each. */
  lemma TransactionLayout(t: Transaction)
    requires Converts(t)
    ensures var bytes, n := TransactionBytes(t).value, |BodyOf(t).sender| + |BodyOf(t).receiver|;
            && |bytes| == n + 24
            && bytes[..|BodyOf(t).sender|] == HexToBytes(t.sender).value
            && bytes[|BodyOf(t).sender|..n] == HexToBytes(t.receiver.value).value
            && FromLe(bytes[n..n + 8]) == t.nonce.value
            && FromLe(bytes[n + 8..n + 16]) == Truncate(t.amount)
            && FromLe(bytes[n + 16..]) == t.receivedAt
  {
    PartsRead(BodyOf(t));
  }

  lemma PartsRead(b: Body)
    ensures var bytes, n := b.sender + b.receiver + Le(b.nonce, 8) + Le(b.amount, 8) + Le(b.receivedAt, 8),
                            |b.sender| + |b.receiver|;
            && |bytes| == n + 24 && bytes[..|b.sender|] == b.sender && bytes[|b.sender|..n] == b.receiver
            && FromLe(bytes[n..n + 8]) == b.nonce && FromLe(bytes[n + 8..n + 16]) == b.amount
            && FromLe(bytes[n + 16..]) == b.receivedAt
  {
    Widths();
    LeRoundTrip(b.nonce, 8);
    LeRoundTrip(b.amount, 8);
    LeRoundTrip(b.receivedAt, 8);
    FiveParts(b.sender, b.receiver, Le(b.nonce, 8), Le(b.amount, 8), Le(b.receivedAt, 8));
  }

  /** A transaction with a nonce but no receiver is hashed with the character 0 in the receiver's place. */
  lemma NoReceiverBytes(t: Transaction)
    requires t.receiver.None? && TransactionBytes(t).Some?
    ensures t.nonce.Some?
    ensures TransactionBytes(t) == Some(HexToBytes(t.sender).value + [0x30] + Le(t.nonce.value, 8)
                                        + Le(Truncate(t.amount), 8) + Le(t.receivedAt, 8))
  {
  }

  lemma FiveParts(a: seq<byte>, b: seq<byte>, c: seq<byte>, d: seq<byte>, e: seq<byte>)
    requires |c| == |d| == |e| == 8
    ensures var s, n := a + b + c + d + e, |a| + |b|;
            && s[..|a|] == a && s[|a|..n] == b && s[n..n + 8] == c && s[n + 8..n + 16] == d && s[n + 16..] == e
  {
  }

  /** A deposit has no nonce, so hashing it fails. */
  lemma DepositHasNoHash(sha: Hash, t: Transaction)
    requires t.nonce.None?
    ensures TransactionHash(sha, t).None?
  {
  }

  /**
    The bytes that are hashed say nothing of where the sender ends: transactions with the same
    bytes have the same body exactly when their senders are equally long.
   */
  lemma SameBytesSameBodyIff(t: Transaction, u: Transaction)
    requires Converts(t) && Converts(u) && TransactionBytes(t) == TransactionBytes(u)
    ensures BodyOf(t) == BodyOf(u) <==> |BodyOf(t).sender| == |BodyOf(u).sender|
  {
    var a, b := BodyOf(t), BodyOf(u);
    if |a.sender| == |b.sender| {
      FieldsInjective(a, b);
      Le8Injective(a.nonce, b.nonce);
      Le8Injective(a.amount, b.amount);
      Le8Injective(a.receivedAt, b.receivedAt);
    }
  }

  /** From 20-byte addresses, the bytes determine the body. */
  lemma TransactionBytesInjective(t: Transaction, u: Transaction)
    requires IsTransfer(t) && IsTransfer(u) && TransactionBytes(t) == TransactionBytes(u)
    ensures BodyOf(t) == BodyOf(u)
  {
    SameBytesSameBodyIff(t, u);
  }

  lemma FieldsInjective(a: Body, b: Body)
    requires |a.sender| == |b.sender|
    requires a.sender + a.receiver + Le(a.nonce, 8) + Le(a.amount, 8) + Le(a.receivedAt, 8)
          == b.sender + b.receiver + Le(b.nonce, 8) + Le(b.amount, 8) + Le(b.receivedAt, 8)
    ensures a.sender == b.sender && a.receiver == b.receiver && Le(a.nonce, 8) == Le(b.nonce, 8)
    ensures Le(a.amount, 8) == Le(b.amount, 8) && Le(a.receivedAt, 8) == Le(b.receivedAt, 8)
  {
    SplitConcat(a.sender + a.receiver + Le(a.nonce, 8) + Le(a.amount, 8), Le(a.receivedAt, 8),
                b.sender + b.receiver + Le(b.nonce, 8) + Le(b.amount, 8), Le(b.receivedAt, 8));
    SplitConcat(a.sender + a.receiver + Le(a.nonce, 8), Le(a.amount, 8),
                b.sender + b.receiver + Le(b.nonce, 8), Le(b.amount, 8));
    SplitConcat(a.sender + a.receiver, Le(a.nonce, 8), b.sender + b.receiver, Le(b.nonce, 8));
    SplitConcat(a.sender, a.receiver, b.sender, b.receiver);
  }

  // ----- The rolling hash -----

  const EIGHT_ZEROS: seq<byte> := Le(0, 8)

  /** What the last turn of the rolling loop hashes, given the result before it. */
  function RollingPreimage(previous: Option<Digest>, txHash: Digest): seq<byte> {
    (if previous.None? then EIGHT_ZEROS else previous.value) + txHash
  }

  /** The result so far comes first; before any there are eight zero bytes. */
  lemma RollingPreimageLayout(previous: Option<Digest>, txHash: Digest)
    ensures previous.None? ==>
              var bytes := RollingPreimage(previous, txHash);
              |bytes| == 40 && FromLe(bytes[..8]) == 0 && bytes[8..] == txHash
    ensures previous.Some? ==> RollingPreimage(previous, txHash) == previous.value + txHash
  {
    Widths();
    LeRoundTrip(0, 8);
    assert RollingPreimage(None, txHash)[..8] == EIGHT_ZEROS;
  }

  /** The rolling hash of a non-empty list. */
  function RollingHash(sha: Hash, txs: seq<Transaction>): Option<Digest>
    requires txs != []
  {
    var front, txHash := txs[..|txs| - 1], TransactionHash(sha, txs[|txs| - 1]);
    if txHash.None? then None
    else if front == [] then Some(sha(RollingPreimage(None, txHash.value)))
    else
      match RollingHash(sha, front)
      case None => None
      case Some(previous) => Some(sha(RollingPreimage(Some(previous), txHash.value)))
  }

  /** `create_rolling_transaction_hash`: an empty list gives eight zero bytes. */
  function Rolling(sha: Hash, txs: seq<Transaction>): (r: Option<seq<byte>>)
    ensures r.Some? ==> |r.value| == if txs == [] then 8 else 32
  {
    if txs == [] then Some(EIGHT_ZEROS)
    else
      match RollingHash(sha, txs)
      case None => None
      case Some(d) => Some(d)
  }

  lemma {:induction false} ZeroBytes(k: nat)
    ensures forall i :: 0 <= i < k ==> Le(0, k)[i] == 0
  {
    if k > 0 {
      ZeroBytes(k - 1);
    }
  }

  /** A block without transactions has eight zero bytes in place of a rolling hash. */
  lemma RollingOfNothing(sha: Hash)
    ensures Rolling(sha, []).Some? && |Rolling(sha, []).value| == 8
    ensures forall i :: 0 <= i < 8 ==> Rolling(sha, []).value[i] == 0
  {
    ZeroBytes(8);
  }

  /** One more transaction hashes the result so far, or eight zero bytes, together with its own hash. */
  lemma RollingNext(sha: Hash, txs: seq<Transaction>, t: Transaction)
    requires Converts(t) && (txs == [] || RollingHash(sha, txs).Some?)
    ensures RollingHash(sha, txs + [t]) ==
            Some(sha((if txs == [] then Le(0, 8) else RollingHash(sha, txs).value) + sha(TransactionBytes(t).value)))
  {
    assert (txs + [t])[..|txs|] == txs;
  }

  lemma {:induction false} RollingStops(sha: Hash, txs: seq<Transaction>, i: nat)
    requires i < |txs| && TransactionHash(sha, txs[i]).None?
    ensures RollingHash(sha, txs).None?
  {
    if i < |txs| - 1 {
      RollingStops(sha, txs[..|txs| - 1], i);
    }
  }

  lemma {:induction false} RollingGoes(sha: Hash, txs: seq<Transaction>)
    requires txs != [] && forall i :: 0 <= i < |txs| ==> TransactionHash(sha, txs[i]).Some?
    ensures RollingHash(sha, txs).Some?
  {
    if |txs| > 1 {
      RollingGoes(sha, txs[..|txs| - 1]);
    }
  }

  /** The rolling hash exists exactly when every single transaction can be hashed. */
  lemma RollingIff(sha: Hash, txs: seq<Transaction>)
    ensures Rolling(sha, txs).Some? <==> forall i :: 0 <= i < |txs| ==> TransactionHash(sha, txs[i]).Some?
  {
    if i :| 0 <= i < |txs| && TransactionHash(sha, txs[i]).None? {
      RollingStops(sha, txs, i);
    } else if txs != [] {
      RollingGoes(sha, txs);
    }
  }

  /** So a block with a deposit in it, which has no nonce, is never hashed. */
  lemma DepositStopsBlock(sha: Hash, number: int, timestamp: int, previous: seq<byte>, txs: seq<Transaction>, i: nat)
    requires i < |txs| && txs[i].nonce.None?
    ensures BlockBytes(sha, number, timestamp, previous, txs).None?
  {
    DepositHasNoHash(sha, txs[i]);
    RollingIff(sha, txs);
  }

  method CreateRollingTransactionHash(sha: Hash, txs: seq<Transaction>) returns (r: Option<seq<byte>>)
    ensures r == Rolling(sha, txs)
  {
    if |txs| == 0 {
      return Some(EIGHT_ZEROS);
    }
    var resulting: Option<Digest> := None;
    for i := 0 to |txs|
      invariant resulting == if i == 0 then None else RollingHash(sha, txs[..i])
      invariant i > 0 ==> resulting.Some?
    {
      assert txs[..i + 1][..i] == txs[..i];
      var txHash := TransactionHash(sha, txs[i]);
      if txHash.None? {
        RollingStops(sha, txs, i);
        return None;
      }
      resulting := Some(sha(RollingPreimage(resulting, txHash.value)));
    }
    assert txs[..|txs|] == txs;
    r := Some(resulting.value);
  }

  // ----- Blocks -----

  /** A block after genesis; its number is its position. */
  datatype Block = Block(timestamp: int, txs: seq<Transaction>)

  /** What a block's hash is taken of; None when its number, time or transactions do not convert. */
  function BlockBytes(sha: Hash, number: int, timestamp: int, previous: seq<byte>, txs: seq<Transaction>): Option<seq<byte>> {
    var rolling, n, ts := Rolling(sha, txs), ToBytes8(number), ToBytes8(timestamp);
    if rolling.Some? && n.Some? && ts.Some? then Some(n.value + ts.value + previous + rolling.value) else None
  }

  /** Where the parts stand: number, time, the hash of the block before, and the rolling hash. */
  lemma BlockLayout(sha: Hash, number: int, timestamp: int, previous: seq<byte>, txs: seq<Transaction>)
    requires BlockBytes(sha, number, timestamp, previous, txs).Some?
    ensures var bytes, n := BlockBytes(sha, number, timestamp, previous, txs).value, 16 + |previous|;
            && |bytes| >= n && FromLe(bytes[..8]) == number && FromLe(bytes[8..16]) == timestamp
            && bytes[16..n] == previous && Rolling(sha, txs) == Some(bytes[n..])
  {
    var bytes := BlockBytes(sha, number, timestamp, previous, txs).value;
    ToBytes8Reads(number);
    ToBytes8Reads(timestamp);
    assert bytes[..8] == Le(number, 8) && bytes[8..16] == Le(timestamp, 8);
    assert bytes[16..16 + |previous|] == previous && bytes[16 + |previous|..] == Rolling(sha, txs).value;
  }

  /** A block can be hashed exactly if its number and time fit eight bytes and each transaction can be hashed. */
  lemma BlockBytesIff(sha: Hash, number: int, timestamp: int, previous: seq<byte>, txs: seq<Transaction>)
    ensures BlockBytes(sha, number, timestamp, previous, txs).Some? <==>
            && 0 <= number < TWO_TO_THE_64 && 0 <= timestamp < TWO_TO_THE_64
            && forall i :: 0 <= i < |txs| ==> TransactionHash(sha, txs[i]).Some?
  {
    RollingIff(sha, txs);
  }

  /** The hash at the end of a chain of blocks; genesis has the zero hash. */
  function HeadHash(sha: Hash, blocks: seq<Block>): Option<Digest> {
    if blocks == [] then Some(ZERO)
    else
      var front, b := blocks[..|blocks| - 1], blocks[|blocks| - 1];
      match HeadHash(sha, front)
      case None => None
      case Some(previous) =>
        var bytes := BlockBytes(sha, |blocks|, b.timestamp, previous, b.txs);
        if bytes.None? then None else Some(sha(bytes.value))
  }

  // ----- What is hashed along the way -----

  ghost function RollingInputs(sha: Hash, txs: seq<Transaction>): set<seq<byte>> {
    if txs == [] then {}
    else
      var front, last := txs[..|txs| - 1], txs[|txs| - 1];
      RollingInputs(sha, front)
      + (if TransactionBytes(last).Some? then {TransactionBytes(last).value} else {})
      + (if TransactionBytes(last).Some? && (front == [] || RollingHash(sha, front).Some?)
         then {RollingPreimage(if front == [] then None else RollingHash(sha, front), sha(TransactionBytes(last).value))}
         else {})
  }

  ghost function ChainInputs(sha: Hash, blocks: seq<Block>): set<seq<byte>> {
    if blocks == [] then {}
    else
      var front, b := blocks[..|blocks| - 1], blocks[|blocks| - 1];
      ChainInputs(sha, front) + RollingInputs(sha, b.txs)
      + match HeadHash(sha, front)
        case None => {}
        case Some(previous) =>
          var bytes := BlockBytes(sha, |blocks|, b.timestamp, previous, b.txs);
          if bytes.None? then {} else {bytes.value}
  }

  // ----- Commitment -----

  predicate OnlyTransfers(txs: seq<Transaction>) {
    txs == [] || (OnlyTransfers(txs[..|txs| - 1]) && IsTransfer(txs[|txs| - 1]))
  }

  function Bodies(txs: seq<Transaction>): seq<Body>
    requires OnlyTransfers(txs)
  {
    if txs == [] then [] else Bodies(txs[..|txs| - 1]) + [BodyOf(txs[|txs| - 1])]
  }

  /** The result of the rolling loop before its last turn. */
  function BeforeLast(sha: Hash, txs: seq<Transaction>): Option<Digest>
    requires txs != []
  {
    if |txs| == 1 then None else RollingHash(sha, txs[..|txs| - 1])
  }

  /** The last turn: what it hashed, that this was recorded, and that the turns before succeeded. */
  lemma LastInput(sha: Hash, txs: seq<Transaction>)
    requires txs != [] && RollingHash(sha, txs).Some?
    ensures var t := TransactionBytes(txs[|txs| - 1]);
            && t.Some?
            && t.value in RollingInputs(sha, txs)
            && RollingPreimage(BeforeLast(sha, txs), sha(t.value)) in RollingInputs(sha, txs)
            && RollingHash(sha, txs) == Some(sha(RollingPreimage(BeforeLast(sha, txs), sha(t.value))))
            && (|txs| > 1 ==> BeforeLast(sha, txs).Some?)
            && RollingInputs(sha, txs[..|txs| - 1]) <= RollingInputs(sha, txs)
  {
  }

  lemma LastTurnBinds(sha: Hash, txs: seq<Transaction>, us: seq<Transaction>, used: set<seq<byte>>)
    requires txs != [] && us != [] && RollingHash(sha, txs).Some? && RollingHash(sha, txs) == RollingHash(sha, us)
    requires CollisionFreeOn(sha, used) && RollingInputs(sha, txs) <= used && RollingInputs(sha, us) <= used
    ensures BeforeLast(sha, txs) == BeforeLast(sha, us)
    ensures TransactionBytes(txs[|txs| - 1]).Some?
    ensures TransactionBytes(txs[|txs| - 1]) == TransactionBytes(us[|us| - 1])
  {
    LastInput(sha, txs);
    LastInput(sha, us);
    var t, u := TransactionBytes(txs[|txs| - 1]).value, TransactionBytes(us[|us| - 1]).value;
    LastTurn(BeforeLast(sha, txs), sha(t), BeforeLast(sha, us), sha(u));
  }

  /**
    Equal rolling hashes mean equal bodies. A first turn hashes 40 bytes and a later one 64, so
    the two lists also stop together.
   */
  lemma {:induction false} RollingHashBinds(sha: Hash, txs: seq<Transaction>, us: seq<Transaction>, used: set<seq<byte>>)
    requires OnlyTransfers(txs) && OnlyTransfers(us) && txs != [] && us != []
    requires CollisionFreeOn(sha, used) && RollingInputs(sha, txs) <= used && RollingInputs(sha, us) <= used
    requires RollingHash(sha, txs).Some? && RollingHash(sha, txs) == RollingHash(sha, us)
    ensures Bodies(txs) == Bodies(us)
    decreases |txs|
  {
    LastTurnBinds(sha, txs, us, used);
    LastInput(sha, txs);
    LastInput(sha, us);
    TransactionBytesInjective(txs[|txs| - 1], us[|us| - 1]);
    if |txs| > 1 {
      RollingHashBinds(sha, txs[..|txs| - 1], us[..|us| - 1], used);
    }
  }

  lemma LastTurn(tp: Option<Digest>, th: Digest, up: Option<Digest>, uh: Digest)
    requires RollingPreimage(tp, th) == RollingPreimage(up, uh)
    ensures tp == up && th == uh
  {
    var a: seq<byte> := if tp.None? then EIGHT_ZEROS else tp.value;
    var b: seq<byte> := if up.None? then EIGHT_ZEROS else up.value;
    assert |a| + 32 == |RollingPreimage(tp, th)| == |b| + 32;
    SplitConcat(a, th, b, uh);
  }

  /** The bytes of a block fix its number, its time, the previous hash and the rolling hash. */
  lemma BlockBytesInjective(sha: Hash, m: int, s: int, p: Digest, txs: seq<Transaction>,
                            n: int, t: int, q: Digest, us: seq<Transaction>)
    requires BlockBytes(sha, m, s, p, txs).Some?
    requires BlockBytes(sha, m, s, p, txs) == BlockBytes(sha, n, t, q, us)
    ensures m == n && s == t && p == q && Rolling(sha, txs) == Rolling(sha, us)
  {
    var r, v := Rolling(sha, txs).value, Rolling(sha, us).value;
    SplitConcat(Le(m, 8) + Le(s, 8) + p, r, Le(n, 8) + Le(t, 8) + q, v);
    SplitConcat(Le(m, 8) + Le(s, 8), p, Le(n, 8) + Le(t, 8), q);
    SplitConcat(Le(m, 8), Le(s, 8), Le(n, 8), Le(t, 8));
    Le8Injective(m, n);
    Le8Injective(s, t);
  }

  lemma RollingBinds(sha: Hash, txs: seq<Transaction>, us: seq<Transaction>, used: set<seq<byte>>)
    requires OnlyTransfers(txs) && OnlyTransfers(us)
    requires CollisionFreeOn(sha, used) && RollingInputs(sha, txs) <= used && RollingInputs(sha, us) <= used
    requires Rolling(sha, txs).Some? && Rolling(sha, txs) == Rolling(sha, us)
    ensures Bodies(txs) == Bodies(us)
  {
    assert txs == [] <==> us == [];
    if txs != [] {
      RollingHashBinds(sha, txs, us, used);
    }
  }

  predicate TransferChain(blocks: seq<Block>) {
    blocks == [] || (TransferChain(blocks[..|blocks| - 1]) && OnlyTransfers(blocks[|blocks| - 1].txs))
  }

  /** What a block says: when, and which transfers. */
  datatype Summary = Summary(timestamp: int, bodies: seq<Body>)

  function Summaries(blocks: seq<Block>): (r: seq<Summary>)
    requires TransferChain(blocks)
    ensures |r| == |blocks|
  {
    if blocks == [] then []
    else
      var last := blocks[|blocks| - 1];
      Summaries(blocks[..|blocks| - 1]) + [Summary(last.timestamp, Bodies(last.txs))]
  }

  /** The bytes of the last block, and that what it and the blocks before hashed is recorded. */
  lemma LastBlock(sha: Hash, blocks: seq<Block>)
    requires blocks != [] && HeadHash(sha, blocks).Some?
    ensures var front, b := blocks[..|blocks| - 1], blocks[|blocks| - 1];
            && HeadHash(sha, front).Some?
            && var bytes := BlockBytes(sha, |blocks|, b.timestamp, HeadHash(sha, front).value, b.txs);
            && bytes.Some? && bytes.value in ChainInputs(sha, blocks)
            && HeadHash(sha, blocks) == Some(sha(bytes.value))
            && ChainInputs(sha, front) <= ChainInputs(sha, blocks)
            && RollingInputs(sha, b.txs) <= ChainInputs(sha, blocks)
  {
  }

  /** The last blocks of two chains with one head hash agree, and so do the heads before them. */
  lemma LastBlockBinds(sha: Hash, bs: seq<Block>, cs: seq<Block>, used: set<seq<byte>>)
    requires TransferChain(bs) && TransferChain(cs) && bs != [] && cs != []
    requires CollisionFreeOn(sha, used) && ChainInputs(sha, bs) <= used && ChainInputs(sha, cs) <= used
    requires HeadHash(sha, bs).Some? && HeadHash(sha, bs) == HeadHash(sha, cs)
    ensures var b, c := bs[|bs| - 1], cs[|cs| - 1];
            && |bs| == |cs| && b.timestamp == c.timestamp && Bodies(b.txs) == Bodies(c.txs)
            && HeadHash(sha, bs[..|bs| - 1]).Some?
            && HeadHash(sha, bs[..|bs| - 1]) == HeadHash(sha, cs[..|cs| - 1])
  {
    var b, c := bs[|bs| - 1], cs[|cs| - 1];
    LastBlock(sha, bs);
    LastBlock(sha, cs);
    BlockBytesInjective(sha, |bs|, b.timestamp, HeadHash(sha, bs[..|bs| - 1]).value, b.txs,
                        |cs|, c.timestamp, HeadHash(sha, cs[..|cs| - 1]).value, c.txs);
    RollingBinds(sha, b.txs, c.txs, used);
  }

  /**
    A head hash commits to the whole history: chains of transfer blocks with equal head hashes
    have the same length, and block by block the same time and the same transaction bodies,
    provided SHA-256 neither collides nor vanishes on what the two chains hashed.
   */
  lemma {:induction false} HeadHashBinds(sha: Hash, bs: seq<Block>, cs: seq<Block>, used: set<seq<byte>>)
    requires TransferChain(bs) && TransferChain(cs)
    requires CollisionFreeOn(sha, used) && NonZeroOn(sha, used)
    requires ChainInputs(sha, bs) <= used && ChainInputs(sha, cs) <= used
    requires HeadHash(sha, bs).Some? && HeadHash(sha, bs) == HeadHash(sha, cs)
    ensures |bs| == |cs| && Summaries(bs) == Summaries(cs)
    decreases |bs|
  {
    if bs != [] {
      LastBlock(sha, bs);
    }
    if cs != [] {
      LastBlock(sha, cs);
    }
    if bs != [] && cs != [] {
      LastBlockBinds(sha, bs, cs, used);
      HeadHashBinds(sha, bs[..|bs| - 1], cs[..|cs| - 1], used);
    }
  }

  // ----- Addresses of other lengths -----

  lemma {:induction false} HexReadsBack(bs: seq<byte>)
    ensures FromHex(HexEncode(bs)) == Some(bs)
  {
    if bs != [] {
      HexReadsBack(bs[1..]);
      DigitRoundTrip(bs[0] / 16);
      DigitRoundTrip(bs[0] % 16);
      var s := HexEncode(bs);
      assert s[2..] == HexEncode(bs[1..]);
      assert PairValue(s[0], s[1], false) == Some(bs[0]);
      assert [bs[0]] + bs[1..] == bs;
    }
  }

  /** A stored transaction with this body. */
  function Stored(b: Body): Transaction {
    Transaction("0x" + HexEncode(b.sender), Some("0x" + HexEncode(b.receiver)), Some(b.nonce),
                b.amount as real, b.receivedAt)
  }

  lemma StoredBody(b: Body)
    ensures Converts(Stored(b)) && BodyOf(Stored(b)) == b
    ensures TransactionBytes(Stored(b)) ==
            Some(b.sender + b.receiver + Le(b.nonce, 8) + Le(b.amount, 8) + Le(b.receivedAt, 8))
  {
    HexReadsBack(b.sender);
    HexReadsBack(b.receiver);
    assert StripPrefix("0x" + HexEncode(b.sender)) == HexEncode(b.sender);
    assert StripPrefix("0x" + HexEncode(b.receiver)) == HexEncode(b.receiver);
  }

  /** `b` with the last byte of the sender moved to the front of the receiver. */
  function Shifted(b: Body): (c: Body)
    requires b.sender != []
    ensures c.sender + c.receiver == b.sender + b.receiver
  {
    var n := |b.sender| - 1;
    b.(sender := b.sender[..n], receiver := [b.sender[n]] + b.receiver)
  }

  /**
    Nothing checks the length of an address: every transaction that can be hashed has another
    one, with a byte moved from the sender to the receiver, that has the same hash.
   */
  lemma UnequalAddressesAreAmbiguous(sha: Hash, t: Transaction)
    requires Converts(t) && BodyOf(t).sender != []
    ensures var u := Stored(Shifted(BodyOf(t)));
            && Converts(u) && BodyOf(t) != BodyOf(u)
            && TransactionHash(sha, t) == TransactionHash(sha, u)
  {
    StoredBody(Shifted(BodyOf(t)));
    assert |Shifted(BodyOf(t)).sender| != |BodyOf(t).sender|;
  }
}
