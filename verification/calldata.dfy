/**
  The calldata the host builds for a batch (executor/host) and its agreement with the guest's
  signature check and the contract's length check.
 */
module Calldata {
  import opened Bytes
  import opened Options
  import opened Sequences
  import opened Text
  import opened Smt
  import opened Transition
  import opened Authorization
  import RollupContract

  /** The fields of one transfer as they are laid out on chain: 141 bytes when well formed. */
  datatype Record = Record(
    from: seq<byte>, to: seq<byte>, amount: u64, nonce: u64, signature: seq<byte>, pubKey: seq<byte>)

  const RECORD_SIZE := RollupContract.RECORD_SIZE

  ghost predicate WellFormed(r: Record) {
    |r.from| == 20 && |r.to| == 20 && |r.signature| == 65 && |r.pubKey| == 20
  }

  /** The host's strict reader; a plus sign does not pass. */
  function StrictBytes(s: Text): Option<seq<byte>> {
    DecodePairs(StripPrefix(s), false)
  }

  /** `&bytes[..20]` of a hex string; None when the host panics. */
  function First20(s: Text): (r: Option<seq<byte>>)
    ensures r.Some? ==> |r.value| == 20
  {
    var bytes := StrictBytes(s);
    if bytes.Some? && |bytes.value| >= 20 then Some(bytes.value[..20]) else None
  }

  function RecordOf(tx: Transaction): Option<Record> {
    var from, to := First20(tx.from), First20(tx.to);
    var signature, pubKey := StrictBytes(tx.signature.signature), First20(tx.signature.pubKey);
    if from.Some? && to.Some? && signature.Some? && pubKey.Some?
    then Some(Record(from.value, to.value, tx.amount, tx.nonce, signature.value, pubKey.value))
    else None
  }

  function RecordsOf(txs: seq<Transaction>): Option<seq<Record>> {
    MapAll(RecordOf, txs)
  }

  function EncodeRecord(r: Record): seq<byte> {
    r.from + r.to + Be(r.amount, 8) + Be(r.nonce, 8) + r.signature + r.pubKey
  }

  function EncodeRecords(rs: seq<Record>): seq<byte> {
    if rs == [] then [] else EncodeRecords(rs[..|rs| - 1]) + EncodeRecord(rs[|rs| - 1])
  }

  /** The count is cast to 32 bits. */
  function Encode(rs: seq<Record>): seq<byte> {
    Be(|rs| % TWO_TO_THE_32, 4) + EncodeRecords(rs)
  }

  /** One turn of the encoding loop: the six fields of a transfer, in order. */
  method AppendTransaction(calldata: seq<byte>, tx: Transaction) returns (extended: Option<seq<byte>>)
    ensures extended ==
            match RecordOf(tx) case None => None case Some(r) => Some(calldata + EncodeRecord(r))
  {
    var from := First20(tx.from);
    var to := First20(tx.to);
    var signature := StrictBytes(tx.signature.signature);
    var pubKey := First20(tx.signature.pubKey);
    if from.None? || to.None? || signature.None? || pubKey.None? {
      return None;
    }
    var data := calldata + from.value;
    data := data + to.value;
    data := data + Be(tx.amount, 8);
    data := data + Be(tx.nonce, 8);
    data := data + signature.value;
    data := data + pubKey.value;
    Regroup(calldata, from.value, to.value, Be(tx.amount, 8), Be(tx.nonce, 8), signature.value, pubKey.value);
    extended := Some(data);
  }

  /** The encoding loop, after whatever is in the buffer already. */
  method AppendTransactions(calldata: seq<byte>, txs: seq<Transaction>) returns (extended: Option<seq<byte>>)
    ensures extended ==
            match RecordsOf(txs) case None => None case Some(rs) => Some(calldata + EncodeRecords(rs))
  {
    var data := calldata;
    ghost var done: seq<Record> := [];
    for i := 0 to |txs|
      invariant RecordsOf(txs[..i]) == Some(done)
      invariant data == calldata + EncodeRecords(done)
    {
      var next := AppendTransaction(data, txs[i]);
      if next.None? {
        MapAllFails(RecordOf, txs, i);
        return None;
      }
      MapAllNext(RecordOf, txs, i);
      EncodeNext(calldata, done, RecordOf(txs[i]).value);
      data := next.value;
      done := done + [RecordOf(txs[i]).value];
    }
    assert txs[..|txs|] == txs;
    extended := Some(data);
  }

  /** `create_transaction_calldata`: None when the host panics on a field. */
  method CreateTransactionCalldata(txs: seq<Transaction>) returns (calldata: Option<seq<byte>>)
    ensures calldata == match RecordsOf(txs) case None => None case Some(rs) => Some(Encode(rs))
  {
    var data := Be(|txs| % TWO_TO_THE_32, 4);
    calldata := AppendTransactions(data, txs);
  }

  lemma EncodeNext(header: seq<byte>, rs: seq<Record>, r: Record)
    ensures header + EncodeRecords(rs + [r]) == header + EncodeRecords(rs) + EncodeRecord(r)
  {
    assert (rs + [r])[..|rs|] == rs;
    assert header + (EncodeRecords(rs) + EncodeRecord(r)) == header + EncodeRecords(rs) + EncodeRecord(r);
  }

  lemma Regroup<T>(d: seq<T>, a: seq<T>, b: seq<T>, c: seq<T>, e: seq<T>, f: seq<T>, g: seq<T>)
    ensures d + a + b + c + e + f + g == d + (a + b + c + e + f + g)
  {
  }

  // ----- Reading it back -----

  function DecodeRecord(data: seq<byte>): (r: Record)
    requires |data| == RECORD_SIZE
    ensures WellFormed(r)
  {
    Widths();
    BeOfFromBe(data[40..48]);
    BeOfFromBe(data[48..56]);
    Record(data[..20], data[20..40], FromBe(data[40..48]), FromBe(data[48..56]), data[56..121], data[121..])
  }

  /** Reads whole records from the right. */
  function DecodeRecords(data: seq<byte>): (rs: seq<Record>)
    requires |data| % RECORD_SIZE == 0
    ensures |rs| == |data| / RECORD_SIZE
  {
    if data == [] then []
    else
      var cut := |data| - RECORD_SIZE;
      DecodeRecords(data[..cut]) + [DecodeRecord(data[cut..])]
  }

  /** The records in a whole calldata; None unless it is a count and whole records. */
  function Decode(data: seq<byte>): Option<seq<Record>> {
    if |data| < 4 || (|data| - 4) % RECORD_SIZE != 0 then None else Some(DecodeRecords(data[4..]))
  }

  lemma DecodeOfEncodeRecord(r: Record)
    requires WellFormed(r)
    ensures |EncodeRecord(r)| == RECORD_SIZE
    ensures DecodeRecord(EncodeRecord(r)) == r
  {
    Widths();
    BeRoundTrip(r.amount, 8);
    BeRoundTrip(r.nonce, 8);
    var data := EncodeRecord(r);
    assert data[..20] == r.from && data[20..40] == r.to;
    assert data[40..48] == Be(r.amount, 8) && data[48..56] == Be(r.nonce, 8);
    assert data[56..121] == r.signature && data[121..] == r.pubKey;
  }

  lemma EncodeOfDecodeRecord(data: seq<byte>)
    requires |data| == RECORD_SIZE
    ensures EncodeRecord(DecodeRecord(data)) == data
  {
    BeOfFromBe(data[40..48]);
    BeOfFromBe(data[48..56]);
    assert data == data[..20] + data[20..40] + data[40..48] + data[48..56] + data[56..121] + data[121..];
  }

  ghost predicate AllWellFormed(rs: seq<Record>) {
    forall i :: 0 <= i < |rs| ==> WellFormed(rs[i])
  }

  /** Well-formed records are read back from their encoding, all of them and in order. */
  lemma {:induction false} DecodeOfEncodeRecords(rs: seq<Record>)
    requires AllWellFormed(rs)
    ensures |EncodeRecords(rs)| == RECORD_SIZE * |rs|
    ensures DecodeRecords(EncodeRecords(rs)) == rs
  {
    if rs != [] {
      var front, last := rs[..|rs| - 1], rs[|rs| - 1];
      DecodeOfEncodeRecords(front);
      DecodeOfEncodeRecord(last);
      var data := EncodeRecords(rs);
      assert data[..|data| - RECORD_SIZE] == EncodeRecords(front);
      assert data[|data| - RECORD_SIZE..] == EncodeRecord(last);
      assert rs == front + [last];
    }
  }

  lemma DecodeOfEncode(rs: seq<Record>)
    requires AllWellFormed(rs)
    ensures Decode(Encode(rs)) == Some(rs)
  {
    DecodeOfEncodeRecords(rs);
    assert Encode(rs)[4..] == EncodeRecords(rs);
  }

  /** And any body of whole records is the encoding of the records read from it. */
  lemma {:induction false} EncodeOfDecodeRecords(data: seq<byte>)
    requires |data| % RECORD_SIZE == 0
    ensures EncodeRecords(DecodeRecords(data)) == data
    decreases |data|
  {
    if data != [] {
      var cut := |data| - RECORD_SIZE;
      EncodeOfDecodeRecords(data[..cut]);
      EncodeOfDecodeRecord(data[cut..]);
      var front, last := DecodeRecords(data[..cut]), DecodeRecord(data[cut..]);
      assert (front + [last])[..|front|] == front;
      assert data == data[..cut] + data[cut..];
    }
  }

  // ----- Agreement with guest and contract -----

  /** What the guest's signature check asks of a signature string. */
  ghost predicate PassesGuestLength(tx: Transaction) {
    HexBytes(tx.signature.signature).Some? && |HexBytes(tx.signature.signature).value| == 65
  }

  lemma GuestSignatureIs65(p: Primitives, tx: Transaction)
    requires SignatureValid(p, tx)
    ensures PassesGuestLength(tx)
  {
  }

  /** A record built from a transfer that passes the guest's check is well formed. */
  lemma RecordWellFormed(tx: Transaction)
    requires RecordOf(tx).Some? && PassesGuestLength(tx)
    ensures WellFormed(RecordOf(tx).value)
  {
    StrictAgreesWithLenient(StripPrefix(tx.signature.signature));
  }

  lemma RecordsWellFormed(p: Primitives, txs: seq<Transaction>)
    requires RecordsOf(txs).Some? && AllSigned(p, txs)
    ensures AllWellFormed(RecordsOf(txs).value)
  {
    var rs := RecordsOf(txs).value;
    forall i | 0 <= i < |rs| ensures WellFormed(rs[i]) {
      MapAllAt(RecordOf, txs, i);
      assert Signed(p, txs[i]);
      GuestSignatureIs65(p, txs[i]);
      RecordWellFormed(txs[i]);
    }
  }

  // ----- Spelling: where the host reads less than the guest -----

  /** No plus sign for a digit, and no prefix written `0X`. */
  predicate Plain(s: Text) {
    '+' !in s && 'X' !in s
  }

  /** The host reads what the guest reads as bytes, if it is spelled plainly. */
  lemma HostReadsPlain(s: Text)
    requires HexBytes(s).Some?
    ensures StrictBytes(s).Some? <==> Plain(s)
  {
    StrictUnlessPlus(StripPrefix(s));
    if StripPrefix(s) != s {
      assert s == ['0', 'x'] + s[2..];
    }
  }

  lemma LowerTail(s: Text, t: Text)
    requires Lower(s) == Lower(t) && |s| >= 2
    ensures Lower(s[2..]) == Lower(t[2..])
  {
    assert Lower(s[2..]) == Lower(s)[2..];
    assert Lower(t[2..]) == Lower(t)[2..];
  }

  /** The prefix aside, a respelling of an address is read as the address is; `0X` is no prefix. */
  lemma RespelledAddress(address: Text, name: Text)
    requires AddressOf(address).Some? && Lower(name) == Lower(address)
    ensures |name| >= 2
    ensures name[1] == 'X' ==> StrictBytes(name).None?
    ensures name[1] != 'X' ==> HexBytes(name) == AddressOf(address)
  {
    assert Lower(name)[0] == Lower(address)[0] && Lower(name)[1] == Lower(address)[1];
    var clean := StripPrefix(address);
    StrictUnlessPlus(clean);
    if name[1] != 'X' {
      if clean != address {
        LowerTail(name, address);
      }
      DecodeIgnoresCase(StripPrefix(name), true);
      DecodeIgnoresCase(clean, true);
    }
  }

  /** A name that is an address up to case is encoded by the host exactly when it is spelled plainly. */
  lemma HostReadsName(address: Text, name: Text)
    requires AddressOf(address).Some? && Lower(name) == Lower(address)
    ensures First20(name).Some? <==> Plain(name)
    ensures First20(name).Some? ==> First20(name) == AddressOf(address)
  {
    RespelledAddress(address, name);
    if name[1] != 'X' {
      HostReadsPlain(name);
      if StrictBytes(name).Some? {
        StrictAgreesWithLenient(StripPrefix(name));
        assert StrictBytes(name).value[..20] == StrictBytes(name).value;
      }
    }
  }

  /** Two of the three names a signature check reads: the sender and the key it claims. */
  lemma SignedNames(p: Primitives, tx: Transaction)
    requires Signed(p, tx)
    ensures First20(tx.from).Some? <==> Plain(tx.from)
    ensures First20(tx.signature.pubKey).Some? <==> Plain(tx.signature.pubKey)
  {
    SignerTextReads(p, tx);
    HostReadsName(SignerText(p, tx), tx.from);
    HostReadsName(SignerText(p, tx), tx.signature.pubKey);
  }

  /** What the host asks of the spelling of a transfer, its receiver aside. */
  predicate PlainlySigned(tx: Transaction) {
    Plain(tx.from) && Plain(tx.signature.pubKey) && Plain(tx.signature.signature)
  }

  /**
    A signed transfer can be encoded exactly when it is spelled plainly and its receiver has 20
    bytes to read.
   */
  lemma SignedRecordIff(p: Primitives, tx: Transaction)
    requires Signed(p, tx)
    ensures RecordOf(tx).Some? <==> PlainlySigned(tx) && First20(tx.to).Some?
  {
    SignedNames(p, tx);
    GuestSignatureIs65(p, tx);
    HostReadsPlain(tx.signature.signature);
  }

  /** The claimed key of a transfer, respelled with a capital X. */
  function Respelled(tx: Transaction): Transaction
    requires |tx.from| >= 2
  {
    tx.(signature := tx.signature.(pubKey := "0X" + tx.from[2..]))
  }

  /** So every signed transfer has a spelling that the guest takes just as well and the host panics on. */
  lemma GuestTakesRespelling(p: Primitives, tx: Transaction)
    requires Signed(p, tx)
    ensures |tx.from| >= 2 && Signed(p, Respelled(tx)) && IntentOf(Respelled(tx)) == IntentOf(tx)
    ensures RecordOf(Respelled(tx)).None?
  {
    SenderHasPrefix(p, tx);
    RespelledKey(tx.from);
    XIsNoPrefix(Respelled(tx).signature.pubKey);
  }

  lemma SenderHasPrefix(p: Primitives, tx: Transaction)
    requires Signed(p, tx)
    ensures |tx.from| >= 2 && Lower(tx.from)[0] == '0' && Lower(tx.from)[1] == 'x'
  {
    SignerTextReads(p, tx);
    assert Lower(tx.from)[1] == Lower(SignerText(p, tx))[1] == 'x';
    assert Lower(tx.from)[0] == Lower(SignerText(p, tx))[0] == '0';
  }

  lemma RespelledKey(from: Text)
    requires |from| >= 2 && Lower(from)[0] == '0' && Lower(from)[1] == 'x'
    ensures Lower("0X" + from[2..]) == Lower(from)
  {
  }

  lemma XIsNoPrefix(s: Text)
    requires |s| >= 2 && s[1] == 'X'
    ensures StrictBytes(s).None?
  {
  }

  /** The contract's test on a count and `n` records' worth of bytes. */
  lemma LengthCheckIff(data: seq<byte>, n: nat)
    requires |data| == 4 + RECORD_SIZE * n && FromBe(data[0..4]) == n % TWO_TO_THE_32
    ensures RollupContract.TxDataCheck(data).Done? <==> 4 + RECORD_SIZE * n < TWO_TO_THE_32
  {
    var size := 141 * n;
    assert size == RECORD_SIZE * n;
  }

  lemma EncodedCount(rs: seq<Record>)
    ensures |Encode(rs)| == 4 + |EncodeRecords(rs)|
    ensures FromBe(Encode(rs)[0..4]) == |rs| % TWO_TO_THE_32
  {
    Widths();
    BeRoundTrip(|rs| % TWO_TO_THE_32, 4);
    assert Encode(rs)[0..4] == Be(|rs| % TWO_TO_THE_32, 4);
  }

  /** The contract accepts the host's encoding of n well-formed records iff 4 + 141n < 2^32. */
  lemma ContractAcceptsIff(rs: seq<Record>)
    requires AllWellFormed(rs)
    ensures |Encode(rs)| == 4 + RECORD_SIZE * |rs|
    ensures RollupContract.TxDataCheck(Encode(rs)).Done? <==> 4 + RECORD_SIZE * |rs| < TWO_TO_THE_32
  {
    DecodeOfEncodeRecords(rs);
    EncodedCount(rs);
    LengthCheckIff(Encode(rs), |rs|);
  }

  // ----- What stands where -----

  /** The record of a signed transfer carries the transfer's own fields. */
  lemma RecordFields(p: Primitives, tx: Transaction)
    requires Signed(p, tx) && RecordOf(tx).Some?
    ensures var r := RecordOf(tx).value;
            && r.from == r.pubKey == Recovered(p, tx)
            && r.amount == tx.amount && r.nonce == tx.nonce
            && HexBytes(tx.signature.signature) == Some(r.signature) && |r.signature| == 65
            && StrictBytes(tx.to).Some? && |StrictBytes(tx.to).value| >= 20 && r.to == StrictBytes(tx.to).value[..20]
            && (AddressOf(Lower(tx.to)).Some? ==> AddressOf(Lower(tx.to)) == Some(r.to))
  {
    SignerTextReads(p, tx);
    HostReadsName(SignerText(p, tx), tx.from);
    HostReadsName(SignerText(p, tx), tx.signature.pubKey);
    StrictAgreesWithLenient(StripPrefix(tx.signature.signature));
    if AddressOf(Lower(tx.to)).Some? {
      LowerTwice(tx.to);
      HostReadsName(Lower(tx.to), tx.to);
    }
  }

  /** Where the fields of a record stand in its 141 bytes; numbers from the most significant byte. */
  lemma RecordLayout(r: Record)
    requires WellFormed(r)
    ensures var data := EncodeRecord(r);
            && |data| == 141
            && data[..20] == r.from && data[20..40] == r.to
            && FromBe(data[40..48]) == r.amount && FromBe(data[48..56]) == r.nonce
            && data[56..121] == r.signature && data[121..] == r.pubKey
  {
    var data := EncodeRecord(r);
    Widths();
    BeRoundTrip(r.amount, 8);
    BeRoundTrip(r.nonce, 8);
    assert data[..20] == r.from && data[20..40] == r.to;
    assert data[40..48] == Be(r.amount, 8) && data[48..56] == Be(r.nonce, 8);
    assert data[56..121] == r.signature && data[121..] == r.pubKey;
  }

  lemma EncodedLength(rs: seq<Record>)
    requires AllWellFormed(rs)
    ensures |EncodeRecords(rs)| == 141 * |rs|
  {
    DecodeOfEncodeRecords(rs);
  }

  lemma SliceFront<T>(a: seq<T>, b: seq<T>, from: nat, to: nat)
    requires from <= to <= |a|
    ensures (a + b)[from..to] == a[from..to]
  {
  }

  lemma SliceBack<T>(a: seq<T>, b: seq<T>, from: nat, to: nat)
    requires from == |a| && to == |a| + |b|
    ensures (a + b)[from..to] == b
  {
  }

  lemma {:induction false} RecordAt(rs: seq<Record>, i: nat)
    requires AllWellFormed(rs) && i < |rs| && |EncodeRecords(rs)| == 141 * |rs|
    ensures EncodeRecords(rs)[141 * i..141 * i + 141] == EncodeRecord(rs[i])
  {
    var front, last := rs[..|rs| - 1], rs[|rs| - 1];
    EncodedLength(front);
    if i < |front| {
      RecordAt(front, i);
      SliceFront(EncodeRecords(front), EncodeRecord(last), 141 * i, 141 * i + 141);
    } else {
      RecordLayout(last);
      SliceBack(EncodeRecords(front), EncodeRecord(last), 141 * i, 141 * i + 141);
    }
  }

  /** A stretch of calldata says what the transfer says. */
  ghost predicate Carries(p: Primitives, data: seq<byte>, tx: Transaction)
    requires SignatureValid(p, tx)
  {
    && |data| == 141
    && data[..20] == Recovered(p, tx)
    && StrictBytes(tx.to).Some? && data[20..40] <= StrictBytes(tx.to).value
    && (AddressOf(Lower(tx.to)).Some? ==> data[20..40] == AddressOf(Lower(tx.to)).value)
    && FromBe(data[40..48]) == tx.amount
    && FromBe(data[48..56]) == tx.nonce
    && HexBytes(tx.signature.signature) == Some(data[56..121])
    && data[121..] == Recovered(p, tx)
  }

  lemma RecordCarries(p: Primitives, tx: Transaction)
    requires Signed(p, tx) && RecordOf(tx).Some?
    ensures Carries(p, EncodeRecord(RecordOf(tx).value), tx)
  {
    GuestSignatureIs65(p, tx);
    RecordWellFormed(tx);
    RecordFields(p, tx);
    RecordLayout(RecordOf(tx).value);
  }

  lemma PieceOf<T>(header: seq<T>, body: seq<T>, from: nat, to: nat)
    requires |header| == 4 && from <= to <= |body|
    ensures (header + body)[4 + from..4 + to] == body[from..to]
  {
  }

  lemma EncodedPiece(rs: seq<Record>, i: nat)
    requires AllWellFormed(rs) && i < |rs|
    ensures |Encode(rs)| == 4 + 141 * |rs|
    ensures Encode(rs)[4 + 141 * i..145 + 141 * i] == EncodeRecord(rs[i])
  {
    EncodedLength(rs);
    RecordAt(rs, i);
    PieceOf(Be(|rs| % TWO_TO_THE_32, 4), EncodeRecords(rs), 141 * i, 141 * i + 141);
  }

  /**
    What the contract is sent: after four bytes of count, transfer `i` stands in the 141 bytes from
    4 + 141i: sender, receiver, amount, nonce, signature and key, as the guest read them.
   */
  lemma CalldataCarries(p: Primitives, txs: seq<Transaction>, i: nat)
    requires AllSigned(p, txs) && RecordsOf(txs).Some? && i < |txs|
    ensures var data := Encode(RecordsOf(txs).value);
            && |data| == 4 + 141 * |txs| && FromBe(data[0..4]) == |txs| % 0x1_0000_0000
            && SignatureValid(p, txs[i])
            && Carries(p, data[4 + 141 * i..145 + 141 * i], txs[i])
  {
    var rs := RecordsOf(txs).value;
    RecordsWellFormed(p, txs);
    EncodedCount(rs);
    EncodedPiece(rs, i);
    MapAllAt(RecordOf, txs, i);
    assert Signed(p, txs[i]);
    RecordCarries(p, txs[i]);
  }

  ghost predicate Encodable(txs: seq<Transaction>) {
    forall i :: 0 <= i < |txs| ==> PlainlySigned(txs[i]) && First20(txs[i].to).Some?
  }

  /**
    Host, guest and contract on any list whose signatures pass the guest: the host encodes it
    exactly when every transfer is spelled plainly and has a readable receiver. The calldata then
    has 4 + 141n bytes, the contract takes it exactly when that fits 32 bits, every record can be
    read back from it, and every transfer's own fields stand in its 141 bytes.
   */
  lemma CalldataAgreement(p: Primitives, txs: seq<Transaction>)
    requires AllSigned(p, txs)
    ensures RecordsOf(txs).Some? <==> Encodable(txs)
    ensures Encodable(txs) ==>
              var rs := RecordsOf(txs).value;
              var data := Encode(rs);
              && |data| == 4 + RECORD_SIZE * |txs|
              && (RollupContract.TxDataCheck(data).Done? <==> 4 + RECORD_SIZE * |txs| < TWO_TO_THE_32)
              && Decode(data) == Some(rs)
              && forall i :: 0 <= i < |txs| ==>
                   SignatureValid(p, txs[i]) && Carries(p, data[4 + 141 * i..145 + 141 * i], txs[i])
  {
    EncodableIff(p, txs);
    if Encodable(txs) {
      var rs := RecordsOf(txs).value;
      RecordsWellFormed(p, txs);
      ContractAcceptsIff(rs);
      DecodeOfEncode(rs);
      forall i | 0 <= i < |txs|
        ensures SignatureValid(p, txs[i]) && Carries(p, Encode(rs)[4 + 141 * i..145 + 141 * i], txs[i])
      {
        CalldataCarries(p, txs, i);
      }
    }
  }

  lemma EncodableIff(p: Primitives, txs: seq<Transaction>)
    requires AllSigned(p, txs)
    ensures RecordsOf(txs).Some? <==> Encodable(txs)
  {
    MapAllIff(RecordOf, txs);
    forall i | 0 <= i < |txs|
      ensures RecordOf(txs[i]).Some? <==> PlainlySigned(txs[i]) && First20(txs[i].to).Some?
    {
      assert Signed(p, txs[i]);
      SignedRecordIff(p, txs[i]);
    }
  }

  /** A batch the guest fully processed can be put on chain exactly when all its text is spelled plainly. */
  lemma ProcessedBatchEncodableIff(p: Primitives, b: Batch)
    requires Evaluate(p, b).Some? && FullyProcessed(Evaluate(p, b).value, b)
    ensures RecordsOf(b.transactions).Some? <==>
            forall i :: 0 <= i < |b.transactions| ==> PlainlySigned(b.transactions[i]) && Plain(b.transactions[i].to)
  {
    EncodableIff(p, b.transactions);
    forall i | 0 <= i < |b.transactions|
      ensures First20(b.transactions[i].to).Some? <==> Plain(b.transactions[i].to)
    {
      var r := Evaluate(p, b).value.roster;
      AppliedIsListed(p, b, i);
      var k := FindAccountIndex(r.addresses, b.transactions[i].to).value;
      KeyAt(p, r.addresses, k);
      HostReadsName(r.addresses[k], b.transactions[i].to);
    }
  }

  /** What the contract's test means for the length. */
  lemma AcceptedLength(data: seq<byte>)
    requires RollupContract.TxDataCheck(data).Done?
    ensures |data| >= 4
    ensures (|data| - 4) % RECORD_SIZE == 0
    ensures (|data| - 4) / RECORD_SIZE == FromBe(data[0..4]) < TWO_TO_THE_32
  {
    var count := FromBe(data[0..4]);
    assert |data| - 4 == 141 * count;
  }

  lemma CountFits(count: u32)
    ensures count % TWO_TO_THE_32 == count
  {
  }

  lemma EncodeOfDecode(count: u32, header: seq<byte>, rs: seq<Record>)
    requires header == Be(count, 4) && |rs| == count
    ensures header + EncodeRecords(rs) == Encode(rs)
  {
    CountFits(count);
  }

  /** Whole records under their right count are the encoding of what is read from them. */
  lemma EncodeOfWhole(data: seq<byte>)
    requires |data| >= 4 && (|data| - 4) % RECORD_SIZE == 0
    requires (|data| - 4) / RECORD_SIZE == FromBe(data[0..4]) < TWO_TO_THE_32
    ensures data == Encode(DecodeRecords(data[4..]))
  {
    BeOfFromBe(data[0..4]);
    EncodeOfDecode(FromBe(data[0..4]), data[0..4], DecodeRecords(data[4..]));
    EncodeOfDecodeRecords(data[4..]);
    assert data == data[0..4] + data[4..];
  }

  /** Conversely, whatever the contract's check accepts is the host's encoding of some records. */
  lemma AcceptedIsEncoding(data: seq<byte>)
    requires RollupContract.TxDataCheck(data).Done?
    ensures Decode(data).Some?
    ensures data == Encode(Decode(data).value)
  {
    AcceptedLength(data);
    EncodeOfWhole(data);
  }
}
