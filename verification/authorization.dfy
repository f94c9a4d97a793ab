/**
  What a wallet's signature authorizes: a signed message stands for one transfer only, for every
  transfer a batch applies.
 */
module Authorization {
  import opened Bytes
  import opened Options
  import opened Text
  import opened Smt
  import opened SignedMessage
  import opened Transition
  import opened Conservation

  lemma LowerKeepsQuotes(s: Text)
    ensures QUOTE in Lower(s) <==> QUOTE in s
  {
    if QUOTE in s {
      var i :| 0 <= i < |s| && s[i] == QUOTE;
      assert Lower(s)[i] == QUOTE;
    }
    if QUOTE in Lower(s) {
      var i :| 0 <= i < |s| && Lower(s)[i] == QUOTE;
      assert s[i] == QUOTE;
    }
  }

  /** The text of the address that a public key stands for. */
  function AddressText(p: Primitives, point: seq<byte>): Text {
    "0x" + HexEncode(p.keccak(point)[12..32])
  }

  /**
    Which signatures pass: 65 bytes whose last is 0 or 27 for the first candidate key and 1 or 28
    for the second, and whose candidate, recovered from the hash of the printed transfer, has the
    sender's address up to case. Every other last byte is refused.
   */
  lemma SignatureValidIff(p: Primitives, tx: Transaction, bs: seq<byte>, id: nat)
    requires HexBytes(tx.signature.signature) == Some(bs) && |bs| == 65
    ensures id <= 1 && (bs[64] == id || bs[64] == 27 + id) ==>
              var hash := p.keccak(Preimage(TransactionMessage(Intent(tx.from, tx.to, tx.amount, tx.nonce))));
              var point := p.recover(hash, bs[..64], id);
              (SignatureValid(p, tx) <==> point.Some? && Lower(AddressText(p, point.value)) == Lower(tx.from))
    ensures bs[64] !in {0, 1, 27, 28} ==> !SignatureValid(p, tx)
  {
    assert bs[0..64] == bs[..64];
  }

  /** And only signatures of 65 readable bytes pass. */
  lemma OtherSignaturesFail(p: Primitives, tx: Transaction)
    requires HexBytes(tx.signature.signature).None? || |HexBytes(tx.signature.signature).value| != 65
    ensures !SignatureValid(p, tx)
  {
  }

  /** A transfer counts as signed if its signature is valid and the key it names is its sender. */
  lemma SignedIff(p: Primitives, tx: Transaction)
    ensures Signed(p, tx) <==> SignatureValid(p, tx) && Lower(tx.signature.pubKey) == Lower(tx.from)
  {
  }

  /** The address a valid signature recovers to. */
  function Recovered(p: Primitives, tx: Transaction): (address: seq<byte>)
    requires SignatureValid(p, tx)
    ensures |address| == 20
  {
    var bs := HexBytes(tx.signature.signature).value;
    p.keccak(p.recover(MessageHash(p.keccak, IntentOf(tx)), bs[0..64], RecoveryId(bs[64])).value)[12..32]
  }

  /** That address as the guest prints it. */
  function SignerText(p: Primitives, tx: Transaction): Text
    requires SignatureValid(p, tx)
  {
    "0x" + HexEncode(Recovered(p, tx))
  }

  lemma SignerTextReads(p: Primitives, tx: Transaction)
    requires SignatureValid(p, tx)
    ensures AddressOf(SignerText(p, tx)) == Some(Recovered(p, tx))
    ensures Lower(tx.from) == Lower(SignerText(p, tx))
  {
    DecodeOfEncode(Recovered(p, tx), true);
    assert StripPrefix(SignerText(p, tx)) == HexEncode(Recovered(p, tx));
  }

  /** The sender of a signed transfer is the recovered address, and its funds are at that address's key. */
  lemma SenderIsSigner(p: Primitives, tx: Transaction)
    requires SignatureValid(p, tx)
    ensures AddressOf(Lower(tx.from)) == Some(Recovered(p, tx))
    ensures TreeKey(p, Lower(tx.from)) == Some(AddressToTreeKey(p, Recovered(p, tx)))
  {
    SignerTextReads(p, tx);
    AddressIgnoresCase(SignerText(p, tx));
  }

  /** A sender whose signature was recovered is plain hex. */
  lemma SenderIsQuoteFree(p: Primitives, tx: Transaction)
    requires SignatureValid(p, tx)
    ensures QUOTE !in tx.from
  {
    SenderIsSigner(p, tx);
    DecodedHasNoQuote(StripPrefix(Lower(tx.from)), true);
    StripHasNoQuote(Lower(tx.from));
    LowerKeepsQuotes(tx.from);
  }

  /** A listed name is plain hex. */
  lemma ListedIsQuoteFree(p: Primitives, r: Roster, name: Text)
    requires KeysOf(p, r.addresses) == Some(r.keys)
    requires FindAccountIndex(r.addresses, name).Some?
    ensures QUOTE !in name
  {
    var address := r.addresses[FindAccountIndex(r.addresses, name).value];
    KeyAt(p, r.addresses, FindAccountIndex(r.addresses, name).value);
    DecodedHasNoQuote(StripPrefix(address), true);
    StripHasNoQuote(address);
    LowerKeepsQuotes(address);
    LowerKeepsQuotes(name);
  }

  lemma {:induction false} AppliedAreListed(p: Primitives, r: Roster, w: World, txs: seq<Transaction>, i: nat)
    requires Fits(r, w) && RunTransfers(p, r, w, txs).Some? && i < |txs|
    ensures FindAccountIndex(r.addresses, txs[i].to).Some?
  {
    if i < |txs| - 1 {
      AppliedAreListed(p, r, w, txs[..|txs| - 1], i);
    }
  }

  /** A batch applies transfers only when every signature was verified, and only to listed receivers. */
  lemma AppliedIsListed(p: Primitives, b: Batch, i: nat)
    requires Evaluate(p, b).Some? && i < Evaluate(p, b).value.transfersDone
    ensures i < |b.transactions| && AllSigned(p, b.transactions)
    ensures FindAccountIndex(Evaluate(p, b).value.roster.addresses, b.transactions[i].to).Some?
  {
    var e := Evaluate(p, b).value;
    AppliedPrefixes(p, b);
    AppliedAreListed(p, e.roster, RunDeposits(p, e.roster, e.start, b.deposits[..e.depositsDone]),
                     b.transactions[..e.transfersDone], i);
  }

  /** Every applied transfer, of a batch that ran to its end or stopped early, has names without quotes. */
  lemma AppliedIsQuoteFree(p: Primitives, b: Batch, i: nat)
    requires Evaluate(p, b).Some? && i < Evaluate(p, b).value.transfersDone
    ensures i < |b.transactions| && Signed(p, b.transactions[i])
    ensures QuoteFree(IntentOf(b.transactions[i]))
  {
    AppliedIsListed(p, b, i);
    ListedIsQuoteFree(p, Evaluate(p, b).value.roster, b.transactions[i].to);
    assert Signed(p, b.transactions[i]);
    SenderIsQuoteFree(p, b.transactions[i]);
  }

  /** Transfer `i` of `b` was applied. */
  predicate Applied(p: Primitives, b: Batch, i: nat) {
    Evaluate(p, b).Some? && i < Evaluate(p, b).value.transfersDone && i < |b.transactions|
  }

  /**
    Two applied transfers, of one batch or of two, whose signed hashes are equal are the same
    transfer: same names, same amount, same nonce. A signature cannot be carried over to
    another transfer.
   */
  lemma SignedHashFixesTransfer(p: Primitives, b: Batch, i: nat, c: Batch, j: nat)
    requires Applied(p, b, i) && Applied(p, c, j)
    requires var t, u := IntentOf(b.transactions[i]), IntentOf(c.transactions[j]);
             && CollisionFreeOn(p.keccak, {Preimage(TransactionMessage(t)), Preimage(TransactionMessage(u))})
             && MessageHash(p.keccak, t) == MessageHash(p.keccak, u)
    ensures IntentOf(b.transactions[i]) == IntentOf(c.transactions[j])
  {
    var t, u := IntentOf(b.transactions[i]), IntentOf(c.transactions[j]);
    AppliedIsQuoteFree(p, b, i);
    AppliedIsQuoteFree(p, c, j);
    PreimageInjective(TransactionMessage(t), TransactionMessage(u));
    MessageInjective(t, u);
  }
}
