/**
  Signatures over whole runs: every debit was signed for by the account it takes from, and in a
  settled chain no signed message is applied twice.
 */
module SingleUse {
  import opened Bytes
  import opened Sequences
  import opened Smt
  import opened SignedMessage
  import opened Transition
  import opened History
  import opened Authorization
  import Ledger

  // ----- Where a transfer stands in the run -----

  lemma MoveAt(p: Primitives, txs: seq<Transaction>, i: nat)
    requires i < |txs|
    ensures MovesOf(p, txs)[i] == MoveOf(p, txs[i])
  {
    MappedAt(Move(p), txs, i);
  }

  lemma DepositEvent(p: Primitives, b: Batch, k: nat)
    requires k < |b.deposits| <= |EventsOf(p, b)|
    ensures EventsOf(p, b)[k].Paid?
  {
    PaymentsAreOnlyPayments(p, b.deposits);
    ConcatAt(PaymentsOf(p, b.deposits), MovesOf(p, b.transactions), k);
  }

  /** Transfer `i` of batch `m`, counted among all events of the run. */
  function Position(p: Primitives, bs: seq<Batch>, m: nat, i: nat): nat
    requires m < |bs|
  {
    |RunEvents(p, bs[..m])| + |bs[m].deposits| + i
  }

  ghost predicate IsTransferOf(bs: seq<Batch>, m: nat, i: nat) {
    m < |bs| && i < |bs[m].transactions|
  }

  lemma RunNext(p: Primitives, bs: seq<Batch>, m: nat)
    requires m < |bs|
    ensures RunEvents(p, bs[..m + 1]) == RunEvents(p, bs[..m]) + EventsOf(p, bs[m])
  {
    assert bs[..m + 1][..m] == bs[..m];
  }

  lemma {:induction false} RunStarts(p: Primitives, bs: seq<Batch>, m: nat)
    requires m <= |bs|
    ensures RunEvents(p, bs[..m]) <= RunEvents(p, bs)
  {
    if m == |bs| {
      assert bs[..m] == bs;
    } else {
      RunStarts(p, bs[..|bs| - 1], m);
      assert bs[..|bs| - 1][..m] == bs[..m];
    }
  }

  lemma PositionInRun(p: Primitives, bs: seq<Batch>, m: nat, i: nat)
    requires IsTransferOf(bs, m, i)
    ensures Position(p, bs, m, i) < |RunEvents(p, bs[..m + 1])|
  {
    RunNext(p, bs, m);
  }

  /** Its event is the move it stands for. */
  lemma EventAt(p: Primitives, bs: seq<Batch>, m: nat, i: nat)
    requires IsTransferOf(bs, m, i)
    ensures Position(p, bs, m, i) < |RunEvents(p, bs)|
    ensures RunEvents(p, bs)[Position(p, bs, m, i)] == MoveOf(p, bs[m].transactions[i])
  {
    var payments, moves := PaymentsOf(p, bs[m].deposits), MovesOf(p, bs[m].transactions);
    MoveAt(p, bs[m].transactions, i);
    RunNext(p, bs, m);
    RunStarts(p, bs, m + 1);
    LocatedAt(RunEvents(p, bs[..m]), payments, moves, RunEvents(p, bs), i);
  }

  lemma RunGrows(p: Primitives, bs: seq<Batch>, m: nat, n: nat)
    requires m <= n <= |bs|
    ensures |RunEvents(p, bs[..m])| <= |RunEvents(p, bs[..n])|
  {
    RunStarts(p, bs[..n], m);
    assert bs[..n][..m] == bs[..m];
  }

  /** Positions follow the order of batches and, within one, of transfers. */
  lemma PositionsRise(p: Primitives, bs: seq<Batch>, m: nat, i: nat, n: nat, j: nat)
    requires IsTransferOf(bs, m, i) && IsTransferOf(bs, n, j) && (m < n || (m == n && i < j))
    ensures Position(p, bs, m, i) < Position(p, bs, n, j)
  {
    if m < n {
      PositionInRun(p, bs, m, i);
      RunGrows(p, bs, m + 1, n);
    }
  }

  lemma OnlyTransfersDebit(p: Primitives, b: Batch, k: nat)
    requires k < |EventsOf(p, b)| && EventsOf(p, b)[k].Moved?
    ensures |b.deposits| <= k < |b.deposits| + |b.transactions|
  {
    if k < |b.deposits| {
      DepositEvent(p, b, k);
    }
  }

  lemma LastDebit(p: Primitives, before: seq<Event>, last: Batch, k: nat)
    requires |before| <= k < |before| + |EventsOf(p, last)| && (before + EventsOf(p, last))[k].Moved?
    ensures |last.deposits| <= k - |before| < |last.deposits| + |last.transactions|
  {
    ConcatAt(before, EventsOf(p, last), k);
    OnlyTransfersDebit(p, last, k - |before|);
  }

  lemma PositionInFront(p: Primitives, bs: seq<Batch>, m: nat, i: nat)
    requires bs != [] && IsTransferOf(bs[..|bs| - 1], m, i)
    ensures IsTransferOf(bs, m, i)
    ensures Position(p, bs, m, i) == Position(p, bs[..|bs| - 1], m, i)
  {
    assert bs[..|bs| - 1][..m] == bs[..m];
  }

  /** Every debit of a run is a transfer of one of its batches. */
  lemma {:induction false} DebitIsTransfer(p: Primitives, bs: seq<Batch>, k: nat) returns (m: nat, i: nat)
    requires k < |RunEvents(p, bs)| && RunEvents(p, bs)[k].Moved?
    ensures IsTransferOf(bs, m, i) && Position(p, bs, m, i) == k
  {
    var n := |bs| - 1;
    var before := RunEvents(p, bs[..n]);
    if k < |before| {
      m, i := DebitIsTransfer(p, bs[..n], k);
      PositionInFront(p, bs, m, i);
    } else {
      LastDebit(p, before, bs[n], k);
      m, i := n, k - |before| - |bs[n].deposits|;
    }
  }

  // ----- What the chain applied -----

  lemma {:induction false} ChainSucceeds(p: Primitives, bs: seq<Batch>, m: nat)
    requires Chain(p, bs) && m < |bs|
    ensures Succeeds(p, bs[m])
  {
    if m < |bs| - 1 {
      ChainSucceeds(p, bs[..|bs| - 1], m);
    } else {
      assert Settled(p, bs[m]);
    }
  }

  lemma SucceededIsApplied(p: Primitives, b: Batch, i: nat)
    requires Succeeds(p, b) && i < |b.transactions|
    ensures Applied(p, b, i)
  {
  }

  /**
    Every debit of successful batches, whatever their listings and roots, belongs to a transfer
    whose signature recovers to an address, and the account it takes from is the one at that
    address's key.
   */
  lemma EveryDebitIsSigned(p: Primitives, bs: seq<Batch>, k: nat) returns (m: nat, i: nat)
    requires forall n :: 0 <= n < |bs| ==> Succeeds(p, bs[n])
    requires k < |RunEvents(p, bs)| && RunEvents(p, bs)[k].Moved?
    ensures IsTransferOf(bs, m, i) && Position(p, bs, m, i) == k
    ensures SignatureValid(p, bs[m].transactions[i])
    ensures RunEvents(p, bs)[k].from == AddressToTreeKey(p, Recovered(p, bs[m].transactions[i]))
  {
    m, i := DebitIsTransfer(p, bs, k);
    EventAt(p, bs, m, i);
    SucceededIsApplied(p, bs[m], i);
    AppliedIsQuoteFree(p, bs[m], i);
    SenderIsSigner(p, bs[m].transactions[i]);
  }

  function HashOf(p: Primitives, tx: Transaction): Digest {
    MessageHash(p.keccak, IntentOf(tx))
  }

  function PreimageOf(tx: Transaction): seq<byte> {
    Preimage(TransactionMessage(IntentOf(tx)))
  }

  lemma SameIntentSameMove(p: Primitives, t: Transaction, u: Transaction)
    requires IntentOf(t) == IntentOf(u)
    ensures MoveOf(p, t) == MoveOf(p, u)
  {
  }

  lemma SameHashSameMove(p: Primitives, b: Batch, i: nat, c: Batch, j: nat, used: set<seq<byte>>)
    requires Applied(p, b, i) && Applied(p, c, j) && CollisionFreeOn(p.keccak, used)
    requires PreimageOf(b.transactions[i]) in used && PreimageOf(c.transactions[j]) in used
    requires HashOf(p, b.transactions[i]) == HashOf(p, c.transactions[j])
    ensures MoveOf(p, b.transactions[i]) == MoveOf(p, c.transactions[j])
  {
    SignedHashFixesTransfer(p, b, i, c, j);
    SameIntentSameMove(p, b.transactions[i], c.transactions[j]);
  }

  /** One move cannot stand at two places of the run. */
  lemma MovesDiffer(p: Primitives, bs: seq<Batch>, m: nat, i: nat, n: nat, j: nat)
    requires Chain(p, bs) && SoundFor(p, bs) && |RunEvents(p, bs)| <= TWO_TO_THE_64
    requires IsTransferOf(bs, m, i) && IsTransferOf(bs, n, j) && (m < n || (m == n && i < j))
    ensures MoveOf(p, bs[m].transactions[i]) != MoveOf(p, bs[n].transactions[j])
  {
    EventAt(p, bs, m, i);
    EventAt(p, bs, n, j);
    PositionsRise(p, bs, m, i, n, j);
    if MoveOf(p, bs[m].transactions[i]) == MoveOf(p, bs[n].transactions[j]) {
      NoTransferReplayed(p, bs, Position(p, bs, m, i), Position(p, bs, n, j));
    }
  }

  lemma NotTwiceInOrder(p: Primitives, bs: seq<Batch>, m: nat, i: nat, n: nat, j: nat, used: set<seq<byte>>)
    requires Chain(p, bs) && SoundFor(p, bs) && |RunEvents(p, bs)| <= TWO_TO_THE_64
    requires IsTransferOf(bs, m, i) && IsTransferOf(bs, n, j) && (m < n || (m == n && i < j))
    requires PreimageOf(bs[m].transactions[i]) in used && PreimageOf(bs[n].transactions[j]) in used
    requires CollisionFreeOn(p.keccak, used)
    ensures HashOf(p, bs[m].transactions[i]) != HashOf(p, bs[n].transactions[j])
  {
    ChainSucceeds(p, bs, m);
    ChainSucceeds(p, bs, n);
    SucceededIsApplied(p, bs[m], i);
    SucceededIsApplied(p, bs[n], j);
    MovesDiffer(p, bs, m, i, n, j);
    if HashOf(p, bs[m].transactions[i]) == HashOf(p, bs[n].transactions[j]) {
      SameHashSameMove(p, bs[m], i, bs[n], j, used);
    }
  }

  /**
    No signed message is applied at two places of a settled chain of at most 2^64 events,
    whatever signatures come with it. Settled batches list each key once; without that it fails
    (`Replays.SignedMessageReplayed`).
   */
  lemma NoSignedMessageTwice(p: Primitives, bs: seq<Batch>, m: nat, i: nat, n: nat, j: nat)
    requires Chain(p, bs) && SoundFor(p, bs) && |RunEvents(p, bs)| <= TWO_TO_THE_64
    requires IsTransferOf(bs, m, i) && IsTransferOf(bs, n, j)
    requires CollisionFreeOn(p.keccak, {PreimageOf(bs[m].transactions[i]), PreimageOf(bs[n].transactions[j])})
    ensures HashOf(p, bs[m].transactions[i]) == HashOf(p, bs[n].transactions[j]) <==> m == n && i == j
  {
    var used := {PreimageOf(bs[m].transactions[i]), PreimageOf(bs[n].transactions[j])};
    if m < n || (m == n && i < j) {
      NotTwiceInOrder(p, bs, m, i, n, j, used);
    } else if n < m || j < i {
      NotTwiceInOrder(p, bs, n, j, m, i, used);
    }
  }
}
