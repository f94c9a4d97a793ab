/**
  When a batch settles: the guest reports success exactly for the batches whose events replay
  on the tree they list and whose two claimed roots are the roots of that replay.
 */
module Settlement {
  import opened Bytes
  import opened Smt
  import opened Transition
  import opened TreeAgreement
  import opened History
  import Ledger

  predicate Named(r: Roster, tx: Transaction) {
    FindAccountIndex(r.addresses, tx.from).Some? && FindAccountIndex(r.addresses, tx.to).Some?
  }

  predicate AllNamed(r: Roster, txs: seq<Transaction>) {
    txs == [] || (AllNamed(r, txs[..|txs| - 1]) && Named(r, txs[|txs| - 1]))
  }

  lemma {:induction false} AllNamedIsEachNamed(r: Roster, txs: seq<Transaction>)
    ensures AllNamed(r, txs) <==> forall i :: 0 <= i < |txs| ==> Named(r, txs[i])
  {
    if txs != [] {
      AllNamedIsEachNamed(r, txs[..|txs| - 1]);
    }
  }

  /** Between listed accounts, the guest applies a transfer exactly when the ledger does. */
  lemma TransferIffMove(p: Primitives, r: Roster, w: World, tx: Transaction)
    requires LeafHashSound(p) && Reads(p, r) && Fits(r, w) && Agrees(p, r, w)
    ensures Transfer(p, r, w, tx).Some? <==> Named(r, tx) && Ledger.Step(w.tree, MoveOf(p, tx)).Some?
  {
    if Named(r, tx) {
      FoundKey(p, r, tx.from);
      ReadsListed(p, r, w, FindAccountIndex(r.addresses, tx.from).value);
    }
  }

  /** A list of transfers is valid in turn exactly when its moves can be replayed. */
  lemma {:induction false} TransfersIffMoves(p: Primitives, r: Roster, w: World, txs: seq<Transaction>)
    requires LeafHashSound(p) && Reads(p, r) && Fits(r, w) && Agrees(p, r, w)
    ensures RunTransfers(p, r, w, txs).Some? <==>
            AllNamed(r, txs) && Ledger.Replay(w.tree, MovesOf(p, txs)).Some?
  {
    if txs != [] {
      var front, tx := txs[..|txs| - 1], txs[|txs| - 1];
      TransfersIffMoves(p, r, w, front);
      MovesNext(p, txs);
      Ledger.ReplayNext(w.tree, MovesOf(p, front), MoveOf(p, tx));
      if RunTransfers(p, r, w, front).Some? {
        TransfersAreMoves(p, r, w, front);
        TransfersAgree(p, r, w, front);
        TransferIffMove(p, r, RunTransfers(p, r, w, front).value, tx);
      }
    }
  }

  lemma RunIffReplay(p: Primitives, r: Roster, w: World, ds: seq<DepositInfo>, txs: seq<Transaction>)
    requires LeafHashSound(p) && Reads(p, r) && Fits(r, w) && Agrees(p, r, w) && AllKnown(r, ds)
    ensures RunTransfers(p, r, RunDeposits(p, r, w, ds), txs).Some? <==>
            AllNamed(r, txs) && Ledger.Replay(w.tree, PaymentsOf(p, ds) + MovesOf(p, txs)).Some?
  {
    DepositsArePayments(p, r, w, ds);
    DepositsAgree(p, r, w, ds);
    TransfersIffMoves(p, r, RunDeposits(p, r, w, ds), txs);
    Ledger.ReplayConcat(w.tree, PaymentsOf(p, ds), MovesOf(p, txs));
  }

  /** Everyone a batch mentions is listed, and every transfer is signed. */
  predicate InOrder(p: Primitives, r: Roster, b: Batch) {
    && AllSigned(p, b.transactions)
    && (forall i :: 0 <= i < |b.deposits| ==> FindAccountIndex(r.addresses, b.deposits[i].user).Some?)
    && (forall i :: 0 <= i < |b.transactions| ==> Named(r, b.transactions[i]))
  }

  predicate InOrderInTurn(p: Primitives, r: Roster, b: Batch) {
    AllSigned(p, b.transactions) && AllKnown(r, b.deposits) && AllNamed(r, b.transactions)
  }

  lemma InOrderEach(p: Primitives, r: Roster, b: Batch)
    ensures InOrder(p, r, b) <==> InOrderInTurn(p, r, b)
  {
    AllKnownIsEachKnown(r, b.deposits);
    AllNamedIsEachNamed(r, b.transactions);
  }

  lemma FullyProcessedIff(p: Primitives, b: Batch)
    requires LeafHashSound(p) && Readable(p, b)
    ensures var e := Evaluate(p, b).value;
            FullyProcessed(e, b) <==>
            InOrderInTurn(p, e.roster, b) && Ledger.Replay(e.start.tree, EventsOf(p, b)).Some?
  {
    var e := Evaluate(p, b).value;
    StartAgrees(p, b);
    AllKnownRunIsLoop(p, e.roster, e.start, b.deposits);
    if AllKnown(e.roster, b.deposits) {
      ValidRunIsLoop(p, e.roster, RunDeposits(p, e.roster, e.start, b.deposits), b.transactions);
      RunIffReplay(p, e.roster, e.start, b.deposits, b.transactions);
    }
  }

  /** The two claimed roots are those of the listed tree before and after the batch's events. */
  ghost predicate ClaimsReplay(p: Primitives, b: Batch, start: Leaves) {
    && b.oldMerkleRoot == H256ToHex(RootOf(p, start))
    && Ledger.Replay(start, EventsOf(p, b)).Some?
    && b.newMerkleRoot == H256ToHex(RootOf(p, Ledger.Replay(start, EventsOf(p, b)).value))
  }

  /**
    Success means: everyone mentioned is listed, every transfer is signed, the events replay on
    the listed tree, and the claimed roots are the roots before and after. Nothing else is
    reported as success, and nothing of this kind is refused.
   */
  lemma SucceedsIff(p: Primitives, b: Batch)
    requires LeafHashSound(p) && Readable(p, b)
    ensures var e := Evaluate(p, b).value;
            JournalOf(p, b).value.success <==>
            InOrder(p, e.roster, b) && ClaimsReplay(p, b, e.start.tree)
  {
    InOrderEach(p, Evaluate(p, b).value.roster, b);
    FullyProcessedIff(p, b);
    if FullyProcessed(Evaluate(p, b).value, b) {
      BatchIsReplay(p, b);
    }
  }

  lemma ChainNext(p: Primitives, bs: seq<Batch>, b: Batch)
    ensures Chain(p, bs + [b]) <==>
            Chain(p, bs) && Settled(p, b) && JournalOf(p, b).value.oldRoot == LastRoot(p, bs)
  {
    assert (bs + [b])[..|bs|] == bs;
  }

  /** A batch that lists the tree a chain ended on extends the chain exactly when it is such a batch. */
  lemma ExtendsIff(p: Primitives, bs: seq<Batch>, b: Batch)
    requires LeafHashSound(p) && p.merkle(map[]) == ZERO && Chain(p, bs) && Readable(p, b)
    requires Evaluate(p, b).value.start.tree == FinalTree(p, bs)
    ensures Chain(p, bs + [b]) <==>
            InOrder(p, Evaluate(p, b).value.roster, b) && ClaimsReplay(p, b, FinalTree(p, bs))
  {
    ChainNext(p, bs, b);
    SucceedsIff(p, b);
    FinalTreeCovered(p, bs);
  }
}
