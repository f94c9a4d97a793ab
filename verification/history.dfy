/**
  From batches to history: a processed batch replays its deposits and transfers on the state
  its tree stands for, and a chain of settled batches replays them all from nothing.
 */
module History {
  import opened Bytes
  import opened Sequences
  import opened Options
  import opened Text
  import opened Smt
  import opened Transition
  import opened Conservation
  import opened TreeAgreement
  import Ledger

  type Event = Ledger.Event

  // ----- Names and events -----

  /** The tree key a name stands for, whatever its case. */
  function KeyOfName(p: Primitives, name: Text): Digest {
    match TreeKey(p, Lower(name))
    case None => ZERO
    case Some(key) => key
  }

  function PaymentOf(p: Primitives, d: DepositInfo): Event {
    Ledger.Paid(KeyOfName(p, d.user), d.amount)
  }

  function MoveOf(p: Primitives, tx: Transaction): Event {
    Ledger.Moved(KeyOfName(p, tx.from), KeyOfName(p, tx.to), tx.amount, tx.nonce)
  }

  function Payment(p: Primitives): DepositInfo -> Event {
    d => PaymentOf(p, d)
  }

  function Move(p: Primitives): Transaction -> Event {
    tx => MoveOf(p, tx)
  }

  function PaymentsOf(p: Primitives, ds: seq<DepositInfo>): (es: seq<Event>)
    ensures |es| == |ds|
  {
    Mapped(Payment(p), ds)
  }

  function MovesOf(p: Primitives, txs: seq<Transaction>): (es: seq<Event>)
    ensures |es| == |txs|
  {
    Mapped(Move(p), txs)
  }

  lemma PaymentsNext(p: Primitives, ds: seq<DepositInfo>)
    requires ds != []
    ensures PaymentsOf(p, ds) == PaymentsOf(p, ds[..|ds| - 1]) + [PaymentOf(p, ds[|ds| - 1])]
  {
  }

  lemma MovesNext(p: Primitives, txs: seq<Transaction>)
    requires txs != []
    ensures MovesOf(p, txs) == MovesOf(p, txs[..|txs| - 1]) + [MoveOf(p, txs[|txs| - 1])]
  {
  }

  function EventsOf(p: Primitives, b: Batch): (es: seq<Event>)
    ensures |es| == |b.deposits| + |b.transactions|
  {
    PaymentsOf(p, b.deposits) + MovesOf(p, b.transactions)
  }

  lemma PaymentsAreOnlyPayments(p: Primitives, ds: seq<DepositInfo>)
    ensures Ledger.OnlyPayments(PaymentsOf(p, ds))
  {
    forall i | 0 <= i < |ds| ensures PaymentsOf(p, ds)[i].Paid? {
      MappedAt(Payment(p), ds, i);
    }
  }

  ghost predicate Reads(p: Primitives, r: Roster) {
    KeysOf(p, r.addresses) == Some(r.keys) && DistinctKeys(r)
  }

  /** Wherever a name is listed, its listed key is the key the name stands for. */
  lemma FoundKey(p: Primitives, r: Roster, name: Text)
    requires KeysOf(p, r.addresses) == Some(r.keys)
    requires FindAccountIndex(r.addresses, name).Some?
    ensures r.keys[FindAccountIndex(r.addresses, name).value] == KeyOfName(p, name)
  {
    var i := FindAccountIndex(r.addresses, name).value;
    KeyAt(p, r.addresses, i);
    AddressIgnoresCase(r.addresses[i]);
  }

  // ----- One batch -----

  lemma WriteIsPut(p: Primitives, t: Leaves, key: Digest, a: AccountData)
    requires LeafHashSound(p)
    ensures Updated(p, t, key, a) == Ledger.Put(t, key, a)
  {
    assert a != EMPTY ==> |LeafBytes(a)| == 16;
    assert (map k | k in t && k != key :: t[k]) == t - {key};
  }

  lemma ReadsListed(p: Primitives, r: Roster, w: World, i: nat)
    requires LeafHashSound(p) && Fits(r, w) && Agrees(p, r, w) && i < |r.keys|
    ensures Get(w.tree, r.keys[i]) == w.accounts[i]
  {
    HoldsReads(p, w.tree, r.keys[i], w.accounts[i]);
  }

  lemma DepositIsPayment(p: Primitives, r: Roster, w: World, d: DepositInfo)
    requires LeafHashSound(p) && Reads(p, r) && Fits(r, w) && Agrees(p, r, w)
    requires FindAccountIndex(r.addresses, d.user).Some?
    ensures var i := FindAccountIndex(r.addresses, d.user).value;
            Ledger.Step(w.tree, PaymentOf(p, d)) == Some(DepositStep(p, r, w, i, d.amount).tree)
  {
    var i := FindAccountIndex(r.addresses, d.user).value;
    FoundKey(p, r, d.user);
    ReadsListed(p, r, w, i);
    WriteIsPut(p, w.tree, r.keys[i], Credit(w.accounts[i], d.amount));
  }

  lemma TransferStepIsMove(p: Primitives, r: Roster, w: World, from: nat, to: nat, amount: u64)
    requires LeafHashSound(p) && DistinctKeys(r) && Fits(r, w) && Agrees(p, r, w)
    requires from < |r.keys| && to < |r.keys| && amount <= w.accounts[from].balance
    ensures Ledger.Step(w.tree, Ledger.Moved(r.keys[from], r.keys[to], amount, w.accounts[from].nonce))
            == Some(TransferStep(p, r, w, from, to, amount).tree)
  {
    ReadsListed(p, r, w, from);
    ReadsListed(p, r, w, to);
    assert from != to ==> r.keys[from] != r.keys[to];
    var debit := Debit(w.accounts[from], amount);
    var payee := if from == to then debit else w.accounts[to];
    var sender := if from == to then Credit(debit, amount) else debit;
    Ledger.GetPut(w.tree, r.keys[from], debit, r.keys[to]);
    WriteIsPut(p, w.tree, r.keys[from], sender);
    WriteIsPut(p, Updated(p, w.tree, r.keys[from], sender), r.keys[to], Credit(payee, amount));
    PutTwice(w.tree, r.keys[from], sender, debit, Credit(payee, amount));
  }

  /** The list may name a transfer's accounts anywhere; on the tree it is one and the same move. */
  lemma TransferIsMove(p: Primitives, r: Roster, w: World, tx: Transaction)
    requires LeafHashSound(p) && Reads(p, r) && Fits(r, w) && Agrees(p, r, w)
    requires Transfer(p, r, w, tx).Some?
    ensures Ledger.Step(w.tree, MoveOf(p, tx)) == Some(Transfer(p, r, w, tx).value.tree)
  {
    FoundKey(p, r, tx.from);
    FoundKey(p, r, tx.to);
    TransferStepIsMove(p, r, w, FindAccountIndex(r.addresses, tx.from).value,
                       FindAccountIndex(r.addresses, tx.to).value, tx.amount);
  }

  lemma PutTwice(t: Leaves, key: Digest, a: AccountData, b: AccountData, c: AccountData)
    ensures Ledger.Put(Ledger.Put(t, key, a), key, c) == Ledger.Put(Ledger.Put(t, key, b), key, c)
  {
  }

  lemma {:induction false} DepositsArePayments(p: Primitives, r: Roster, w: World, ds: seq<DepositInfo>)
    requires LeafHashSound(p) && Reads(p, r) && Fits(r, w) && Agrees(p, r, w) && AllKnown(r, ds)
    ensures Ledger.Replay(w.tree, PaymentsOf(p, ds)) == Some(RunDeposits(p, r, w, ds).tree)
  {
    if ds != [] {
      var front, d := ds[..|ds| - 1], ds[|ds| - 1];
      DepositsArePayments(p, r, w, front);
      PaymentsNext(p, ds);
      DepositsAgree(p, r, w, front);
      DepositIsPayment(p, r, RunDeposits(p, r, w, front), d);
      Ledger.ReplayNext(w.tree, PaymentsOf(p, front), PaymentOf(p, d));
    }
  }

  lemma {:induction false} TransfersAreMoves(p: Primitives, r: Roster, w: World, txs: seq<Transaction>)
    requires LeafHashSound(p) && Reads(p, r) && Fits(r, w) && Agrees(p, r, w)
    requires RunTransfers(p, r, w, txs).Some?
    ensures Ledger.Replay(w.tree, MovesOf(p, txs)) == Some(RunTransfers(p, r, w, txs).value.tree)
  {
    if txs != [] {
      var front, tx := txs[..|txs| - 1], txs[|txs| - 1];
      TransfersAreMoves(p, r, w, front);
      MovesNext(p, txs);
      TransfersAgree(p, r, w, front);
      TransferIsMove(p, r, RunTransfers(p, r, w, front).value, tx);
      Ledger.ReplayNext(w.tree, MovesOf(p, front), MoveOf(p, tx));
    }
  }

  ghost predicate Readable(p: Primitives, b: Batch) {
    Evaluate(p, b).Some? && DistinctKeys(Evaluate(p, b).value.roster)
  }

  lemma RunIsReplay(p: Primitives, r: Roster, w: World, ds: seq<DepositInfo>, txs: seq<Transaction>)
    requires LeafHashSound(p) && Reads(p, r) && Fits(r, w) && Agrees(p, r, w) && AllKnown(r, ds)
    requires RunTransfers(p, r, RunDeposits(p, r, w, ds), txs).Some?
    ensures Ledger.Replay(w.tree, PaymentsOf(p, ds) + MovesOf(p, txs))
            == Some(RunTransfers(p, r, RunDeposits(p, r, w, ds), txs).value.tree)
  {
    DepositsArePayments(p, r, w, ds);
    DepositsAgree(p, r, w, ds);
    TransfersAreMoves(p, r, RunDeposits(p, r, w, ds), txs);
    Ledger.ReplayConcat(w.tree, PaymentsOf(p, ds), MovesOf(p, txs));
  }

  /** A fully processed batch is the replay of its own events on the tree it started from. */
  lemma BatchIsReplay(p: Primitives, b: Batch)
    requires LeafHashSound(p) && Readable(p, b) && FullyProcessed(Evaluate(p, b).value, b)
    ensures var e := Evaluate(p, b).value;
            Ledger.Replay(e.start.tree, EventsOf(p, b)) == Some(e.final.tree)
  {
    var e := Evaluate(p, b).value;
    StartAgrees(p, b);
    AppliedWhole(p, b);
    RunIsReplay(p, e.roster, e.start, b.deposits, b.transactions);
  }

  // ----- Whole runs -----

  /** The guest commits to success. */
  predicate Succeeds(p: Primitives, b: Batch) {
    JournalOf(p, b).Some? && JournalOf(p, b).value.success
  }

  /** The guest reports success, and no two listed addresses share a key, which it does not check. */
  ghost predicate Settled(p: Primitives, b: Batch) {
    Readable(p, b) && Succeeds(p, b)
  }

  /** The root a run ends on; zero before the first batch. */
  function LastRoot(p: Primitives, bs: seq<Batch>): Digest {
    if bs == [] then ZERO
    else
      match JournalOf(p, bs[|bs| - 1])
      case None => ZERO
      case Some(journal) => journal.newRoot
  }

  /**
    Batches that all succeeded and list no key twice, the first on the zero root and each on its
    predecessor's root.
   */
  ghost predicate Chain(p: Primitives, bs: seq<Batch>) {
    bs == [] ||
    (var front, last := bs[..|bs| - 1], bs[|bs| - 1];
     Chain(p, front) && Settled(p, last) && JournalOf(p, last).value.oldRoot == LastRoot(p, front))
  }

  /** The tree after the last batch. */
  ghost function FinalTree(p: Primitives, bs: seq<Batch>): Leaves
    requires Chain(p, bs)
  {
    if bs == [] then map[] else Evaluate(p, bs[|bs| - 1]).value.final.tree
  }

  /** The leaf-hash maps whose roots the run compares, and the empty one. */
  ghost function RunLeafMaps(p: Primitives, bs: seq<Batch>): set<map<Digest, Digest>>
    requires Chain(p, bs)
  {
    if bs == [] then {map[]}
    else
      RunLeafMaps(p, bs[..|bs| - 1])
      + {LeafHashes(p, Evaluate(p, bs[|bs| - 1]).value.start.tree), LeafHashes(p, FinalTree(p, bs))}
  }

  /** What a run needs of the cryptography: sound leaf hashes, and no root collision in this run. */
  ghost predicate SoundFor(p: Primitives, bs: seq<Batch>)
    requires Chain(p, bs)
  {
    LeafHashSound(p) && p.merkle(map[]) == ZERO && CollisionFreeOn(p.merkle, RunLeafMaps(p, bs))
  }

  function RunEvents(p: Primitives, bs: seq<Batch>): seq<Event> {
    if bs == [] then [] else RunEvents(p, bs[..|bs| - 1]) + EventsOf(p, bs[|bs| - 1])
  }

  lemma FinalTreeCovered(p: Primitives, bs: seq<Batch>)
    requires Chain(p, bs) && p.merkle(map[]) == ZERO
    ensures LeafHashes(p, FinalTree(p, bs)) in RunLeafMaps(p, bs)
    ensures RootOf(p, FinalTree(p, bs)) == LastRoot(p, bs)
  {
    if bs == [] {
      assert LeafHashes(p, map[]) == map[];
    }
  }

  /** Equal roots, equal trees: each batch of a chain starts on the tree the last one left. */
  lemma ChainLinks(p: Primitives, bs: seq<Batch>)
    requires bs != [] && Chain(p, bs) && SoundFor(p, bs)
    ensures SoundFor(p, bs[..|bs| - 1])
    ensures Evaluate(p, bs[|bs| - 1]).value.start.tree == FinalTree(p, bs[..|bs| - 1])
  {
    var front := bs[..|bs| - 1];
    var start, before := Evaluate(p, bs[|bs| - 1]).value.start.tree, FinalTree(p, front);
    FinalTreeCovered(p, front);
    assert RunLeafMaps(p, front) <= RunLeafMaps(p, bs);
    assert {LeafHashes(p, start), LeafHashes(p, before)} <= RunLeafMaps(p, bs);
    assert RootOf(p, start) == RootOf(p, before);
    RootBinding(p, start, before);
  }

  /** Two successful batches that claim the same old root in text start on the same tree. */
  lemma ClaimedRootFixesTree(p: Primitives, b: Batch, c: Batch)
    requires LeafHashSound(p) && Succeeds(p, b) && Succeeds(p, c) && b.oldMerkleRoot == c.oldMerkleRoot
    requires CollisionFreeOn(p.merkle, {LeafHashes(p, Evaluate(p, b).value.start.tree),
                                        LeafHashes(p, Evaluate(p, c).value.start.tree)})
    ensures Evaluate(p, b).value.start.tree == Evaluate(p, c).value.start.tree
  {
    var s, t := Evaluate(p, b).value.start.tree, Evaluate(p, c).value.start.tree;
    H256ToHexInjective(RootOf(p, s), RootOf(p, t));
    RootBinding(p, s, t);
  }

  /** A settled chain of batches is one replay of all its deposits and transfers from nothing. */
  lemma {:induction false} ChainIsReplay(p: Primitives, bs: seq<Batch>)
    requires Chain(p, bs) && SoundFor(p, bs)
    ensures Ledger.Replay(map[], RunEvents(p, bs)) == Some(FinalTree(p, bs))
  {
    if bs != [] {
      var front, last := bs[..|bs| - 1], bs[|bs| - 1];
      ChainLinks(p, bs);
      ChainIsReplay(p, front);
      assert Settled(p, last);
      BatchIsReplay(p, last);
      Ledger.ReplayConcat(map[], RunEvents(p, front), EventsOf(p, last));
    }
  }

  // ----- Supply -----

  function ListedOver(bs: seq<Batch>): nat {
    if bs == [] then 0 else ListedOver(bs[..|bs| - 1]) + Listed(bs[|bs| - 1].deposits)
  }

  lemma {:induction false} PaidInConcat(es: seq<Event>, fs: seq<Event>)
    ensures Ledger.PaidIn(es + fs) == Ledger.PaidIn(es) + Ledger.PaidIn(fs)
  {
    if fs == [] {
      assert es + fs == es;
    } else {
      PaidInConcat(es, fs[..|fs| - 1]);
      assert (es + fs)[..|es + fs| - 1] == es + fs[..|fs| - 1];
    }
  }

  lemma {:induction false} PaidInPayments(p: Primitives, ds: seq<DepositInfo>)
    ensures Ledger.PaidIn(PaymentsOf(p, ds)) == Listed(ds)
  {
    if ds != [] {
      PaidInPayments(p, ds[..|ds| - 1]);
      PaymentsNext(p, ds);
      assert [PaymentOf(p, ds[|ds| - 1])][..0] == [];
      PaidInConcat(PaymentsOf(p, ds[..|ds| - 1]), [PaymentOf(p, ds[|ds| - 1])]);
    }
  }

  lemma {:induction false} PaidInMoves(p: Primitives, txs: seq<Transaction>)
    ensures Ledger.PaidIn(MovesOf(p, txs)) == 0
  {
    if txs != [] {
      PaidInMoves(p, txs[..|txs| - 1]);
      MovesNext(p, txs);
      assert [MoveOf(p, txs[|txs| - 1])][..0] == [];
      PaidInConcat(MovesOf(p, txs[..|txs| - 1]), [MoveOf(p, txs[|txs| - 1])]);
    }
  }

  lemma PaidInBoth(p: Primitives, ds: seq<DepositInfo>, txs: seq<Transaction>)
    ensures Ledger.PaidIn(PaymentsOf(p, ds) + MovesOf(p, txs)) == Listed(ds)
  {
    PaidInConcat(PaymentsOf(p, ds), MovesOf(p, txs));
    PaidInPayments(p, ds);
    PaidInMoves(p, txs);
  }

  lemma {:induction false} PaidInOver(p: Primitives, bs: seq<Batch>)
    ensures Ledger.PaidIn(RunEvents(p, bs)) == ListedOver(bs)
  {
    if bs != [] {
      var front, last := bs[..|bs| - 1], bs[|bs| - 1];
      PaidInOver(p, front);
      PaidInConcat(RunEvents(p, front), EventsOf(p, last));
      PaidInBoth(p, last.deposits, last.transactions);
    }
  }

  /**
    Supply: at the end of any settled chain the balances of the whole tree are the deposits
    listed so far, less 2^64 per wrapped addition; exactly the deposits while they fit.
   */
  lemma SupplyIsDeposits(p: Primitives, bs: seq<Batch>)
    requires Chain(p, bs) && SoundFor(p, bs)
    ensures Ledger.Replay(map[], RunEvents(p, bs)).Some?
    ensures Ledger.Total(FinalTree(p, bs)) + TWO_TO_THE_64 * Ledger.Carries(map[], RunEvents(p, bs))
            == ListedOver(bs)
    ensures ListedOver(bs) < TWO_TO_THE_64 ==> Ledger.Total(FinalTree(p, bs)) == ListedOver(bs)
  {
    ChainIsReplay(p, bs);
    PaidInOver(p, bs);
    Ledger.ReplayedTotal(map[], RunEvents(p, bs), FinalTree(p, bs));
  }

  // ----- No replay -----

  /**
    Over any settled chain, the transfers of one key carry the nonces 0, 1, 2, ... (as 64-bit
    words), across batch borders too; so within 2^64 events no two of them share a nonce. This
    rests on each batch listing no key twice: see `Replays.SignedMessageReplayed`.
   */
  lemma NoTransferReplayed(p: Primitives, bs: seq<Batch>, i: nat, j: nat)
    requires Chain(p, bs) && SoundFor(p, bs) && Ledger.SameSender(RunEvents(p, bs), i, j)
    ensures var es := RunEvents(p, bs);
            && es[i].nonce == Ledger.Sent(es[..i], es[i].from) % TWO_TO_THE_64
            && es[j].nonce == Ledger.Sent(es[..j], es[j].from) % TWO_TO_THE_64
            && (es[i].nonce == es[j].nonce <==> Ledger.Between(es, i, j) % TWO_TO_THE_64 == 0)
            && (|es| <= TWO_TO_THE_64 ==> es[i].nonce != es[j].nonce)
  {
    var es := RunEvents(p, bs);
    ChainIsReplay(p, bs);
    Ledger.NoncesAreConsecutive(es, i);
    Ledger.NoncesAreConsecutive(es, j);
    Ledger.NonceReuse(es, i, j);
    if |es| <= TWO_TO_THE_64 {
      Ledger.NoNonceReuse(es, i, j);
    }
  }

  // ----- Statements -----

  /**
    At the end of any settled chain each account holds what was deposited and sent to it, less
    what it sent, as a 64-bit word.
   */
  lemma AccountStatement(p: Primitives, bs: seq<Batch>, key: Digest)
    requires Chain(p, bs) && SoundFor(p, bs)
    ensures Get(FinalTree(p, bs), key).balance == Ledger.Statement(RunEvents(p, bs), key)
  {
    ChainIsReplay(p, bs);
    Ledger.BalanceIsStatement(RunEvents(p, bs), key);
  }
}
