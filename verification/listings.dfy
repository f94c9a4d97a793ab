/**
  What the guest leaves to whoever lists the accounts. It does not check that the listed
  addresses have distinct tree keys; this is exactly the condition under which the batches it
  reports as successful keep the money in the tree, and keep its nonces counting transfers.
 */
module Listings {
  import opened Bytes
  import opened Options
  import opened Text
  import opened Smt
  import opened Transition
  import opened Conservation
  import opened TreeAgreement
  import opened History
  import Ledger

  /** The deposits a batch processes. */
  function Processed(p: Primitives, b: Batch): seq<DepositInfo>
    requires Evaluate(p, b).Some?
  {
    b.deposits[..Evaluate(p, b).value.depositsDone]
  }

  /** The tree ends with what it started with and the processed deposits, if that fits a word. */
  ghost predicate TreeConserves(p: Primitives, b: Batch)
    requires Evaluate(p, b).Some?
  {
    var before := Ledger.Total(Evaluate(p, b).value.start.tree) + Listed(Processed(p, b));
    before < TWO_TO_THE_64 ==> Ledger.Total(Evaluate(p, b).value.final.tree) == before
  }

  /** With distinct keys every batch conserves, processed to its end or not. */
  lemma DistinctConserves(p: Primitives, b: Batch)
    requires LeafHashSound(p) && Readable(p, b)
    ensures TreeConserves(p, b)
  {
    var e := Evaluate(p, b).value;
    var ds, txs := Processed(p, b), b.transactions[..e.transfersDone];
    StartAgrees(p, b);
    AppliedPrefixes(p, b);
    RunIsReplay(p, e.roster, e.start, ds, txs);
    PaidInBoth(p, ds, txs);
    Ledger.ReplayedTotal(e.start.tree, PaymentsOf(p, ds) + MovesOf(p, txs), e.final.tree);
  }

  ghost predicate OnlyAt(accounts: seq<AccountData>, k: nat) {
    forall i :: 0 <= i < |accounts| && i != k ==> accounts[i] == EMPTY
  }

  /** The account `a` at position `k`, nothing elsewhere. */
  function OneAt(n: nat, k: nat, a: AccountData): (accounts: seq<AccountData>)
    ensures |accounts| == n
    ensures k < n ==> accounts[k] == a
    ensures OnlyAt(accounts, k)
  {
    seq(n, i => if i == k then a else EMPTY)
  }

  /** An empty account at the end of a listing takes its key out of the tree. */
  lemma EmptyAtEnd(p: Primitives, keys: seq<Digest>, accounts: seq<AccountData>)
    requires 0 < |keys| <= |accounts| && accounts[|keys| - 1] == EMPTY
    ensures BuildTree(p, keys, accounts) == BuildTree(p, keys[..|keys| - 1], accounts) - {keys[|keys| - 1]}
  {
  }

  lemma RemoveAll(t: Leaves, key: Digest)
    requires t.Keys <= {key}
    ensures t - {key} == map[]
  {
  }

  /** Where only account `k` is not empty, the tree has a leaf at its key at most. */
  lemma {:induction false} OnlyLeaf(p: Primitives, keys: seq<Digest>, accounts: seq<AccountData>, k: nat)
    requires |keys| <= |accounts| && OnlyAt(accounts, k)
    ensures BuildTree(p, keys, accounts).Keys <= if k < |keys| then {keys[k]} else {}
  {
    if keys != [] {
      var n := |keys| - 1;
      OnlyLeaf(p, keys[..n], accounts, k);
      if n != k {
        EmptyAtEnd(p, keys, accounts);
      }
    }
  }

  /** An empty account listed later under the same key removes that leaf. */
  lemma {:induction false} OverwrittenTree(p: Primitives, keys: seq<Digest>, accounts: seq<AccountData>, k: nat, j: nat)
    requires k < j < |keys| <= |accounts| && keys[j] == keys[k] && OnlyAt(accounts, k)
    ensures BuildTree(p, keys, accounts) == map[]
  {
    var front, last := keys[..|keys| - 1], keys[|keys| - 1];
    assert front[k] == keys[k];
    EmptyAtEnd(p, keys, accounts);
    if j < |front| {
      assert front[j] == keys[j];
      OverwrittenTree(p, front, accounts, k, j);
    } else {
      OnlyLeaf(p, front, accounts, k);
    }
    RemoveAll(BuildTree(p, front, accounts), last);
  }

  lemma TotalOfOne(key: Digest, a: AccountData)
    ensures Ledger.Total(map[key := a]) == a.balance
  {
    Ledger.TotalWithout(map[key := a], key);
    assert map[key := a] - {key} == map[];
  }

  lemma FirstLeaf(p: Primitives, key: Digest, a: AccountData)
    requires LeafHashSound(p) && a != EMPTY
    ensures Updated(p, map[], key, a) == map[key := a]
  {
    assert |LeafBytes(a)| == 16;
  }

  /**
    A batch over a listing with a shared key. The account `a` is listed where a later, empty
    account hides it from the tree; a deposit of nothing then writes it there.
   */
  function Unhiding(p: Primitives, addresses: seq<Text>, user: Text, key: Digest, k: nat, a: AccountData): Batch {
    Batch(H256ToHex(RootOf(p, map[])), H256ToHex(RootOf(p, map[key := a])),
          OneAt(|addresses|, k, a), [], [DepositInfo(0, user, 0)], 0, addresses)
  }

  lemma OneDeposit(p: Primitives, r: Roster, w: World, d: DepositInfo)
    requires Fits(r, w) && FindAccountIndex(r.addresses, d.user).Some?
    ensures DepositLoop(p, r, w, [d]) ==
            Progress(DepositStep(p, r, w, FindAccountIndex(r.addresses, d.user).value, d.amount), 1)
  {
    assert [d][..0] == [];
    assert DepositLoop(p, r, w, []) == Progress(w, 0);
  }

  lemma UnhidingStep(p: Primitives, r: Roster, k: nat, a: AccountData)
    requires LeafHashSound(p) && a != EMPTY && k < |r.keys| == |r.addresses|
    ensures DepositStep(p, r, World(OneAt(|r.addresses|, k, a), map[]), k, 0).tree == map[r.keys[k] := a]
  {
    assert Credit(OneAt(|r.addresses|, k, a)[k], 0) == a;
    FirstLeaf(p, r.keys[k], a);
  }

  lemma UnhidingRun(p: Primitives, addresses: seq<Text>, keys: seq<Digest>, user: Text, k: nat, j: nat, a: AccountData)
    requires LeafHashSound(p) && a != EMPTY && KeysOf(p, addresses) == Some(keys)
    requires FindAccountIndex(addresses, user) == Some(k)
    requires k < j < |keys| && keys[j] == keys[k]
    ensures var e := Evaluate(p, Unhiding(p, addresses, user, keys[k], k, a));
            && e.Some? && e.value.start.tree == map[]
            && e.value.final.tree == map[keys[k] := a]
            && e.value.signaturesVerified && e.value.depositsDone == 1 && e.value.transfersDone == 0
  {
    var r := Roster(addresses, keys);
    OverwrittenTree(p, keys, OneAt(|addresses|, k, a), k, j);
    UnhidingStep(p, r, k, a);
    OneDeposit(p, r, World(OneAt(|addresses|, k, a), map[]), DepositInfo(0, user, 0));
  }

  /** A batch that is processed to its end and claims the right roots is a success on them. */
  lemma RightClaimsSucceed(p: Primitives, b: Batch, start: Leaves, final: Leaves)
    requires Evaluate(p, b).Some? && FullyProcessed(Evaluate(p, b).value, b)
    requires Evaluate(p, b).value.start.tree == start && b.oldMerkleRoot == H256ToHex(RootOf(p, start))
    requires Evaluate(p, b).value.final.tree == final && b.newMerkleRoot == H256ToHex(RootOf(p, final))
    ensures Succeeds(p, b)
    ensures JournalOf(p, b).value.oldRoot == RootOf(p, start)
    ensures JournalOf(p, b).value.newRoot == RootOf(p, final)
  {
  }

  /**
    For every listing in which two addresses share a key, and every account one likes, a batch
    that the guest reports as a success on the empty tree, that lists no money and no transfer,
    and that ends with this account in the tree.
   */
  lemma SharedKeyMakesAccount(p: Primitives, addresses: seq<Text>, keys: seq<Digest>, i: nat, j: nat, a: AccountData)
    returns (b: Batch)
    requires LeafHashSound(p) && a != EMPTY && KeysOf(p, addresses) == Some(keys)
    requires i < j < |keys| && keys[i] == keys[j]
    ensures b.addresses == addresses && Succeeds(p, b)
    ensures Evaluate(p, b).value.start.tree == map[] && Listed(b.deposits) == 0 && b.transactions == []
    ensures Evaluate(p, b).value.final.tree == map[keys[i] := a]
  {
    FindsFirst(addresses, addresses[i], i);
    var k := FindAccountIndex(addresses, addresses[i]).value;
    SameKey(p, Roster(addresses, keys), k, i);
    b := Unhiding(p, addresses, addresses[i], keys[k], k, a);
    UnhidingRun(p, addresses, keys, addresses[i], k, j, a);
    RightClaimsSucceed(p, b, map[], map[keys[k] := a]);
  }

  /** The first batch of a run: the guest reports success, and the old root is that of no accounts. */
  predicate SucceedsOnZero(p: Primitives, b: Batch) {
    Succeeds(p, b) && JournalOf(p, b).value.oldRoot == ZERO
  }

  lemma ZeroRootOfNothing(p: Primitives)
    requires p.merkle(map[]) == ZERO
    ensures RootOf(p, map[]) == ZERO
  {
    assert LeafHashes(p, map[]) == map[];
  }

  lemma AllProcessed(p: Primitives, b: Batch)
    requires Evaluate(p, b).Some? && Evaluate(p, b).value.depositsDone == |b.deposits|
    ensures Processed(p, b) == b.deposits
  {
  }

  lemma MoneyFromNothing(p: Primitives, b: Batch)
    requires Evaluate(p, b).Some? && Listed(Processed(p, b)) == 0
    requires Ledger.Total(Evaluate(p, b).value.start.tree) == 0
    requires Ledger.Total(Evaluate(p, b).value.final.tree) == 1
    ensures !TreeConserves(p, b)
  {
  }

  lemma SharedKeyDoesNotConserve(p: Primitives, addresses: seq<Text>, keys: seq<Digest>, i: nat, j: nat)
    returns (b: Batch)
    requires LeafHashSound(p) && p.merkle(map[]) == ZERO && KeysOf(p, addresses) == Some(keys)
    requires i < j < |keys| && keys[i] == keys[j]
    ensures b.addresses == addresses && SucceedsOnZero(p, b) && !TreeConserves(p, b)
  {
    b := SharedKeyMakesAccount(p, addresses, keys, i, j, AccountData(1, 0));
    TotalOfOne(keys[i], AccountData(1, 0));
    ZeroRootOfNothing(p);
    AllProcessed(p, b);
    Ledger.TotalOfNothing();
    MoneyFromNothing(p, b);
  }

  /**
    Exactly when a listing is safe: every batch over these addresses that succeeds on the zero
    root conserves the money in its tree if and only if no two of them share a tree key.
   */
  lemma ConservesIffDistinct(p: Primitives, addresses: seq<Text>)
    requires LeafHashSound(p) && p.merkle(map[]) == ZERO && KeysOf(p, addresses).Some?
    ensures DistinctKeys(Roster(addresses, KeysOf(p, addresses).value)) <==>
            forall b: Batch :: b.addresses == addresses && SucceedsOnZero(p, b) ==> TreeConserves(p, b)
  {
    var keys := KeysOf(p, addresses).value;
    if DistinctKeys(Roster(addresses, keys)) {
      forall b: Batch | b.addresses == addresses && SucceedsOnZero(p, b) ensures TreeConserves(p, b) {
        DistinctConserves(p, b);
      }
    } else {
      var i, j :| 0 <= i < j < |keys| && keys[i] == keys[j];
      var b := SharedKeyDoesNotConserve(p, addresses, keys, i, j);
    }
  }

  // ----- Nonces -----

  /** Every key's nonce grows by the number of transfers it sends. */
  ghost predicate KeepsNonces(p: Primitives, b: Batch)
    requires Evaluate(p, b).Some?
  {
    Ledger.NoncesCount(Evaluate(p, b).value.start.tree, EventsOf(p, b), Evaluate(p, b).value.final.tree)
  }

  lemma DistinctKeepsNonces(p: Primitives, b: Batch)
    requires LeafHashSound(p) && Readable(p, b) && FullyProcessed(Evaluate(p, b).value, b)
    ensures KeepsNonces(p, b)
  {
    var e := Evaluate(p, b).value;
    BatchIsReplay(p, b);
    Ledger.ReplayCountsNonces(e.start.tree, EventsOf(p, b), e.final.tree);
  }

  lemma {:induction false} PaymentsSendNothing(p: Primitives, ds: seq<DepositInfo>, key: Digest)
    ensures Ledger.Sent(PaymentsOf(p, ds), key) == 0
  {
    if ds != [] {
      PaymentsSendNothing(p, ds[..|ds| - 1], key);
      PaymentsNext(p, ds);
      Ledger.SentNext(PaymentsOf(p, ds[..|ds| - 1]), PaymentOf(p, ds[|ds| - 1]), key);
    }
  }

  lemma NothingSent(p: Primitives, b: Batch, key: Digest)
    requires b.transactions == []
    ensures Ledger.Sent(EventsOf(p, b), key) == 0
  {
    PaymentsSendNothing(p, b.deposits, key);
    assert EventsOf(p, b) == PaymentsOf(p, b.deposits);
  }

  lemma NonceFromNothing(p: Primitives, b: Batch, key: Digest)
    requires Evaluate(p, b).Some? && Evaluate(p, b).value.start.tree == map[]
    requires Ledger.Sent(EventsOf(p, b), key) == 0
    requires Get(Evaluate(p, b).value.final.tree, key).nonce == 1
    ensures !KeepsNonces(p, b)
  {
    Ledger.ChangedWithoutSending(map[], EventsOf(p, b), Evaluate(p, b).value.final.tree, key);
  }

  /** A nonce out of nothing: no transfer is sent, and still a key ends with nonce 1. */
  lemma SharedKeyBreaksNonces(p: Primitives, addresses: seq<Text>, keys: seq<Digest>, i: nat, j: nat)
    returns (b: Batch)
    requires LeafHashSound(p) && p.merkle(map[]) == ZERO && KeysOf(p, addresses) == Some(keys)
    requires i < j < |keys| && keys[i] == keys[j]
    ensures b.addresses == addresses && SucceedsOnZero(p, b) && !KeepsNonces(p, b)
  {
    b := SharedKeyMakesAccount(p, addresses, keys, i, j, AccountData(0, 1));
    ZeroRootOfNothing(p);
    NothingSent(p, b, keys[i]);
    NonceFromNothing(p, b, keys[i]);
  }

  /**
    The condition that protection against replay rests on, exactly: in every batch over these
    addresses that succeeds on the zero root nonces count transfers if and only if no two
    addresses share a tree key.
   */
  lemma NoncesCountIffDistinct(p: Primitives, addresses: seq<Text>)
    requires LeafHashSound(p) && p.merkle(map[]) == ZERO && KeysOf(p, addresses).Some?
    ensures DistinctKeys(Roster(addresses, KeysOf(p, addresses).value)) <==>
            forall b: Batch :: b.addresses == addresses && SucceedsOnZero(p, b) ==> KeepsNonces(p, b)
  {
    var keys := KeysOf(p, addresses).value;
    if DistinctKeys(Roster(addresses, keys)) {
      forall b: Batch | b.addresses == addresses && SucceedsOnZero(p, b) ensures KeepsNonces(p, b) {
        DistinctKeepsNonces(p, b);
      }
    } else {
      var i, j :| 0 <= i < j < |keys| && keys[i] == keys[j];
      var b := SharedKeyBreaksNonces(p, addresses, keys, i, j);
    }
  }
}
