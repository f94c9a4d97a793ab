/**
  What one batch comes to, in the guest's own terms: when it panics, when a phase does not run
  or stops, and what the committed journal says of it.
 */
module Outcomes {
  import opened Bytes
  import opened Sequences
  import opened Options
  import opened Text
  import opened Smt
  import opened Transition

  // ----- Panics -----

  /** The guest panics exactly for an address it cannot read and for an address without a leaf. */
  lemma PanicsIff(p: Primitives, b: Batch)
    ensures JournalOf(p, b).None? <==>
            || |b.leafData| < |b.addresses|
            || exists i :: 0 <= i < |b.addresses| && AddressOf(b.addresses[i]).None?
  {
    var f := TreeKeyOf(p);
    MapAllIff(f, b.addresses);
    forall i | 0 <= i < |b.addresses| ensures f(b.addresses[i]).Some? <==> AddressOf(b.addresses[i]).Some? {
    }
  }

  // ----- Where the phases stop -----

  predicate KnownUser(b: Batch, d: DepositInfo) {
    FindAccountIndex(b.addresses, d.user).Some?
  }

  /** Every signature and every deposit must pass before the first transfer is applied. */
  lemma NoTransferUnlessReady(p: Primitives, b: Batch)
    requires Evaluate(p, b).Some? && Evaluate(p, b).value.transfersDone > 0
    ensures forall i :: 0 <= i < |b.transactions| ==> Signed(p, b.transactions[i])
    ensures forall i :: 0 <= i < |b.deposits| ==> KnownUser(b, b.deposits[i])
  {
    var e := Evaluate(p, b).value;
    AllKnownRunIsLoop(p, e.roster, e.start, b.deposits);
    AllKnownIsEachKnown(e.roster, b.deposits);
  }

  /** Deposits are processed up to the first whose user is not listed, whatever the signatures. */
  lemma DepositsStopAtUnknown(p: Primitives, b: Batch, n: nat)
    requires Evaluate(p, b).Some?
    ensures Evaluate(p, b).value.depositsDone == n <==>
            && n <= |b.deposits|
            && (forall i :: 0 <= i < n ==> KnownUser(b, b.deposits[i]))
            && (n < |b.deposits| ==> !KnownUser(b, b.deposits[n]))
  {
    var e := Evaluate(p, b).value;
    DepositLoopIsLongestPrefix(p, e.roster, e.start, b.deposits);
    AllKnownIsEachKnown(e.roster, b.deposits[..e.depositsDone]);
    forall i | 0 <= i < e.depositsDone ensures KnownUser(b, b.deposits[i]) {
      assert b.deposits[..e.depositsDone][i] == b.deposits[i];
    }
  }

  /** The guest refuses a transfer over an unlisted name, a missing balance or another nonce, and else takes it. */
  lemma RefusedIff(p: Primitives, r: Roster, w: World, tx: Transaction)
    requires Fits(r, w)
    ensures Transfer(p, r, w, tx).None? <==>
            || FindAccountIndex(r.addresses, tx.from).None?
            || FindAccountIndex(r.addresses, tx.to).None?
            || w.accounts[FindAccountIndex(r.addresses, tx.from).value].balance < tx.amount
            || w.accounts[FindAccountIndex(r.addresses, tx.from).value].nonce != tx.nonce
  {
  }

  /** Once signatures and deposits pass, transfers stop only at one that is refused in its turn. */
  lemma TransfersStopAtRefused(p: Primitives, b: Batch)
    requires Evaluate(p, b).Some? && AllSigned(p, b.transactions)
    requires Evaluate(p, b).value.depositsDone == |b.deposits|
    ensures var e := Evaluate(p, b).value;
            && e.transfersDone <= |b.transactions|
            && (e.transfersDone < |b.transactions| ==>
                  Transfer(p, e.roster, e.final, b.transactions[e.transfersDone]).None?)
  {
    var e := Evaluate(p, b).value;
    TransferLoopStops(p, e.roster, DepositLoop(p, e.roster, e.start, b.deposits).world, b.transactions);
  }

  /** The tree ends with the payee's account at the payee's key, also where payer and payee share it. */
  lemma PayeeIsWrittenLast(p: Primitives, r: Roster, w: World, from: nat, to: nat, amount: u64)
    requires LeafHashSound(p) && Fits(r, w) && from < |r.keys| && to < |r.keys|
    requires amount <= w.accounts[from].balance
    ensures var w' := TransferStep(p, r, w, from, to, amount);
            Get(w'.tree, r.keys[to]) == w'.accounts[to]
  {
    var a := TransferStep(p, r, w, from, to, amount).accounts[to];
    WriteReadsBack(p, Updated(p, w.tree, r.keys[from], TransferStep(p, r, w, from, to, amount).accounts[from]),
                   r.keys[to], a, r.keys[to], a);
  }

  // ----- The journal -----

  /**
    What is committed: the roots of the tree as listed and as left, the batch's own badge id, how
    many transfers were applied as a 32-bit word, and the ids of exactly the processed deposits.
   */
  lemma JournalSays(p: Primitives, b: Batch)
    requires Evaluate(p, b).Some?
    ensures var e, journal := Evaluate(p, b).value, JournalOf(p, b).value;
            && journal.oldRoot == RootOf(p, e.start.tree)
            && journal.newRoot == RootOf(p, e.final.tree)
            && journal.badgeId == b.badgeId
            && journal.transactionsProcessed == e.transfersDone % 0x1_0000_0000
            && |journal.processedDepositIds| == e.depositsDone
            && forall i :: 0 <= i < e.depositsDone ==> journal.processedDepositIds[i] == b.deposits[i].depositId
  {
  }

  /** Success is claimed exactly for right root texts, all signatures, all deposits and all transfers. */
  lemma JournalSucceedsIff(p: Primitives, b: Batch)
    requires Evaluate(p, b).Some?
    ensures var e := Evaluate(p, b).value;
            JournalOf(p, b).value.success <==>
            && b.oldMerkleRoot == H256ToHex(RootOf(p, e.start.tree))
            && b.newMerkleRoot == H256ToHex(RootOf(p, e.final.tree))
            && (forall i :: 0 <= i < |b.transactions| ==> Signed(p, b.transactions[i]))
            && (forall i :: 0 <= i < |b.deposits| ==> KnownUser(b, b.deposits[i]))
            && e.transfersDone == |b.transactions|
  {
    DepositsStopAtUnknown(p, b, |b.deposits|);
  }

  // ----- Keys -----

  /** An account's key is the Keccak hash of its twenty address bytes. */
  lemma KeyIsHashedAddress(p: Primitives, addresses: seq<Text>, i: nat)
    requires KeysOf(p, addresses).Some? && i < |addresses|
    ensures AddressOf(addresses[i]).Some?
    ensures KeysOf(p, addresses).value[i] == p.keccak(AddressOf(addresses[i]).value)
  {
    KeyAt(p, addresses, i);
  }

  /** The listed addresses as bytes. */
  ghost function Decoded(p: Primitives, addresses: seq<Text>): set<seq<byte>>
    requires KeysOf(p, addresses).Some?
  {
    set i | 0 <= i < |addresses| && AddressOf(addresses[i]).Some? :: AddressOf(addresses[i]).value
  }

  /**
    Keys are distinct exactly when no address is listed twice, however spelled, given that Keccak
    does not collide on the listed addresses.
   */
  lemma DistinctKeysIffDistinctAddresses(p: Primitives, addresses: seq<Text>)
    requires KeysOf(p, addresses).Some? && CollisionFreeOn(p.keccak, Decoded(p, addresses))
    ensures DistinctKeys(Roster(addresses, KeysOf(p, addresses).value)) <==>
            forall i, j :: 0 <= i < j < |addresses| ==> AddressOf(addresses[i]) != AddressOf(addresses[j])
  {
    var keys := KeysOf(p, addresses).value;
    forall i | 0 <= i < |addresses|
      ensures AddressOf(addresses[i]).Some? && AddressOf(addresses[i]).value in Decoded(p, addresses)
      ensures keys[i] == p.keccak(AddressOf(addresses[i]).value)
    {
      KeyIsHashedAddress(p, addresses, i);
    }
    forall i, j | 0 <= i < j < |addresses| ensures keys[i] == keys[j] <==> AddressOf(addresses[i]) == AddressOf(addresses[j]) {
    }
  }
}
