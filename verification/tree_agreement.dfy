/**
  The guest keeps its accounts twice, in a list and in a tree. When do the two agree?
 */
module TreeAgreement {
  import opened Bytes
  import opened Options
  import opened Text
  import opened Smt
  import opened Transition
  import opened Conservation

  /** The tree answers `key` with `a`; an account whose leaf hash is zero is not stored. */
  ghost predicate Holds(p: Primitives, t: Leaves, key: Digest, a: AccountData) {
    if ToH256(p, a) == ZERO then key !in t else key in t && t[key] == a
  }

  /** The tree holds exactly the listed accounts at the listed keys, and nothing elsewhere. */
  ghost predicate AgreesOn(p: Primitives, keys: seq<Digest>, accounts: seq<AccountData>, t: Leaves)
    requires |keys| <= |accounts|
  {
    && (forall i :: 0 <= i < |keys| ==> Holds(p, t, keys[i], accounts[i]))
    && (forall key :: key in t ==> key in keys)
  }

  ghost predicate Agrees(p: Primitives, r: Roster, w: World)
    requires Fits(r, w)
  {
    AgreesOn(p, r.keys, w.accounts, w.tree)
  }

  lemma HoldsReads(p: Primitives, t: Leaves, key: Digest, a: AccountData)
    requires LeafHashSound(p) && Holds(p, t, key, a)
    ensures Get(t, key) == a
  {
    assert a != EMPTY ==> |LeafBytes(a)| == 16;
  }

  /** One write: the written key holds the written account, and the others what they held. */
  lemma WriteHolds(p: Primitives, t: Leaves, key: Digest, a: AccountData, other: Digest, b: AccountData)
    requires if other == key then a == b else Holds(p, t, other, b)
    ensures Holds(p, Updated(p, t, key, a), other, b)
  {
  }

  lemma ExtendAgrees(p: Primitives, keys: seq<Digest>, accounts: seq<AccountData>, t: Leaves, key: Digest)
    requires |keys| < |accounts| && AgreesOn(p, keys, accounts, t) && key !in keys
    ensures AgreesOn(p, keys + [key], accounts, Updated(p, t, key, accounts[|keys|]))
  {
    var extended := keys + [key];
    forall i | 0 <= i < |extended|
      ensures Holds(p, Updated(p, t, key, accounts[|keys|]), extended[i], accounts[i])
    {
      WriteHolds(p, t, key, accounts[|keys|], extended[i], accounts[i]);
    }
  }

  /** A tree built from scratch agrees with the list it was built from. */
  lemma {:induction false} BuildAgrees(p: Primitives, keys: seq<Digest>, accounts: seq<AccountData>)
    requires |keys| <= |accounts|
    requires forall i, j :: 0 <= i < j < |keys| ==> keys[i] != keys[j]
    ensures AgreesOn(p, keys, accounts, BuildTree(p, keys, accounts))
  {
    if keys != [] {
      var front, last := keys[..|keys| - 1], keys[|keys| - 1];
      BuildAgrees(p, front, accounts);
      assert last !in front && keys == front + [last];
      BuildTreeNext(p, front, accounts, last);
      ExtendAgrees(p, front, accounts, BuildTree(p, front, accounts), last);
    }
  }

  lemma AgreeingTreesRead(p: Primitives, keys: seq<Digest>, accounts: seq<AccountData>,
                          s: Leaves, t: Leaves, key: Digest)
    requires |keys| <= |accounts| && AgreesOn(p, keys, accounts, s) && AgreesOn(p, keys, accounts, t)
    ensures key in s <==> key in t
    ensures key in s ==> s[key] == t[key]
  {
    if key in keys {
      var i :| 0 <= i < |keys| && keys[i] == key;
      assert Holds(p, s, keys[i], accounts[i]) && Holds(p, t, keys[i], accounts[i]);
    }
  }

  /** Only one tree agrees with a list. */
  lemma AgreeingTreesEqual(p: Primitives, keys: seq<Digest>, accounts: seq<AccountData>, s: Leaves, t: Leaves)
    requires |keys| <= |accounts| && AgreesOn(p, keys, accounts, s) && AgreesOn(p, keys, accounts, t)
    ensures s == t
  {
    forall key ensures (key in s <==> key in t) && (key in s ==> s[key] == t[key]) {
      AgreeingTreesRead(p, keys, accounts, s, t, key);
    }
  }

  /** With distinct keys, a tree that agrees is the tree built afresh from the same list. */
  lemma AgreementIsFreshBuild(p: Primitives, r: Roster, w: World)
    requires Fits(r, w) && DistinctKeys(r)
    ensures Agrees(p, r, w) <==> w.tree == BuildTree(p, r.keys, w.accounts)
  {
    BuildAgrees(p, r.keys, w.accounts);
    if Agrees(p, r, w) {
      AgreeingTreesEqual(p, r.keys, w.accounts, BuildTree(p, r.keys, w.accounts), w.tree);
    }
  }

  lemma DepositStepAgrees(p: Primitives, r: Roster, w: World, i: nat, amount: u64)
    requires Fits(r, w) && DistinctKeys(r) && i < |r.keys| && Agrees(p, r, w)
    ensures Agrees(p, r, DepositStep(p, r, w, i, amount))
  {
    var w' := DepositStep(p, r, w, i, amount);
    forall j | 0 <= j < |r.keys| ensures Holds(p, w'.tree, r.keys[j], w'.accounts[j]) {
      assert Holds(p, w.tree, r.keys[j], w.accounts[j]);
    }
  }

  lemma TransferStepAgrees(p: Primitives, r: Roster, w: World, from: nat, to: nat, amount: u64)
    requires Fits(r, w) && DistinctKeys(r) && from < |r.keys| && to < |r.keys|
    requires amount <= w.accounts[from].balance && Agrees(p, r, w)
    ensures Agrees(p, r, TransferStep(p, r, w, from, to, amount))
  {
    var w' := TransferStep(p, r, w, from, to, amount);
    var debited := Updated(p, w.tree, r.keys[from], w'.accounts[from]);
    forall j | 0 <= j < |r.keys| ensures Holds(p, w'.tree, r.keys[j], w'.accounts[j]) {
      assert Holds(p, w.tree, r.keys[j], w.accounts[j]);
      if j != to {
        WriteHolds(p, w.tree, r.keys[from], w'.accounts[from], r.keys[j], w'.accounts[j]);
      }
      WriteHolds(p, debited, r.keys[to], w'.accounts[to], r.keys[j], w'.accounts[j]);
    }
  }

  lemma {:induction false} DepositsAgree(p: Primitives, r: Roster, w: World, ds: seq<DepositInfo>)
    requires Fits(r, w) && DistinctKeys(r) && AllKnown(r, ds) && Agrees(p, r, w)
    ensures Agrees(p, r, RunDeposits(p, r, w, ds))
  {
    if ds != [] {
      var rest, d := ds[..|ds| - 1], ds[|ds| - 1];
      DepositsAgree(p, r, w, rest);
      DepositStepAgrees(p, r, RunDeposits(p, r, w, rest), FindAccountIndex(r.addresses, d.user).value, d.amount);
    }
  }

  lemma {:induction false} TransfersAgree(p: Primitives, r: Roster, w: World, txs: seq<Transaction>)
    requires Fits(r, w) && DistinctKeys(r) && Agrees(p, r, w)
    requires RunTransfers(p, r, w, txs).Some?
    ensures Agrees(p, r, RunTransfers(p, r, w, txs).value)
  {
    if txs != [] {
      var rest, tx := txs[..|txs| - 1], txs[|txs| - 1];
      TransfersAgree(p, r, w, rest);
      TransferStepAgrees(p, r, RunTransfers(p, r, w, rest).value,
                         FindAccountIndex(r.addresses, tx.from).value,
                         FindAccountIndex(r.addresses, tx.to).value, tx.amount);
    }
  }

  /**
    Distinct keys: after any number of loop turns, deposits first and then transfers, the tree
    is the one a fresh build of the current list would give.
   */
  lemma EveryTurnAgrees(p: Primitives, r: Roster, accounts: seq<AccountData>,
                        ds: seq<DepositInfo>, txs: seq<Transaction>)
    requires |r.addresses| == |r.keys| <= |accounts| && DistinctKeys(r) && AllKnown(r, ds)
    ensures var start := World(accounts, BuildTree(p, r.keys, accounts));
            var credited := RunDeposits(p, r, start, ds);
            var final := RunTransfers(p, r, credited, txs);
            && Agrees(p, r, start)
            && Agrees(p, r, credited)
            && credited.tree == BuildTree(p, r.keys, credited.accounts)
            && (final.Some? ==>
                  && Agrees(p, r, final.value)
                  && final.value.tree == BuildTree(p, r.keys, final.value.accounts))
  {
    var start := World(accounts, BuildTree(p, r.keys, accounts));
    AgreementIsFreshBuild(p, r, start);
    DepositsAgree(p, r, start, ds);
    var credited := RunDeposits(p, r, start, ds);
    AgreementIsFreshBuild(p, r, credited);
    if RunTransfers(p, r, credited, txs).Some? {
      TransfersAgree(p, r, credited, txs);
      AgreementIsFreshBuild(p, r, RunTransfers(p, r, credited, txs).value);
    }
  }

  lemma StartAgrees(p: Primitives, b: Batch)
    requires Evaluate(p, b).Some? && DistinctKeys(Evaluate(p, b).value.roster)
    ensures Agrees(p, Evaluate(p, b).value.roster, Evaluate(p, b).value.start)
  {
    BuildAgrees(p, Evaluate(p, b).value.roster.keys, b.leafData);
  }

  /** The final root of a batch is the root of a fresh tree over the final accounts. */
  lemma FinalRootIsFresh(p: Primitives, b: Batch)
    requires Evaluate(p, b).Some? && DistinctKeys(Evaluate(p, b).value.roster)
    ensures var e := Evaluate(p, b).value;
            && Agrees(p, e.roster, e.start)
            && Agrees(p, e.roster, e.final)
            && RootOf(p, e.final.tree) == RootOf(p, BuildTree(p, e.roster.keys, e.final.accounts))
  {
    var e := Evaluate(p, b).value;
    AppliedPrefixes(p, b);
    EveryTurnAgrees(p, e.roster, b.leafData, b.deposits[..e.depositsDone], b.transactions[..e.transfersDone]);
  }

  /**
    The guest does not check that its keys are distinct, and distinctness is exactly what
    agreement needs: the list and the tree agree after every sequence of deposits to listed
    users if and only if no two addresses share a key.
   */
  lemma AgreementNeedsDistinctKeys(p: Primitives, r: Roster, accounts: seq<AccountData>)
    requires LeafHashSound(p)
    requires KeysOf(p, r.addresses) == Some(r.keys) && |r.addresses| <= |accounts|
    ensures DistinctKeys(r) <==>
            var start := World(accounts, BuildTree(p, r.keys, accounts));
            forall ds :: AllKnown(r, ds) ==> Agrees(p, r, RunDeposits(p, r, start, ds))
  {
    var start := World(accounts, BuildTree(p, r.keys, accounts));
    if DistinctKeys(r) {
      forall ds | AllKnown(r, ds) ensures Agrees(p, r, RunDeposits(p, r, start, ds)) {
        EveryTurnAgrees(p, r, accounts, ds, []);
      }
    } else {
      var i, j :| 0 <= i < j < |r.keys| && r.keys[i] == r.keys[j];
      var ds := SharedKeyBreaksAgreement(p, r, accounts, i, j);
      assert AllKnown(r, ds) && !Agrees(p, r, RunDeposits(p, r, start, ds));
    }
  }

  /** Two listings of one key that are both right list the same account. */
  lemma SharedKeySharesAccount(p: Primitives, r: Roster, w: World, i: nat, j: nat)
    requires LeafHashSound(p) && Fits(r, w) && Agrees(p, r, w)
    requires i < |r.keys| && j < |r.keys| && r.keys[i] == r.keys[j]
    ensures w.accounts[i] == w.accounts[j]
  {
    assert Holds(p, w.tree, r.keys[i], w.accounts[i]) && Holds(p, w.tree, r.keys[j], w.accounts[j]);
    HoldsReads(p, w.tree, r.keys[i], w.accounts[i]);
    HoldsReads(p, w.tree, r.keys[j], w.accounts[j]);
  }

  lemma CreditChanges(a: AccountData)
    ensures Credit(a, 1) != a
  {
  }

  /** So they cannot both be right before and after one of them is credited. */
  lemma CreditSeparatesSharedKey(p: Primitives, r: Roster, w: World, i: nat, j: nat)
    requires LeafHashSound(p) && Fits(r, w) && i < j < |r.keys| && r.keys[i] == r.keys[j]
    requires Agrees(p, r, w)
    ensures !Agrees(p, r, DepositStep(p, r, w, i, 1))
  {
    var w' := DepositStep(p, r, w, i, 1);
    SharedKeySharesAccount(p, r, w, i, j);
    CreditChanges(w.accounts[i]);
    if Agrees(p, r, w') {
      SharedKeySharesAccount(p, r, w', i, j);
    }
  }

  lemma SharedKeyBreaksAgreement(p: Primitives, r: Roster, accounts: seq<AccountData>, i: nat, j: nat)
    returns (ds: seq<DepositInfo>)
    requires LeafHashSound(p)
    requires KeysOf(p, r.addresses) == Some(r.keys) && |r.addresses| <= |accounts|
    requires i < j < |r.keys| && r.keys[i] == r.keys[j]
    ensures AllKnown(r, ds)
    ensures !Agrees(p, r, RunDeposits(p, r, World(accounts, BuildTree(p, r.keys, accounts)), ds))
  {
    var start := World(accounts, BuildTree(p, r.keys, accounts));
    FindsFirst(r.addresses, r.addresses[i], i);
    var first := FindAccountIndex(r.addresses, r.addresses[i]).value;
    SameKey(p, r, first, i);
    ds := [];
    if Agrees(p, r, start) {
      ds := [DepositInfo(0, r.addresses[i], 1)];
      assert ds[..0] == [];
      assert RunDeposits(p, r, start, ds) == DepositStep(p, r, start, first, 1);
      CreditSeparatesSharedKey(p, r, start, first, j);
    }
  }

  lemma SameKey(p: Primitives, r: Roster, i: nat, j: nat)
    requires KeysOf(p, r.addresses) == Some(r.keys) && i < |r.keys| && j < |r.keys|
    requires Lower(r.addresses[i]) == Lower(r.addresses[j])
    ensures r.keys[i] == r.keys[j]
  {
    KeyAt(p, r.addresses, i);
    KeyAt(p, r.addresses, j);
    AddressIgnoresCase(r.addresses[i]);
    AddressIgnoresCase(r.addresses[j]);
  }
}
