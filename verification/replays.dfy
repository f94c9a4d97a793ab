/**
  What happens to replay protection when a listing names one account twice: the search finds
  the first entry, the tree keeps the last, and a message that was applied is applied again.
 */
module Replays {
  import opened Bytes
  import opened Sequences
  import opened Options
  import opened Text
  import opened Smt
  import opened Transition
  import opened History
  import opened Listings
  import opened Authorization
  import opened SingleUse

  /** Successful batches, the first on the zero root and each on its predecessor's; any listings. */
  predicate Accepted(p: Primitives, bs: seq<Batch>) {
    bs == [] ||
    (var front, last := bs[..|bs| - 1], bs[|bs| - 1];
     Accepted(p, front) && Succeeds(p, last) && JournalOf(p, last).value.oldRoot == LastRoot(p, front))
  }

  lemma AcceptedNext(p: Primitives, bs: seq<Batch>, b: Batch)
    ensures Accepted(p, bs + [b]) <==>
            Accepted(p, bs) && Succeeds(p, b) && JournalOf(p, b).value.oldRoot == LastRoot(p, bs)
  {
    assert (bs + [b])[..|bs|] == bs;
  }

  ghost predicate AllReadable(p: Primitives, bs: seq<Batch>) {
    bs == [] || (AllReadable(p, bs[..|bs| - 1]) && Readable(p, bs[|bs| - 1]))
  }

  /** A settled chain is one of these that lists each key once in every batch. */
  lemma {:induction false} ChainIsAccepted(p: Primitives, bs: seq<Batch>)
    ensures Chain(p, bs) <==> Accepted(p, bs) && AllReadable(p, bs)
  {
    if bs != [] {
      ChainIsAccepted(p, bs[..|bs| - 1]);
    }
  }

  // ----- Evaluating the two batches -----

  lemma OneTransfer(p: Primitives, r: Roster, w: World, tx: Transaction)
    requires Fits(r, w)
    ensures Transfer(p, r, w, tx).Some? ==>
              TransferLoop(p, r, w, [tx]) == Progress(Transfer(p, r, w, tx).value, 1)
  {
    assert [tx][..0] == [];
    assert TransferLoop(p, r, w, []) == Progress(w, 0);
  }

  /** The account after the transfer is stored as a leaf of its own. */
  ghost predicate LeafKept(p: Primitives, amount: u64) {
    ToH256(p, AccountData(amount, 1)) != ZERO
  }

  lemma SoundKeepsLeaf(p: Primitives, amount: u64)
    requires LeafHashSound(p)
    ensures LeafKept(p, amount)
  {
    assert |LeafBytes(AccountData(amount, 1))| == 16;
  }

  lemma SelfStep(p: Primitives, r: Roster, w: World, amount: u64)
    requires LeafKept(p, amount) && Fits(r, w) && |r.keys| > 0 && w.accounts[0] == AccountData(amount, 0)
    ensures TransferStep(p, r, w, 0, 0, amount) ==
            World(w.accounts[0 := AccountData(amount, 1)], w.tree[r.keys[0] := AccountData(amount, 1)])
  {
    var after := AccountData(amount, 1);
    DebitThenCredit(w.accounts[0], amount);
    assert AfterTransfer(w.accounts, 0, 0, amount) == w.accounts[0 := after];
    assert Updated(p, w.tree, r.keys[0], after) == w.tree[r.keys[0] := after];
  }

  /** A self-transfer by an account that is listed first. */
  lemma SelfTransfer(p: Primitives, r: Roster, w: World, tx: Transaction)
    requires LeafKept(p, tx.amount) && Fits(r, w) && tx.nonce == 0
    requires FindAccountIndex(r.addresses, tx.from) == FindAccountIndex(r.addresses, tx.to) == Some(0)
    requires w.accounts[0] == AccountData(tx.amount, 0)
    ensures var after := AccountData(tx.amount, 1);
            TransferLoop(p, r, w, [tx]) == Progress(World(w.accounts[0 := after], w.tree[r.keys[0] := after]), 1)
  {
    SelfStep(p, r, w, tx.amount);
    OneTransfer(p, r, w, tx);
  }

  lemma FoundFirst(a: Text, b: Text, name: Text)
    requires Lower(name) == Lower(a)
    ensures FindAccountIndex([a], name) == Some(0) && FindAccountIndex([a, b], name) == Some(0)
  {
    assert [a][..0] == [] && [a, b][..1] == [a];
  }

  lemma KeysOfListing(p: Primitives, a: Text, b: Text, key: Digest)
    requires TreeKey(p, a) == TreeKey(p, b) == Some(key)
    ensures KeysOf(p, [a]) == Some([key]) && KeysOf(p, [a, b]) == Some([key, key])
  {
    var f := TreeKeyOf(p);
    assert f(a) == f(b) == Some(key);
    MapAllNext(f, [a, b], 0);
    MapAllNext(f, [a, b], 1);
    assert [a, b][..0] == [] && [a, b][..1] == [a] && [a, b][..2] == [a, b];
    assert [] + [key] == [key] && [key] + [key] == [key, key];
  }

  lemma ListingTree(p: Primitives, key: Digest, stale: AccountData, last: AccountData)
    requires ToH256(p, last) != ZERO
    ensures BuildTree(p, [key], [EMPTY]) == map[]
    ensures BuildTree(p, [key, key], [stale, last]) == map[key := last]
  {
    BuildTreeNext(p, [], [EMPTY], key);
    BuildTreeNext(p, [], [stale, last], key);
    BuildTreeNext(p, [key], [stale, last], key);
    assert [] + [key] == [key] && [key] + [key] == [key, key];
  }

  /** Funds the account and applies the transfer. */
  function First(p: Primitives, tx: Transaction, a: Text, key: Digest): Batch {
    Batch(H256ToHex(RootOf(p, map[])), H256ToHex(RootOf(p, map[key := AccountData(tx.amount, 1)])),
          [EMPTY], [tx], [DepositInfo(0, a, tx.amount)], 0, [a])
  }

  /** Lists the account as it was and then as it is, and applies the transfer to the former. */
  function Second(p: Primitives, tx: Transaction, a: Text, b: Text, key: Digest): Batch {
    var root := H256ToHex(RootOf(p, map[key := AccountData(tx.amount, 1)]));
    Batch(root, root, [AccountData(tx.amount, 0), AccountData(tx.amount, 1)], [tx], [], 0, [a, b])
  }

  ghost predicate SelfTransferOf(p: Primitives, tx: Transaction, a: Text, key: Digest) {
    && Signed(p, tx) && tx.nonce == 0
    && Lower(tx.from) == Lower(tx.to) == Lower(a)
    && TreeKey(p, a) == Some(key)
  }

  /** A batch whose two loops run to their ends, evaluated. */
  lemma WholeRun(p: Primitives, b: Batch, keys: seq<Digest>, tree: Leaves, credited: World, final: World)
    requires KeysOf(p, b.addresses) == Some(keys) && |keys| == |b.addresses| <= |b.leafData|
    requires BuildTree(p, keys, b.leafData) == tree && AllSigned(p, b.transactions)
    requires var r := Roster(b.addresses, keys);
             && DepositLoop(p, r, World(b.leafData, tree), b.deposits) == Progress(credited, |b.deposits|)
             && Fits(r, credited)
             && TransferLoop(p, r, credited, b.transactions) == Progress(final, |b.transactions|)
    ensures Evaluate(p, b).Some? && FullyProcessed(Evaluate(p, b).value, b)
    ensures Evaluate(p, b).value.start.tree == tree && Evaluate(p, b).value.final == final
  {
  }

  lemma Funded(p: Primitives, r: Roster, a: Text, amount: u64)
    requires Fits(r, World([EMPTY], map[])) && FindAccountIndex(r.addresses, a) == Some(0)
    ensures var g := DepositLoop(p, r, World([EMPTY], map[]), [DepositInfo(0, a, amount)]);
            && g.done == 1 && g.world.accounts == [AccountData(amount, 0)] && g.world.tree.Keys <= {r.keys[0]}
  {
    OneDeposit(p, r, World([EMPTY], map[]), DepositInfo(0, a, amount));
    assert Credit(EMPTY, amount) == AccountData(amount, 0);
  }

  ghost predicate Names(r: Roster, tx: Transaction) {
    FindAccountIndex(r.addresses, tx.from) == FindAccountIndex(r.addresses, tx.to) == Some(0)
  }

  /** The loops of a batch over one account that funds it and applies a self-transfer of it. */
  lemma FundAndSend(p: Primitives, r: Roster, tx: Transaction, a: Text) returns (credited: World)
    requires LeafKept(p, tx.amount) && |r.keys| == |r.addresses| == 1
    requires tx.nonce == 0 && Names(r, tx) && FindAccountIndex(r.addresses, a) == Some(0)
    ensures var now := AccountData(tx.amount, 1);
            && DepositLoop(p, r, World([EMPTY], map[]), [DepositInfo(0, a, tx.amount)]) == Progress(credited, 1)
            && Fits(r, credited)
            && TransferLoop(p, r, credited, [tx]) == Progress(World([now], map[r.keys[0] := now]), 1)
  {
    Funded(p, r, a, tx.amount);
    credited := DepositLoop(p, r, World([EMPTY], map[]), [DepositInfo(0, a, tx.amount)]).world;
    SelfTransfer(p, r, credited, tx);
  }

  lemma FirstRun(p: Primitives, tx: Transaction, a: Text, key: Digest)
    requires LeafKept(p, tx.amount) && AllSigned(p, [tx]) && tx.nonce == 0
    requires KeysOf(p, [a]) == Some([key]) && BuildTree(p, [key], [EMPTY]) == map[]
    requires Names(Roster([a], [key]), tx) && FindAccountIndex([a], a) == Some(0)
    ensures var e := Evaluate(p, First(p, tx, a, key));
            && e.Some? && FullyProcessed(e.value, First(p, tx, a, key))
            && e.value.start.tree == map[] && e.value.final.tree == map[key := AccountData(tx.amount, 1)]
  {
    var now := AccountData(tx.amount, 1);
    var credited := FundAndSend(p, Roster([a], [key]), tx, a);
    WholeRun(p, First(p, tx, a, key), [key], map[], credited, World([now], map[key := now]));
  }

  /** The transfer, applied to the account as it was before, leaves the tree as it is. */
  lemma SendAgain(p: Primitives, r: Roster, tx: Transaction, start: World)
    requires LeafKept(p, tx.amount) && |r.keys| == |r.addresses| == 2 && tx.nonce == 0 && Names(r, tx)
    requires var now := AccountData(tx.amount, 1);
             start == World([AccountData(tx.amount, 0), now], map[r.keys[0] := now])
    ensures DepositLoop(p, r, start, []) == Progress(start, 0)
    ensures TransferLoop(p, r, start, [tx]) == Progress(World([start.accounts[1], start.accounts[1]], start.tree), 1)
  {
    SelfTransfer(p, r, start, tx);
  }

  lemma SecondRun(p: Primitives, tx: Transaction, a: Text, b: Text, key: Digest)
    requires LeafKept(p, tx.amount) && AllSigned(p, [tx]) && tx.nonce == 0
    requires KeysOf(p, [a, b]) == Some([key, key]) && Names(Roster([a, b], [key, key]), tx)
    requires var now := AccountData(tx.amount, 1);
             BuildTree(p, [key, key], [AccountData(tx.amount, 0), now]) == map[key := now]
    ensures var e := Evaluate(p, Second(p, tx, a, b, key));
            && e.Some? && FullyProcessed(e.value, Second(p, tx, a, b, key))
            && e.value.start.tree == e.value.final.tree == map[key := AccountData(tx.amount, 1)]
  {
    var now := AccountData(tx.amount, 1);
    var start := World([AccountData(tx.amount, 0), now], map[key := now]);
    SendAgain(p, Roster([a, b], [key, key]), tx, start);
    WholeRun(p, Second(p, tx, a, b, key), [key, key], start.tree, start, World([now, now], start.tree));
  }

  lemma FirstSucceeds(p: Primitives, tx: Transaction, a: Text, key: Digest)
    requires LeafKept(p, tx.amount) && p.merkle(map[]) == ZERO && SelfTransferOf(p, tx, a, key)
    ensures var b := First(p, tx, a, key);
            && Succeeds(p, b) && JournalOf(p, b).value.oldRoot == ZERO
            && JournalOf(p, b).value.newRoot == RootOf(p, map[key := AccountData(tx.amount, 1)])
  {
    KeysOfListing(p, a, a, key);
    ListingTree(p, key, EMPTY, AccountData(tx.amount, 1));
    FoundFirst(a, a, a);
    FoundFirst(a, a, tx.from);
    FoundFirst(a, a, tx.to);
    FirstRun(p, tx, a, key);
    ZeroRootOfNothing(p);
    RightClaimsSucceed(p, First(p, tx, a, key), map[], map[key := AccountData(tx.amount, 1)]);
  }

  lemma SecondSucceeds(p: Primitives, tx: Transaction, a: Text, b: Text, key: Digest)
    requires LeafKept(p, tx.amount) && SelfTransferOf(p, tx, a, key) && TreeKey(p, b) == Some(key)
    ensures var c := Second(p, tx, a, b, key);
            && Succeeds(p, c)
            && JournalOf(p, c).value.oldRoot == RootOf(p, map[key := AccountData(tx.amount, 1)])
  {
    KeysOfListing(p, a, b, key);
    ListingTree(p, key, AccountData(tx.amount, 0), AccountData(tx.amount, 1));
    FoundFirst(a, b, tx.from);
    FoundFirst(a, b, tx.to);
    SecondRun(p, tx, a, b, key);
    var tree := map[key := AccountData(tx.amount, 1)];
    RightClaimsSucceed(p, Second(p, tx, a, b, key), tree, tree);
  }

  lemma OneAccepted(p: Primitives, b: Batch)
    requires Succeeds(p, b) && JournalOf(p, b).value.oldRoot == ZERO
    ensures Accepted(p, [b]) && LastRoot(p, [b]) == JournalOf(p, b).value.newRoot
  {
    AcceptedNext(p, [], b);
    assert [] + [b] == [b];
  }

  lemma TwoAccepted(p: Primitives, b: Batch, c: Batch)
    requires Succeeds(p, b) && JournalOf(p, b).value.oldRoot == ZERO
    requires Succeeds(p, c) && JournalOf(p, c).value.oldRoot == JournalOf(p, b).value.newRoot
    ensures Accepted(p, [b] + [c])
  {
    OneAccepted(p, b);
    AcceptedNext(p, [b], c);
  }

  /**
    Without distinct keys replay protection fails, and not for contrived messages only: every
    signed self-transfer with nonce 0, of any amount, is applied in two batches that the guest
    reports as successes on linked roots. The second may simply name the same address twice.
   */
  lemma SignedMessageReplayed(p: Primitives, tx: Transaction, a: Text, b: Text, key: Digest)
    requires LeafHashSound(p) && p.merkle(map[]) == ZERO
    requires SelfTransferOf(p, tx, a, key) && TreeKey(p, b) == Some(key)
    ensures var first, second := First(p, tx, a, key), Second(p, tx, a, b, key);
            && Accepted(p, [first] + [second])
            && first.transactions == second.transactions == [tx]
            && Applied(p, first, 0) && Applied(p, second, 0)
  {
    SoundKeepsLeaf(p, tx.amount);
    FirstSucceeds(p, tx, a, key);
    SecondSucceeds(p, tx, a, b, key);
    TwoAccepted(p, First(p, tx, a, key), Second(p, tx, a, b, key));
    SucceededIsApplied(p, First(p, tx, a, key), 0);
    SucceededIsApplied(p, Second(p, tx, a, b, key), 0);
  }
}
