/**
  The guest's state transition as a fold: what the loops of executor/methods/guest compute,
  stated over account lists and leaf maps instead of vectors and a tree object.
 */
module Transition {
  import opened Bytes
  import opened Sequences
  import opened Options
  import opened Text
  import opened Smt
  import opened SignedMessage

  datatype TransactionSignature = TransactionSignature(pubKey: Text, signature: Text)

  datatype Transaction = Transaction(
    from: Text, to: Text, amount: u64, nonce: u64, signature: TransactionSignature)

  datatype DepositInfo = DepositInfo(depositId: u64, user: Text, amount: u64)

  datatype Batch = Batch(
    oldMerkleRoot: Text,
    newMerkleRoot: Text,
    leafData: seq<AccountData>,
    transactions: seq<Transaction>,
    deposits: seq<DepositInfo>,
    badgeId: u32,
    addresses: seq<Text>)

  /** What the guest commits to. */
  datatype Journal = Journal(
    success: bool,
    oldRoot: Digest,
    newRoot: Digest,
    badgeId: u32,
    transactionsProcessed: u32,
    processedDepositIds: seq<u64>)

  // ----- Signatures -----

  function HexBytes(s: Text): Option<seq<byte>> {
    DecodePairs(StripPrefix(s), true)
  }

  function IntentOf(tx: Transaction): Intent {
    Intent(tx.from, tx.to, tx.amount, tx.nonce)
  }

  /** Wallets number the two candidate keys 27 and 28, the curve library 0 and 1. */
  function RecoveryId(v: byte): byte {
    if v >= 27 then v - 27 else v
  }

  predicate RecoversTo(p: Primitives, hash: Digest, rs: seq<byte>, v: byte, expected: Text) {
    RecoveryId(v) <= 1 &&
    match p.recover(hash, rs, RecoveryId(v))
    case None => false
    case Some(point) => Lower("0x" + HexEncode(p.keccak(point)[12..32])) == Lower(expected)
  }

  predicate SignatureValid(p: Primitives, tx: Transaction) {
    match HexBytes(tx.signature.signature)
    case None => false
    case Some(bs) =>
      && |bs| == 65
      && RecoversTo(p, MessageHash(p.keccak, IntentOf(tx)), bs[0..64], bs[64], tx.from)
  }

  predicate Signed(p: Primitives, tx: Transaction) {
    SignatureValid(p, tx) && Lower(tx.signature.pubKey) == Lower(tx.from)
  }

  // ----- The account list -----

  /** The addresses of a batch with the tree key of each. */
  datatype Roster = Roster(addresses: seq<Text>, keys: seq<Digest>)

  ghost predicate DistinctKeys(r: Roster) {
    forall i, j :: 0 <= i < j < |r.keys| ==> r.keys[i] != r.keys[j]
  }

  function TreeKey(p: Primitives, address: Text): Option<Digest> {
    match AddressOf(address)
    case None => None
    case Some(bytes) => Some(AddressToTreeKey(p, bytes))
  }

  function TreeKeyOf(p: Primitives): Text -> Option<Digest> {
    address => TreeKey(p, address)
  }

  /** The tree keys in order; no list when an address cannot be read. */
  function KeysOf(p: Primitives, addresses: seq<Text>): Option<seq<Digest>> {
    MapAll(TreeKeyOf(p), addresses)
  }

  lemma KeyAt(p: Primitives, addresses: seq<Text>, i: nat)
    requires i < |addresses| && KeysOf(p, addresses).Some?
    ensures i < |KeysOf(p, addresses).value|
    ensures TreeKey(p, addresses[i]) == Some(KeysOf(p, addresses).value[i])
  {
    MapAllAt(TreeKeyOf(p), addresses, i);
  }

  /** The first listed address equal to `target` up to case. */
  function FindAccountIndex(addresses: seq<Text>, target: Text): (r: Option<nat>)
    ensures r.Some? ==> r.value < |addresses| && Lower(addresses[r.value]) == Lower(target)
  {
    if addresses == [] then None
    else
      var front := FindAccountIndex(addresses[..|addresses| - 1], target);
      if front.Some? then front
      else if Lower(addresses[|addresses| - 1]) == Lower(target) then Some(|addresses| - 1)
      else None
  }

  /** It finds every listed name, and finds it where it first occurs. */
  lemma {:induction false} FindsFirst(addresses: seq<Text>, target: Text, j: nat)
    requires j < |addresses| && Lower(addresses[j]) == Lower(target)
    ensures FindAccountIndex(addresses, target).Some?
    ensures FindAccountIndex(addresses, target).value <= j
  {
    if j < |addresses| - 1 {
      FindsFirst(addresses[..|addresses| - 1], target, j);
    }
  }

  // ----- Single steps -----

  /** The two copies of the state: the working list and the tree. */
  datatype World = World(accounts: seq<AccountData>, tree: Leaves)

  ghost predicate Fits(r: Roster, w: World) {
    |r.addresses| == |r.keys| <= |w.accounts|
  }

  /** `balance += amount` on 64-bit words, which wraps in the guest's release build. */
  function Credit(a: AccountData, amount: u64): AccountData {
    a.(balance := (a.balance + amount) % TWO_TO_THE_64)
  }

  /** One if adding `amount` to the account wraps around. */
  function Carry(a: AccountData, amount: u64): nat {
    if a.balance + amount >= TWO_TO_THE_64 then 1 else 0
  }

  lemma CreditCarries(a: AccountData, amount: u64)
    ensures Credit(a, amount).balance + TWO_TO_THE_64 * Carry(a, amount) == a.balance + amount
  {
  }

  function Debit(a: AccountData, amount: u64): AccountData
    requires amount <= a.balance
  {
    AccountData(a.balance - amount, (a.nonce + 1) % TWO_TO_THE_64)
  }

  /** Paying oneself leaves the balance as it was. */
  lemma DebitThenCredit(a: AccountData, amount: u64)
    requires amount <= a.balance
    ensures Credit(Debit(a, amount), amount) == a.(nonce := (a.nonce + 1) % TWO_TO_THE_64)
  {
  }

  function DepositStep(p: Primitives, r: Roster, w: World, i: nat, amount: u64): (w': World)
    requires Fits(r, w) && i < |r.keys|
    ensures Fits(r, w')
  {
    var accounts := w.accounts[i := Credit(w.accounts[i], amount)];
    World(accounts, Updated(p, w.tree, r.keys[i], accounts[i]))
  }

  /** Debit, then credit, as plain two-index updates; a self-transfer is not a special case. */
  function AfterTransfer(accounts: seq<AccountData>, from: nat, to: nat, amount: u64): (r: seq<AccountData>)
    requires from < |accounts| && to < |accounts| && amount <= accounts[from].balance
    ensures |r| == |accounts|
  {
    var debited := accounts[from := Debit(accounts[from], amount)];
    debited[to := Credit(debited[to], amount)]
  }

  /** One transfer on both copies; the tree gets the sender's leaf first, then the payee's. */
  function TransferStep(p: Primitives, r: Roster, w: World, from: nat, to: nat, amount: u64): (w': World)
    requires Fits(r, w) && from < |r.keys| && to < |r.keys|
    requires amount <= w.accounts[from].balance
    ensures Fits(r, w')
  {
    var accounts := AfterTransfer(w.accounts, from, to, amount);
    World(accounts,
          Updated(p, Updated(p, w.tree, r.keys[from], accounts[from]), r.keys[to], accounts[to]))
  }

  predicate Covered(a: AccountData, tx: Transaction) {
    a.balance >= tx.amount && a.nonce == tx.nonce
  }

  function Transfer(p: Primitives, r: Roster, w: World, tx: Transaction): (w': Option<World>)
    requires Fits(r, w)
    ensures w'.Some? ==> Fits(r, w'.value)
  {
    var from, to := FindAccountIndex(r.addresses, tx.from), FindAccountIndex(r.addresses, tx.to);
    if from.Some? && to.Some? && Covered(w.accounts[from.value], tx)
    then Some(TransferStep(p, r, w, from.value, to.value, tx.amount))
    else None
  }

  // ----- Folds -----

  /** How far a loop came, and the state it left. */
  datatype Progress = Progress(world: World, done: nat)

  /** The deposit loop: stops at the first deposit whose user is not listed. */
  function DepositLoop(p: Primitives, r: Roster, w: World, ds: seq<DepositInfo>): (g: Progress)
    requires Fits(r, w)
    ensures Fits(r, g.world) && g.done <= |ds|
  {
    if ds == [] then Progress(w, 0)
    else
      var g, d := DepositLoop(p, r, w, ds[..|ds| - 1]), ds[|ds| - 1];
      var found := FindAccountIndex(r.addresses, d.user);
      if g.done == |ds| - 1 && found.Some?
      then Progress(DepositStep(p, r, g.world, found.value, d.amount), |ds|)
      else g
  }

  /** The transfer loop: stops at the first transfer that is not valid. */
  function TransferLoop(p: Primitives, r: Roster, w: World, txs: seq<Transaction>): (g: Progress)
    requires Fits(r, w)
    ensures Fits(r, g.world) && g.done <= |txs|
  {
    if txs == [] then Progress(w, 0)
    else
      var g := TransferLoop(p, r, w, txs[..|txs| - 1]);
      if g.done < |txs| - 1 then g
      else
        match Transfer(p, r, g.world, txs[|txs| - 1])
        case None => g
        case Some(next) => Progress(next, |txs|)
  }

  /** A loop that is stuck at `i` stays there. */
  lemma {:induction false} DepositLoopStuck(p: Primitives, r: Roster, w: World, ds: seq<DepositInfo>, i: nat)
    requires Fits(r, w) && i < |ds| && FindAccountIndex(r.addresses, ds[i].user).None?
    ensures DepositLoop(p, r, w, ds) == DepositLoop(p, r, w, ds[..i])
  {
    var front := ds[..|ds| - 1];
    if i < |ds| - 1 {
      DepositLoopStuck(p, r, w, front, i);
      assert front[..i] == ds[..i];
    }
  }

  lemma {:induction false} TransferLoopStuck(p: Primitives, r: Roster, w: World, txs: seq<Transaction>, i: nat)
    requires Fits(r, w) && i < |txs|
    requires var g := TransferLoop(p, r, w, txs[..i]); g.done == i ==> Transfer(p, r, g.world, txs[i]).None?
    ensures TransferLoop(p, r, w, txs) == TransferLoop(p, r, w, txs[..i])
  {
    var front := txs[..|txs| - 1];
    if i < |txs| - 1 {
      assert front[..i] == txs[..i];
      TransferLoopStuck(p, r, w, front, i);
    }
  }

  predicate AllKnown(r: Roster, ds: seq<DepositInfo>) {
    ds == [] ||
    (AllKnown(r, ds[..|ds| - 1]) && FindAccountIndex(r.addresses, ds[|ds| - 1].user).Some?)
  }

  lemma {:induction false} AllKnownIsEachKnown(r: Roster, ds: seq<DepositInfo>)
    ensures AllKnown(r, ds) <==>
            forall i :: 0 <= i < |ds| ==> FindAccountIndex(r.addresses, ds[i].user).Some?
  {
    if ds != [] {
      AllKnownIsEachKnown(r, ds[..|ds| - 1]);
    }
  }

  /** All of `ds` applied in order. */
  function RunDeposits(p: Primitives, r: Roster, w: World, ds: seq<DepositInfo>): (w': World)
    requires Fits(r, w) && AllKnown(r, ds)
    ensures Fits(r, w')
  {
    if ds == [] then w
    else
      var front, d := RunDeposits(p, r, w, ds[..|ds| - 1]), ds[|ds| - 1];
      DepositStep(p, r, front, FindAccountIndex(r.addresses, d.user).value, d.amount)
  }

  /** All of `txs` applied in order; None if one of them is not valid in its turn. */
  function RunTransfers(p: Primitives, r: Roster, w: World, txs: seq<Transaction>): (w': Option<World>)
    requires Fits(r, w)
    ensures w'.Some? ==> Fits(r, w'.value)
  {
    if txs == [] then Some(w)
    else
      match RunTransfers(p, r, w, txs[..|txs| - 1])
      case None => None
      case Some(front) => Transfer(p, r, front, txs[|txs| - 1])
  }

  lemma {:induction false} DepositLoopStops(p: Primitives, r: Roster, w: World, ds: seq<DepositInfo>)
    requires Fits(r, w)
    ensures var n := DepositLoop(p, r, w, ds).done;
            n < |ds| ==> FindAccountIndex(r.addresses, ds[n].user).None?
  {
    if ds != [] {
      var front := ds[..|ds| - 1];
      DepositLoopStops(p, r, w, front);
      var g := DepositLoop(p, r, w, front);
      assert g.done < |front| ==> front[g.done] == ds[g.done];
    }
  }

  /** The deposit loop applies the longest prefix of deposits whose users are all listed. */
  lemma DepositLoopIsLongestPrefix(p: Primitives, r: Roster, w: World, ds: seq<DepositInfo>)
    requires Fits(r, w)
    ensures var g := DepositLoop(p, r, w, ds);
            && AllKnown(r, ds[..g.done])
            && g.world == RunDeposits(p, r, w, ds[..g.done])
            && (g.done < |ds| ==> FindAccountIndex(r.addresses, ds[g.done].user).None?)
  {
    DepositLoopOfPrefix(p, r, w, ds);
    AllKnownRunIsLoop(p, r, w, ds[..DepositLoop(p, r, w, ds).done]);
    DepositLoopStops(p, r, w, ds);
  }

  /** What the loop does, it does on the prefix it applies. */
  lemma {:induction false} DepositLoopOfPrefix(p: Primitives, r: Roster, w: World, ds: seq<DepositInfo>)
    requires Fits(r, w)
    ensures var g := DepositLoop(p, r, w, ds);
            DepositLoop(p, r, w, ds[..g.done]) == g
  {
    if ds != [] {
      var front, g := ds[..|ds| - 1], DepositLoop(p, r, w, ds);
      if g.done == |ds| {
        assert ds[..|ds|] == ds;
      } else {
        assert g == DepositLoop(p, r, w, front);
        DepositLoopOfPrefix(p, r, w, front);
        assert front[..g.done] == ds[..g.done];
      }
    }
  }

  /** Deposits to listed users only: the loop applies them all, and otherwise it does not. */
  lemma {:induction false} AllKnownRunIsLoop(p: Primitives, r: Roster, w: World, ds: seq<DepositInfo>)
    requires Fits(r, w)
    ensures AllKnown(r, ds) <==> DepositLoop(p, r, w, ds).done == |ds|
    ensures AllKnown(r, ds) ==> DepositLoop(p, r, w, ds).world == RunDeposits(p, r, w, ds)
  {
    if ds != [] {
      AllKnownRunIsLoop(p, r, w, ds[..|ds| - 1]);
    }
  }

  lemma {:induction false} TransferLoopStops(p: Primitives, r: Roster, w: World, txs: seq<Transaction>)
    requires Fits(r, w)
    ensures var g := TransferLoop(p, r, w, txs);
            g.done < |txs| ==> Transfer(p, r, g.world, txs[g.done]).None?
  {
    if txs != [] {
      var front := txs[..|txs| - 1];
      TransferLoopStops(p, r, w, front);
      var g := TransferLoop(p, r, w, front);
      if g.done < |front| {
        assert front[g.done] == txs[g.done];
        assert TransferLoop(p, r, w, txs) == g;
      }
    }
  }

  /**
    The transfer loop applies the longest prefix of transfers that are all valid in turn: the
    next one is not valid on the state it leaves.
   */
  lemma TransferLoopIsLongestPrefix(p: Primitives, r: Roster, w: World, txs: seq<Transaction>)
    requires Fits(r, w)
    ensures var g := TransferLoop(p, r, w, txs);
            && RunTransfers(p, r, w, txs[..g.done]) == Some(g.world)
            && (g.done < |txs| ==> Transfer(p, r, g.world, txs[g.done]).None?)
  {
    TransferLoopOfPrefix(p, r, w, txs);
    ValidRunIsLoop(p, r, w, txs[..TransferLoop(p, r, w, txs).done]);
    TransferLoopStops(p, r, w, txs);
  }

  lemma {:induction false} TransferLoopOfPrefix(p: Primitives, r: Roster, w: World, txs: seq<Transaction>)
    requires Fits(r, w)
    ensures var g := TransferLoop(p, r, w, txs);
            TransferLoop(p, r, w, txs[..g.done]) == g
  {
    if txs != [] {
      var front, g := txs[..|txs| - 1], TransferLoop(p, r, w, txs);
      if g.done == |txs| {
        assert txs[..|txs|] == txs;
      } else {
        TransferLoopOfPrefix(p, r, w, front);
        assert front[..g.done] == txs[..g.done];
      }
    }
  }

  /** A run that is valid throughout is what the loop does, and it does not stop early. */
  lemma {:induction false} ValidRunIsLoop(p: Primitives, r: Roster, w: World, txs: seq<Transaction>)
    requires Fits(r, w)
    ensures RunTransfers(p, r, w, txs).Some? <==> TransferLoop(p, r, w, txs).done == |txs|
    ensures RunTransfers(p, r, w, txs).Some? ==>
              TransferLoop(p, r, w, txs) == Progress(RunTransfers(p, r, w, txs).value, |txs|)
  {
    if txs != [] {
      ValidRunIsLoop(p, r, w, txs[..|txs| - 1]);
    }
  }

  /** The tree of a list of accounts, built from empty one update at a time. */
  function BuildTree(p: Primitives, keys: seq<Digest>, accounts: seq<AccountData>): Leaves
    requires |keys| <= |accounts|
  {
    if keys == [] then map[]
    else
      var n := |keys| - 1;
      Updated(p, BuildTree(p, keys[..n], accounts), keys[n], accounts[n])
  }

  lemma BuildTreeNext(p: Primitives, keys: seq<Digest>, accounts: seq<AccountData>, key: Digest)
    requires |keys| < |accounts|
    ensures BuildTree(p, keys + [key], accounts) == Updated(p, BuildTree(p, keys, accounts), key, accounts[|keys|])
  {
    assert (keys + [key])[..|keys|] == keys;
  }

  // ----- A whole batch -----

  /** Everything the guest computes before it compares roots. */
  datatype Execution = Execution(
    roster: Roster,
    start: World,
    final: World,
    signaturesVerified: bool,
    depositsDone: nat,
    transfersDone: nat)

  predicate AllSigned(p: Primitives, txs: seq<Transaction>) {
    forall i :: 0 <= i < |txs| ==> Signed(p, txs[i])
  }

  /** The deposit loop, then, if nothing failed, the transfer loop. */
  function Process(p: Primitives, r: Roster, start: World, b: Batch, signed: bool): (e: Execution)
    requires Fits(r, start)
    ensures e.roster == r && e.start == start && Fits(r, e.final)
    ensures e.depositsDone <= |b.deposits| && e.transfersDone <= |b.transactions|
  {
    var credited := DepositLoop(p, r, start, b.deposits);
    var final :=
      if signed && credited.done == |b.deposits|
      then TransferLoop(p, r, credited.world, b.transactions)
      else Progress(credited.world, 0);
    Execution(r, start, final.world, signed, credited.done, final.done)
  }

  /** None when the guest panics: an unreadable address, or fewer leaves than addresses. */
  function Evaluate(p: Primitives, b: Batch): (e: Option<Execution>)
    ensures e.Some? ==>
              && Fits(e.value.roster, e.value.start)
              && Fits(e.value.roster, e.value.final)
              && e.value.depositsDone <= |b.deposits|
  {
    var keys := KeysOf(p, b.addresses);
    if keys.None? || |b.leafData| < |b.addresses| then None
    else
      var r := Roster(b.addresses, keys.value);
      var start := World(b.leafData, BuildTree(p, r.keys, b.leafData));
      Some(Process(p, r, start, b, AllSigned(p, b.transactions)))
  }

  /** The batch ran to its end: all signatures, all deposits, all transfers. */
  predicate FullyProcessed(e: Execution, b: Batch) {
    && e.signaturesVerified
    && e.depositsDone == |b.deposits|
    && e.transfersDone == |b.transactions|
  }

  function DepositIds(ds: seq<DepositInfo>): (ids: seq<u64>)
    ensures |ids| == |ds| && forall i :: 0 <= i < |ds| ==> ids[i] == ds[i].depositId
  {
    if ds == [] then [] else DepositIds(ds[..|ds| - 1]) + [ds[|ds| - 1].depositId]
  }

  function JournalFrom(p: Primitives, b: Batch, e: Execution): Journal
    requires e.depositsDone <= |b.deposits|
  {
    var oldRoot, newRoot := RootOf(p, e.start.tree), RootOf(p, e.final.tree);
    var success :=
      && H256ToHex(oldRoot) == b.oldMerkleRoot
      && H256ToHex(newRoot) == b.newMerkleRoot
      && FullyProcessed(e, b);
    Journal(success, oldRoot, newRoot, b.badgeId, e.transfersDone % TWO_TO_THE_32,
            DepositIds(b.deposits[..e.depositsDone]))
  }

  function JournalOf(p: Primitives, b: Batch): Option<Journal> {
    match Evaluate(p, b)
    case None => None
    case Some(e) => Some(JournalFrom(p, b, e))
  }
}
