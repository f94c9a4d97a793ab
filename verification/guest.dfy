/**
  The guest program (executor/methods/guest): its loops over a mutable account vector and a
  mutable tree, each proved to compute the corresponding fold of `Transition`.
 */
module Guest {
  import opened Bytes
  import opened Sequences
  import opened Options
  import opened Text
  import opened Smt
  import opened SignedMessage
  import opened Transition

  method HexToBytes(hexStr: Text) returns (r: Option<seq<byte>>)
    ensures r == HexBytes(hexStr)
  {
    var clean := StripPrefix(hexStr);
    if |clean| % 2 != 0 {
      return None;
    }
    var bytes := [];
    var i := 0;
    assert clean[0..] == clean;
    while i < |clean|
      invariant i <= |clean| && i % 2 == 0
      invariant HexBytes(hexStr) == Prepend(bytes, DecodePairs(clean[i..], true))
    {
      DecodeStep(clean, i, bytes, true);
      match PairValue(clean[i], clean[i + 1], true)
      case None => return None;
      case Some(b) => bytes := bytes + [b];
      i := i + 2;
    }
    r := Some(bytes);
  }

  method VerifyMetamaskSignature(p: Primitives, tx: Transaction) returns (ok: bool)
    ensures ok == SignatureValid(p, tx)
  {
    var signatureBytes := HexToBytes(tx.signature.signature);
    if signatureBytes.None? || |signatureBytes.value| != 65 {
      return false;
    }
    var rs, v := signatureBytes.value[0..64], signatureBytes.value[64];
    ok := RecoverAndVerifySignature(p, MessageHash(p.keccak, IntentOf(tx)), rs, v, tx.from);
  }

  method RecoverAndVerifySignature(p: Primitives, hash: Digest, rs: seq<byte>, v: byte, expected: Text)
    returns (ok: bool)
    ensures ok == RecoversTo(p, hash, rs, v, expected)
  {
    var recoveryId := if v >= 27 then v - 27 else v;
    if recoveryId > 1 {
      return false;
    }
    match p.recover(hash, rs, recoveryId)
    case None =>
      ok := false;
    case Some(point) =>
      var recovered := "0x" + HexEncode(p.keccak(point)[12..32]);
      ok := Lower(recovered) == Lower(expected);
  }

  method VerifyTransaction(p: Primitives, tx: Transaction) returns (ok: bool)
    ensures ok == Signed(p, tx)
  {
    ok := VerifyMetamaskSignature(p, tx);
    if ok && Lower(tx.signature.pubKey) != Lower(tx.from) {
      ok := false;
    }
  }

  method VerifySignatures(p: Primitives, txs: seq<Transaction>) returns (verified: bool)
    ensures verified == AllSigned(p, txs)
  {
    verified := true;
    for i := 0 to |txs|
      invariant verified
      invariant forall j :: 0 <= j < i ==> Signed(p, txs[j])
    {
      verified := VerifyTransaction(p, txs[i]);
      if !verified {
        return;
      }
    }
  }

  /**
    Reads the accounts into the tree. None is a panic: an unreadable address, or an address
    without a leaf.
   */
  method InitializeTree(p: Primitives, addresses: seq<Text>, leafData: seq<AccountData>, tree: Tree)
    returns (keys: Option<seq<Digest>>)
    requires tree.leaves == map[]
    modifies tree
    ensures keys.None? <==> KeysOf(p, addresses).None? || |leafData| < |addresses|
    ensures keys.Some? ==>
              && keys == KeysOf(p, addresses)
              && tree.leaves == BuildTree(p, keys.value, leafData)
  {
    var accountKeys: seq<Digest> := [];
    for i := 0 to |addresses|
      invariant i <= |leafData|
      invariant KeysOf(p, addresses[..i]) == Some(accountKeys)
      invariant tree.leaves == BuildTree(p, accountKeys, leafData)
    {
      var address := HexToAddress(addresses[i]);
      if address.None? {
        MapAllFails(TreeKeyOf(p), addresses, i);
        return None;
      }
      if i >= |leafData| {
        return None;
      }
      var key := AddressToTreeKey(p, address.value);
      MapAllNext(TreeKeyOf(p), addresses, i);
      BuildTreeNext(p, accountKeys, leafData, key);
      accountKeys := accountKeys + [key];
      tree.Update(p, key, leafData[i]);
    }
    assert addresses[..|addresses|] == addresses;
    keys := Some(accountKeys);
  }

  method ProcessDeposits(p: Primitives, r: Roster, deposits: seq<DepositInfo>,
                         working: array<AccountData>, tree: Tree)
    returns (processed: bool, ids: seq<u64>)
    requires Fits(r, World(working[..], tree.leaves))
    modifies working, tree
    ensures var g := DepositLoop(p, r, old(World(working[..], tree.leaves)), deposits);
            && processed == (g.done == |deposits|)
            && ids == DepositIds(deposits[..g.done])
            && World(working[..], tree.leaves) == g.world
  {
    ghost var start := World(working[..], tree.leaves);
    processed, ids := true, [];
    for i := 0 to |deposits|
      invariant processed
      invariant ids == DepositIds(deposits[..i])
      invariant DepositLoop(p, r, start, deposits[..i]) == Progress(World(working[..], tree.leaves), i)
    {
      assert deposits[..i + 1][..i] == deposits[..i];
      var found := FindAccountIndex(r.addresses, deposits[i].user);
      if found.None? {
        DepositLoopStuck(p, r, start, deposits, i);
        processed := false;
        return;
      }
      ApplyDeposit(p, r, found.value, deposits[i].amount, working, tree);
      ids := ids + [deposits[i].depositId];
    }
    assert deposits[..|deposits|] == deposits;
  }

  method ApplyDeposit(p: Primitives, r: Roster, idx: nat, amount: u64, working: array<AccountData>, tree: Tree)
    requires Fits(r, World(working[..], tree.leaves)) && idx < |r.keys|
    modifies working, tree
    ensures World(working[..], tree.leaves) == DepositStep(p, r, old(World(working[..], tree.leaves)), idx, amount)
  {
    working[idx] := Credit(working[idx], amount);
    tree.Update(p, r.keys[idx], working[idx]);
  }

  /** Stops at the first transfer that is not valid. */
  method ProcessTransactions(p: Primitives, r: Roster, txs: seq<Transaction>,
                             working: array<AccountData>, tree: Tree)
    returns (count: nat)
    requires Fits(r, World(working[..], tree.leaves))
    modifies working, tree
    ensures var g := TransferLoop(p, r, old(World(working[..], tree.leaves)), txs);
            count == g.done && World(working[..], tree.leaves) == g.world
  {
    ghost var start := World(working[..], tree.leaves);
    count := 0;
    for i := 0 to |txs|
      invariant count == i
      invariant TransferLoop(p, r, start, txs[..i]) == Progress(World(working[..], tree.leaves), i)
    {
      assert txs[..i + 1][..i] == txs[..i];
      var tx := txs[i];
      var from, to := FindAccountIndex(r.addresses, tx.from), FindAccountIndex(r.addresses, tx.to);
      if from.None? || to.None? {
        TransferLoopStuck(p, r, start, txs, i);
        return;
      }
      var applied := ApplyTransfer(p, r, tx, from.value, to.value, working, tree);
      if !applied {
        TransferLoopStuck(p, r, start, txs, i);
        return;
      }
      count := count + 1;
    }
    assert txs[..|txs|] == txs;
  }

  method ApplyTransfer(p: Primitives, r: Roster, tx: Transaction, fromIdx: nat, toIdx: nat,
                       working: array<AccountData>, tree: Tree)
    returns (applied: bool)
    requires Fits(r, World(working[..], tree.leaves))
    requires fromIdx < |r.keys| && toIdx < |r.keys|
    modifies working, tree
    ensures applied == Covered(old(working[fromIdx]), tx)
    ensures World(working[..], tree.leaves) ==
            if applied
            then TransferStep(p, r, old(World(working[..], tree.leaves)), fromIdx, toIdx, tx.amount)
            else old(World(working[..], tree.leaves))
  {
    if fromIdx == toIdx {
      applied := TransferToSelf(p, r, tx, fromIdx, working, tree);
    } else {
      applied := TransferAcross(p, r, tx, fromIdx, toIdx, working, tree);
    }
  }

  /** A self-transfer touches only the nonce, which is what debit then credit comes to. */
  method TransferToSelf(p: Primitives, r: Roster, tx: Transaction, idx: nat,
                        working: array<AccountData>, tree: Tree)
    returns (applied: bool)
    requires Fits(r, World(working[..], tree.leaves)) && idx < |r.keys|
    modifies working, tree
    ensures applied == Covered(old(working[idx]), tx)
    ensures World(working[..], tree.leaves) ==
            if applied
            then TransferStep(p, r, old(World(working[..], tree.leaves)), idx, idx, tx.amount)
            else old(World(working[..], tree.leaves))
  {
    if !(working[idx].balance >= tx.amount && working[idx].nonce == tx.nonce) {
      return false;
    }
    ghost var start := working[..];
    working[idx] := working[idx].(nonce := (working[idx].nonce + 1) % TWO_TO_THE_64);
    tree.Update(p, r.keys[idx], working[idx]);
    DebitThenCredit(start[idx], tx.amount);
    assert working[..] == start[idx := Debit(start[idx], tx.amount)][idx := working[idx]];
    applied := true;
  }

  /** Updates on both sides of a split, and the halves rejoined: the plain two-index update. */
  lemma SplitUpdate(s: seq<AccountData>, low: nat, high: nat, a: AccountData, b: AccountData)
    requires low < high < |s|
    ensures s[..high][low := a] + s[high..][0 := b] == s[low := a][high := b]
    ensures s[low := a][high := b] == s[high := b][low := a]
  {
  }

  /**
    Different accounts are reached through a split of the vector at the larger index: the one
    lies in the left half, the other is the first of the right half. Put together again, the
    halves are the plain two-index update.
   */
  method TransferAcross(p: Primitives, r: Roster, tx: Transaction, fromIdx: nat, toIdx: nat,
                        working: array<AccountData>, tree: Tree)
    returns (applied: bool)
    requires Fits(r, World(working[..], tree.leaves))
    requires fromIdx < |r.keys| && toIdx < |r.keys| && fromIdx != toIdx
    modifies working, tree
    ensures applied == Covered(old(working[fromIdx]), tx)
    ensures World(working[..], tree.leaves) ==
            if applied
            then TransferStep(p, r, old(World(working[..], tree.leaves)), fromIdx, toIdx, tx.amount)
            else old(World(working[..], tree.leaves))
  {
    var maxIdx := if fromIdx < toIdx then toIdx else fromIdx;
    var left, right := working[..maxIdx], working[maxIdx..];
    var fromAccount, toAccount :=
      if fromIdx < toIdx then left[fromIdx] else right[0],
      if fromIdx < toIdx then right[0] else left[toIdx];
    if !(fromAccount.balance >= tx.amount && fromAccount.nonce == tx.nonce) {
      return false;
    }
    ghost var start := working[..];
    fromAccount := Debit(fromAccount, tx.amount);
    toAccount := Credit(toAccount, tx.amount);
    if fromIdx < toIdx {
      left, right := left[fromIdx := fromAccount], right[0 := toAccount];
      SplitUpdate(start, fromIdx, toIdx, fromAccount, toAccount);
    } else {
      left, right := left[toIdx := toAccount], right[0 := fromAccount];
      SplitUpdate(start, toIdx, fromIdx, toAccount, fromAccount);
    }
    forall i | 0 <= i < working.Length {
      working[i] := (left + right)[i];
    }
    assert working[..] == left + right;
    tree.Update(p, r.keys[fromIdx], fromAccount);
    tree.Update(p, r.keys[toIdx], toAccount);
    applied := true;
  }

  /** Takes the first 32 bytes, or pads short input with zeros on the left. None is a panic. */
  method HexToBytes32Array(hexStr: Text) returns (r: Option<Digest>)
    ensures r.None? <==> HexBytes(hexStr).None?
    ensures r.Some? ==>
              var bs := HexBytes(hexStr).value;
              if |bs| >= 32 then r.value == bs[..32]
              else r.value[32 - |bs|..] == bs && forall i :: 0 <= i < 32 - |bs| ==> r.value[i] == 0
  {
    var decoded := HexToBytes(hexStr);
    if decoded.None? {
      return None;
    }
    var bytes := decoded.value;
    if |bytes| >= 32 {
      return Some(bytes[..32]);
    }
    var startIdx := 32 - |bytes|;
    var padding: seq<byte> := seq(startIdx, _ => 0);
    r := Some(padding + bytes);
  }

  /** The committed bytes are the root itself: printing and reading back loses nothing. */
  lemma RootTextReadsBack(d: Digest)
    ensures HexBytes(H256ToHex(d)) == Some(d) && d[..32] == d
  {
    DecodeOfEncode(d, true);
    assert StripPrefix(H256ToHex(d)) == HexEncode(d);
  }

  /** The deposit and transfer loops of `main`, over the vector and the tree it hands them. */
  method ApplyBatch(p: Primitives, r: Roster, batch: Batch, signaturesVerified: bool,
                    working: array<AccountData>, tree: Tree)
    returns (depositsProcessed: bool, ids: seq<u64>, transactionsProcessed: nat)
    requires Fits(r, World(working[..], tree.leaves))
    modifies working, tree
    ensures var e := Process(p, r, old(World(working[..], tree.leaves)), batch, signaturesVerified);
            && depositsProcessed == (e.depositsDone == |batch.deposits|)
            && ids == DepositIds(batch.deposits[..e.depositsDone])
            && transactionsProcessed == e.transfersDone
            && World(working[..], tree.leaves) == e.final
  {
    depositsProcessed, ids := ProcessDeposits(p, r, batch.deposits, working, tree);
    transactionsProcessed := 0;
    if signaturesVerified && depositsProcessed {
      transactionsProcessed := ProcessTransactions(p, r, batch.transactions, working, tree);
    }
  }

  /** `main`: the journal it commits, or None when it panics. */
  method Execute(p: Primitives, batch: Batch) returns (journal: Option<Journal>)
    ensures journal == JournalOf(p, batch)
  {
    var tree := new Tree();
    var accountKeys := InitializeTree(p, batch.addresses, batch.leafData, tree);
    if accountKeys.None? {
      return None;
    }
    var r := Roster(batch.addresses, accountKeys.value);
    var computedOldRoot := H256ToHex(tree.Root(p));
    var oldRootVerified := computedOldRoot == batch.oldMerkleRoot;
    RootTextReadsBack(tree.Root(p));
    var oldRootBytes := HexToBytes32Array(computedOldRoot);

    var signaturesVerified := VerifySignatures(p, batch.transactions);
    var working := new AccountData[|batch.leafData|](i requires 0 <= i < |batch.leafData| => batch.leafData[i]);
    assert working[..] == batch.leafData;
    ghost var start := World(working[..], tree.leaves);
    var depositsProcessed, processedDepositIds, transactionsProcessed :=
      ApplyBatch(p, r, batch, signaturesVerified, working, tree);

    ghost var e := Process(p, r, start, batch, signaturesVerified);
    assert Evaluate(p, batch) == Some(e);

    var computedNewRoot := H256ToHex(tree.Root(p));
    var newRootVerified := computedNewRoot == batch.newMerkleRoot;
    RootTextReadsBack(tree.Root(p));
    var newRootBytes := HexToBytes32Array(computedNewRoot);
    var success := oldRootVerified && newRootVerified && signaturesVerified && depositsProcessed
                   && transactionsProcessed == |batch.transactions|;
    journal := Some(Journal(success, oldRootBytes.value, newRootBytes.value, batch.badgeId,
                            transactionsProcessed % TWO_TO_THE_32, processedDepositIds));
    assert journal == Some(JournalFrom(p, batch, e));
  }
}
