/**
  What a batch's result does not depend on: how its accounts are listed, the order of its
  deposits, and the order of transfers between different accounts.
 */
module Reordering {
  import opened Bytes
  import opened Sequences
  import opened Options
  import opened Smt
  import opened Transition
  import opened TreeAgreement
  import opened History
  import Ledger

  // ----- Deposits -----

  lemma PermutedPaymentsReplay(p: Primitives, t: Leaves, ds: seq<DepositInfo>, es: seq<DepositInfo>)
    requires Canonical(t) && multiset(ds) == multiset(es)
    ensures Ledger.Replay(t, PaymentsOf(p, ds)).Some?
    ensures Ledger.Replay(t, PaymentsOf(p, ds)) == Ledger.Replay(t, PaymentsOf(p, es))
  {
    PaymentsAreOnlyPayments(p, ds);
    PaymentsAreOnlyPayments(p, es);
    MappedPermuted(Payment(p), ds, es);
    Ledger.PaymentsPermute(t, PaymentsOf(p, ds), PaymentsOf(p, es));
  }

  /** What the deposits pay to position `k` of the list. */
  function PaidAt(r: Roster, ds: seq<DepositInfo>, k: nat): nat {
    if ds == [] then 0 else PaidAt(r, ds[..|ds| - 1], k) + AmountAt(r, ds[|ds| - 1], k)
  }

  function AmountAt(r: Roster, d: DepositInfo, k: nat): nat {
    if FindAccountIndex(r.addresses, d.user) == Some(k) then d.amount else 0
  }

  /** An account that was paid this much in all, as a 64-bit word. */
  function Owed(a: AccountData, paid: nat): AccountData {
    AccountData((a.balance + paid) % TWO_TO_THE_64, a.nonce)
  }

  lemma OwedMore(a: AccountData, paid: nat, amount: u64)
    ensures Owed(a, 0) == a && Owed(a, paid + 0) == Owed(a, paid)
    ensures Credit(Owed(a, paid), amount) == Owed(a, paid + amount)
  {
    Ledger.CreditAdds(a.balance + paid, amount, a.nonce);
  }

  ghost predicate AccountIs(w: World, k: nat, a: AccountData) {
    k < |w.accounts| && w.accounts[k] == a
  }

  lemma DepositStepAt(p: Primitives, r: Roster, w: World, d: DepositInfo, k: nat,
                      a: AccountData, paid: nat, after: World, total: nat)
    requires Fits(r, w) && FindAccountIndex(r.addresses, d.user).Some? && AccountIs(w, k, Owed(a, paid))
    requires after == DepositStep(p, r, w, FindAccountIndex(r.addresses, d.user).value, d.amount)
    requires total == paid + AmountAt(r, d, k)
    ensures AccountIs(after, k, Owed(a, total))
  {
    OwedMore(a, paid, d.amount);
  }

  lemma OneMoreDeposit(p: Primitives, r: Roster, w: World, ds: seq<DepositInfo>, k: nat, a: AccountData)
    requires Fits(r, w) && ds != [] && AllKnown(r, ds)
    requires AccountIs(RunDeposits(p, r, w, ds[..|ds| - 1]), k, Owed(a, PaidAt(r, ds[..|ds| - 1], k)))
    ensures AccountIs(RunDeposits(p, r, w, ds), k, Owed(a, PaidAt(r, ds, k)))
  {
    var front := ds[..|ds| - 1];
    DepositStepAt(p, r, RunDeposits(p, r, w, front), ds[|ds| - 1], k, a, PaidAt(r, front, k),
                  RunDeposits(p, r, w, ds), PaidAt(r, ds, k));
  }

  /** The list after deposits: every account holds what it held and was paid, as a 64-bit word. */
  lemma {:induction false} ListAfterDeposits(p: Primitives, r: Roster, w: World, ds: seq<DepositInfo>, k: nat)
    requires Fits(r, w) && AllKnown(r, ds) && k < |w.accounts|
    ensures AccountIs(RunDeposits(p, r, w, ds), k, Owed(w.accounts[k], PaidAt(r, ds, k)))
  {
    if ds == [] {
      OwedMore(w.accounts[k], 0, 0);
    } else {
      ListAfterDeposits(p, r, w, ds[..|ds| - 1], k);
      OneMoreDeposit(p, r, w, ds, k, w.accounts[k]);
    }
  }

  lemma PaidAtNext(r: Roster, ds: seq<DepositInfo>, d: DepositInfo, k: nat)
    ensures PaidAt(r, ds + [d], k) == PaidAt(r, ds, k) + AmountAt(r, d, k)
  {
    assert (ds + [d])[..|ds|] == ds;
  }

  lemma {:induction false} PaidAtWithout(r: Roster, ds: seq<DepositInfo>, i: nat, k: nat)
    requires i < |ds|
    ensures PaidAt(r, ds, k) == PaidAt(r, ds[..i] + ds[i + 1..], k) + AmountAt(r, ds[i], k)
  {
    var n := |ds| - 1;
    if i == n {
      assert ds[..i] + ds[i + 1..] == ds[..n];
    } else {
      PaidAtWithout(r, ds[..n], i, k);
      PaidAtNext(r, ds[..n][..i] + ds[..n][i + 1..], ds[n], k);
      WithoutKeepsLast(ds, i);
    }
  }

  lemma {:induction false} PaidAtPermuted(r: Roster, ds: seq<DepositInfo>, es: seq<DepositInfo>, k: nat)
    requires multiset(ds) == multiset(es)
    ensures PaidAt(r, ds, k) == PaidAt(r, es, k)
    decreases |ds|
  {
    if ds == [] {
      assert es == [] by { assert |multiset(es)| == 0; }
    } else {
      var i := PeelPermutation(ds, es);
      PaidAtWithout(r, es, i, k);
      PaidAtPermuted(r, ds[..|ds| - 1], es[..i] + es[i + 1..], k);
    }
  }

  lemma {:induction false} DepositsKeepLength(p: Primitives, r: Roster, w: World, ds: seq<DepositInfo>)
    requires Fits(r, w) && AllKnown(r, ds)
    ensures |RunDeposits(p, r, w, ds).accounts| == |w.accounts|
  {
    if ds != [] {
      DepositsKeepLength(p, r, w, ds[..|ds| - 1]);
    }
  }

  lemma SamePaidSameAccount(p: Primitives, r: Roster, w: World, ds: seq<DepositInfo>, es: seq<DepositInfo>, k: nat)
    requires Fits(r, w) && AllKnown(r, ds) && AllKnown(r, es) && PaidAt(r, ds, k) == PaidAt(r, es, k)
    requires k < |w.accounts| == |RunDeposits(p, r, w, ds).accounts| == |RunDeposits(p, r, w, es).accounts|
    ensures RunDeposits(p, r, w, ds).accounts[k] == RunDeposits(p, r, w, es).accounts[k]
  {
    ListAfterDeposits(p, r, w, ds, k);
    ListAfterDeposits(p, r, w, es, k);
  }

  /** On the list deposits may come in any order, shared keys or not. */
  lemma ListDepositsPermute(p: Primitives, r: Roster, w: World, ds: seq<DepositInfo>, es: seq<DepositInfo>)
    requires Fits(r, w) && multiset(ds) == multiset(es) && AllKnown(r, ds)
    ensures AllKnown(r, es)
    ensures RunDeposits(p, r, w, ds).accounts == RunDeposits(p, r, w, es).accounts
  {
    KnownPermuted(r, ds, es);
    DepositsKeepLength(p, r, w, ds);
    DepositsKeepLength(p, r, w, es);
    var a, b := RunDeposits(p, r, w, ds).accounts, RunDeposits(p, r, w, es).accounts;
    forall k | 0 <= k < |w.accounts| ensures a[k] == b[k] {
      PaidAtPermuted(r, ds, es, k);
      SamePaidSameAccount(p, r, w, ds, es, k);
    }
  }

  lemma KnownPermuted(r: Roster, ds: seq<DepositInfo>, es: seq<DepositInfo>)
    requires multiset(ds) == multiset(es) && AllKnown(r, ds)
    ensures AllKnown(r, es)
  {
    AllKnownIsEachKnown(r, ds);
    AllKnownIsEachKnown(r, es);
    forall i | 0 <= i < |es| ensures FindAccountIndex(r.addresses, es[i].user).Some? {
      assert es[i] in multiset(es) && es[i] in multiset(ds);
      var j :| 0 <= j < |ds| && ds[j] == es[i];
    }
  }

  lemma {:induction false} BuildIsCanonical(p: Primitives, keys: seq<Digest>, accounts: seq<AccountData>)
    requires |keys| <= |accounts|
    ensures Canonical(BuildTree(p, keys, accounts))
  {
    if keys != [] {
      BuildIsCanonical(p, keys[..|keys| - 1], accounts);
    }
  }

  /** Deposits that all find their user may come in any order: list and tree end up the same. */
  lemma DepositsPermute(p: Primitives, r: Roster, w: World, ds: seq<DepositInfo>, es: seq<DepositInfo>)
    requires LeafHashSound(p) && Reads(p, r) && Fits(r, w) && Agrees(p, r, w) && Canonical(w.tree)
    requires multiset(ds) == multiset(es) && AllKnown(r, ds)
    ensures AllKnown(r, es)
    ensures RunDeposits(p, r, w, ds) == RunDeposits(p, r, w, es)
  {
    ListDepositsPermute(p, r, w, ds, es);
    DepositsArePayments(p, r, w, ds);
    DepositsArePayments(p, r, w, es);
    PermutedPaymentsReplay(p, w.tree, ds, es);
  }

  /** A batch whose deposits all find their user computes the same with the deposits permuted. */
  lemma BatchDepositsPermute(p: Primitives, b: Batch, deposits: seq<DepositInfo>)
    requires LeafHashSound(p) && Readable(p, b)
    requires Evaluate(p, b).value.depositsDone == |b.deposits|
    requires multiset(b.deposits) == multiset(deposits)
    ensures var c := b.(deposits := deposits);
            && Evaluate(p, c).Some?
            && Evaluate(p, c).value.depositsDone == |deposits|
            && Evaluate(p, c).value.final == Evaluate(p, b).value.final
            && Evaluate(p, c).value.transfersDone == Evaluate(p, b).value.transfersDone
  {
    var e := Evaluate(p, b).value;
    var r, start := e.roster, e.start;
    StartAgrees(p, b);
    BuildIsCanonical(p, r.keys, b.leafData);
    AllKnownRunIsLoop(p, r, start, b.deposits);
    DepositsPermute(p, r, start, b.deposits, deposits);
    AllKnownRunIsLoop(p, r, start, deposits);
  }

  /** Transfers look at the list only. */
  lemma {:induction false} TransfersIgnoreTree(p: Primitives, r: Roster, w: World, v: World, txs: seq<Transaction>)
    requires Fits(r, w) && Fits(r, v) && w.accounts == v.accounts
    ensures TransferLoop(p, r, w, txs).done == TransferLoop(p, r, v, txs).done
    ensures TransferLoop(p, r, w, txs).world.accounts == TransferLoop(p, r, v, txs).world.accounts
  {
    if txs != [] {
      TransfersIgnoreTree(p, r, w, v, txs[..|txs| - 1]);
    }
  }

  /**
    Without distinct keys the same holds of the list: accounts and transfer count do not depend
    on the order of deposits that all find their user.
   */
  lemma BatchListDepositsPermute(p: Primitives, b: Batch, deposits: seq<DepositInfo>)
    requires Evaluate(p, b).Some? && Evaluate(p, b).value.depositsDone == |b.deposits|
    requires multiset(b.deposits) == multiset(deposits)
    ensures var c := b.(deposits := deposits);
            && Evaluate(p, c).Some?
            && Evaluate(p, c).value.depositsDone == |deposits|
            && Evaluate(p, c).value.final.accounts == Evaluate(p, b).value.final.accounts
            && Evaluate(p, c).value.transfersDone == Evaluate(p, b).value.transfersDone
  {
    var r, start := Evaluate(p, b).value.roster, Evaluate(p, b).value.start;
    AllKnownRunIsLoop(p, r, start, b.deposits);
    ListDepositsPermute(p, r, start, b.deposits, deposits);
    AllKnownRunIsLoop(p, r, start, deposits);
    TransfersIgnoreTree(p, r, RunDeposits(p, r, start, deposits), RunDeposits(p, r, start, b.deposits), b.transactions);
  }

  // ----- Listings -----

  /**
    The transition is a function of the state: two batches over one tree, however listed, with
    the same transfers and the same deposits in any order, end on the same tree and root when
    both are fully processed.
   */
  lemma ListingDoesNotMatter(p: Primitives, b: Batch, c: Batch)
    requires LeafHashSound(p) && Readable(p, b) && Readable(p, c)
    requires FullyProcessed(Evaluate(p, b).value, b) && FullyProcessed(Evaluate(p, c).value, c)
    requires Evaluate(p, b).value.start.tree == Evaluate(p, c).value.start.tree
    requires b.transactions == c.transactions && multiset(b.deposits) == multiset(c.deposits)
    ensures Evaluate(p, b).value.final.tree == Evaluate(p, c).value.final.tree
    ensures JournalOf(p, b).value.newRoot == JournalOf(p, c).value.newRoot
  {
    var start := Evaluate(p, b).value.start.tree;
    BuildIsCanonical(p, Evaluate(p, b).value.roster.keys, b.leafData);
    BatchIsReplay(p, b);
    BatchIsReplay(p, c);
    var moves := MovesOf(p, b.transactions);
    Ledger.ReplayConcat(start, PaymentsOf(p, b.deposits), moves);
    Ledger.ReplayConcat(start, PaymentsOf(p, c.deposits), moves);
    PermutedPaymentsReplay(p, start, b.deposits, c.deposits);
  }

  // ----- Transfers -----

  ghost predicate Apart(r: Roster, t: Transaction, u: Transaction) {
    var tf, tt := FindAccountIndex(r.addresses, t.from), FindAccountIndex(r.addresses, t.to);
    var uf, ut := FindAccountIndex(r.addresses, u.from), FindAccountIndex(r.addresses, u.to);
    tf.Some? && tt.Some? && uf.Some? && ut.Some? && {tf.value, tt.value} !! {uf.value, ut.value}
  }

  function Then(p: Primitives, r: Roster, w: Option<World>, tx: Transaction): (w': Option<World>)
    requires w.Some? ==> Fits(r, w.value)
    ensures w'.Some? ==> Fits(r, w'.value)
  {
    if w.None? then None else Transfer(p, r, w.value, tx)
  }

  /** The same accounts; and, if no two addresses share a key, the same tree. */
  ghost predicate Alike(r: Roster, w: World, v: World) {
    w.accounts == v.accounts && (DistinctKeys(r) ==> w == v)
  }

  /** Both fail, or both succeed alike. */
  ghost predicate AlikeIfAny(r: Roster, w: Option<World>, v: Option<World>) {
    w.Some? == v.Some? && (w.Some? ==> Alike(r, w.value, v.value))
  }

  lemma WritesCommute(p: Primitives, t: Leaves, k: Digest, a: AccountData, l: Digest, b: AccountData)
    requires k != l
    ensures Updated(p, Updated(p, t, k, a), l, b) == Updated(p, Updated(p, t, l, b), k, a)
  {
  }

  /** Transfers between different accounts commute, failures included. */
  lemma ApartTransfersCommute(p: Primitives, r: Roster, w: World, t: Transaction, u: Transaction)
    requires Fits(r, w) && Apart(r, t, u)
    ensures AlikeIfAny(r, Then(p, r, Transfer(p, r, w, t), u), Then(p, r, Transfer(p, r, w, u), t))
  {
    var tf, tt := FindAccountIndex(r.addresses, t.from).value, FindAccountIndex(r.addresses, t.to).value;
    var uf, ut := FindAccountIndex(r.addresses, u.from).value, FindAccountIndex(r.addresses, u.to).value;
    if Covered(w.accounts[tf], t) && Covered(w.accounts[uf], u) {
      StepsCommute(p, r, w, tf, tt, t.amount, uf, ut, u.amount);
    }
  }

  lemma StepsCommute(p: Primitives, r: Roster, w: World, tf: nat, tt: nat, ta: u64, uf: nat, ut: nat, ua: u64)
    requires Fits(r, w) && {tf, tt} !! {uf, ut}
    requires tf < |r.keys| && tt < |r.keys| && uf < |r.keys| && ut < |r.keys|
    requires ta <= w.accounts[tf].balance && ua <= w.accounts[uf].balance
    ensures Alike(r, TransferStep(p, r, TransferStep(p, r, w, tf, tt, ta), uf, ut, ua),
                  TransferStep(p, r, TransferStep(p, r, w, uf, ut, ua), tf, tt, ta))
  {
    var wt, wu := TransferStep(p, r, w, tf, tt, ta), TransferStep(p, r, w, uf, ut, ua);
    MovesCommute(w.accounts, tf, tt, ta, uf, ut, ua);
    if DistinctKeys(r) {
      PairsOfWritesCommute(p, w.tree, r.keys[tf], wt.accounts[tf], r.keys[tt], wt.accounts[tt],
                           r.keys[uf], wu.accounts[uf], r.keys[ut], wu.accounts[ut]);
    }
  }

  lemma MovesCommute(s: seq<AccountData>, tf: nat, tt: nat, ta: u64, uf: nat, ut: nat, ua: u64)
    requires tf < |s| && tt < |s| && uf < |s| && ut < |s| && {tf, tt} !! {uf, ut}
    requires ta <= s[tf].balance && ua <= s[uf].balance
    ensures AfterTransfer(AfterTransfer(s, tf, tt, ta), uf, ut, ua) == AfterTransfer(AfterTransfer(s, uf, ut, ua), tf, tt, ta)
  {
  }

  lemma PairsOfWritesCommute(p: Primitives, t: Leaves, k: Digest, a: AccountData, l: Digest, b: AccountData,
                             m: Digest, c: AccountData, n: Digest, d: AccountData)
    requires k != m && k != n && l != m && l != n
    ensures Updated(p, Updated(p, Updated(p, Updated(p, t, k, a), l, b), m, c), n, d)
            == Updated(p, Updated(p, Updated(p, Updated(p, t, m, c), n, d), k, a), l, b)
  {
    var x, y := Updated(p, t, k, a), Updated(p, t, m, c);
    WritesCommute(p, x, l, b, m, c);
    WritesCommute(p, t, k, a, m, c);
    WritesCommute(p, Updated(p, x, m, c), l, b, n, d);
    WritesCommute(p, y, k, a, n, d);
  }

  lemma {:induction false} RunConcat(p: Primitives, r: Roster, w: World, txs: seq<Transaction>, more: seq<Transaction>)
    requires Fits(r, w)
    ensures RunTransfers(p, r, w, txs + more) ==
            match RunTransfers(p, r, w, txs) case None => None case Some(mid) => RunTransfers(p, r, mid, more)
  {
    if more == [] {
      assert txs + more == txs;
    } else {
      RunConcat(p, r, w, txs, more[..|more| - 1]);
      assert (txs + more)[..|txs + more| - 1] == txs + more[..|more| - 1];
      assert (txs + more)[|txs + more| - 1] == more[|more| - 1];
    }
  }

  lemma RunTwo(p: Primitives, r: Roster, w: World, t: Transaction, u: Transaction)
    requires Fits(r, w)
    ensures RunTransfers(p, r, w, [t, u]) == Then(p, r, Transfer(p, r, w, t), u)
  {
    assert [t, u][..1] == [t] && [t][..0] == [];
    assert RunTransfers(p, r, w, [t]) == Transfer(p, r, w, t);
  }

  /** From worlds that are alike, the same transfers lead to worlds that are alike. */
  lemma {:induction false} RunsAlike(p: Primitives, r: Roster, w: World, v: World, txs: seq<Transaction>)
    requires Fits(r, w) && Fits(r, v) && Alike(r, w, v)
    ensures AlikeIfAny(r, RunTransfers(p, r, w, txs), RunTransfers(p, r, v, txs))
  {
    if txs != [] {
      RunsAlike(p, r, w, v, txs[..|txs| - 1]);
    }
  }

  lemma SwapInRun(p: Primitives, r: Roster, w: World, before: seq<Transaction>,
                  t: Transaction, u: Transaction, after: seq<Transaction>)
    requires Fits(r, w) && Apart(r, t, u)
    ensures AlikeIfAny(r, RunTransfers(p, r, w, before + [t, u] + after),
                       RunTransfers(p, r, w, before + [u, t] + after))
  {
    RunConcat(p, r, w, before + [t, u], after);
    RunConcat(p, r, w, before + [u, t], after);
    RunConcat(p, r, w, before, [t, u]);
    RunConcat(p, r, w, before, [u, t]);
    if RunTransfers(p, r, w, before).Some? {
      var mid := RunTransfers(p, r, w, before).value;
      ApartTransfersCommute(p, r, mid, t, u);
      RunTwo(p, r, mid, t, u);
      RunTwo(p, r, mid, u, t);
      var v, v' := RunTransfers(p, r, mid, [t, u]), RunTransfers(p, r, mid, [u, t]);
      if v.Some? {
        RunsAlike(p, r, v.value, v'.value, after);
      }
    }
  }

  function Swapped<T>(s: seq<T>, k: nat): seq<T>
    requires k + 1 < |s|
  {
    s[k := s[k + 1]][k + 1 := s[k]]
  }

  lemma SwapInPrefix(p: Primitives, r: Roster, w: World, txs: seq<Transaction>, k: nat, n: nat)
    requires Fits(r, w) && k + 2 <= n <= |txs| && Apart(r, txs[k], txs[k + 1])
    ensures AlikeIfAny(r, RunTransfers(p, r, w, Swapped(txs, k)[..n]), RunTransfers(p, r, w, txs[..n]))
  {
    var before, t, u, after := txs[..k], txs[k], txs[k + 1], txs[k + 2..n];
    assert txs[..n] == before + [t, u] + after;
    assert Swapped(txs, k)[..n] == before + [u, t] + after;
    SwapInRun(p, r, w, before, t, u, after);
  }

  /** A loop that applies `n` transfers and cannot apply the next is done. */
  lemma LoopFromPrefix(p: Primitives, r: Roster, w: World, txs: seq<Transaction>, n: nat)
    requires Fits(r, w) && n <= |txs| && RunTransfers(p, r, w, txs[..n]).Some?
    requires n < |txs| ==> Transfer(p, r, RunTransfers(p, r, w, txs[..n]).value, txs[n]).None?
    ensures TransferLoop(p, r, w, txs) == Progress(RunTransfers(p, r, w, txs[..n]).value, n)
  {
    ValidRunIsLoop(p, r, w, txs[..n]);
    if n < |txs| {
      TransferLoopStuck(p, r, w, txs, n);
    } else {
      assert txs[..n] == txs;
    }
  }

  /**
    Swapping two adjacent transfers that are both applied and share no account changes neither
    how many transfers are applied nor the accounts; nor, if no two addresses share a key, the
    tree.
   */
  lemma SwapAppliedTransfers(p: Primitives, r: Roster, w: World, txs: seq<Transaction>, k: nat)
    requires Fits(r, w) && k + 1 < |txs| && Apart(r, txs[k], txs[k + 1])
    requires k + 2 <= TransferLoop(p, r, w, txs).done
    ensures TransferLoop(p, r, w, Swapped(txs, k)).done == TransferLoop(p, r, w, txs).done
    ensures Alike(r, TransferLoop(p, r, w, Swapped(txs, k)).world, TransferLoop(p, r, w, txs).world)
  {
    var n, swapped := TransferLoop(p, r, w, txs).done, Swapped(txs, k);
    TransferLoopIsLongestPrefix(p, r, w, txs);
    SwapInPrefix(p, r, w, txs, k, n);
    LoopFromPrefix(p, r, w, swapped, n);
  }

  lemma SwappedSigned(p: Primitives, txs: seq<Transaction>, k: nat)
    requires k + 1 < |txs| && AllSigned(p, txs)
    ensures AllSigned(p, Swapped(txs, k))
  {
    assert Signed(p, txs[k]) && Signed(p, txs[k + 1]);
    forall i | 0 <= i < |txs| ensures Signed(p, Swapped(txs, k)[i]) {
      assert Signed(p, txs[i]);
    }
  }

  /**
    For a whole batch: with two adjacent applied transfers between different accounts swapped,
    it applies as many deposits and transfers and ends on the same accounts; and on the same
    tree and root if no two addresses share a key.
   */
  lemma BatchTransfersSwap(p: Primitives, b: Batch, k: nat)
    requires Evaluate(p, b).Some? && k + 2 <= Evaluate(p, b).value.transfersDone <= |b.transactions|
    requires Apart(Evaluate(p, b).value.roster, b.transactions[k], b.transactions[k + 1])
    ensures var c := b.(transactions := Swapped(b.transactions, k));
            && Evaluate(p, c).Some?
            && Evaluate(p, c).value.depositsDone == Evaluate(p, b).value.depositsDone
            && Evaluate(p, c).value.transfersDone == Evaluate(p, b).value.transfersDone
            && Alike(Evaluate(p, b).value.roster, Evaluate(p, c).value.final, Evaluate(p, b).value.final)
  {
    var e := Evaluate(p, b).value;
    SwappedSigned(p, b.transactions, k);
    SwapAppliedTransfers(p, e.roster, DepositLoop(p, e.roster, e.start, b.deposits).world, b.transactions, k);
  }
}
