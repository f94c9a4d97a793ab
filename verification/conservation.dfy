/**
  What one batch does to the money it handles, for every input: duplicate listings, failing
  signatures, unknown users, self-transfers and early stops included.
 */
module Conservation {
  import opened Bytes
  import opened Options
  import opened Smt
  import opened Transition

  function Sum(accounts: seq<AccountData>): nat {
    if accounts == [] then 0 else Sum(accounts[..|accounts| - 1]) + accounts[|accounts| - 1].balance
  }

  function Listed(ds: seq<DepositInfo>): nat {
    if ds == [] then 0 else Listed(ds[..|ds| - 1]) + ds[|ds| - 1].amount
  }

  /** How many of the deposits' additions wrap. */
  function DepositCarries(p: Primitives, r: Roster, w: World, ds: seq<DepositInfo>): nat
    requires Fits(r, w) && AllKnown(r, ds)
  {
    if ds == [] then 0
    else
      var rest, d := ds[..|ds| - 1], ds[|ds| - 1];
      var i := FindAccountIndex(r.addresses, d.user).value;
      DepositCarries(p, r, w, rest) + Carry(RunDeposits(p, r, w, rest).accounts[i], d.amount)
  }

  /** The account a transfer credits, once the sender has been debited. */
  function Payee(w: World, from: nat, to: nat, amount: u64): AccountData
    requires from < |w.accounts| && to < |w.accounts| && amount <= w.accounts[from].balance
  {
    if from == to then Debit(w.accounts[from], amount) else w.accounts[to]
  }

  /** How many of the transfers' additions wrap. */
  function TransferCarries(p: Primitives, r: Roster, w: World, txs: seq<Transaction>): nat
    requires Fits(r, w) && RunTransfers(p, r, w, txs).Some?
  {
    if txs == [] then 0
    else
      var rest, tx := txs[..|txs| - 1], txs[|txs| - 1];
      var mid := RunTransfers(p, r, w, rest).value;
      var from := FindAccountIndex(r.addresses, tx.from).value;
      var to := FindAccountIndex(r.addresses, tx.to).value;
      TransferCarries(p, r, w, rest) + Carry(Payee(mid, from, to, tx.amount), tx.amount)
  }

  lemma {:induction false} SumUpdate(accounts: seq<AccountData>, i: nat, a: AccountData)
    requires i < |accounts|
    ensures Sum(accounts[i := a]) == Sum(accounts) - accounts[i].balance + a.balance
  {
    var n := |accounts| - 1;
    if i == n {
      assert accounts[i := a][..n] == accounts[..n];
    } else {
      SumUpdate(accounts[..n], i, a);
      assert accounts[i := a][..n] == accounts[..n][i := a];
    }
  }

  lemma TransferStepConserves(p: Primitives, r: Roster, w: World, from: nat, to: nat, amount: u64)
    requires Fits(r, w) && from < |r.keys| && to < |r.keys| && amount <= w.accounts[from].balance
    ensures Sum(TransferStep(p, r, w, from, to, amount).accounts)
            + TWO_TO_THE_64 * Carry(Payee(w, from, to, amount), amount) == Sum(w.accounts)
  {
    var debited := w.accounts[from := Debit(w.accounts[from], amount)];
    SumUpdate(w.accounts, from, Debit(w.accounts[from], amount));
    SumUpdate(debited, to, Credit(debited[to], amount));
    assert debited[to] == Payee(w, from, to, amount);
    CreditCarries(debited[to], amount);
  }

  lemma {:induction false} DepositsConserve(p: Primitives, r: Roster, w: World, ds: seq<DepositInfo>)
    requires Fits(r, w) && AllKnown(r, ds)
    ensures Sum(RunDeposits(p, r, w, ds).accounts) + TWO_TO_THE_64 * DepositCarries(p, r, w, ds)
            == Sum(w.accounts) + Listed(ds)
  {
    if ds != [] {
      var rest, d := ds[..|ds| - 1], ds[|ds| - 1];
      DepositsConserve(p, r, w, rest);
      var mid, i := RunDeposits(p, r, w, rest), FindAccountIndex(r.addresses, d.user).value;
      SumUpdate(mid.accounts, i, Credit(mid.accounts[i], d.amount));
      CreditCarries(mid.accounts[i], d.amount);
    }
  }

  lemma {:induction false} TransfersConserve(p: Primitives, r: Roster, w: World, txs: seq<Transaction>)
    requires Fits(r, w) && RunTransfers(p, r, w, txs).Some?
    ensures Sum(RunTransfers(p, r, w, txs).value.accounts)
            + TWO_TO_THE_64 * TransferCarries(p, r, w, txs) == Sum(w.accounts)
  {
    if txs != [] {
      var rest, tx := txs[..|txs| - 1], txs[|txs| - 1];
      TransfersConserve(p, r, w, rest);
      var mid := RunTransfers(p, r, w, rest).value;
      var from := FindAccountIndex(r.addresses, tx.from).value;
      var to := FindAccountIndex(r.addresses, tx.to).value;
      TransferStepConserves(p, r, mid, from, to, tx.amount);
    }
  }

  /** All wrapped additions of the batch: those of the deposits and transfers that were applied. */
  function Carries(p: Primitives, r: Roster, start: World, ds: seq<DepositInfo>, txs: seq<Transaction>): nat
    requires Fits(r, start) && AllKnown(r, ds)
    requires RunTransfers(p, r, RunDeposits(p, r, start, ds), txs).Some?
  {
    DepositCarries(p, r, start, ds) + TransferCarries(p, r, RunDeposits(p, r, start, ds), txs)
  }

  /** What a batch applies: its longest known prefix of deposits and longest valid prefix of transfers. */
  lemma AppliedPrefixes(p: Primitives, b: Batch)
    requires Evaluate(p, b).Some?
    ensures var e := Evaluate(p, b).value;
            && e.transfersDone <= |b.transactions|
            && AllKnown(e.roster, b.deposits[..e.depositsDone])
            && RunTransfers(p, e.roster, RunDeposits(p, e.roster, e.start, b.deposits[..e.depositsDone]),
                            b.transactions[..e.transfersDone]) == Some(e.final)
  {
    var e := Evaluate(p, b).value;
    var credited := DepositLoop(p, e.roster, e.start, b.deposits);
    DepositLoopIsLongestPrefix(p, e.roster, e.start, b.deposits);
    TransferLoopIsLongestPrefix(p, e.roster, credited.world, b.transactions);
    assert b.transactions[..0] == [];
  }

  /** A fully processed batch applies everything it lists. */
  lemma AppliedWhole(p: Primitives, b: Batch)
    requires Evaluate(p, b).Some? && FullyProcessed(Evaluate(p, b).value, b)
    ensures var e := Evaluate(p, b).value;
            && AllKnown(e.roster, b.deposits)
            && RunTransfers(p, e.roster, RunDeposits(p, e.roster, e.start, b.deposits), b.transactions) == Some(e.final)
  {
    var e := Evaluate(p, b).value;
    AllKnownRunIsLoop(p, e.roster, e.start, b.deposits);
    ValidRunIsLoop(p, e.roster, RunDeposits(p, e.roster, e.start, b.deposits), b.transactions);
  }

  /**
    Conservation with the exact loss: the final balances plus 2^64 for every wrapped addition
    are the listed balances plus the deposits that were processed. So the total is kept modulo
    2^64 always, and exactly, with no addition wrapping, while that sum fits a 64-bit word.
   */
  lemma BatchConserves(p: Primitives, b: Batch)
    requires Evaluate(p, b).Some?
    ensures var e := Evaluate(p, b).value;
            var ds, txs := b.deposits[..e.depositsDone], b.transactions[..e.transfersDone];
            && AllKnown(e.roster, ds)
            && RunTransfers(p, e.roster, RunDeposits(p, e.roster, e.start, ds), txs).Some?
            && var carries := Carries(p, e.roster, e.start, ds, txs);
            && Sum(e.final.accounts) + TWO_TO_THE_64 * carries == Sum(b.leafData) + Listed(ds)
            && (Sum(b.leafData) + Listed(ds) < TWO_TO_THE_64 ==> carries == 0)
  {
    var e := Evaluate(p, b).value;
    AppliedPrefixes(p, b);
    RunConserves(p, e.roster, e.start, b.deposits[..e.depositsDone], b.transactions[..e.transfersDone]);
  }

  lemma RunConserves(p: Primitives, r: Roster, start: World, ds: seq<DepositInfo>, txs: seq<Transaction>)
    requires Fits(r, start) && AllKnown(r, ds)
    requires RunTransfers(p, r, RunDeposits(p, r, start, ds), txs).Some?
    ensures Sum(RunTransfers(p, r, RunDeposits(p, r, start, ds), txs).value.accounts)
            + TWO_TO_THE_64 * Carries(p, r, start, ds, txs) == Sum(start.accounts) + Listed(ds)
  {
    DepositsConserve(p, r, start, ds);
    TransfersConserve(p, r, RunDeposits(p, r, start, ds), txs);
  }
}
