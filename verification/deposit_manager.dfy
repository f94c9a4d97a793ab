/**
  The escrow contract itself: storage that methods update in place, with the checks and loops
  of solidity/contracts/Deposit.sol, each proved to take the step `Escrow` describes.
 */
module DepositManagers {
  import opened Bytes
  import opened Options
  import opened Escrow

  /** The first id that fails decides the outcome of the whole list. */
  lemma {:induction false} FirstFailureDecides(s: State, ids: seq<u64>, i: nat)
    requires i < |ids| && IdsCheck(s, ids[..i]).Done? && IdCheck(s, ids[i]).Reverted?
    ensures IdsCheck(s, ids) == IdCheck(s, ids[i])
  {
    var front := ids[..|ids| - 1];
    if i < |front| {
      assert front[..i] == ids[..i];
      FirstFailureDecides(s, front, i);
    }
  }

  class DepositManager {
    var rollupContract: Address
    const deployer: Address
    var depositCount: u64
    var deposits: map<u64, DepositInfo>
    var depositProcessed: set<u64>
    var balance: nat
    /** How much of the balance arrived without a call; the contract itself does not know. */
    var forced: nat
    var payouts: seq<Payout>

    function Snapshot(): State
      reads this
    {
      State(rollupContract, deployer, depositCount, deposits, depositProcessed, balance, forced, payouts)
    }

    constructor (rollup: Address, sender: Address)
      ensures Snapshot() == Initial(rollup, sender)
    {
      rollupContract, deployer, depositCount := rollup, sender, 0;
      deposits, depositProcessed := map[], {};
      balance, forced, payouts := 0, 0, [];
    }

    method MakeDeposit(block: u256, sender: Address, value: u256) returns (outcome: Outcome)
      modifies this
      ensures (Snapshot(), outcome) == AfterDeposit(old(Snapshot()), block, sender, value)
    {
      if value == 0 {
        return Reverted(ZeroDeposit);
      }
      if depositCount == MAX_ID {
        return Reverted(CounterOverflow);
      }
      balance := balance + value;
      depositCount := depositCount + 1;
      deposits := deposits[depositCount := DepositInfo(sender, value, block, false)];
      outcome := Done;
    }

    method MarkDepositsProcessed(sender: Address, ids: seq<u64>) returns (outcome: Outcome)
      modifies this
      ensures (Snapshot(), outcome) == AfterMark(old(Snapshot()), sender, ids)
    {
      if sender != rollupContract {
        return Reverted(OnlyRollup);
      }
      ghost var s := Snapshot();
      for i := 0 to |ids|
        invariant Snapshot() == s && IdsCheck(s, ids[..i]).Done?
      {
        assert ids[..i + 1][..i] == ids[..i];
        var depositId := ids[i];
        if IdCheck(s, ids[i]).Reverted? {
          FirstFailureDecides(s, ids, i);
        }
        if !(depositId > 0 && depositId <= depositCount) {
          return Reverted(InvalidId);
        }
        if depositId in depositProcessed {
          return Reverted(AlreadyProcessed);
        }
        if depositId in deposits && deposits[depositId].withdrawn {
          return Reverted(AlreadyWithdrawn);
        }
      }
      assert ids[..|ids|] == ids;

      for i := 0 to |ids|
        invariant Snapshot() == s
        invariant forall k, j :: 0 <= k < i && k < j < |ids| ==> ids[k] != ids[j]
      {
        for j := i + 1 to |ids|
          invariant Snapshot() == s
          invariant forall k :: i < k < j ==> ids[i] != ids[k]
        {
          if ids[i] == ids[j] {
            return Reverted(DuplicateId);
          }
        }
      }

      for i := 0 to |ids|
        invariant Snapshot() == s.(processed := s.processed + IdSet(ids[..i]))
      {
        assert IdSet(ids[..i + 1]) == IdSet(ids[..i]) + {ids[i]};
        depositProcessed := depositProcessed + {ids[i]};
      }
      outcome := Done;
    }

    /**
      Marks, pays, and lets the recipient make its calls. A payout the recipient does not
      accept undoes everything since the call began, as a revert does.
     */
    method WithdrawByForce(block: u256, sender: Address, id: u64, nested: seq<Call>, accepts: bool)
      returns (outcome: Outcome)
      modifies this
      ensures (Snapshot(), outcome) == Exec(old(Snapshot()), block, ForceWithdraw(sender, id, nested, accepts))
      decreases nested, 1
    {
      if !(id > 0 && id <= depositCount && id in deposits) {
        return Reverted(InvalidId);
      }
      var info := deposits[id];
      if info.user != sender {
        return Reverted(NotYourDeposit);
      }
      if info.withdrawn {
        return Reverted(AlreadyWithdrawn);
      }
      if id in depositProcessed {
        return Reverted(AlreadyProcessed);
      }
      if info.blockNumber + FORCE_WITHDRAWAL_TIMEOUT >= TWO_TO_THE_256 {
        return Reverted(BlockOverflow);
      }
      if !(block >= info.blockNumber + FORCE_WITHDRAWAL_TIMEOUT) {
        return Reverted(TimeoutNotReached);
      }
      var before := Snapshot();
      deposits := deposits[id := info.(withdrawn := true)];
      if info.amount > balance {
        Restore(before);
        return Reverted(TransferFailed);
      }
      balance := balance - info.amount;
      payouts := payouts + [Payout(id, sender, info.amount)];
      RunAll(block, nested);
      if !accepts {
        Restore(before);
        return Reverted(TransferFailed);
      }
      outcome := Done;
    }

    method RunAll(block: u256, calls: seq<Call>)
      modifies this
      ensures Snapshot() == ExecAll(old(Snapshot()), block, calls)
      decreases calls, 0
    {
      ghost var s := Snapshot();
      for i := 0 to |calls|
        invariant Snapshot() == ExecAll(s, block, calls[..i])
      {
        assert calls[..i + 1][..i] == calls[..i];
        var _ := Dispatch(block, calls[i]);
      }
      assert calls[..|calls|] == calls;
    }

    method Dispatch(block: u256, call: Call) returns (outcome: Outcome)
      modifies this
      ensures (Snapshot(), outcome) == Exec(old(Snapshot()), block, call)
      decreases call, 2
    {
      match call
      case Deposit(sender, value) => outcome := MakeDeposit(block, sender, value);
      case MarkProcessed(sender, ids) => outcome := MarkDepositsProcessed(sender, ids);
      case ForceWithdraw(sender, id, nested, accepts) =>
        outcome := WithdrawByForce(block, sender, id, nested, accepts);
      case UpdateRollup(sender, newRollup) => outcome := UpdateRollupContract(sender, newRollup);
      case ForceEther(value) =>
        balance, forced := balance + value, forced + value;
        outcome := Done;
    }

    method Restore(s: State)
      requires s.deployer == deployer
      modifies this
      ensures Snapshot() == s
    {
      rollupContract, depositCount, deposits := s.rollup, s.count, s.deposits;
      depositProcessed, balance, forced, payouts := s.processed, s.held, s.forced, s.payouts;
    }

    method UpdateRollupContract(sender: Address, newRollup: Address) returns (outcome: Outcome)
      modifies this
      ensures (Snapshot(), outcome) == AfterUpdate(old(Snapshot()), sender, newRollup)
    {
      if !(sender == deployer || sender == rollupContract) {
        return Reverted(OnlyDeployerOrRollup);
      }
      rollupContract := newRollup;
      outcome := Done;
    }

    /**
      Counts, then fills an array of that size. The 64-bit loop counter cannot pass the largest
      id, so with the counter full the listing reverts; otherwise it always succeeds.
     */
    method GetPendingDeposits() returns (ids: Option<seq<u64>>)
      ensures ids == if depositCount == MAX_ID then None else Some(PendingIds(Snapshot(), depositCount))
    {
      var pendingCount := 0;
      var i := 1;
      while i <= depositCount
        invariant 1 <= i <= depositCount + 1 && i <= MAX_ID
        invariant pendingCount == |PendingIds(Snapshot(), i - 1)|
      {
        if i !in depositProcessed && !(i in deposits && deposits[i].withdrawn) {
          pendingCount := pendingCount + 1;
        }
        if i == MAX_ID {
          return None;
        }
        i := i + 1;
      }

      var pendingIds := new u64[pendingCount];
      var index := 0;
      i := 1;
      while i <= depositCount
        invariant 1 <= i <= depositCount + 1 && i <= MAX_ID
        invariant index <= pendingCount && pendingIds[..index] == PendingIds(Snapshot(), i - 1)
        invariant pendingCount == |PendingIds(Snapshot(), depositCount)|
      {
        ghost var done := pendingIds[..index];
        PendingIdsGrow(Snapshot(), i, depositCount);
        if i !in depositProcessed && !(i in deposits && deposits[i].withdrawn) {
          pendingIds[index] := i;
          index := index + 1;
          assert pendingIds[..index] == done + [i];
        }
        i := i + 1;
      }
      assert pendingIds[..index] == pendingIds[..];
      ids := Some(pendingIds[..]);
    }
  }

  lemma {:induction false} PendingIdsGrow(s: State, m: nat, n: nat)
    requires m <= n
    ensures |PendingIds(s, m)| <= |PendingIds(s, n)|
  {
    if m < n {
      PendingIdsGrow(s, m, n - 1);
    }
  }
}
