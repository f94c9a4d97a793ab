/**
  The deposit escrow (solidity/contracts/Deposit.sol) as a transition system. A payout hands
  control to the depositor, who may call the escrow again before the payout returns, so a call
  is a tree: the calls made inside a payout are its children.
 */
module Escrow {
  import opened Bytes
  import opened Options

  type Address = int
  type u256 = x: int | 0 <= x < TWO_TO_THE_256

  const TWO_TO_THE_256: int := TWO_TO_THE_64 * TWO_TO_THE_64 * TWO_TO_THE_64 * TWO_TO_THE_64
  const FORCE_WITHDRAWAL_TIMEOUT := 7200
  const MAX_ID := TWO_TO_THE_64 - 1

  datatype DepositInfo = DepositInfo(user: Address, amount: u256, blockNumber: u256, withdrawn: bool)

  /** One transfer of ether out of the escrow. */
  datatype Payout = Payout(id: u64, to: Address, amount: u256)

  /**
    The contract's storage, the ether it holds, how much of it was forced in without a call, and
    the payouts it has made. A deposit that was never made has no entry; a deposit that is not in
    `processed` has not been processed.
   */
  datatype State = State(
    rollup: Address,
    deployer: Address,
    count: u64,
    deposits: map<u64, DepositInfo>,
    processed: set<u64>,
    held: nat,
    forced: nat,
    payouts: seq<Payout>)

  datatype Revert =
    | ZeroDeposit | CounterOverflow
    | OnlyRollup | OnlyDeployerOrRollup
    | InvalidId | AlreadyProcessed | AlreadyWithdrawn | DuplicateId
    | NotYourDeposit | BlockOverflow | TimeoutNotReached | TransferFailed

  datatype Outcome = Done | Reverted(reason: Revert)

  /**
    A call with its sender. A payout's recipient makes the calls `nested` and then accepts the
    payout or not. Ether can also arrive without any code of the contract running, when another
    contract destroys itself in its favour; the contract cannot refuse it.
   */
  datatype Call =
    | Deposit(sender: Address, value: u256)
    | MarkProcessed(sender: Address, ids: seq<u64>)
    | ForceWithdraw(sender: Address, id: u64, nested: seq<Call>, accepts: bool)
    | UpdateRollup(sender: Address, newRollup: Address)
    | ForceEther(value: u256)

  // ----- Single operations -----

  predicate Exists(s: State, id: u64) {
    0 < id <= s.count && id in s.deposits
  }

  predicate Pending(s: State, id: u64) {
    Exists(s, id) && id !in s.processed && !s.deposits[id].withdrawn
  }

  function AfterDeposit(s: State, block: u256, sender: Address, value: u256): (State, Outcome) {
    if value == 0 then (s, Reverted(ZeroDeposit))
    else if s.count == MAX_ID then (s, Reverted(CounterOverflow))
    else
      (s.(count := s.count + 1,
          deposits := s.deposits[s.count + 1 := DepositInfo(sender, value, block, false)],
          held := s.held + value), Done)
  }

  /** What the first validation loop says of one id. */
  function IdCheck(s: State, id: u64): Outcome {
    if !(0 < id <= s.count) then Reverted(InvalidId)
    else if id in s.processed then Reverted(AlreadyProcessed)
    else if id in s.deposits && s.deposits[id].withdrawn then Reverted(AlreadyWithdrawn)
    else Done
  }

  /** The first failing id decides. */
  function IdsCheck(s: State, ids: seq<u64>): Outcome {
    if ids == [] then Done
    else
      var front := IdsCheck(s, ids[..|ids| - 1]);
      if front.Reverted? then front else IdCheck(s, ids[|ids| - 1])
  }

  predicate NoDuplicates(ids: seq<u64>) {
    forall i, j :: 0 <= i < j < |ids| ==> ids[i] != ids[j]
  }

  function IdSet(ids: seq<u64>): set<u64> {
    set id | id in ids
  }

  function AfterMark(s: State, sender: Address, ids: seq<u64>): (State, Outcome) {
    if sender != s.rollup then (s, Reverted(OnlyRollup))
    else if IdsCheck(s, ids).Reverted? then (s, IdsCheck(s, ids))
    else if !NoDuplicates(ids) then (s, Reverted(DuplicateId))
    else (s.(processed := s.processed + IdSet(ids)), Done)
  }

  /** The checks of a forced withdrawal, in order. */
  function WithdrawCheck(s: State, block: u256, sender: Address, id: u64): Outcome {
    if !(0 < id <= s.count && id in s.deposits) then Reverted(InvalidId)
    else
      var d := s.deposits[id];
      if d.user != sender then Reverted(NotYourDeposit)
      else if d.withdrawn then Reverted(AlreadyWithdrawn)
      else if id in s.processed then Reverted(AlreadyProcessed)
      else if d.blockNumber + FORCE_WITHDRAWAL_TIMEOUT >= TWO_TO_THE_256 then Reverted(BlockOverflow)
      else if block < d.blockNumber + FORCE_WITHDRAWAL_TIMEOUT then Reverted(TimeoutNotReached)
      else Done
  }

  /** Storage and ether at the moment the recipient gets control: marked first, then paid. */
  function AfterPayout(s: State, id: u64, sender: Address): State
    requires id in s.deposits && s.deposits[id].amount <= s.held
  {
    var d := s.deposits[id];
    s.(deposits := s.deposits[id := d.(withdrawn := true)],
       held := s.held - d.amount,
       payouts := s.payouts + [Payout(id, sender, d.amount)])
  }

  function AfterUpdate(s: State, sender: Address, newRollup: Address): (State, Outcome) {
    if sender != s.deployer && sender != s.rollup then (s, Reverted(OnlyDeployerOrRollup))
    else (s.(rollup := newRollup), Done)
  }

  function AfterForce(s: State, value: u256): State {
    s.(held := s.held + value, forced := s.forced + value)
  }

  // ----- Calls with everything they cause -----

  /** A reverted call leaves the state as it found it, its nested calls included. */
  function Exec(s: State, block: u256, call: Call): (State, Outcome)
    decreases call, 1
  {
    match call
    case Deposit(sender, value) => AfterDeposit(s, block, sender, value)
    case MarkProcessed(sender, ids) => AfterMark(s, sender, ids)
    case UpdateRollup(sender, newRollup) => AfterUpdate(s, sender, newRollup)
    case ForceEther(value) => (AfterForce(s, value), Done)
    case ForceWithdraw(sender, id, nested, accepts) =>
      var check := WithdrawCheck(s, block, sender, id);
      if check.Reverted? then (s, check)
      else if s.deposits[id].amount > s.held then (s, Reverted(TransferFailed))
      else
        var after := ExecAll(AfterPayout(s, id, sender), block, nested);
        if accepts then (after, Done) else (s, Reverted(TransferFailed))
  }

  /** Calls one after the other; one that reverts does not stop the next. */
  function ExecAll(s: State, block: u256, calls: seq<Call>): State
    decreases calls, 0
  {
    if calls == [] then s
    else Exec(ExecAll(s, block, calls[..|calls| - 1]), block, calls[|calls| - 1]).0
  }

  /** A transaction: a call and the block it is in. */
  datatype Transaction = Transaction(block: u256, call: Call)

  function Run(s: State, txs: seq<Transaction>): State {
    if txs == [] then s
    else
      var last := txs[|txs| - 1];
      Exec(Run(s, txs[..|txs| - 1]), last.block, last.call).0
  }

  function Initial(rollup: Address, deployer: Address): State {
    State(rollup, deployer, 0, map[], {}, 0, 0, [])
  }

  // ----- Solvency -----

  /** The ether owed for the first `n` deposits: those not withdrawn. */
  function Owed(deposits: map<u64, DepositInfo>, n: nat): nat {
    if n == 0 then 0
    else Owed(deposits, n - 1)
         + if n < TWO_TO_THE_64 && n in deposits && !deposits[n].withdrawn then deposits[n].amount else 0
  }

  predicate PaidOut(s: State, id: u64) {
    exists i :: 0 <= i < |s.payouts| && s.payouts[i].id == id
  }

  /**
    Every reachable state: the deposits are numbered without gaps, the ether held is what is
    owed and what was forced in, no deposit is both processed and withdrawn, and the payouts are exactly the withdrawn
    deposits, once each, to their users, in full.
   */
  ghost predicate Solvent(s: State) {
    && (forall id: u64 :: id in s.deposits <==> 0 < id <= s.count)
    && (forall id :: id in s.processed ==> 0 < id <= s.count && !s.deposits[id].withdrawn)
    && s.held == Owed(s.deposits, s.count) + s.forced
    && (forall i :: 0 <= i < |s.payouts| ==>
          var out := s.payouts[i];
          && out.id in s.deposits
          && s.deposits[out.id].withdrawn
          && out.to == s.deposits[out.id].user
          && out.amount == s.deposits[out.id].amount)
    && (forall i, j :: 0 <= i < j < |s.payouts| ==> s.payouts[i].id != s.payouts[j].id)
    && (forall id :: id in s.deposits && s.deposits[id].withdrawn ==> PaidOut(s, id))
  }

  /** History is only added to: later states know every deposit, processing and payout of earlier ones. */
  ghost predicate Extends(s: State, t: State) {
    && s.count <= t.count
    && s.deployer == t.deployer
    && s.processed <= t.processed
    && s.forced <= t.forced
    && s.payouts <= t.payouts
    && (forall id :: id in s.deposits ==>
          && id in t.deposits
          && t.deposits[id].user == s.deposits[id].user
          && t.deposits[id].amount == s.deposits[id].amount
          && t.deposits[id].blockNumber == s.deposits[id].blockNumber
          && (s.deposits[id].withdrawn ==> t.deposits[id].withdrawn))
  }

  lemma ExtendsTransitive(s: State, t: State, u: State)
    requires Extends(s, t) && Extends(t, u)
    ensures Extends(s, u)
  {
  }

  lemma {:induction false} OwedUpdate(deposits: map<u64, DepositInfo>, id: u64, d: DepositInfo, n: nat)
    requires n < TWO_TO_THE_64 && id in deposits && 0 < id
    ensures Owed(deposits[id := d], n) ==
            Owed(deposits, n)
            + (if id <= n && !d.withdrawn then d.amount else 0)
            - (if id <= n && !deposits[id].withdrawn then deposits[id].amount else 0)
  {
    if n > 0 {
      OwedUpdate(deposits, id, d, n - 1);
    }
  }

  lemma {:induction false} OwedBeyond(deposits: map<u64, DepositInfo>, id: u64, d: DepositInfo, n: nat)
    requires n < id
    ensures Owed(deposits[id := d], n) == Owed(deposits, n)
  {
    if n > 0 {
      OwedBeyond(deposits, id, d, n - 1);
    }
  }

  lemma {:induction false} OwedCovers(deposits: map<u64, DepositInfo>, id: u64, n: nat)
    requires 0 < id <= n < TWO_TO_THE_64 && id in deposits && !deposits[id].withdrawn
    ensures deposits[id].amount <= Owed(deposits, n)
  {
    if id < n {
      OwedCovers(deposits, id, n - 1);
    }
  }

  lemma DepositKeeps(s: State, block: u256, sender: Address, value: u256)
    requires Solvent(s)
    ensures Solvent(AfterDeposit(s, block, sender, value).0)
    ensures Extends(s, AfterDeposit(s, block, sender, value).0)
  {
    var t := AfterDeposit(s, block, sender, value).0;
    if t != s {
      OwedBeyond(s.deposits, s.count + 1, t.deposits[s.count + 1], s.count);
      forall id | id in t.deposits && t.deposits[id].withdrawn ensures PaidOut(t, id) {
        assert PaidOut(s, id);
      }
    }
  }

  /**
    A deposit succeeds exactly with some ether and a free number. It then adds one entry under the
    next number, for the sender, the value and the block, and touches nothing else.
   */
  lemma DepositSucceedsIff(s: State, block: u256, sender: Address, value: u256)
    ensures AfterDeposit(s, block, sender, value).1.Done? <==> value > 0 && s.count < 0xFFFF_FFFF_FFFF_FFFF
    ensures AfterDeposit(s, block, sender, value).1 == Reverted(ZeroDeposit) <==> value == 0
    ensures AfterDeposit(s, block, sender, value).1 == Reverted(CounterOverflow) <==>
            value > 0 && s.count == 0xFFFF_FFFF_FFFF_FFFF
    ensures var (t, outcome) := AfterDeposit(s, block, sender, value);
            if outcome.Done? then
              && t.count == s.count + 1
              && t == s.(count := t.count, deposits := t.deposits, held := s.held + value)
              && t.deposits.Keys == s.deposits.Keys + {t.count}
              && t.deposits[t.count] == DepositInfo(sender, value, block, false)
              && (forall id :: id in s.deposits && id != t.count ==> t.deposits[id] == s.deposits[id])
            else t == s
  {
  }

  /** The rollup address is changed exactly for the deployer and the current rollup, and nothing else is. */
  lemma UpdateSucceedsIff(s: State, sender: Address, newRollup: Address)
    ensures AfterUpdate(s, sender, newRollup).1.Done? <==> sender == s.deployer || sender == s.rollup
    ensures var (t, outcome) := AfterUpdate(s, sender, newRollup);
            && t == (if outcome.Done? then s.(rollup := newRollup) else s)
            && (outcome.Reverted? ==> outcome == Reverted(OnlyDeployerOrRollup))
  {
  }

  /** The ids that pass the first loop are the ids of pending deposits. */
  lemma {:induction false} IdsCheckMeansPending(s: State, ids: seq<u64>)
    requires forall id: u64 :: id in s.deposits <==> 0 < id <= s.count
    ensures IdsCheck(s, ids).Done? <==> forall i :: 0 <= i < |ids| ==> Pending(s, ids[i])
  {
    if ids != [] {
      IdsCheckMeansPending(s, ids[..|ids| - 1]);
    }
  }

  /** Ids are refused for three reasons only. */
  lemma {:induction false} IdsRefusedBecause(s: State, ids: seq<u64>)
    ensures IdsCheck(s, ids) in {Done, Reverted(InvalidId), Reverted(AlreadyProcessed), Reverted(AlreadyWithdrawn)}
  {
    if ids != [] {
      IdsRefusedBecause(s, ids[..|ids| - 1]);
    }
  }

  lemma MarkKeeps(s: State, sender: Address, ids: seq<u64>)
    requires Solvent(s)
    ensures Solvent(AfterMark(s, sender, ids).0)
    ensures Extends(s, AfterMark(s, sender, ids).0)
  {
    var t := AfterMark(s, sender, ids).0;
    IdsCheckMeansPending(s, ids);
    if t != s {
      forall id | id in t.processed ensures 0 < id <= t.count && !t.deposits[id].withdrawn {
        if id !in s.processed {
          var i :| 0 <= i < |ids| && ids[i] == id;
          assert Pending(s, ids[i]);
        }
      }
      forall id | id in t.deposits && t.deposits[id].withdrawn ensures PaidOut(t, id) {
        assert PaidOut(s, id);
      }
    }
  }

  /** The state in which the recipient gets control is already consistent. */
  lemma PayoutKeeps(s: State, id: u64, sender: Address)
    requires Solvent(s) && Pending(s, id) && s.deposits[id].user == sender
    ensures s.deposits[id].amount <= s.held
    ensures Solvent(AfterPayout(s, id, sender)) && Extends(s, AfterPayout(s, id, sender))
  {
    OwedCovers(s.deposits, id, s.count);
    var d, t := s.deposits[id], AfterPayout(s, id, sender);
    OwedUpdate(s.deposits, id, d.(withdrawn := true), s.count);
    forall other | other in t.deposits && t.deposits[other].withdrawn ensures PaidOut(t, other) {
      if other == id {
        assert t.payouts[|s.payouts|].id == id;
      } else {
        assert PaidOut(s, other);
        var i :| 0 <= i < |s.payouts| && s.payouts[i].id == other;
        assert t.payouts[i].id == other;
      }
    }
    forall i | 0 <= i < |s.payouts| ensures s.payouts[i].id != id {
      assert s.deposits[s.payouts[i].id].withdrawn;
    }
  }

  lemma UpdateKeeps(s: State, sender: Address, newRollup: Address)
    requires Solvent(s)
    ensures Solvent(AfterUpdate(s, sender, newRollup).0)
    ensures Extends(s, AfterUpdate(s, sender, newRollup).0)
  {
    var t := AfterUpdate(s, sender, newRollup).0;
    forall id | id in t.deposits && t.deposits[id].withdrawn ensures PaidOut(t, id) {
      assert PaidOut(s, id);
    }
  }

  lemma ForceKeeps(s: State, value: u256)
    requires Solvent(s)
    ensures Solvent(AfterForce(s, value)) && Extends(s, AfterForce(s, value))
  {
    var t := AfterForce(s, value);
    forall id | id in t.deposits && t.deposits[id].withdrawn ensures PaidOut(t, id) {
      assert PaidOut(s, id);
    }
  }

  lemma CheckMeansPending(s: State, block: u256, sender: Address, id: u64)
    ensures WithdrawCheck(s, block, sender, id).Done? <==>
            && Pending(s, id)
            && s.deposits[id].user == sender
            && s.deposits[id].blockNumber + FORCE_WITHDRAWAL_TIMEOUT <= block
  {
  }

  /** Every call keeps solvency and history, with all the calls nested in its payouts. */
  lemma {:induction false} ExecKeeps(s: State, block: u256, call: Call)
    requires Solvent(s)
    ensures Solvent(Exec(s, block, call).0) && Extends(s, Exec(s, block, call).0)
    decreases call, 1
  {
    match call
    case Deposit(sender, value) => DepositKeeps(s, block, sender, value);
    case MarkProcessed(sender, ids) => MarkKeeps(s, sender, ids);
    case UpdateRollup(sender, newRollup) => UpdateKeeps(s, sender, newRollup);
    case ForceEther(value) => ForceKeeps(s, value);
    case ForceWithdraw(sender, id, nested, accepts) =>
      CheckMeansPending(s, block, sender, id);
      if WithdrawCheck(s, block, sender, id).Done? {
        PayoutKeeps(s, id, sender);
        var paid := AfterPayout(s, id, sender);
        ExecAllKeeps(paid, block, nested);
        ExtendsTransitive(s, paid, ExecAll(paid, block, nested));
      }
  }

  lemma {:induction false} ExecAllKeeps(s: State, block: u256, calls: seq<Call>)
    requires Solvent(s)
    ensures Solvent(ExecAll(s, block, calls)) && Extends(s, ExecAll(s, block, calls))
    decreases calls, 0
  {
    if calls != [] {
      var front, last := calls[..|calls| - 1], calls[|calls| - 1];
      ExecAllKeeps(s, block, front);
      var mid := ExecAll(s, block, front);
      ExecKeeps(mid, block, last);
      ExtendsTransitive(s, mid, Exec(mid, block, last).0);
    }
  }

  lemma {:induction false} RunKeeps(s: State, txs: seq<Transaction>)
    requires Solvent(s)
    ensures Solvent(Run(s, txs)) && Extends(s, Run(s, txs))
  {
    if txs != [] {
      var last, mid := txs[|txs| - 1], Run(s, txs[..|txs| - 1]);
      RunKeeps(s, txs[..|txs| - 1]);
      ExecKeeps(mid, last.block, last.call);
      ExtendsTransitive(s, mid, Exec(mid, last.block, last.call).0);
    }
  }

  /** Solvency over every run from deployment. */
  lemma RunSolvent(rollup: Address, deployer: Address, txs: seq<Transaction>)
    ensures Solvent(Run(Initial(rollup, deployer), txs))
  {
    RunKeeps(Initial(rollup, deployer), txs);
  }

  /**
    The end of any run: what is held is what is owed and what was forced in; payouts are distinct deposits, paid in
    full to the user who made them, and none of them was ever processed.
   */
  lemma PaidAtMostOnce(rollup: Address, deployer: Address, txs: seq<Transaction>, i: nat)
    requires i < |Run(Initial(rollup, deployer), txs).payouts|
    ensures var s := Run(Initial(rollup, deployer), txs);
            var out := s.payouts[i];
            && s.held == Owed(s.deposits, s.count) + s.forced
            && out.id in s.deposits && out.id !in s.processed
            && out.to == s.deposits[out.id].user && out.amount == s.deposits[out.id].amount
            && (forall j :: 0 <= j < |s.payouts| && j != i ==> s.payouts[j].id != out.id)
  {
    RunSolvent(rollup, deployer, txs);
  }

  /**
    A forced withdrawal in a reachable state goes through exactly when the deposit is pending,
    the caller made it, the timeout has passed and the recipient accepts: the escrow never
    lacks the ether, whatever is called during the payout.
   */
  lemma WithdrawSucceedsIff(rollup: Address, deployer: Address, txs: seq<Transaction>,
                            block: u256, sender: Address, id: u64, nested: seq<Call>, accepts: bool)
    ensures var s := Run(Initial(rollup, deployer), txs);
            Exec(s, block, ForceWithdraw(sender, id, nested, accepts)).1.Done? <==>
            && Pending(s, id)
            && s.deposits[id].user == sender
            && s.deposits[id].blockNumber + 7200 <= block
            && accepts
  {
    var s := Run(Initial(rollup, deployer), txs);
    RunSolvent(rollup, deployer, txs);
    CheckMeansPending(s, block, sender, id);
    if Pending(s, id) && s.deposits[id].user == sender {
      PayoutKeeps(s, id, sender);
    }
  }

  /**
    What a forced withdrawal without calls in between changes: this deposit is withdrawn, its
    amount leaves, one payout is recorded; a refused one changes nothing.
   */
  lemma WithdrawEffect(s: State, block: u256, sender: Address, id: u64, accepts: bool)
    ensures var (t, outcome) := Exec(s, block, ForceWithdraw(sender, id, [], accepts));
            if outcome.Done? then
              && id in s.deposits && s.deposits[id].amount <= s.held
              && t == s.(deposits := t.deposits, held := s.held - s.deposits[id].amount, payouts := t.payouts)
              && t.deposits == s.deposits[id := s.deposits[id].(withdrawn := true)]
              && t.payouts == s.payouts + [Payout(id, sender, s.deposits[id].amount)]
            else
              && t == s
              && (WithdrawCheck(s, block, sender, id).Done? ==> outcome == Reverted(TransferFailed))
  {
  }

  /** Why a withdrawal is refused before the payout, in a consistent state. */
  lemma WithdrawRefusedBecause(s: State, block: u256, sender: Address, id: u64)
    requires Solvent(s)
    ensures var made := id in s.deposits;
            var mine := made && s.deposits[id].user == sender;
            var open := mine && !s.deposits[id].withdrawn && id !in s.processed;
            var check := WithdrawCheck(s, block, sender, id);
            && (check == Reverted(InvalidId) <==> !made)
            && (check == Reverted(NotYourDeposit) <==> made && !mine)
            && (check == Reverted(AlreadyWithdrawn) <==> mine && s.deposits[id].withdrawn)
            && (check == Reverted(AlreadyProcessed) <==> mine && id in s.processed)
            && (check == Reverted(TimeoutNotReached) <==>
                  open && block < s.deposits[id].blockNumber + 7200 < TWO_TO_THE_256)
            && (check == Reverted(BlockOverflow) <==> open && s.deposits[id].blockNumber + 7200 >= TWO_TO_THE_256)
            && (check == Done <==> open && s.deposits[id].blockNumber + 7200 <= block)
  {
  }

  /** Why an id is refused for marking, in a consistent state. */
  lemma IdRefusedBecause(s: State, id: u64)
    requires Solvent(s)
    ensures IdCheck(s, id) == Reverted(InvalidId) <==> id !in s.deposits
    ensures IdCheck(s, id) == Reverted(AlreadyProcessed) <==> id in s.processed
    ensures IdCheck(s, id) == Reverted(AlreadyWithdrawn) <==> id in s.deposits && s.deposits[id].withdrawn
    ensures IdCheck(s, id) == Done <==> Pending(s, id)
  {
  }

  /** A recorded deposit goes back to its user in full, exactly while it is pending and from the timeout on. */
  lemma Reclaim(t: State, id: u64, made: u256, user: Address, value: u256, block: u256, nested: seq<Call>)
    requires Solvent(t) && id in t.deposits && t.deposits[id].user == user
    requires t.deposits[id].amount == value && t.deposits[id].blockNumber == made
    ensures var (u, outcome) := Exec(t, block, ForceWithdraw(user, id, nested, true));
            && (outcome.Done? <==> id !in t.processed && !t.deposits[id].withdrawn
                                   && block >= made + 7200)
            && (outcome.Done? ==> t.payouts + [Payout(id, user, value)] <= u.payouts)
  {
    CheckMeansPending(t, block, user, id);
    if Pending(t, id) {
      PayoutKeeps(t, id, user);
      ExecAllKeeps(AfterPayout(t, id, user), block, nested);
    }
  }

  /**
    A deposit can be reclaimed: after a deposit and any later transactions, while it is neither
    processed nor withdrawn, its user gets it back exactly from the timeout on, and what goes
    out first is the deposited amount to that user.
   */
  lemma DepositCanBeReclaimed(s: State, made: u256, user: Address, value: u256, txs: seq<Transaction>,
                              block: u256, nested: seq<Call>)
    requires Solvent(s) && AfterDeposit(s, made, user, value).1.Done?
    ensures var id := s.count + 1;
            var t := Run(AfterDeposit(s, made, user, value).0, txs);
            var (u, outcome) := Exec(t, block, ForceWithdraw(user, id, nested, true));
            && id in t.deposits
            && (outcome.Done? <==> id !in t.processed && !t.deposits[id].withdrawn
                                   && block >= made + 7200)
            && (outcome.Done? ==> t.payouts + [Payout(id, user, value)] <= u.payouts)
  {
    var id, start := s.count + 1, AfterDeposit(s, made, user, value).0;
    DepositKeeps(s, made, user, value);
    RunKeeps(start, txs);
    var t := Run(start, txs);
    assert id in start.deposits;
    Reclaim(t, id, made, user, value, block, nested);
  }

  /** The view `canForceWithdraw`: None when the block arithmetic overflows. */
  function CanForceWithdraw(s: State, block: u256, id: u64): Option<bool> {
    if !(0 < id <= s.count && id in s.deposits) then Some(false)
    else
      var d := s.deposits[id];
      if d.withdrawn || id in s.processed then Some(false)
      else if d.blockNumber + FORCE_WITHDRAWAL_TIMEOUT >= TWO_TO_THE_256 then None
      else Some(block >= d.blockNumber + FORCE_WITHDRAWAL_TIMEOUT)
  }

  /**
    The view says yes exactly when some caller's forced withdrawal would go through, and fails
    exactly for a pending deposit whose timeout lies beyond the largest block number.
   */
  lemma ViewPredictsWithdrawal(s: State, block: u256, id: u64)
    requires Solvent(s)
    ensures CanForceWithdraw(s, block, id).None? <==>
            Pending(s, id) && s.deposits[id].blockNumber + 7200 >= TWO_TO_THE_256
    ensures CanForceWithdraw(s, block, id) == Some(true) <==>
            exists sender :: Exec(s, block, ForceWithdraw(sender, id, [], true)).1.Done?
  {
    if Pending(s, id) {
      var sender := s.deposits[id].user;
      PayoutKeeps(s, id, sender);
      if CanForceWithdraw(s, block, id) == Some(true) {
        assert Exec(s, block, ForceWithdraw(sender, id, [], true)).1.Done?;
      }
    }
  }

  /** Marking succeeds exactly for the rollup and distinct pending ids, and marks exactly those. */
  lemma MarkSucceedsIff(s: State, sender: Address, ids: seq<u64>)
    requires Solvent(s)
    ensures AfterMark(s, sender, ids).1.Done? <==>
            && sender == s.rollup
            && NoDuplicates(ids)
            && (forall i :: 0 <= i < |ids| ==> Pending(s, ids[i]))
    ensures AfterMark(s, sender, ids).1 == Reverted(OnlyRollup) <==> sender != s.rollup
    ensures AfterMark(s, sender, ids).1 == Reverted(DuplicateId) <==>
            sender == s.rollup && !NoDuplicates(ids) && forall i :: 0 <= i < |ids| ==> Pending(s, ids[i])
    ensures var (t, outcome) := AfterMark(s, sender, ids);
            if outcome.Done? then
              && (forall id :: id in t.processed <==> id in s.processed || id in ids)
              && t == s.(processed := t.processed)
            else t == s
  {
    IdsRefusedBecause(s, ids);
    IdsCheckMeansPending(s, ids);
  }

  // ----- The list of pending deposits -----

  /** The pending ids up to `n`, in order. */
  function PendingIds(s: State, n: nat): seq<u64> {
    if n == 0 then []
    else PendingIds(s, n - 1) + if n < TWO_TO_THE_64 && ListedPending(s, n) then [n] else []
  }

  /** The test of the listing loops; a missing entry reads as not withdrawn. */
  predicate ListedPending(s: State, id: u64) {
    id !in s.processed && !(id in s.deposits && s.deposits[id].withdrawn)
  }

  /** The list is strictly increasing and holds the pending deposits and nothing else. */
  lemma {:induction false} PendingIdsExact(s: State, n: nat)
    requires Solvent(s) && n <= s.count
    ensures forall i, j :: 0 <= i < j < |PendingIds(s, n)| ==> PendingIds(s, n)[i] < PendingIds(s, n)[j]
    ensures forall id: u64 :: id in PendingIds(s, n) <==> Pending(s, id) && id <= n
  {
    if n > 0 {
      PendingIdsExact(s, n - 1);
      var front := PendingIds(s, n - 1);
      assert forall i :: 0 <= i < |front| ==> front[i] in front;
    }
  }

  // ----- Who may change what -----

  /** No call in this tree changes the rollup address. */
  predicate KeepsRollup(call: Call)
    decreases call
  {
    match call
    case UpdateRollup(_, _) => false
    case ForceWithdraw(_, _, nested, _) => forall c :: c in nested ==> KeepsRollup(c)
    case _ => true
  }

  /** No call in this tree comes from `rollup` to mark deposits. */
  predicate MarksNothing(call: Call, rollup: Address)
    decreases call
  {
    match call
    case MarkProcessed(sender, _) => sender != rollup
    case ForceWithdraw(_, _, nested, _) => forall c :: c in nested ==> MarksNothing(c, rollup)
    case _ => true
  }

  /** Only an update changes the rollup address, and only the rollup address of the time marks deposits. */
  lemma {:induction false} ExecLeavesAlone(s: State, block: u256, call: Call)
    requires KeepsRollup(call)
    ensures Exec(s, block, call).0.rollup == s.rollup
    ensures MarksNothing(call, s.rollup) ==> Exec(s, block, call).0.processed == s.processed
    decreases call, 1
  {
    match call
    case ForceWithdraw(sender, id, nested, accepts) =>
      if WithdrawCheck(s, block, sender, id).Done? && s.deposits[id].amount <= s.held {
        ExecAllLeavesAlone(AfterPayout(s, id, sender), block, nested);
      }
    case _ =>
  }

  lemma {:induction false} ExecAllLeavesAlone(s: State, block: u256, calls: seq<Call>)
    requires forall c :: c in calls ==> KeepsRollup(c)
    ensures ExecAll(s, block, calls).rollup == s.rollup
    ensures (forall c :: c in calls ==> MarksNothing(c, s.rollup)) ==> ExecAll(s, block, calls).processed == s.processed
    decreases calls, 0
  {
    if calls != [] {
      var front, last := calls[..|calls| - 1], calls[|calls| - 1];
      ExecAllLeavesAlone(s, block, front);
      ExecLeavesAlone(ExecAll(s, block, front), block, last);
    }
  }

  /** Over a whole run from deployment without updates, the rollup stays the one deployed for. */
  lemma {:induction false} RunLeavesAlone(rollup: Address, deployer: Address, txs: seq<Transaction>)
    requires forall i :: 0 <= i < |txs| ==> KeepsRollup(txs[i].call)
    ensures var t := Run(Initial(rollup, deployer), txs);
            && t.rollup == rollup && t.deployer == deployer
            && ((forall i :: 0 <= i < |txs| ==> MarksNothing(txs[i].call, rollup)) ==> t.processed == {})
  {
    RunKeeps(Initial(rollup, deployer), txs);
    if txs != [] {
      var front, last := txs[..|txs| - 1], txs[|txs| - 1];
      RunLeavesAlone(rollup, deployer, front);
      assert txs[|txs| - 1] == last;
      ExecLeavesAlone(Run(Initial(rollup, deployer), front), last.block, last.call);
    } else {
      RunSolvent(rollup, deployer, []);
    }
  }
}
