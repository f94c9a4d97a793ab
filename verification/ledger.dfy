/**
  The rollup's history without its listings: a state maps tree keys to accounts, and a batch
  is a list of events on it. Money, nonces and reordering are settled here.
 */
module Ledger {
  import opened Bytes
  import opened Sequences
  import opened Options
  import opened Smt
  import opened Transition

  datatype Event =
    | Paid(key: Digest, amount: u64)
    | Moved(from: Digest, to: Digest, amount: u64, nonce: u64)

  /** Writes an account; an empty one is not kept. */
  function Put(m: Leaves, key: Digest, a: AccountData): Leaves {
    if a == EMPTY then m - {key} else m[key := a]
  }

  function Step(m: Leaves, e: Event): Option<Leaves> {
    match e
    case Paid(key, amount) => Some(Put(m, key, Credit(Get(m, key), amount)))
    case Moved(from, to, amount, nonce) =>
      var sender := Get(m, from);
      if sender.balance >= amount && sender.nonce == nonce then
        var debited := Put(m, from, Debit(sender, amount));
        Some(Put(debited, to, Credit(Get(debited, to), amount)))
      else None
  }

  /** Applies events in order; None as soon as a transfer is not valid. */
  function Replay(m: Leaves, es: seq<Event>): Option<Leaves> {
    if es == [] then Some(m)
    else
      match Replay(m, es[..|es| - 1])
      case None => None
      case Some(front) => Step(front, es[|es| - 1])
  }

  function StepThen(m: Option<Leaves>, e: Event): Option<Leaves> {
    if m.None? then None else Step(m.value, e)
  }

  lemma ReplayNext(m: Leaves, es: seq<Event>, e: Event)
    ensures Replay(m, es + [e]) == StepThen(Replay(m, es), e)
  {
    assert (es + [e])[..|es|] == es;
  }

  lemma {:induction false} ReplayConcat(m: Leaves, es: seq<Event>, fs: seq<Event>)
    ensures Replay(m, es + fs) ==
            match Replay(m, es) case None => None case Some(mid) => Replay(mid, fs)
  {
    if fs == [] {
      assert es + fs == es;
    } else {
      ReplayConcat(m, es, fs[..|fs| - 1]);
      assert (es + fs)[..|es + fs| - 1] == es + fs[..|fs| - 1];
    }
  }

  lemma {:induction false} ReplayCanonical(m: Leaves, es: seq<Event>)
    requires Canonical(m) && Replay(m, es).Some?
    ensures Canonical(Replay(m, es).value)
  {
    if es != [] {
      ReplayCanonical(m, es[..|es| - 1]);
    }
  }

  // ----- Money -----

  ghost function Total(m: Leaves): nat {
    if m == map[] then 0
    else
      var key :| key in m;
      m[key].balance + Total(m - {key})
  }

  lemma TotalOfNothing()
    ensures Total(map[]) == 0
  {
  }

  /** The total does not depend on the order in which accounts are counted. */
  lemma {:induction false} TotalWithout(m: Leaves, key: Digest)
    requires key in m
    ensures Total(m) == m[key].balance + Total(m - {key})
    decreases |m|
  {
    var first :| first in m && Total(m) == m[first].balance + Total(m - {first});
    if first != key {
      TotalWithout(m - {first}, key);
      TotalWithout(m - {key}, first);
      assert m - {first} - {key} == m - {key} - {first};
    }
  }

  lemma TotalPut(m: Leaves, key: Digest, a: AccountData)
    ensures Total(Put(m, key, a)) == Total(m) - Get(m, key).balance + a.balance
  {
    var rest := m - {key};
    assert Total(m) == Get(m, key).balance + Total(rest) by {
      if key in m {
        TotalWithout(m, key);
      } else {
        assert rest == m;
      }
    }
    if a != EMPTY {
      TotalWithout(m[key := a], key);
      assert m[key := a] - {key} == rest;
    }
  }

  function PaidIn(es: seq<Event>): nat {
    if es == [] then 0
    else PaidIn(es[..|es| - 1]) + if es[|es| - 1].Paid? then es[|es| - 1].amount else 0
  }

  function StepCarries(m: Leaves, e: Event): nat
    requires Step(m, e).Some?
  {
    match e
    case Paid(key, amount) => Carry(Get(m, key), amount)
    case Moved(from, to, amount, nonce) =>
      Carry(Get(Put(m, from, Debit(Get(m, from), amount)), to), amount)
  }

  /** How many additions wrap over a whole history. */
  function Carries(m: Leaves, es: seq<Event>): nat
    requires Replay(m, es).Some?
  {
    if es == [] then 0
    else Carries(m, es[..|es| - 1]) + StepCarries(Replay(m, es[..|es| - 1]).value, es[|es| - 1])
  }

  lemma StepConserves(m: Leaves, e: Event)
    requires Step(m, e).Some?
    ensures Total(Step(m, e).value) + TWO_TO_THE_64 * StepCarries(m, e)
            == Total(m) + if e.Paid? then e.amount else 0
  {
    match e
    case Paid(key, amount) =>
      TotalPut(m, key, Credit(Get(m, key), amount));
      CreditCarries(Get(m, key), amount);
    case Moved(from, to, amount, nonce) =>
      var debited := Put(m, from, Debit(Get(m, from), amount));
      TotalPut(m, from, Debit(Get(m, from), amount));
      TotalPut(debited, to, Credit(Get(debited, to), amount));
      CreditCarries(Get(debited, to), amount);
  }

  /** A history's total: what was paid in, less 2^64 for each addition that wrapped. */
  lemma {:induction false} ReplayConserves(m: Leaves, es: seq<Event>)
    requires Replay(m, es).Some?
    ensures Total(Replay(m, es).value) + TWO_TO_THE_64 * Carries(m, es) == Total(m) + PaidIn(es)
  {
    if es != [] {
      ReplayConserves(m, es[..|es| - 1]);
      StepConserves(Replay(m, es[..|es| - 1]).value, es[|es| - 1]);
    }
  }

  lemma ReplayedTotal(m: Leaves, es: seq<Event>, after: Leaves)
    requires Replay(m, es) == Some(after)
    ensures Total(after) + TWO_TO_THE_64 * Carries(m, es) == Total(m) + PaidIn(es)
    ensures Total(m) + PaidIn(es) < TWO_TO_THE_64 ==> Total(after) == Total(m) + PaidIn(es)
  {
    ReplayConserves(m, es);
    if Total(m) + PaidIn(es) < TWO_TO_THE_64 {
      NoCarry(Total(after), Carries(m, es), Total(m) + PaidIn(es));
    }
  }

  // ----- Nonces -----

  /** The number of transfers `key` has sent. */
  function Sent(es: seq<Event>, key: Digest): nat {
    if es == [] then 0
    else Sent(es[..|es| - 1], key) + if es[|es| - 1].Moved? && es[|es| - 1].from == key then 1 else 0
  }

  lemma SentNext(es: seq<Event>, e: Event, key: Digest)
    ensures Sent(es + [e], key) == Sent(es, key) + if e.Moved? && e.from == key then 1 else 0
  {
    assert (es + [e])[..|es|] == es;
  }

  lemma GetPut(m: Leaves, key: Digest, a: AccountData, other: Digest)
    ensures Get(Put(m, key, a), other) == if other == key then a else Get(m, other)
  {
  }

  lemma StepNonce(m: Leaves, e: Event, key: Digest)
    requires Step(m, e).Some?
    ensures Get(Step(m, e).value, key).nonce ==
            if e.Moved? && e.from == key then (Get(m, key).nonce + 1) % TWO_TO_THE_64 else Get(m, key).nonce
  {
    match e
    case Paid(k, amount) =>
      GetPut(m, k, Credit(Get(m, k), amount), key);
    case Moved(from, to, amount, nonce) =>
      var debited := Put(m, from, Debit(Get(m, from), amount));
      GetPut(m, from, Debit(Get(m, from), amount), key);
      GetPut(debited, to, Credit(Get(debited, to), amount), key);
  }

  /** Every nonce has grown by the number of transfers sent, as a 64-bit word. */
  lemma {:induction false} NonceCountsSent(m: Leaves, es: seq<Event>, key: Digest)
    requires Replay(m, es).Some?
    ensures Get(Replay(m, es).value, key).nonce == (Get(m, key).nonce + Sent(es, key)) % TWO_TO_THE_64
  {
    if es != [] {
      NonceCountsSent(m, es[..|es| - 1], key);
      StepNonce(Replay(m, es[..|es| - 1]).value, es[|es| - 1], key);
      WrapShift(Get(m, key).nonce + Sent(es[..|es| - 1], key), 1);
    }
  }

  /** In `after`, every nonce of `m` has grown by the number of transfers its key sent. */
  ghost predicate NoncesCount(m: Leaves, es: seq<Event>, after: Leaves) {
    forall key :: Get(after, key).nonce == (Get(m, key).nonce + Sent(es, key)) % TWO_TO_THE_64
  }

  lemma ReplayCountsNonces(m: Leaves, es: seq<Event>, after: Leaves)
    requires Replay(m, es) == Some(after)
    ensures NoncesCount(m, es, after)
  {
    forall key ensures Get(after, key).nonce == (Get(m, key).nonce + Sent(es, key)) % TWO_TO_THE_64 {
      NonceCountsSent(m, es, key);
    }
  }

  lemma ChangedWithoutSending(m: Leaves, es: seq<Event>, after: Leaves, key: Digest)
    requires Sent(es, key) == 0 && Get(after, key).nonce != Get(m, key).nonce
    ensures !NoncesCount(m, es, after)
  {
  }

  lemma {:induction false} ReplayPrefix(m: Leaves, es: seq<Event>, i: nat)
    requires i <= |es| && Replay(m, es).Some?
    ensures Replay(m, es[..i]).Some?
  {
    if i == |es| {
      assert es[..i] == es;
    } else {
      ReplayPrefix(m, es[..|es| - 1], i);
      assert es[..|es| - 1][..i] == es[..i];
    }
  }

  /** Every event of a replayed history was valid in its turn. */
  lemma ValidInTurn(m: Leaves, es: seq<Event>, i: nat)
    requires Replay(m, es).Some? && i < |es|
    ensures Replay(m, es[..i]).Some? && Step(Replay(m, es[..i]).value, es[i]).Some?
  {
    ReplayPrefix(m, es, i + 1);
    assert es[..i + 1] == es[..i] + [es[i]];
    ReplayNext(m, es[..i], es[i]);
  }

  lemma MoveHasNonce(m: Leaves, e: Event)
    requires Step(m, e).Some? && e.Moved?
    ensures e.nonce == Get(m, e.from).nonce
  {
  }

  lemma NonceIsSentCount(es: seq<Event>, key: Digest)
    requires Replay(map[], es).Some?
    ensures Get(Replay(map[], es).value, key).nonce == Sent(es, key) % TWO_TO_THE_64
  {
    NonceCountsSent(map[], es, key);
  }

  /** Each sender's transfers carry the nonces 0, 1, 2, ... in order. */
  lemma NoncesAreConsecutive(es: seq<Event>, i: nat)
    requires Replay(map[], es).Some? && i < |es| && es[i].Moved?
    ensures es[i].nonce == Sent(es[..i], es[i].from) % TWO_TO_THE_64
  {
    ValidInTurn(map[], es, i);
    MoveHasNonce(Replay(map[], es[..i]).value, es[i]);
    NonceIsSentCount(es[..i], es[i].from);
  }

  lemma {:induction false} SentGrows(es: seq<Event>, key: Digest, i: nat, j: nat)
    requires i <= j <= |es|
    ensures Sent(es[..i], key) <= Sent(es[..j], key) <= Sent(es[..i], key) + (j - i)
  {
    if i < j {
      SentGrows(es, key, i, j - 1);
      assert es[..j][..j - 1] == es[..j - 1];
    }
  }

  lemma SentBetween(es: seq<Event>, i: nat, j: nat)
    requires i < j <= |es| && es[i].Moved?
    ensures 0 < Sent(es[..j], es[i].from) - Sent(es[..i], es[i].from) <= j - i
  {
    var key := es[i].from;
    assert es[..i + 1][..i] == es[..i];
    SentGrows(es, key, i, j);
    SentGrows(es, key, i + 1, j);
  }

  /** Transfers `i` and `j` come from the same account, `i` first. */
  ghost predicate SameSender(es: seq<Event>, i: nat, j: nat) {
    i < j < |es| && es[i].Moved? && es[j].Moved? && es[i].from == es[j].from
  }

  /** How many transfers their sender makes from the one to the other. */
  function Between(es: seq<Event>, i: nat, j: nat): int
    requires i < |es| && j <= |es| && es[i].Moved?
  {
    Sent(es[..j], es[i].from) - Sent(es[..i], es[i].from)
  }

  /** A nonce comes back exactly when a multiple of 2^64 transfers lies between. */
  lemma NonceReuse(es: seq<Event>, i: nat, j: nat)
    requires Replay(map[], es).Some? && SameSender(es, i, j)
    ensures es[i].nonce == es[j].nonce <==> Between(es, i, j) % TWO_TO_THE_64 == 0
  {
    NoncesAreConsecutive(es, i);
    NoncesAreConsecutive(es, j);
    SentBetween(es, i, j);
    WrapEqual(es[i].nonce, es[j].nonce, Sent(es[..i], es[i].from), Sent(es[..j], es[i].from));
  }

  /** So in a history of at most 2^64 events no sender uses a nonce twice. */
  lemma NoNonceReuse(es: seq<Event>, i: nat, j: nat)
    requires Replay(map[], es).Some? && SameSender(es, i, j) && |es| <= TWO_TO_THE_64
    ensures es[i].nonce != es[j].nonce
  {
    NoncesAreConsecutive(es, i);
    NoncesAreConsecutive(es, j);
    SentBetween(es, i, j);
    WrapEqual(es[i].nonce, es[j].nonce, Sent(es[..i], es[i].from), Sent(es[..j], es[i].from));
  }

  // ----- Statements -----

  /** What an event brings to `key`. */
  function In(e: Event, key: Digest): nat {
    match e
    case Paid(k, amount) => if k == key then amount else 0
    case Moved(_, to, amount, _) => if to == key then amount else 0
  }

  /** What an event takes from `key`. */
  function Out(e: Event, key: Digest): nat {
    if e.Moved? && e.from == key then e.amount else 0
  }

  /** The money that reached `key`: payments in and transfers received. */
  function Received(es: seq<Event>, key: Digest): nat {
    if es == [] then 0 else Received(es[..|es| - 1], key) + In(es[|es| - 1], key)
  }

  /** The money `key` sent away. */
  function SpentBy(es: seq<Event>, key: Digest): nat {
    if es == [] then 0 else SpentBy(es[..|es| - 1], key) + Out(es[|es| - 1], key)
  }

  /** What `key` should hold: received less spent, as a 64-bit word. */
  function Statement(es: seq<Event>, key: Digest): u64 {
    (Received(es, key) - SpentBy(es, key)) % TWO_TO_THE_64
  }

  lemma DebitCredit(received: int, spent: int, debit: int, credit: int, before: u64)
    requires before == (received - spent) % TWO_TO_THE_64
    ensures (before - debit + credit) % TWO_TO_THE_64 == ((received + credit) - (spent + debit)) % TWO_TO_THE_64
  {
    WrapShift(received - spent, credit - debit);
  }

  lemma StepBalance(m: Leaves, e: Event, key: Digest)
    requires Step(m, e).Some?
    ensures Get(Step(m, e).value, key).balance == (Get(m, key).balance - Out(e, key) + In(e, key)) % TWO_TO_THE_64
  {
    match e
    case Paid(k, amount) =>
      GetPut(m, k, Credit(Get(m, k), amount), key);
    case Moved(from, to, amount, nonce) =>
      var debited := Put(m, from, Debit(Get(m, from), amount));
      GetPut(m, from, Debit(Get(m, from), amount), key);
      GetPut(m, from, Debit(Get(m, from), amount), to);
      GetPut(debited, to, Credit(Get(debited, to), amount), key);
  }

  /** Every account's balance is what it received less what it sent, as a 64-bit word. */
  lemma {:induction false} BalanceIsStatement(es: seq<Event>, key: Digest)
    requires Replay(map[], es).Some?
    ensures Get(Replay(map[], es).value, key).balance == Statement(es, key)
  {
    if es != [] {
      var front, e := es[..|es| - 1], es[|es| - 1];
      BalanceIsStatement(front, key);
      var m := Replay(map[], front).value;
      StepBalance(m, e, key);
      DebitCredit(Received(front, key), SpentBy(front, key), Out(e, key), In(e, key), Get(m, key).balance);
    }
  }

  // ----- Order -----

  /** The accounts an event can touch. */
  function Touched(e: Event): set<Digest> {
    if e.Paid? then {e.key} else {e.from, e.to}
  }

  /** What an event does to one account, given the sender's and the payee's account before. */
  lemma StepReads(m: Leaves, e: Event, key: Digest)
    requires Step(m, e).Some?
    ensures key !in Touched(e) ==> Get(Step(m, e).value, key) == Get(m, key)
    ensures e.Paid? && key == e.key ==> Get(Step(m, e).value, key) == Credit(Get(m, key), e.amount)
    ensures e.Moved? && e.from == e.to == key ==>
              Get(Step(m, e).value, key) == Credit(Debit(Get(m, key), e.amount), e.amount)
    ensures e.Moved? && e.from != e.to && key == e.from ==>
              Get(Step(m, e).value, key) == Debit(Get(m, key), e.amount)
    ensures e.Moved? && e.from != e.to && key == e.to ==>
              Get(Step(m, e).value, key) == Credit(Get(m, key), e.amount)
  {
    match e
    case Paid(k, amount) =>
      GetPut(m, k, Credit(Get(m, k), amount), key);
    case Moved(from, to, amount, nonce) =>
      var debited := Put(m, from, Debit(Get(m, from), amount));
      GetPut(m, from, Debit(Get(m, from), amount), key);
      GetPut(m, from, Debit(Get(m, from), amount), to);
      GetPut(debited, to, Credit(Get(debited, to), amount), key);
  }

  /** An event that leaves another's accounts alone leaves its validity alone. */
  lemma DisjointEventKeepsValidity(m: Leaves, d: Event, e: Event)
    requires Touched(d) !! Touched(e) && Step(m, d).Some?
    ensures Step(Step(m, d).value, e).Some? <==> Step(m, e).Some?
  {
    if e.Moved? {
      StepReads(m, d, e.from);
    }
  }

  lemma DisjointReads(m: Leaves, d: Event, e: Event, key: Digest)
    requires Touched(d) !! Touched(e) && key !in Touched(d)
    requires Step(m, d).Some? && Step(m, e).Some? && Step(Step(m, d).value, e).Some?
    ensures Get(Step(Step(m, d).value, e).value, key) == Get(Step(m, e).value, key)
  {
    StepReads(m, d, key);
    StepReads(m, e, key);
    StepReads(Step(m, d).value, e, key);
  }

  lemma CanonicalStep(m: Leaves, e: Event)
    requires Canonical(m) && Step(m, e).Some?
    ensures Canonical(Step(m, e).value)
  {
  }

  /** Events on disjoint accounts commute, failures included. */
  lemma DisjointEventsCommute(m: Leaves, d: Event, e: Event)
    requires Canonical(m) && Touched(d) !! Touched(e)
    ensures StepThen(Step(m, d), e) == StepThen(Step(m, e), d)
  {
    var sd, se := Step(m, d), Step(m, e);
    if sd.Some? {
      DisjointEventKeepsValidity(m, d, e);
    }
    if se.Some? {
      DisjointEventKeepsValidity(m, e, d);
    }
    if sd.Some? && se.Some? {
      var mde, med := Step(sd.value, e).value, Step(se.value, d).value;
      forall key ensures Get(mde, key) == Get(med, key) {
        if key in Touched(d) {
          DisjointReads(m, e, d, key);
          StepReads(sd.value, e, key);
        } else {
          DisjointReads(m, d, e, key);
          StepReads(se.value, d, key);
        }
      }
      CanonicalStep(m, d);
      CanonicalStep(m, e);
      CanonicalStep(sd.value, e);
      CanonicalStep(se.value, d);
      SameReadsSameTree(mde, med);
    }
  }

  lemma ReplayTwo(m: Leaves, d: Event, e: Event)
    ensures Replay(m, [d, e]) == StepThen(Step(m, d), e)
  {
    assert [d, e][..1] == [d] && [d][..0] == [];
    assert Replay(m, [d]) == Step(m, d);
  }

  /** Swapping adjacent events on disjoint accounts changes nothing, wherever they stand. */
  lemma SwapDisjointEvents(m: Leaves, before: seq<Event>, d: Event, e: Event, after: seq<Event>)
    requires Canonical(m) && Touched(d) !! Touched(e)
    ensures Replay(m, before + [d, e] + after) == Replay(m, before + [e, d] + after)
  {
    ReplayConcat(m, before + [d, e], after);
    ReplayConcat(m, before + [e, d], after);
    ReplayConcat(m, before, [d, e]);
    ReplayConcat(m, before, [e, d]);
    if Replay(m, before).Some? {
      var mid := Replay(m, before).value;
      ReplayCanonical(m, before);
      DisjointEventsCommute(mid, d, e);
      ReplayTwo(mid, d, e);
      ReplayTwo(mid, e, d);
    }
  }

  /** The money paid to one account. */
  function PaidTo(es: seq<Event>, key: Digest): nat {
    if es == [] then 0
    else PaidTo(es[..|es| - 1], key) + if es[|es| - 1].Paid? && es[|es| - 1].key == key then es[|es| - 1].amount else 0
  }

  ghost predicate OnlyPayments(es: seq<Event>) {
    forall i :: 0 <= i < |es| ==> es[i].Paid?
  }

  lemma CreditAdds(balance: nat, amount: u64, nonce: u64)
    ensures Credit(AccountData(balance % TWO_TO_THE_64, nonce), amount)
            == AccountData((balance + amount) % TWO_TO_THE_64, nonce)
  {
    WrapShift(balance, amount);
  }

  lemma {:induction false} PaymentsRead(m: Leaves, es: seq<Event>, key: Digest)
    requires OnlyPayments(es)
    ensures Replay(m, es).Some?
    ensures var a := Get(Replay(m, es).value, key);
            a == AccountData((Get(m, key).balance + PaidTo(es, key)) % TWO_TO_THE_64, Get(m, key).nonce)
  {
    if es != [] {
      var front, last := es[..|es| - 1], es[|es| - 1];
      PaymentsRead(m, front, key);
      StepReads(Replay(m, front).value, last, key);
      CreditAdds(Get(m, key).balance + PaidTo(front, key), last.amount, Get(m, key).nonce);
    }
  }

  lemma PaidToNext(es: seq<Event>, e: Event, key: Digest)
    ensures PaidTo(es + [e], key) == PaidTo(es, key) + if e.Paid? && e.key == key then e.amount else 0
  {
    assert (es + [e])[..|es|] == es;
  }

  lemma {:induction false} PaidToWithout(es: seq<Event>, i: nat, key: Digest)
    requires i < |es|
    ensures PaidTo(es, key) == PaidTo(es[..i] + es[i + 1..], key)
                               + if es[i].Paid? && es[i].key == key then es[i].amount else 0
  {
    var n := |es| - 1;
    if i == n {
      assert es[..i] + es[i + 1..] == es[..n];
    } else {
      PaidToWithout(es[..n], i, key);
      PaidToNext(es[..n][..i] + es[..n][i + 1..], es[n], key);
      WithoutKeepsLast(es, i);
    }
  }

  lemma {:induction false} PaidToPermuted(es: seq<Event>, fs: seq<Event>, key: Digest)
    requires multiset(es) == multiset(fs)
    ensures PaidTo(es, key) == PaidTo(fs, key)
    decreases |es|
  {
    if es == [] {
      assert fs == [] by { assert |multiset(fs)| == 0; }
    } else {
      var i := PeelPermutation(es, fs);
      PaidToWithout(fs, i, key);
      PaidToPermuted(es[..|es| - 1], fs[..i] + fs[i + 1..], key);
    }
  }

  lemma PaymentsPermuteRead(m: Leaves, es: seq<Event>, fs: seq<Event>, key: Digest)
    requires OnlyPayments(es) && OnlyPayments(fs) && multiset(es) == multiset(fs)
    ensures Replay(m, es).Some? && Replay(m, fs).Some?
    ensures Get(Replay(m, es).value, key) == Get(Replay(m, fs).value, key)
  {
    PaymentsRead(m, es, key);
    PaymentsRead(m, fs, key);
    PaidToPermuted(es, fs, key);
  }

  /** Payments may be listed in any order. */
  lemma PaymentsPermute(m: Leaves, es: seq<Event>, fs: seq<Event>)
    requires Canonical(m) && OnlyPayments(es) && OnlyPayments(fs) && multiset(es) == multiset(fs)
    ensures Replay(m, es).Some? && Replay(m, es) == Replay(m, fs)
  {
    PaymentsPermuteRead(m, es, fs, ZERO);
    var s, t := Replay(m, es).value, Replay(m, fs).value;
    forall key ensures Get(s, key) == Get(t, key) {
      PaymentsPermuteRead(m, es, fs, key);
    }
    ReplayCanonical(m, es);
    ReplayCanonical(m, fs);
    SameReadsSameTree(s, t);
  }
}
