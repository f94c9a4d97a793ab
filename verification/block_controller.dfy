/**
  The sequencer's block store (sequencer/src/BlockController.py and SetupService.py): a
  collection of badges and a pointer to the current one. Every database step may fail, and the
  failure is logged and swallowed.
 */
module BlockControllers {
  import opened Bytes
  import opened Options
  import opened Text
  import opened BlockHash

  type Id = Text

  datatype Badge = Badge(
    badgeId: Id, blockhash: Text, blocknumber: int, timestamp: int, transactions: seq<Id>, prevBadge: Id)

  const NO_BADGE: Id := "0"

  function Zeros(n: nat): Text {
    seq(n, _ => '0')
  }

  const ZERO_HASH_TEXT: Text := "0x" + Zeros(64)

  lemma {:induction false} ZerosAreHex(k: nat)
    ensures HexEncode(Le(0, k)) == Zeros(2 * k)
  {
    if k > 0 {
      ZerosAreHex(k - 1);
      assert Le(0, k)[0] == 0 && Le(0, k)[1..] == Le(0, k - 1);
      assert Zeros(2 * k) == ['0', '0'] + Zeros(2 * (k - 1));
    }
  }

  lemma ZeroHashReadsBack()
    ensures ZERO_HASH_TEXT == "0x" + HexEncode(ZERO)
  {
    ZerosAreHex(32);
  }

  function AddPrefix(s: Text): Text {
    if |s| >= 2 && s[0] == '0' && s[1] == 'x' then s else "0x" + s
  }

  /** `find_one`: the first stored badge with this id. */
  function Find(badges: seq<Badge>, id: Id): (r: Option<nat>)
    ensures r.Some? ==> r.value < |badges| && badges[r.value].badgeId == id
  {
    if badges == [] then None
    else
      var front := Find(badges[..|badges| - 1], id);
      if front.Some? then front
      else if badges[|badges| - 1].badgeId == id then Some(|badges| - 1) else None
  }

  lemma {:induction false} FindStays(badges: seq<Badge>, more: seq<Badge>, id: Id)
    requires Find(badges, id).Some?
    ensures Find(badges + more, id) == Find(badges, id)
  {
    if more == [] {
      assert badges + more == badges;
    } else {
      FindStays(badges, more[..|more| - 1], id);
      assert (badges + more)[..|badges + more| - 1] == badges + more[..|more| - 1];
    }
  }

  lemma FindNew(badges: seq<Badge>, b: Badge)
    requires Find(badges, b.badgeId).None?
    ensures Find(badges + [b], b.badgeId) == Some(|badges|)
  {
    assert (badges + [b])[..|badges|] == badges;
  }

  // ----- The chain in the store -----

  predicate IsGenesis(b: Badge) {
    b.badgeId != NO_BADGE && b.prevBadge == NO_BADGE && b.blocknumber == 0 && b.blockhash == ZERO_HASH_TEXT
  }

  /** The badge that set-up stores. */
  function Genesis(id: Id, timestamp: int): (b: Badge)
    requires id != NO_BADGE
    ensures IsGenesis(b) && b.badgeId == id && b.timestamp == timestamp && b.transactions == []
  {
    Badge(id, ZERO_HASH_TEXT, 0, timestamp, [], NO_BADGE)
  }

  /** Points at no badge; set-up stores one such badge at every start. */
  predicate IsRoot(b: Badge) {
    b.prevBadge == NO_BADGE
  }

  /** `b` was formed on `p` over the transactions `selected`. */
  predicate FormedOn(sha: Hash, p: Badge, b: Badge, selected: seq<Transaction>) {
    && b.prevBadge == p.badgeId
    && b.blocknumber == p.blocknumber + 1
    && var previous := HexToBytes(p.blockhash);
    && previous.Some?
    && var bytes := BlockBytes(sha, b.blocknumber, b.timestamp, previous.value, selected);
    && bytes.Some? && b.blockhash == "0x" + HexEncode(sha(bytes.value))
  }

  /** Badge `k` of the store is found under its own id and is a genesis or was formed on a badge stored before it. */
  ghost predicate LinkedAt(sha: Hash, badges: seq<Badge>, chosen: seq<seq<Transaction>>, k: nat)
    requires k < |badges| == |chosen|
  {
    && badges[k].badgeId != NO_BADGE
    && Find(badges, badges[k].badgeId) == Some(k)
    && if IsRoot(badges[k]) then IsGenesis(badges[k])
       else
         && Find(badges, badges[k].prevBadge).Some?
         && Parent(badges, k) < k
         && FormedOn(sha, badges[Parent(badges, k)], badges[k], chosen[k])
  }

  lemma GenesisLinked(sha: Hash, b: Badge)
    requires IsGenesis(b)
    ensures Linked(sha, [b], [[]]) && Find([b], b.badgeId) == Some(0)
  {
    FindNew([], b);
    assert [] + [b] == [b];
    assert LinkedAt(sha, [b], [[]], 0);
  }

  /** Where the badge that badge `k` was formed on is stored. */
  function Parent(badges: seq<Badge>, k: nat): nat
    requires k < |badges| && Find(badges, badges[k].prevBadge).Some?
  {
    Find(badges, badges[k].prevBadge).value
  }

  /** The store, one genesis or several; `chosen` lists the transactions each badge was hashed over. */
  ghost predicate Linked(sha: Hash, badges: seq<Badge>, chosen: seq<seq<Transaction>>) {
    && 0 < |badges| == |chosen|
    && forall k :: 0 <= k < |badges| ==> LinkedAt(sha, badges, chosen, k)
  }

  lemma LinkedStays(sha: Hash, badges: seq<Badge>, chosen: seq<seq<Transaction>>, k: nat,
                    b: Badge, selected: seq<Transaction>)
    requires k < |badges| == |chosen| && LinkedAt(sha, badges, chosen, k)
    ensures LinkedAt(sha, badges + [b], chosen + [selected], k)
  {
    FindStays(badges, [b], badges[k].badgeId);
    if !IsRoot(badges[k]) {
      FindStays(badges, [b], badges[k].prevBadge);
    }
  }

  /** A badge with a fresh id that is a genesis or formed on a stored badge. */
  predicate CanFollow(sha: Hash, badges: seq<Badge>, b: Badge, selected: seq<Transaction>) {
    && b.badgeId != NO_BADGE
    && Find(badges, b.badgeId).None?
    && if IsRoot(b) then IsGenesis(b)
       else
         && Find(badges, b.prevBadge).Some?
         && FormedOn(sha, badges[Find(badges, b.prevBadge).value], b, selected)
  }

  lemma NewIsLinked(sha: Hash, badges: seq<Badge>, chosen: seq<seq<Transaction>>, b: Badge, selected: seq<Transaction>)
    requires |badges| == |chosen| && CanFollow(sha, badges, b, selected)
    ensures LinkedAt(sha, badges + [b], chosen + [selected], |badges|)
  {
    FindNew(badges, b);
    if !IsRoot(b) {
      FindStays(badges, [b], b.prevBadge);
      assert (badges + [b])[Parent(badges + [b], |badges|)] == badges[Find(badges, b.prevBadge).value];
    }
  }

  /** Such a badge extends the store. */
  lemma LinkedNext(sha: Hash, badges: seq<Badge>, chosen: seq<seq<Transaction>>, b: Badge, selected: seq<Transaction>)
    requires Linked(sha, badges, chosen) && CanFollow(sha, badges, b, selected)
    ensures Linked(sha, badges + [b], chosen + [selected])
  {
    var longer, chosen' := badges + [b], chosen + [selected];
    forall k | 0 <= k < |longer| ensures LinkedAt(sha, longer, chosen', k) {
      if k < |badges| {
        assert LinkedAt(sha, badges, chosen, k);
        LinkedStays(sha, badges, chosen, k, b, selected);
      } else {
        NewIsLinked(sha, badges, chosen, b, selected);
      }
    }
  }

  /** The stored indices from badge `k` back to a genesis, following `prevBadge`; newest first. */
  ghost function Trail(sha: Hash, badges: seq<Badge>, chosen: seq<seq<Transaction>>, k: nat): seq<nat>
    requires Linked(sha, badges, chosen) && k < |badges|
    decreases k
  {
    assert LinkedAt(sha, badges, chosen, k);
    if IsRoot(badges[k]) then [k]
    else
      [k] + Trail(sha, badges, chosen, Parent(badges, k))
  }

  /** The blocks after its genesis on the way to badge `k`, oldest first, with what they were hashed over. */
  ghost function Blocks(sha: Hash, badges: seq<Badge>, chosen: seq<seq<Transaction>>, k: nat): seq<Block>
    requires Linked(sha, badges, chosen) && k < |badges|
    decreases k
  {
    assert LinkedAt(sha, badges, chosen, k);
    if IsRoot(badges[k]) then []
    else
      Blocks(sha, badges, chosen, Parent(badges, k)) + [Block(badges[k].timestamp, chosen[k])]
  }

  /** Consecutive entries of a trail are linked by `prevBadge`, one block number apart, down to a genesis. */
  predicate Falls(badges: seq<Badge>, trail: seq<nat>) {
    && trail != [] && trail[0] < |badges|
    && if |trail| == 1 then IsGenesis(badges[trail[0]])
       else
         && trail[1] < |badges|
         && badges[trail[0]].prevBadge == badges[trail[1]].badgeId
         && badges[trail[0]].blocknumber == badges[trail[1]].blocknumber + 1
         && Falls(badges, trail[1..])
  }

  /** From every stored badge the trail falls to a genesis by exactly one block number a step. */
  lemma {:induction false} TrailFalls(sha: Hash, badges: seq<Badge>, chosen: seq<seq<Transaction>>, k: nat)
    requires Linked(sha, badges, chosen) && k < |badges|
    ensures var trail := Trail(sha, badges, chosen, k);
            Falls(badges, trail) && trail[0] == k && |trail| == badges[k].blocknumber + 1
    decreases k
  {
    assert LinkedAt(sha, badges, chosen, k);
    if !IsRoot(badges[k]) {
      var j := Parent(badges, k);
      TrailFalls(sha, badges, chosen, j);
      assert Trail(sha, badges, chosen, k)[1..] == Trail(sha, badges, chosen, j);
    }
  }

  lemma HashTextReadsBack(d: Digest)
    ensures HexToBytes("0x" + HexEncode(d)) == Some(d)
  {
    HexReadsBack(d);
    assert StripPrefix("0x" + HexEncode(d)) == HexEncode(d);
  }

  lemma HeadHashNext(sha: Hash, blocks: seq<Block>, b: Block, bytes: seq<byte>)
    requires HeadHash(sha, blocks).Some?
    requires BlockBytes(sha, |blocks| + 1, b.timestamp, HeadHash(sha, blocks).value, b.txs) == Some(bytes)
    ensures HeadHash(sha, blocks + [b]) == Some(sha(bytes))
  {
    assert (blocks + [b])[..|blocks|] == blocks;
  }

  /** Each stored block hash is the head hash of the blocks that lead to its badge. */
  lemma {:induction false} StoredHashIsHeadHash(sha: Hash, badges: seq<Badge>, chosen: seq<seq<Transaction>>, k: nat)
    requires Linked(sha, badges, chosen) && k < |badges|
    ensures var blocks := Blocks(sha, badges, chosen, k);
            && |blocks| == badges[k].blocknumber
            && HeadHash(sha, blocks).Some?
            && badges[k].blockhash == "0x" + HexEncode(HeadHash(sha, blocks).value)
    decreases k
  {
    assert LinkedAt(sha, badges, chosen, k);
    if !IsRoot(badges[k]) {
      var j := Parent(badges, k);
      StoredHashIsHeadHash(sha, badges, chosen, j);
      var blocks := Blocks(sha, badges, chosen, j);
      var previous := HeadHash(sha, blocks).value;
      HashTextReadsBack(previous);
      HeadHashNext(sha, blocks, Block(badges[k].timestamp, chosen[k]),
                   BlockBytes(sha, badges[k].blocknumber, badges[k].timestamp, previous, chosen[k]).value);
    } else {
      ZeroHashReadsBack();
    }
  }

  /**
    Two stores whose badges carry the same block hash hold the same history behind them: as many
    blocks, at the same times, over the same transaction bodies.
   */
  lemma StoredHashBinds(sha: Hash, badges: seq<Badge>, chosen: seq<seq<Transaction>>, k: nat,
                        badges': seq<Badge>, chosen': seq<seq<Transaction>>, k': nat, used: set<seq<byte>>)
    requires Linked(sha, badges, chosen) && k < |badges| && Linked(sha, badges', chosen') && k' < |badges'|
    requires TransferChain(Blocks(sha, badges, chosen, k)) && TransferChain(Blocks(sha, badges', chosen', k'))
    requires CollisionFreeOn(sha, used) && NonZeroOn(sha, used)
    requires ChainInputs(sha, Blocks(sha, badges, chosen, k)) <= used
    requires ChainInputs(sha, Blocks(sha, badges', chosen', k')) <= used
    requires badges[k].blockhash == badges'[k'].blockhash
    ensures badges[k].blocknumber == badges'[k'].blocknumber
    ensures Summaries(Blocks(sha, badges, chosen, k)) == Summaries(Blocks(sha, badges', chosen', k'))
  {
    StoredHashIsHeadHash(sha, badges, chosen, k);
    StoredHashIsHeadHash(sha, badges', chosen', k');
    var d := HeadHash(sha, Blocks(sha, badges, chosen, k)).value;
    var d' := HeadHash(sha, Blocks(sha, badges', chosen', k')).value;
    HashTextReadsBack(d);
    HashTextReadsBack(d');
    HeadHashBinds(sha, Blocks(sha, badges, chosen, k), Blocks(sha, badges', chosen', k'), used);
  }

  // ----- The controller -----

  /** The hash text of a block; None stands for an exception. */
  function HashText(sha: Hash, number: int, timestamp: int, selected: seq<Transaction>, previous: Text): Option<Text> {
    match HexToBytes(previous)
    case None => None
    case Some(p) =>
      var bytes := BlockBytes(sha, number, timestamp, p, selected);
      if bytes.None? then None else Some(HexEncode(sha(bytes.value)))
  }

  ghost predicate HasDeposit(selected: seq<Transaction>) {
    exists i :: 0 <= i < |selected| && selected[i].nonce.None?
  }

  /** The badge formed on `p`; None when its hash cannot be. */
  function BadgeOn(sha: Hash, p: Badge, id: Id, timestamp: int, selected: seq<Transaction>, delta: seq<Id>): Option<Badge> {
    match HashText(sha, p.blocknumber + 1, timestamp, selected, p.blockhash)
    case None => None
    case Some(hash) => Some(Badge(id, AddPrefix(hash), p.blocknumber + 1, timestamp, delta, p.badgeId))
  }

  lemma PrefixIsAdded(d: Digest)
    ensures AddPrefix(HexEncode(d)) == "0x" + HexEncode(d)
  {
    assert HexEncode(d)[1] == HexDigit(d[0] % 16);
  }

  /** A badge that is made is rightly linked to `p`, and none is made over a deposit. */
  lemma BadgeOnIsFormed(sha: Hash, p: Badge, id: Id, timestamp: int, selected: seq<Transaction>, delta: seq<Id>)
    requires BadgeOn(sha, p, id, timestamp, selected, delta).Some?
    ensures var b := BadgeOn(sha, p, id, timestamp, selected, delta).value;
            && FormedOn(sha, p, b, selected)
            && b.badgeId == id && b.timestamp == timestamp && b.transactions == delta
    ensures !HasDeposit(selected)
  {
    var bytes := BlockBytes(sha, p.blocknumber + 1, timestamp, HexToBytes(p.blockhash).value, selected).value;
    PrefixIsAdded(sha(bytes));
    if i :| 0 <= i < |selected| && selected[i].nonce.None? {
      DepositStopsBlock(sha, p.blocknumber + 1, timestamp, HexToBytes(p.blockhash).value, selected, i);
    }
  }

  /** A badge is made exactly if the block before has a readable hash and the new one can be hashed. */
  lemma BadgeIsMadeIff(sha: Hash, p: Badge, id: Id, timestamp: int, selected: seq<Transaction>, delta: seq<Id>)
    ensures BadgeOn(sha, p, id, timestamp, selected, delta).Some? <==>
            && HexToBytes(p.blockhash).Some?
            && 0 <= p.blocknumber + 1 < TWO_TO_THE_64 && 0 <= timestamp < TWO_TO_THE_64
            && forall i :: 0 <= i < |selected| ==> TransactionHash(sha, selected[i]).Some?
  {
    if HexToBytes(p.blockhash).Some? {
      BlockBytesIff(sha, p.blocknumber + 1, timestamp, HexToBytes(p.blockhash).value, selected);
    }
  }

  /** The badge found under an id is the only one with that id. */
  lemma FoundIsOnly(sha: Hash, badges: seq<Badge>, chosen: seq<seq<Transaction>>, k: nat)
    requires Linked(sha, badges, chosen) && k < |badges|
    ensures Find(badges, badges[k].badgeId) == Some(k) && badges[k].badgeId != NO_BADGE
  {
    assert LinkedAt(sha, badges, chosen, k);
  }

  /** Which database steps of one block formation fail. */
  datatype Faults = Faults(selection: bool, lookup: bool, insert: bool, pointer: bool)

  class BlockController {
    const sha: Hash
    var badges: seq<Badge>
    /** The first pointer document, the only one that is read; None if none was ever inserted. */
    var current: Option<Id>
    ghost var chosen: seq<seq<Transaction>>

    ghost predicate Valid()
      reads this
    {
      && Linked(sha, badges, chosen)
      && (current.Some? ==> Find(badges, current.value).Some?)
    }

    /** Set-up at the first start: a genesis badge, and a pointer insertion whose failure is not noticed. */
    constructor (sha: Hash, genesisId: Id, timestamp: int, pointerInserted: bool)
      requires genesisId != NO_BADGE
      ensures Valid() && this.sha == sha && badges == [Genesis(genesisId, timestamp)]
      ensures current == if pointerInserted then Some(genesisId) else None
    {
      this.sha := sha;
      badges := [Genesis(genesisId, timestamp)];
      current := if pointerInserted then Some(genesisId) else None;
      chosen := [[]];
      new;
      GenesisLinked(sha, badges[0]);
    }

    /**
      Set-up at a later start: another genesis badge. Another pointer document is stored as well,
      but every lookup and update takes the first one, so it counts only if there was none.
     */
    method SetUpAgain(genesisId: Id, timestamp: int, pointerInserted: bool)
      requires Valid()
      requires genesisId != NO_BADGE && Find(badges, genesisId).None?
      modifies this
      ensures Valid()
      ensures badges == old(badges) + [Genesis(genesisId, timestamp)]
      ensures chosen == old(chosen) + [[]]
      ensures current == if old(current).None? && pointerInserted then Some(genesisId) else old(current)
    {
      var genesis := Genesis(genesisId, timestamp);
      LinkedNext(sha, badges, chosen, genesis, []);
      FindNew(badges, genesis);
      if current.Some? {
        FindStays(badges, [genesis], current.value);
      }
      badges := badges + [genesis];
      chosen := chosen + [[]];
      if current.None? && pointerInserted {
        current := Some(genesisId);
      }
    }

    /**
      The badge pointed to, or None when the lookup fails. In a sound store it is the one badge
      with the current id.
     */
    method GetPreviousBlockInformation(fails: bool) returns (previous: Option<Badge>)
      ensures previous ==
              if fails || current.None? || Find(badges, current.value).None? then None
              else Some(badges[Find(badges, current.value).value])
      ensures Valid() ==> (previous.None? <==> fails || current.None?)
      ensures Valid() && previous.Some? ==>
                forall k :: 0 <= k < |badges| && badges[k].badgeId == current.value ==> badges[k] == previous.value
    {
      if fails || current.None? {
        return None;
      }
      var found := Find(badges, current.value);
      previous := if found.None? then None else Some(badges[found.value]);
      forall k | Valid() && 0 <= k < |badges| && badges[k].badgeId == current.value
        ensures found == Some(k)
      {
        FoundIsOnly(sha, badges, chosen, k);
      }
    }

    /** The hex digest, or None when something on the way raises. */
    method CreateBlockHash(blocknumber: int, timestamp: int, selected: seq<Transaction>, previousHash: Text)
      returns (hash: Option<Text>)
      ensures hash == HashText(sha, blocknumber, timestamp, selected, previousHash)
    {
      var rolling := CreateRollingTransactionHash(sha, selected);
      var number, ts := ToBytes8(blocknumber), ToBytes8(timestamp);
      var previous := HexToBytes(previousHash);
      if rolling.None? || number.None? || ts.None? || previous.None? {
        return None;
      }
      hash := Some(HexEncode(sha(number.value + ts.value + previous.value + rolling.value)));
    }

    /** The new badge on top of `p`; None when its hash cannot be formed. */
    method MakeBadge(id: Id, timestamp: int, selected: seq<Transaction>, delta: seq<Id>, p: Badge)
      returns (badge: Option<Badge>)
      ensures badge == BadgeOn(sha, p, id, timestamp, selected, delta)
    {
      var hash := CreateBlockHash(p.blocknumber + 1, timestamp, selected, p.blockhash);
      if hash.None? {
        return None;
      }
      badge := Some(Badge(id, AddPrefix(hash.value), p.blocknumber + 1, timestamp, delta, p.badgeId));
    }

    /** Moves the pointer unless the update fails; without a pointer document nothing matches. */
    method IncrementBadgePointer(nextBadgeId: Id, fails: bool)
      modifies this`current
      ensures current == if fails || old(current).None? then old(current) else Some(nextBadgeId)
    {
      if !fails && current.Some? {
        current := Some(nextBadgeId);
      }
    }

    /** Stores the badge and then moves the pointer; a failed insertion leaves both alone. */
    method InsertNewBadge(badge: Badge, ghost selected: seq<Transaction>, faults: Faults)
      modifies this
      ensures badges == if faults.insert then old(badges) else old(badges) + [badge]
      ensures chosen == if faults.insert then old(chosen) else old(chosen) + [selected]
      ensures current == if faults.insert || faults.pointer || old(current).None? then old(current)
                         else Some(badge.badgeId)
    {
      if faults.insert {
        return;
      }
      badges := badges + [badge];
      chosen := chosen + [selected];
      IncrementBadgePointer(badge.badgeId, faults.pointer);
    }

    /**
      Forms a block over the selected transactions on the current badge. Whatever fails on the
      way, the store stays a chain and the current badge is a stored one.
     */
    method FormNewL2Block(id: Id, timestamp: int, selected: seq<Transaction>, delta: seq<Id>, faults: Faults)
      requires Valid()
      requires id != NO_BADGE && Find(badges, id).None?
      modifies this
      ensures Valid()
      ensures var made := if faults.selection || faults.lookup || old(current).None? then None
                          else
                            var p := old(badges)[Find(old(badges), old(current).value).value];
                            BadgeOn(sha, p, id, timestamp, selected, delta);
              var stored := made.Some? && !faults.insert;
              && badges == (if stored then old(badges) + [made.value] else old(badges))
              && chosen == (if stored then old(chosen) + [selected] else old(chosen))
              && current == if stored && !faults.pointer then Some(id) else old(current)
    {
      if faults.selection {
        return;
      }
      var previous := GetPreviousBlockInformation(faults.lookup);
      if previous.None? {
        return;
      }
      var badge := MakeBadge(id, timestamp, selected, delta, previous.value);
      if badge.None? {
        return;
      }
      BadgeOnIsFormed(sha, previous.value, id, timestamp, selected, delta);
      FoundIsOnly(sha, badges, chosen, Find(badges, current.value).value);
      LinkedNext(sha, badges, chosen, badge.value, selected);
      FindNew(badges, badge.value);
      FindStays(badges, [badge.value], current.value);
      InsertNewBadge(badge.value, selected, faults);
      if faults.insert {
        return;
      }
    }
  }

  /** Whatever failed so far and however often set-up ran: from the current badge the trail falls to a genesis. */
  lemma CurrentLeadsToGenesis(c: BlockController)
    requires c.Valid() && c.current.Some?
    ensures var k := Find(c.badges, c.current.value).value;
            && c.badges[k].badgeId == c.current.value
            && Falls(c.badges, Trail(c.sha, c.badges, c.chosen, k))
            && Trail(c.sha, c.badges, c.chosen, k)[0] == k
            && |Trail(c.sha, c.badges, c.chosen, k)| == c.badges[k].blocknumber + 1
  {
    TrailFalls(c.sha, c.badges, c.chosen, Find(c.badges, c.current.value).value);
  }
}
