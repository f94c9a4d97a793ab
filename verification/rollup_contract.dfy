/**
  The rollup contract (solidity/contracts/Rollup.sol): a counter, the current root and the
  root after every batch. A new root is the hash of the previous one, the journal hash and the
  batch number.
 */
module RollupContract {
  import opened Bytes
  import opened Sequences

  datatype Revert = InvalidBatchId | CounterOverflow | InvalidTxData | LengthOverflow | VerificationFailed

  datatype Outcome = Done | Reverted(reason: Revert)

  const RECORD_SIZE := 141

  /** Checked 32-bit arithmetic: the product and the sum revert instead of wrapping. */
  function TxDataCheck(txData: seq<byte>): Outcome {
    if |txData| < 4 then Reverted(InvalidTxData)
    else
      var count := FromBe(txData[0..4]);
      if count * RECORD_SIZE >= TWO_TO_THE_32 || 4 + count * RECORD_SIZE >= TWO_TO_THE_32 then Reverted(LengthOverflow)
      else if |txData| != 4 + count * RECORD_SIZE then Reverted(InvalidTxData)
      else Done
  }

  /** Data without a count or of the wrong length is refused; a count whose length does not fit overflows. */
  lemma TxDataRefusedBecause(txData: seq<byte>)
    ensures TxDataCheck(txData) == Reverted(LengthOverflow) <==>
            |txData| >= 4 && 4 + 141 * FromBe(txData[0..4]) >= 0x1_0000_0000
    ensures TxDataCheck(txData) == Done <==>
            |txData| >= 4 && |txData| == 4 + 141 * FromBe(txData[0..4]) < 0x1_0000_0000
    ensures TxDataCheck(txData) in {Done, Reverted(LengthOverflow), Reverted(InvalidTxData)}
  {
  }

  /** `abi.encodePacked(expectedOldRoot, journalHash, batchId)`. */
  function RootPreimage(oldRoot: Digest, journalHash: Digest, batchId: u32): seq<byte> {
    oldRoot + journalHash + Be(batchId, 4)
  }

  /** The root after the batches with these journal hashes. */
  function RootAfter(keccak: Hash, journals: seq<Digest>): Digest
    requires |journals| < TWO_TO_THE_32
  {
    if journals == [] then ZERO
    else
      var n := |journals|;
      keccak(RootPreimage(RootAfter(keccak, journals[..n - 1]), journals[n - 1], n))
  }

  /** Everything hashed on the way. */
  function RootPreimages(keccak: Hash, journals: seq<Digest>): set<seq<byte>>
    requires |journals| < TWO_TO_THE_32
  {
    if journals == [] then {}
    else
      var n := |journals|;
      RootPreimages(keccak, journals[..n - 1])
      + {RootPreimage(RootAfter(keccak, journals[..n - 1]), journals[n - 1], n)}
  }

  ghost predicate RootAt(keccak: Hash, roots: map<u32, Digest>, journals: seq<Digest>, i: u32) {
    i in roots && i <= |journals| < TWO_TO_THE_32 && roots[i] == RootAfter(keccak, journals[..i])
  }

  /** Every stored root is the root of the history up to its batch. */
  ghost predicate RootsMatch(keccak: Hash, roots: map<u32, Digest>, journals: seq<Digest>) {
    && (forall i: u32 :: i in roots <==> 0 < i <= |journals|)
    && (forall i: u32 :: 0 < i <= |journals| ==> RootAt(keccak, roots, journals, i))
  }

  lemma RootAfterNext(keccak: Hash, journals: seq<Digest>, journal: Digest)
    requires |journals| + 1 < TWO_TO_THE_32
    ensures RootAfter(keccak, journals + [journal]) ==
            keccak(RootPreimage(RootAfter(keccak, journals), journal, |journals| + 1))
  {
    assert (journals + [journal])[..|journals|] == journals;
  }

  lemma RootAtKept(keccak: Hash, roots: map<u32, Digest>, journals: seq<Digest>, longer: seq<Digest>,
                   i: u32, n: u32, root: Digest)
    requires RootAt(keccak, roots, journals, i) && i != n
    requires journals <= longer && |longer| < TWO_TO_THE_32
    ensures RootAt(keccak, roots[n := root], longer, i)
  {
    assert longer[..i] == journals[..i];
  }

  lemma RootAtEnd(keccak: Hash, roots: map<u32, Digest>, journals: seq<Digest>)
    requires |journals| < TWO_TO_THE_32 && |journals| in roots
    requires roots[|journals|] == RootAfter(keccak, journals)
    ensures RootAt(keccak, roots, journals, |journals|)
  {
    assert journals[..|journals|] == journals;
  }

  lemma RootsMatchNext(keccak: Hash, roots: map<u32, Digest>, journals: seq<Digest>,
                       longer: seq<Digest>, root: Digest, extended: map<u32, Digest>)
    requires RootsMatch(keccak, roots, journals)
    requires journals <= longer && |longer| == |journals| + 1 < TWO_TO_THE_32
    requires extended == roots[|longer| := root] && RootAt(keccak, extended, longer, |longer|)
    ensures RootsMatch(keccak, extended, longer)
  {
    forall i: u32 | 0 < i <= |longer| ensures RootAt(keccak, extended, longer, i) {
      if i < |longer| {
        assert RootAt(keccak, roots, journals, i);
        RootAtKept(keccak, roots, journals, longer, i, |longer|, root);
      }
    }
  }

  lemma LastRootIsCurrent(keccak: Hash, roots: map<u32, Digest>, journals: seq<Digest>)
    requires |journals| < TWO_TO_THE_32 && RootsMatch(keccak, roots, journals)
    ensures journals == [] ==> RootAfter(keccak, journals) == ZERO
    ensures journals != [] ==> |journals| in roots && roots[|journals|] == RootAfter(keccak, journals)
  {
    assert journals != [] ==> RootAt(keccak, roots, journals, |journals|);
    assert journals[..|journals|] == journals;
  }

  lemma NextIsNew(keccak: Hash, roots: map<u32, Digest>, journals: seq<Digest>)
    requires |journals| + 1 < TWO_TO_THE_32 && RootsMatch(keccak, roots, journals)
    ensures |journals| + 1 !in roots
  {
  }

  /** One more batch on a sound table of roots. */
  lemma Appended(keccak: Hash, roots: map<u32, Digest>, journals: seq<Digest>, longer: seq<Digest>, root: Digest)
    requires RootsMatch(keccak, roots, journals)
    requires journals <= longer && |longer| == |journals| + 1 < TWO_TO_THE_32
    requires root == RootAfter(keccak, longer)
    ensures |longer| !in roots
    ensures RootsMatch(keccak, roots[|longer| := root], longer)
  {
    NextIsNew(keccak, roots, journals);
    RootAtEnd(keccak, roots[|longer| := root], longer);
    RootsMatchNext(keccak, roots, journals, longer, root, roots[|longer| := root]);
  }

  class Rollup {
    const keccak: Hash
    /** Whether the verifier accepts a seal for a journal hash. */
    const accepts: (seq<byte>, Digest) -> bool
    var currentRoot: Digest
    var batchCount: u32
    var roots: map<u32, Digest>
    var batchProcessedDepositIds: map<u32, seq<u64>>
    /** The journal hashes of the batches accepted so far. */
    ghost var accepted: seq<Digest>

    /** The verifier accepts some seal for this journal hash. */
    ghost predicate Proven(journalHash: Digest) {
      exists seal :: accepts(seal, journalHash)
    }

    /**
      Every accepted journal was proven. No batch ever stores a deposit id: the contract always
      passes an empty list on.
     */
    ghost predicate Valid()
      reads this
    {
      && (forall i :: 0 <= i < |accepted| ==> Proven(accepted[i]))
      && |accepted| == batchCount
      && RootsMatch(keccak, roots, accepted)
      && currentRoot == RootAfter(keccak, accepted)
      && (forall i :: i in batchProcessedDepositIds ==> batchProcessedDepositIds[i] == [])
    }

    constructor (keccak: Hash, accepts: (seq<byte>, Digest) -> bool)
      ensures Valid() && accepted == []
      ensures this.keccak == keccak && this.accepts == accepts
    {
      this.keccak, this.accepts := keccak, accepts;
      currentRoot, batchCount, roots, accepted := ZERO, 0, map[], [];
      batchProcessedDepositIds := map[];
    }

    /** The root stored for a batch; absent entries of the mapping read as zero. */
    function GetRoot(batchId: u32): Digest
      reads this
    {
      if batchId in roots then roots[batchId] else ZERO
    }

    /** What the checks say of a submission, in their order. */
    ghost function SubmitCheck(batchId: u32, txData: seq<byte>, journalHash: Digest, seal: seq<byte>): Outcome
      reads this
    {
      if batchCount + 1 == TWO_TO_THE_32 then Reverted(CounterOverflow)
      else if batchId != batchCount + 1 then Reverted(InvalidBatchId)
      else if TxDataCheck(txData).Reverted? then TxDataCheck(txData)
      else if !accepts(seal, journalHash) then Reverted(VerificationFailed)
      else Done
    }

    /**
      A batch is accepted exactly if it is the next one, its data has the right length and the
      verifier takes its seal. It appends one root, the hash of the root before, the journal hash
      and the batch id; a rejected one changes nothing.
     */
    method SubmitBatch(batchId: u32, txData: seq<byte>, journalHash: Digest, seal: seq<byte>)
      returns (outcome: Outcome)
      requires Valid()
      modifies this
      ensures Valid()
      ensures outcome.Done? <==>
              batchId == old(batchCount) + 1 && TxDataCheck(txData).Done? && accepts(seal, journalHash)
      ensures outcome == Reverted(CounterOverflow) <==> old(batchCount) == 0xFFFF_FFFF
      ensures outcome == Reverted(InvalidBatchId) <==> old(batchCount) < 0xFFFF_FFFF && batchId != old(batchCount) + 1
      ensures outcome == Reverted(VerificationFailed) <==>
              batchId == old(batchCount) + 1 && TxDataCheck(txData).Done? && !accepts(seal, journalHash)
      ensures outcome == old(SubmitCheck(batchId, txData, journalHash, seal))
      ensures outcome.Done? ==>
                && accepted == old(accepted) + [journalHash] && batchCount == batchId
                && currentRoot == keccak(old(currentRoot) + journalHash + Be(batchId, 4))
                && roots == old(roots)[batchId := currentRoot] && batchId !in old(roots)
                && batchProcessedDepositIds == old(batchProcessedDepositIds)[batchId := []]
      ensures outcome.Reverted? ==> unchanged(this)
    {
      if batchCount + 1 == TWO_TO_THE_32 {
        return Reverted(CounterOverflow);
      }
      if batchId != batchCount + 1 {
        return Reverted(InvalidBatchId);
      }
      var expectedOldRoot := if batchId == 1 then ZERO else GetRoot(batchId - 1);
      var check := TxDataCheck(txData);
      if check.Reverted? {
        return check;
      }
      if !accepts(seal, journalHash) {
        return Reverted(VerificationFailed);
      }
      LastRootIsCurrent(keccak, roots, accepted);
      assert Proven(journalHash);
      Record(batchId, journalHash, expectedOldRoot);
      outcome := Done;
    }

    /** The effects of an accepted batch: a new root on the old one, and an empty list of deposits. */
    method Record(batchId: u32, journalHash: Digest, expectedOldRoot: Digest)
      requires Valid() && batchId == batchCount + 1 && expectedOldRoot == currentRoot && Proven(journalHash)
      modifies this
      ensures Valid()
      ensures accepted == old(accepted) + [journalHash] && batchCount == batchId
      ensures currentRoot == keccak(RootPreimage(old(currentRoot), journalHash, batchId))
      ensures roots == old(roots)[batchId := currentRoot] && batchId !in old(roots)
      ensures batchProcessedDepositIds == old(batchProcessedDepositIds)[batchId := []]
    {
      var processedDepositIds: seq<u64> := [];
      var newRoot := keccak(RootPreimage(expectedOldRoot, journalHash, batchId));
      RootAfterNext(keccak, accepted, journalHash);
      Appended(keccak, roots, accepted, accepted + [journalHash], newRoot);
      accepted := accepted + [journalHash];
      currentRoot := newRoot;
      batchCount := batchId;
      roots := roots[batchId := newRoot];
      batchProcessedDepositIds := batchProcessedDepositIds[batchId := processedDepositIds];
    }
  }

  /** What is hashed into a root: the old root, the journal hash, and the batch id in four bytes. */
  lemma RootPreimageLayout(oldRoot: Digest, journalHash: Digest, batchId: u32)
    ensures var bytes := RootPreimage(oldRoot, journalHash, batchId);
            && |bytes| == 68 && bytes[..32] == oldRoot && bytes[32..64] == journalHash
            && FromBe(bytes[64..]) == batchId
  {
    Widths();
    BeRoundTrip(batchId, 4);
    assert RootPreimage(oldRoot, journalHash, batchId)[64..] == Be(batchId, 4);
  }

  /** No journal enters the contract's history without a proof. */
  lemma HistoryIsProven(c: Rollup, i: nat)
    requires c.Valid() && i < |c.accepted|
    ensures exists seal :: c.accepts(seal, c.accepted[i])
  {
    assert c.Proven(c.accepted[i]);
  }

  /** In every reachable state the current root is the root stored for the last batch. */
  lemma CurrentRootIsLast(c: Rollup)
    requires c.Valid()
    ensures c.currentRoot == if c.batchCount == 0 then ZERO else c.GetRoot(c.batchCount)
  {
    LastRootIsCurrent(c.keccak, c.roots, c.accepted);
  }

  lemma RootPreimageInjective(r: Digest, j: Digest, m: u32, s: Digest, k: Digest, n: u32)
    requires RootPreimage(r, j, m) == RootPreimage(s, k, n)
    ensures r == s && j == k && m == n
  {
    SplitConcat(r + j, Be(m, 4), s + k, Be(n, 4));
    SplitConcat(r, j, s, k);
    Widths();
    BeRoundTrip(m, 4);
    BeRoundTrip(n, 4);
  }

  /** What is hashed for the last batch of a history. */
  function LastPreimage(keccak: Hash, js: seq<Digest>): seq<byte>
    requires 0 < |js| < TWO_TO_THE_32
  {
    RootPreimage(RootAfter(keccak, js[..|js| - 1]), js[|js| - 1], |js|)
  }

  /** It is recorded together with what was hashed before it. */
  lemma LastRoot(keccak: Hash, js: seq<Digest>)
    requires 0 < |js| < TWO_TO_THE_32
    ensures RootAfter(keccak, js) == keccak(LastPreimage(keccak, js))
    ensures LastPreimage(keccak, js) in RootPreimages(keccak, js)
    ensures RootPreimages(keccak, js[..|js| - 1]) <= RootPreimages(keccak, js)
  {
  }

  lemma LastPreimageBinds(keccak: Hash, js: seq<Digest>, ks: seq<Digest>)
    requires 0 < |js| < TWO_TO_THE_32 && 0 < |ks| < TWO_TO_THE_32
    requires LastPreimage(keccak, js) == LastPreimage(keccak, ks)
    ensures |js| == |ks| && js[|js| - 1] == ks[|ks| - 1]
    ensures RootAfter(keccak, js[..|js| - 1]) == RootAfter(keccak, ks[..|ks| - 1])
  {
    RootPreimageInjective(RootAfter(keccak, js[..|js| - 1]), js[|js| - 1], |js|,
                          RootAfter(keccak, ks[..|ks| - 1]), ks[|ks| - 1], |ks|);
  }

  /** Two non-empty histories with one root hashed the same for their last batch. */
  lemma SameLastPreimage(keccak: Hash, js: seq<Digest>, ks: seq<Digest>, used: set<seq<byte>>)
    requires 0 < |js| < TWO_TO_THE_32 && 0 < |ks| < TWO_TO_THE_32
    requires RootPreimages(keccak, js) <= used && RootPreimages(keccak, ks) <= used
    requires CollisionFreeOn(keccak, used) && RootAfter(keccak, js) == RootAfter(keccak, ks)
    ensures LastPreimage(keccak, js) == LastPreimage(keccak, ks)
    ensures RootPreimages(keccak, js[..|js| - 1]) <= used && RootPreimages(keccak, ks[..|ks| - 1]) <= used
  {
    LastRoot(keccak, js);
    LastRoot(keccak, ks);
  }

  lemma RootIsNotZero(keccak: Hash, js: seq<Digest>, used: set<seq<byte>>)
    requires 0 < |js| < TWO_TO_THE_32 && RootPreimages(keccak, js) <= used && NonZeroOn(keccak, used)
    ensures RootAfter(keccak, js) != ZERO
  {
    LastRoot(keccak, js);
  }

  lemma SameFrontSameLast<T>(xs: seq<T>, ys: seq<T>)
    requires xs != [] && ys != [] && xs[..|xs| - 1] == ys[..|ys| - 1] && xs[|xs| - 1] == ys[|ys| - 1]
    ensures xs == ys
  {
    assert xs == xs[..|xs| - 1] + [xs[|xs| - 1]] && ys == ys[..|ys| - 1] + [ys[|ys| - 1]];
  }

  /**
    The current root alone determines the whole sequence of accepted journal hashes, provided
    Keccak does not collide or vanish on what these two histories hashed.
   */
  lemma {:induction false} RootDeterminesHistory(keccak: Hash, js: seq<Digest>, ks: seq<Digest>, used: set<seq<byte>>)
    requires |js| < TWO_TO_THE_32 && |ks| < TWO_TO_THE_32
    requires RootPreimages(keccak, js) <= used && RootPreimages(keccak, ks) <= used
    requires CollisionFreeOn(keccak, used) && NonZeroOn(keccak, used)
    requires RootAfter(keccak, js) == RootAfter(keccak, ks)
    ensures js == ks
  {
    if js != [] && ks != [] {
      SameLastPreimage(keccak, js, ks, used);
      LastPreimageBinds(keccak, js, ks);
      RootDeterminesHistory(keccak, js[..|js| - 1], ks[..|ks| - 1], used);
      SameFrontSameLast(js, ks);
    } else if js != [] {
      RootIsNotZero(keccak, js, used);
    } else if ks != [] {
      RootIsNotZero(keccak, ks, used);
    }
  }
}
