/**
  The digests of a zkVM receipt claim (solidity/contracts/risc0/IRiscZeroVerifier.sol), written
  out by hand in the contract, and their agreement with structural hashing.
 */
module ReceiptClaims {
  import opened Bytes
  import opened Sequences
  import opened Text
  import opened ByteOrder
  import opened StructHash

  datatype SystemExitCode = Halted | Paused | SystemSplit

  datatype ExitCode = ExitCode(system: SystemExitCode, user: bv8)

  datatype ReceiptClaim = ReceiptClaim(
    preStateDigest: Digest, postStateDigest: Digest, exitCode: ExitCode, input: Digest, output: Digest)

  datatype SystemState = SystemState(pc: bv32, merkleRoot: Digest)

  datatype Output = Output(journalDigest: Digest, assumptionsDigest: Digest)

  function ClaimTag(sha: Hash): Digest { sha(BytesOf("risc0.ReceiptClaim")) }

  function StateTag(sha: Hash): Digest { sha(BytesOf("risc0.SystemState")) }

  function OutputTag(sha: Hash): Digest { sha(BytesOf("risc0.Output")) }

  function SystemCode(e: SystemExitCode): bv32 {
    match e
    case Halted => 0
    case Paused => 1
    case SystemSplit => 2
  }

  // ----- The hand-written preimages -----

  function ClaimPreimage(sha: Hash, c: ReceiptClaim): seq<byte> {
    ClaimTag(sha)
    + c.input + c.preStateDigest + c.postStateDigest + c.output
    + Be32(SystemCode(c.exitCode.system) << 24) + Be32((c.exitCode.user as bv32) << 24)
    + Be16(4 << 8)
  }

  function StatePreimage(sha: Hash, s: SystemState): seq<byte> {
    StateTag(sha) + s.merkleRoot + Be32(ReverseByteOrderUint32(s.pc)) + Be16(1 << 8)
  }

  function OutputPreimage(sha: Hash, o: Output): seq<byte> {
    OutputTag(sha) + o.journalDigest + o.assumptionsDigest + Be16(2 << 8)
  }

  function ClaimDigest(sha: Hash, c: ReceiptClaim): Digest { sha(ClaimPreimage(sha, c)) }

  function StateDigest(sha: Hash, s: SystemState): Digest { sha(StatePreimage(sha, s)) }

  function OutputDigest(sha: Hash, o: Output): Digest { sha(OutputPreimage(sha, o)) }

  /** The claim of a successful, unconditional run of `imageId` with this journal. */
  function Ok(sha: Hash, zeroState: Digest, imageId: Digest, journalDigest: Digest): ReceiptClaim {
    ReceiptClaim(imageId, zeroState, ExitCode(Halted, 0), ZERO, OutputDigest(sha, Output(journalDigest, ZERO)))
  }

  /** The claim of a successful run: from the image, ending in the zero state, without input or assumptions. */
  lemma OkClaims(sha: Hash, zeroState: Digest, imageId: Digest, journalDigest: Digest)
    ensures var c := Ok(sha, zeroState, imageId, journalDigest);
            && c.preStateDigest == imageId && c.postStateDigest == zeroState && c.input == Le(0, 32)
            && c.exitCode.system == Halted && c.exitCode.user == 0
            && c.output == OutputDigest(sha, Output(journalDigest, Le(0, 32)))
            && ClaimData(c) == [0, 0, 0, 0, 0, 0, 0, 0]
  {
    ExitCodeData(Ok(sha, zeroState, imageId, journalDigest));
  }

  /** The exit code in eight bytes: how the system ended, 0 for halted, 1 for paused, 2 for split, then the user's byte. */
  lemma ExitCodeData(c: ReceiptClaim)
    ensures ClaimData(c) == [CodeNumber(c.exitCode.system), 0, 0, 0] + [c.exitCode.user as int, 0, 0, 0]
  {
    SystemLe32(c.exitCode.system);
    SmallLe32(c.exitCode.user);
  }

  function CodeNumber(e: SystemExitCode): byte {
    match e
    case Halted => 0
    case Paused => 1
    case SystemSplit => 2
  }

  lemma SystemLe32(e: SystemExitCode)
    ensures Le32(SystemCode(e)) == [CodeNumber(e), 0, 0, 0]
  {
    match e
    case Halted => SmallLe32(0);
    case Paused => SmallLe32(1);
    case SystemSplit => SmallLe32(2);
  }

  lemma SmallLe32(b: bv8)
    ensures Le32(b as bv32) == [b as int, 0, 0, 0]
  {
    LowByte(b);
    Le32At(b as bv32);
  }

  lemma LowByte(b: bv8)
    ensures ((b as bv32) & 0xFF) as bv8 == b
    ensures ((b as bv32) >> 8) & 0xFF == 0 && ((b as bv32) >> 16) & 0xFF == 0 && ((b as bv32) >> 24) & 0xFF == 0
  {
  }

  // ----- They are tagged structs -----

  function ClaimData(c: ReceiptClaim): seq<byte> {
    Le32(SystemCode(c.exitCode.system)) + Le32(c.exitCode.user as bv32)
  }

  /** Shifting a byte to the top of a word writes it little-endian. */
  lemma ShiftedByte(v: bv32)
    requires v < 256
    ensures Be32(v << 24) == Le32(v)
  {
    assert BytesHighFirst(v << 24) == BytesLowFirst(v);
  }

  lemma SmallLengths()
    ensures Be16(4 << 8) == DownLenLE(4)
    ensures Be16(2 << 8) == DownLenLE(2)
    ensures Be16(1 << 8) == DownLenLE(1)
  {
    DownLenBytes(4);
    DownLenBytes(2);
    DownLenBytes(1);
  }

  lemma FlattenOne(a: Digest)
    ensures Flatten([a]) == a
  {
    assert [a][1..] == [];
  }

  lemma FlattenTwo(a: Digest, b: Digest)
    ensures Flatten([a, b]) == a + b
  {
    FlattenOne(b);
    assert [a, b][1..] == [b];
  }

  lemma FlattenFour(a: Digest, b: Digest, c: Digest, d: Digest)
    ensures Flatten([a, b, c, d]) == a + b + c + d
  {
    FlattenTwo(c, d);
    assert [a, b, c, d][1..] == [b, c, d] && [b, c, d][1..] == [c, d];
    assert Flatten([b, c, d]) == b + (c + d);
  }

  lemma Regroup<T>(t: seq<T>, a: seq<T>, b: seq<T>, c: seq<T>, d: seq<T>, e: seq<T>, f: seq<T>, g: seq<T>)
    ensures t + a + b + c + d + e + f + g == t + (a + b + c + d) + (e + f) + g
  {
  }

  /** The two words of an exit code, each with its byte shifted to the top. */
  lemma ExitCodeBytes(e: ExitCode)
    ensures Be32(SystemCode(e.system) << 24) == Le32(SystemCode(e.system))
    ensures Be32((e.user as bv32) << 24) == Le32(e.user as bv32)
  {
    ShiftedByte(SystemCode(e.system));
    ShiftedByte(e.user as bv32);
  }

  /** The claim's digest hashes the bytes of the tagged struct with four digests and the exit code. */
  lemma ClaimIsTaggedStruct(sha: Hash, c: ReceiptClaim)
    ensures ClaimPreimage(sha, c) ==
            StructPreimage(sha(BytesOf("risc0.ReceiptClaim")), [c.input, c.preStateDigest, c.postStateDigest, c.output], ClaimData(c))
  {
    ExitCodeBytes(c.exitCode);
    SmallLengths();
    FlattenFour(c.input, c.preStateDigest, c.postStateDigest, c.output);
    Regroup(ClaimTag(sha), c.input, c.preStateDigest, c.postStateDigest, c.output,
            Le32(SystemCode(c.exitCode.system)), Le32(c.exitCode.user as bv32), DownLenLE(4));
  }

  lemma StateIsTaggedStruct(sha: Hash, s: SystemState)
    ensures StatePreimage(sha, s) == StructPreimage(sha(BytesOf("risc0.SystemState")), [s.merkleRoot], Le32(s.pc))
  {
    Reverse32Bytes(s.pc);
    SmallLengths();
    FlattenOne(s.merkleRoot);
  }

  lemma OutputIsTaggedStruct(sha: Hash, o: Output)
    ensures OutputPreimage(sha, o) ==
            StructPreimage(sha(BytesOf("risc0.Output")), [o.journalDigest, o.assumptionsDigest], [])
  {
    SmallLengths();
    FlattenTwo(o.journalDigest, o.assumptionsDigest);
  }

  // ----- What the digests commit to -----

  lemma ExitCodeFromData(c: ReceiptClaim, d: ReceiptClaim)
    requires ClaimData(c) == ClaimData(d)
    ensures c.exitCode == d.exitCode
  {
    SplitConcat(Le32(SystemCode(c.exitCode.system)), Le32(c.exitCode.user as bv32),
                Le32(SystemCode(d.exitCode.system)), Le32(d.exitCode.user as bv32));
    Le32Injective(SystemCode(c.exitCode.system), SystemCode(d.exitCode.system));
    Le32Injective(c.exitCode.user as bv32, d.exitCode.user as bv32);
    assert c.exitCode.user == d.exitCode.user;
  }

  /** A claim digest commits to every field of the claim. */
  lemma ClaimDigestBinds(sha: Hash, c: ReceiptClaim, d: ReceiptClaim)
    requires CollisionFreeOn(sha, {ClaimPreimage(sha, c), ClaimPreimage(sha, d)})
    requires ClaimDigest(sha, c) == ClaimDigest(sha, d)
    ensures c == d
  {
    ClaimIsTaggedStruct(sha, c);
    ClaimIsTaggedStruct(sha, d);
    var a := [c.input, c.preStateDigest, c.postStateDigest, c.output];
    var b := [d.input, d.preStateDigest, d.postStateDigest, d.output];
    StructPreimageInjective(ClaimTag(sha), a, ClaimData(c), ClaimTag(sha), b, ClaimData(d));
    assert a[0] == b[0] && a[1] == b[1] && a[2] == b[2] && a[3] == b[3];
    ExitCodeFromData(c, d);
  }

  /** A state digest commits to the program counter and the memory. */
  lemma StateDigestBinds(sha: Hash, s: SystemState, t: SystemState)
    requires CollisionFreeOn(sha, {StatePreimage(sha, s), StatePreimage(sha, t)})
    requires StateDigest(sha, s) == StateDigest(sha, t)
    ensures s == t
  {
    StateIsTaggedStruct(sha, s);
    StateIsTaggedStruct(sha, t);
    StructPreimageInjective(StateTag(sha), [s.merkleRoot], Le32(s.pc), StateTag(sha), [t.merkleRoot], Le32(t.pc));
    assert [s.merkleRoot][0] == [t.merkleRoot][0];
    Le32Injective(s.pc, t.pc);
  }

  lemma OutputDigestBinds(sha: Hash, o: Output, q: Output)
    requires CollisionFreeOn(sha, {OutputPreimage(sha, o), OutputPreimage(sha, q)})
    requires OutputDigest(sha, o) == OutputDigest(sha, q)
    ensures o == q
  {
    OutputIsTaggedStruct(sha, o);
    OutputIsTaggedStruct(sha, q);
    var a, b := [o.journalDigest, o.assumptionsDigest], [q.journalDigest, q.assumptionsDigest];
    StructPreimageInjective(OutputTag(sha), a, [], OutputTag(sha), b, []);
    assert a[0] == b[0] && a[1] == b[1];
  }

  /** So the digest of a successful run fixes the program and its journal. */
  lemma OkDigestBinds(sha: Hash, zeroState: Digest, image: Digest, journal: Digest, image': Digest, journal': Digest)
    requires CollisionFreeOn(sha, {ClaimPreimage(sha, Ok(sha, zeroState, image, journal)),
                                   ClaimPreimage(sha, Ok(sha, zeroState, image', journal'))})
    requires CollisionFreeOn(sha, {OutputPreimage(sha, Output(journal, ZERO)), OutputPreimage(sha, Output(journal', ZERO))})
    requires ClaimDigest(sha, Ok(sha, zeroState, image, journal)) == ClaimDigest(sha, Ok(sha, zeroState, image', journal'))
    ensures image == image' && journal == journal'
  {
    ClaimDigestBinds(sha, Ok(sha, zeroState, image, journal), Ok(sha, zeroState, image', journal'));
    OutputDigestBinds(sha, Output(journal, ZERO), Output(journal', ZERO));
  }
}
