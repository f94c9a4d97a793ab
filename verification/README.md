# A verified model of the ZK rollup

This Dafny project models the parts of the rollup that hold or commit to money and history, and
proves what they are for. `dafny verify dfyconfig.toml` checks all of it.

| files | what they model |
|---|---|
| `transition`, `guest` | the guest program: the state transition as a fold, and the loops over a mutable account vector and tree that compute it |
| `conservation`, `tree_agreement`, `ledger`, `history`, `outcomes`, `settlement`, `reordering`, `listings`, `replays` | what one batch and any chain of batches do to balances, nonces and roots |
| `smt`, `text`, `bytes`, `sequences`, `options` | the tree wrapper, hexadecimal and decimal text, encodings |
| `signed_message`, `authorization`, `single_use` | the message a wallet signs and what a signature authorizes, in one batch and over whole runs |
| `escrow`, `deposit_manager` | the L1 deposit contract, with calls nested inside a payout |
| `rollup_contract`, `calldata` | the L1 rollup contract and the calldata the host builds for it |
| `block_hash`, `block_controller` | the sequencer's L2 block hashes and badge store |
| `byte_order`, `machine_bytes`, `struct_hash`, `receipt_claim` | the RISC Zero hashing helpers |

Code that works step by step is modelled as methods with loops, arrays and classes, each proved
against a function; the theorems are lemmas about those functions.

## Assumptions

- Hashes, signature recovery, the tree's root and the proof verifier are parameters. Where a
  theorem needs a hash not to collide, it asks so only of the finitely many inputs that the runs
  it talks about hash (`CollisionFreeOn`, `NonZeroOn`), which a 32-byte hash can satisfy. Leaf
  hashing (`LeafHashSound`) concerns 16-byte inputs only.
- The sparse Merkle tree crate is a root that depends only on the non-zero leaf hashes, and an
  empty tree has the zero root.
- The guest is built without overflow checks, so its 64-bit additions wrap; theorems count the
  wraps and are exact below 2^64. Solidity arithmetic is checked and reverts.
- Text is ASCII. This loses nothing for listed names: a listed address reads as hexadecimal, and
  no other text folds to it.
- New badge ids are fresh, as random UUIDs are.

## Where the code does less than one might expect

- The guest accepts a listing in which two addresses have the same tree key, or one address twice.
  The search then finds the first entry and the tree keeps the last, so list and tree disagree, a
  successful batch can end with any account one likes (`SharedKeyMakesAccount`), and a signed
  message can be applied again (`SignedMessageReplayed`). Distinct keys are exactly the condition
  for agreement (`AgreementNeedsDistinctKeys`), for money (`ConservesIffDistinct`) and for nonces
  (`NoncesCountIffDistinct`); the theorems about settled chains ask for them.
- The host reads hexadecimal more strictly than the guest. It panics on a plus sign in place of a
  digit and on a prefix written `0X`, both of which the guest takes; `GuestTakesRespelling` gives
  such a spelling for every signed transfer, and `CalldataAgreement` and
  `ProcessedBatchEncodableIff` show that these two are the only obstacles.
- `getPendingDeposits` reverts when the deposit counter holds the largest 64-bit value, because
  its loop variable has the same type; otherwise it always answers.
- A signed message stands for a second transfer exactly when the separator between the names can
  be read in it at a second place, which a piece of it at the edge of a name is enough for
  (`AmbiguousIff`, `OverlapIsAmbiguous`). No such name is ever applied: the sender is recovered
  and the receiver is listed.
- The sequencer hashes the addresses of a transaction one after the other and checks neither
  length, so a byte can be moved from one to the other (`UnequalAddressesAreAmbiguous`); equally
  long senders are exactly what makes the bytes unambiguous (`SameBytesSameBodyIff`).
- A block hash covers all transactions selected for the block, while the badge lists only those
  that updated the tree.
- `currentRoot` on L1 is a hash chain over journal hashes, not the guest's tree root, and a
  submitted batch never marks a deposit. The two chains are kept apart here.

## Model

| member | source | states |
|---|---|---|
| History.SupplyIsDeposits | executor/methods/guest/src/main.rs:213-387 | Over any chain from the zero root of settled batches, which succeed and list no key twice, the balances of the whole tree are the deposits listed so far less 2^64 per wrapped addition, and exactly those deposits while they sum below 2^64 |
| History.NoTransferReplayed | executor/methods/guest/src/main.rs:289-358 | Over any chain of settled batches, with distinct keys in each, every key's transfers carry the nonces 0, 1, 2, ... across batch borders; two share a nonce iff a multiple of 2^64 lies between, so never within 2^64 events |
| Replays.SignedMessageReplayed | executor/methods/guest/src/main.rs:217-358 | Without distinct keys it fails: every signed self-transfer with nonce 0 is applied in two successful batches on linked roots, the second of which may name one address twice |
| Listings.NoncesCountIffDistinct | executor/methods/guest/src/main.rs:217-358 | Exactly when nonces can be relied on: in every batch over a listing that succeeds on the zero root each nonce grows by the number of transfers sent, iff no two addresses share a key |
| Listings.DistinctKeepsNonces | executor/methods/guest/src/main.rs:289-358 | With distinct keys each nonce grows by the number of transfers sent, from any state |
| Ledger.NonceCountsSent | executor/methods/guest/src/main.rs:300-331 | The same for any replayed history |
| Replays.ChainIsAccepted | executor/methods/guest/src/main.rs:233-235 | A settled chain is a chain of successes on linked roots in which every batch has distinct keys |
| SingleUse.NoSignedMessageTwice | executor/methods/guest/src/main.rs:178-189 | In a chain of settled batches, with distinct keys in each, and at most 2^64 events two transfers have the same signed hash iff they are one and the same, whatever signatures come with them |
| SingleUse.EveryDebitIsSigned | executor/methods/guest/src/main.rs:80-168 | Every debit in the events of successful batches, whatever their listings and roots, belongs to a transfer whose signature recovers to the address whose key is debited |
| History.AccountStatement | executor/methods/guest/src/main.rs:257-358 | At the end of any chain of settled batches every account holds what was deposited and sent to it less what it sent, as a 64-bit word |
| Settlement.SucceedsIff | executor/methods/guest/src/main.rs:213-371 | With distinct keys the guest reports success iff everyone mentioned is listed, every transfer is signed, the events replay on the listed tree, and the claimed roots are the roots before and after that replay |
| Settlement.ExtendsIff | executor/methods/guest/src/main.rs:233-371 | A batch that lists the tree a chain ended on extends the chain iff it is such a batch, so an honest one is never refused |
| Settlement.TransfersIffMoves | executor/methods/guest/src/main.rs:289-358 | A list of transfers is valid in turn iff all its names are listed and its moves replay on the tree |
| History.ChainIsReplay | executor/methods/guest/src/main.rs:213-387 | A chain of settled batches is one replay of all its deposits and transfers, in order, from the empty state |
| History.ChainLinks | executor/methods/guest/src/main.rs:233-235 | Equal roots mean equal trees: each batch of a chain starts on the tree its predecessor left, given no root collision in that run |
| History.ClaimedRootFixesTree | executor/methods/guest/src/main.rs:233-235 | Two successful batches that claim the same old root in text start on the same tree |
| History.BatchIsReplay | executor/methods/guest/src/main.rs:257-371 | A fully processed batch with distinct keys is the replay of its own deposits and transfers on the tree it started from, whatever the order and size of its listing |
| History.TransferIsMove | executor/methods/guest/src/main.rs:289-353 | A valid transfer between listed accounts acts on the tree as one debit and one credit of the keys the names stand for, self-transfers included |
| History.DepositIsPayment | executor/methods/guest/src/main.rs:262-278 | A deposit to a listed user acts on the tree as a credit of the key the name stands for |
| History.FoundKey | executor/methods/guest/src/main.rs:191-193 | Wherever a name is found in the listing, up to case, the listed key is the key the name stands for |
| Ledger.ReplayConserves | executor/methods/guest/src/main.rs:257-358 | Any replayed history keeps total = payments in, less 2^64 for each wrapped addition |
| Ledger.NonceReuse | executor/methods/guest/src/main.rs:300-331 | A sender's nonce comes back iff a multiple of 2^64 of its transfers lies between |
| Ledger.NoncesAreConsecutive | executor/methods/guest/src/main.rs:300-331 | The i-th transfer of a sender was applied with nonce i as a 64-bit word |
| Ledger.BalanceIsStatement | executor/methods/guest/src/main.rs:268-332 | Each balance is receipts less spending as a 64-bit word, for every history |
| Ledger.TotalPut | executor/lib/smt/src/lib.rs:59-62 | Writing one account changes the total by exactly the change of that account, zero leaves included |
| Listings.ConservesIffDistinct | executor/methods/guest/src/main.rs:217-231 | The guest does not check for repeated keys: every batch over a listing that succeeds on the zero root conserves the money in its tree iff no two addresses share a key |
| Listings.DistinctConserves | executor/methods/guest/src/main.rs:257-358 | With distinct keys every batch conserves, even one that stops early or fails |
| Listings.SharedKeyMakesAccount | executor/methods/guest/src/main.rs:217-371 | For every listing with a shared key and every account one likes, a batch that the guest reports as a success on the empty tree, that lists no money and no transfer, and ends with that account in the tree |
| TreeAgreement.AgreementNeedsDistinctKeys | executor/methods/guest/src/main.rs:217-284 | List and tree agree after every sequence of deposits to listed users iff the keys are distinct |
| TreeAgreement.EveryTurnAgrees | executor/methods/guest/src/main.rs:262-358 | With distinct keys, after every number of loop turns the incrementally updated tree is the tree built afresh from the working list |
| TreeAgreement.FinalRootIsFresh | executor/methods/guest/src/main.rs:360-361 | With distinct keys the final root is the root of a fresh tree over the final accounts |
| TreeAgreement.AgreementIsFreshBuild | executor/methods/guest/src/main.rs:220-231 | With distinct keys a tree holds exactly the listed accounts at the listed keys iff it is the fresh build of that list |
| Conservation.BatchConserves | executor/methods/guest/src/main.rs:257-358 | For every input (duplicates, failed signatures, unknown users, early stops): final balances + 2^64 per wrapped addition = listed balances + processed deposits; no wrap at all while that sum is below 2^64 |
| Conservation.AppliedPrefixes | executor/methods/guest/src/main.rs:257-358 | The final accounts are the fold of exactly the processed deposits and applied transfers |
| Conservation.TransferStepConserves | executor/methods/guest/src/main.rs:295-352 | One transfer, also to oneself, moves money and makes none, but for a carry |
| Guest.Execute | executor/methods/guest/src/main.rs:213-387 | The program over a mutable vector and tree commits exactly the specified journal, and panics exactly for an unreadable address or a missing leaf |
| Outcomes.NoTransferUnlessReady | executor/methods/guest/src/main.rs:284-289 | A batch applies a transfer only if every transfer is signed and every deposit finds its user |
| Outcomes.DepositsStopAtUnknown | executor/methods/guest/src/main.rs:262-283 | A batch processes n deposits iff the first n find their users and the next, if any, does not |
| Outcomes.TransfersStopAtRefused | executor/methods/guest/src/main.rs:289-358 | Once signatures and deposits pass, a batch stops only at a transfer that is refused on the state it left |
| Outcomes.RefusedIff | executor/methods/guest/src/main.rs:291-357 | A transfer is refused iff a name is not listed, the balance is too small or the nonce another |
| Outcomes.JournalSays | executor/methods/guest/src/main.rs:360-386 | The journal holds the roots before and after, the batch's badge id, the applied count as a 32-bit word and the ids of exactly the processed deposits |
| Outcomes.JournalSucceedsIff | executor/methods/guest/src/main.rs:366-371 | For every listing, success iff both root texts are right, all is signed, all deposit users are listed and all transfers are applied |
| Outcomes.PanicsIff | executor/methods/guest/src/main.rs:217-227 | A panic iff an address cannot be read or has no leaf |
| Outcomes.PayeeIsWrittenLast | executor/methods/guest/src/main.rs:347-348 | The payee's leaf is written after the payer's, which shows where they share a key |
| Guest.InitializeTree | executor/methods/guest/src/main.rs:217-231 | The loop builds the tree of the whole listing, or panics |
| Guest.VerifySignatures | executor/methods/guest/src/main.rs:237-254 | The loop succeeds iff every transfer is signed by its sender and names it as its key |
| Guest.VerifyMetamaskSignature | executor/methods/guest/src/main.rs:80-108 | True iff the signature reads as 65 bytes and the key recovered from the message hash is the sender's |
| Authorization.SignatureValidIff | executor/methods/guest/src/main.rs:80-168 | A 65-byte signature passes iff its last byte is 0 or 27 for the first candidate key, 1 or 28 for the second, and that candidate, recovered from the hash of the printed transfer, has the sender's address; every other last byte is refused |
| Authorization.SenderIsSigner | executor/methods/guest/src/main.rs:111-168 | The sender of a signed transfer is, up to case, the address its signature recovers to, and the account debited is the one at that address's key |
| Guest.ProcessDeposits | executor/methods/guest/src/main.rs:257-284 | The loop leaves list, tree, ids and flag of the longest prefix of deposits to listed users |
| Guest.ProcessTransactions | executor/methods/guest/src/main.rs:289-358 | The loop leaves list, tree and count of the longest prefix of valid transfers |
| Guest.TransferAcross | executor/methods/guest/src/main.rs:314-352 | The two halves of the vector, updated apart and put together again, are the plain two-index update |
| Guest.TransferToSelf | executor/methods/guest/src/main.rs:296-313 | The self-transfer branch comes to a debit and a credit of one account |
| Guest.ApplyDeposit | executor/methods/guest/src/main.rs:266-275 | One deposit on list and tree |
| Guest.HexToBytes | executor/methods/guest/src/main.rs:57-73 | Reads pairs from the left; fails on odd length or a bad pair, and takes a leading plus sign as the Rust reader does |
| Guest.HexToBytes32Array | executor/methods/guest/src/main.rs:195-209 | First 32 bytes, or short input padded with zeros on the left |
| Guest.RootTextReadsBack | executor/methods/guest/src/main.rs:374-375 | The committed root bytes are the root itself |
| Transition.DepositLoopIsLongestPrefix | executor/methods/guest/src/main.rs:262-284 | The processed deposits are the longest prefix whose users are all listed |
| Transition.TransferLoopIsLongestPrefix | executor/methods/guest/src/main.rs:290-357 | The applied transfers are the longest prefix valid in turn; the next one is not valid on the state left |
| Transition.ValidRunIsLoop | executor/methods/guest/src/main.rs:290-357 | A list of transfers is valid throughout iff the loop counts all of it |
| Transition.FindsFirst | executor/methods/guest/src/main.rs:191-193 | The search finds every listed name, where it first occurs |
| Transition.DebitThenCredit | executor/methods/guest/src/main.rs:298-302 | Paying oneself changes the nonce only |
| Reordering.ListingDoesNotMatter | executor/methods/guest/src/main.rs:217-361 | Two fully processed batches with distinct keys over one tree, however listed, with the same transfers and permuted deposits, end on the same tree and root |
| Reordering.BatchDepositsPermute | executor/methods/guest/src/main.rs:262-284 | With distinct keys, permuting deposits that all find their user leaves accounts, tree and transfer count unchanged |
| Reordering.BatchListDepositsPermute | executor/methods/guest/src/main.rs:262-284 | Shared keys or not, it leaves accounts and transfer count unchanged |
| Reordering.ListAfterDeposits | executor/methods/guest/src/main.rs:262-284 | After deposits every listed account holds what it held and was paid, as a 64-bit word |
| Reordering.BatchTransfersSwap | executor/methods/guest/src/main.rs:289-361 | For a whole batch, swapping adjacent applied transfers that share no account changes neither what is applied nor the accounts, shared keys or not; with distinct keys neither tree nor root |
| Reordering.SwapAppliedTransfers | executor/methods/guest/src/main.rs:290-357 | The same for the transfer loop from any state |
| Reordering.ApartTransfersCommute | executor/methods/guest/src/main.rs:290-357 | Transfers between different accounts commute on the list, failures included; with distinct keys on the tree too |
| Ledger.SwapDisjointEvents | executor/methods/guest/src/main.rs:262-357 | On the state, adjacent events on disjoint accounts can be swapped anywhere in a history |
| Ledger.PaymentsPermute | executor/methods/guest/src/main.rs:262-284 | On the state, payments may come in any order |
| Smt.ToH256Injective | executor/lib/smt/src/lib.rs:22-39 | Equal leaf hashes mean equal accounts, the empty leaf included |
| Smt.LeafLayout | executor/lib/smt/src/lib.rs:27-31 | A leaf's bytes are the balance and then the nonce, little-endian |
| Outcomes.KeyIsHashedAddress | executor/lib/smt/src/lib.rs:65-71 | An account's key is the Keccak hash of its twenty address bytes |
| Outcomes.DistinctKeysIffDistinctAddresses | executor/lib/smt/src/lib.rs:65-71 | Keys are distinct iff no address is listed twice, however spelled, if Keccak does not collide on the listing |
| Smt.LeafHash | executor/lib/smt/src/lib.rs:23-39 | Fills the 16-byte buffer and hashes it; an empty account gives zero without hashing |
| Smt.RootBinding | executor/lib/smt/src/lib.rs:54-57 | Equal roots mean equal leaves, given the two leaf-hash maps do not collide |
| Smt.WriteReadsBack | executor/lib/smt/src/lib.rs:60-62 | A write is read back at its key and disturbs no other |
| Smt.Tree.Update | executor/lib/smt/src/lib.rs:59-62 | Stores the leaf, or removes it when its hash is zero |
| Smt.HexToAddress | executor/lib/smt/src/lib.rs:75-87 | Forty characters after an optional 0x, read pairwise into twenty bytes |
| Smt.AddressIgnoresCase | executor/lib/smt/src/lib.rs:75-87 | The case of a readable address does not matter |
| Smt.H256ToHexInjective | executor/lib/smt/src/lib.rs:89-94 | The text of a digest determines it |
| Smt.EncodeHex | executor/lib/smt/src/lib.rs:97-106 | Appends two lower-case digits a byte |
| Text.DecodeOfEncode | executor/lib/smt/src/lib.rs:97-106 | Hex text reads back to its bytes, strictly and leniently |
| Text.HexByByte | executor/lib/smt/src/lib.rs:97-106 | Each byte is printed in its own two digits |
| Text.PairReads | executor/methods/guest/src/main.rs:65-70 | A pair is a byte iff both are digits, or a plus sign stands before a digit where the Rust reader is used |
| Text.HexValueIff | executor/methods/guest/src/main.rs:65-70 | Digits are read in either case |
| Text.HexDigits | executor/lib/smt/src/lib.rs:97-106 | The digits are lower-case, the higher one first |
| Authorization.SignedHashFixesTransfer | executor/methods/guest/src/main.rs:103-107 | Two applied transfers, of one batch or of two, with equal signed hashes have the same names, amount and nonce |
| Authorization.AppliedIsQuoteFree | executor/methods/guest/src/main.rs:145-145 | Every applied transfer, also before an early stop, has names without quotes, because its sender was recovered and its receiver is listed |
| SignedMessage.PreimageInjective | executor/methods/guest/src/main.rs:178-189 | No two messages share an EIP-191 (version 0x45) preimage although nothing separates length and text |
| SignedMessage.PreimageReads | executor/methods/guest/src/main.rs:178-189 | The hashed bytes are 0x19, the fixed text of EIP-191 version 0x45, the decimal length and the message |
| SignedMessage.MessageReads | executor/methods/guest/src/main.rs:171-176 | Cut at its quotes, the message of quote-free names is sender, receiver, amount and nonce, each with its value |
| SignedMessage.MessageInjective | executor/methods/guest/src/main.rs:171-176 | The message determines all four fields of transfers between quote-free names |
| SignedMessage.AmbiguousIff | executor/methods/guest/src/main.rs:171-176 | Another transfer prints the same message iff the separator between the names can be read at a second place |
| SignedMessage.MessageFixesNames | executor/methods/guest/src/main.rs:171-176 | Messages agree iff both numbers do and the names with their separator agree as one text, whatever the names |
| SignedMessage.OverlapIsAmbiguous | executor/methods/guest/src/main.rs:171-176 | Two transfers with one message although no name contains the separator, for all such names |
| Text.DecRoundTrip | executor/methods/guest/src/main.rs:174-175 | Decimal text reads back to its number |
| Calldata.CreateTransactionCalldata | executor/host/src/main.rs:96-127 | The encoding loop builds the count and the six fields of every transfer in order, or panics on an unreadable field |
| Calldata.CalldataAgreement | executor/host/src/main.rs:96-127 | For any list whose signatures pass the guest: the host encodes it iff its text has no plus sign and no capital X and each receiver has 20 bytes to read; then 4 + 141n bytes, accepted by the contract iff that is below 2^32, every field read back |
| Calldata.CalldataCarries | executor/host/src/main.rs:96-127 | Transfer i stands in the 141 bytes from 4 + 141i: recovered sender, receiver, amount, nonce, signature and key as the guest read them, numbers big-endian |
| Calldata.RecordFields | executor/host/src/main.rs:102-124 | The record of a signed transfer has the recovered address as sender and key and the transfer's own receiver, amount, nonce and signature |
| Calldata.ProcessedBatchEncodableIff | executor/host/src/main.rs:91-127 | The host encodes a batch that the guest fully processed iff no text of its transfers has a plus sign or a capital X; otherwise it panics |
| Calldata.SignedRecordIff | executor/host/src/main.rs:91-124 | The same for one signed transfer, its receiver aside |
| Calldata.GuestTakesRespelling | executor/methods/guest/src/main.rs:245-252 | Every signed transfer has a spelling with the same message that the guest accepts and the host panics on |
| Calldata.HostReadsName | executor/host/src/main.rs:91-94 | The host reads a respelled address iff it is spelled without plus sign and without 0X |
| Calldata.ContractAcceptsIff | solidity/contracts/Rollup.sol:68-73 | The contract's checked 32-bit length test accepts n well-formed records iff 4 + 141n < 2^32 |
| Calldata.AcceptedIsEncoding | solidity/contracts/Rollup.sol:68-73 | Whatever the length test accepts is the encoding of the records read from it |
| Calldata.DecodeOfEncodeRecords | executor/host/src/main.rs:102-124 | Well-formed records are read back, all of them and in order |
| Calldata.EncodeOfDecodeRecords | executor/host/src/main.rs:102-124 | Any body of whole records is the encoding of what is read from it |
| Calldata.RecordWellFormed | executor/methods/guest/src/main.rs:82-85 | The host's strict reader agrees with the guest's lenient one on what both accept, so signatures have 65 bytes |
| RollupContract.Rollup.SubmitBatch | solidity/contracts/Rollup.sol:56-114 | Accepts iff the id is the next one, the data length is right and the verifier takes the seal, and says which check failed otherwise; appends the hash of old root, journal hash and id, keeps all earlier roots, stores an empty id list; a rejected batch changes nothing |
| RollupContract.HistoryIsProven | solidity/contracts/Rollup.sol:84-84 | No journal hash enters the history without a seal the verifier takes |
| RollupContract.RootPreimageLayout | solidity/contracts/Rollup.sol:99-99 | Old root, journal hash and batch id stand in this order in 68 bytes |
| RollupContract.CurrentRootIsLast | solidity/contracts/Rollup.sol:101-107 | In every valid state the current root is the root stored for the last batch, zero at the start |
| RollupContract.RootDeterminesHistory | solidity/contracts/Rollup.sol:97-107 | The current root alone determines the sequence of accepted journal hashes |
| RollupContract.RootPreimageInjective | solidity/contracts/Rollup.sol:99-99 | The packed preimage determines old root, journal hash and batch number |
| RollupContract.RootsMatchNext | solidity/contracts/Rollup.sol:101-107 | Appending a root keeps every stored root the root of its own history |
| Escrow.RunSolvent | solidity/contracts/Deposit.sol:61-129 | Over every run with nested calls, ether held is exactly what is owed and what was forced in without a call, and payouts are exactly the withdrawn deposits, once each, in full, to their users |
| Escrow.ExecKeeps | solidity/contracts/Deposit.sol:107-129 | Every call keeps solvency and history together with all calls nested in its payouts, whether it ends in success or revert |
| Escrow.PayoutKeeps | solidity/contracts/Deposit.sol:121-126 | The state in which the recipient gets control is already consistent, and the payout can be funded |
| Escrow.PaidAtMostOnce | solidity/contracts/Deposit.sol:107-129 | At the end of any run each payout is a different deposit, never a processed one, paid in full to the user who made it |
| Escrow.WithdrawSucceedsIff | solidity/contracts/Deposit.sol:107-129 | In every reachable state a forced withdrawal succeeds iff the deposit is pending, the caller made it, the timeout passed and the recipient accepts |
| Escrow.DepositCanBeReclaimed | solidity/contracts/Deposit.sol:61-129 | After a deposit and any later transactions its user can reclaim exactly the deposited amount from the timeout on, iff it is neither processed nor withdrawn |
| Escrow.ViewPredictsWithdrawal | solidity/contracts/Deposit.sol:163-173 | The view answers yes iff some caller's forced withdrawal would succeed |
| Escrow.MarkSucceedsIff | solidity/contracts/Deposit.sol:78-103 | Marking succeeds iff the rollup calls with distinct pending ids, and then marks exactly those |
| Escrow.IdsCheckMeansPending | solidity/contracts/Deposit.sol:83-88 | The first loop passes iff every id is that of a pending deposit |
| Escrow.PendingIdsExact | solidity/contracts/Deposit.sol:131-153 | The listing is strictly increasing and holds the pending deposits and nothing else |
| Escrow.DepositKeeps | solidity/contracts/Deposit.sol:61-74 | A deposit keeps solvency and history |
| Escrow.DepositSucceedsIff | solidity/contracts/Deposit.sol:61-74 | A deposit succeeds iff it brings ether and a number is free; it adds exactly one entry with sender, value and block and touches nothing else |
| Escrow.WithdrawEffect | solidity/contracts/Deposit.sol:107-129 | A forced withdrawal without nested calls changes this deposit's flag, the ether held and the payouts, nothing else; a refused one nothing |
| Escrow.WithdrawRefusedBecause | solidity/contracts/Deposit.sol:107-122 | Each reason of refusal holds exactly when its cause does |
| Escrow.UpdateSucceedsIff | solidity/contracts/Deposit.sol:177-184 | Deployer and current rollup, no one else, set the rollup address, and it becomes the given one |
| Escrow.RunLeavesAlone | solidity/contracts/Deposit.sol:61-184 | Over every run, nested calls included, only an update changes the rollup address and only the rollup marks deposits |
| Escrow.UpdateKeeps | solidity/contracts/Deposit.sol:175-184 | Changing the rollup address keeps solvency and history |
| DepositManagers.DepositManager.MakeDeposit | solidity/contracts/Deposit.sol:61-74 | The method takes the specified step: checks, counter, record, ether |
| DepositManagers.DepositManager.MarkDepositsProcessed | solidity/contracts/Deposit.sol:78-103 | The three loops come to the specified step with the first failing check as the reason |
| DepositManagers.DepositManager.WithdrawByForce | solidity/contracts/Deposit.sol:107-129 | Marks, pays, runs the nested calls and undoes everything if the payout is refused, as specified |
| DepositManagers.DepositManager.GetPendingDeposits | solidity/contracts/Deposit.sol:133-153 | Both passes agree and the result is the specified list; with the 64-bit counter full the listing reverts |
| DepositManagers.DepositManager.UpdateRollupContract | solidity/contracts/Deposit.sol:177-184 | Deployer or rollup may change the address, no one else |
| DepositManagers.FirstFailureDecides | solidity/contracts/Deposit.sol:83-88 | The first failing id decides the outcome of the whole list |
| BlockHash.HeadHashBinds | sequencer/src/BlockController.py:151-184 | Two chains of blocks of transfers from 20-byte addresses with equal head hashes have the same length, times and transaction bodies back to genesis |
| BlockHash.RollingHashBinds | sequencer/src/BlockController.py:168-184 | Equal rolling hashes mean equal bodies; a first turn and a later one cannot be confused |
| BlockHash.CreateRollingTransactionHash | sequencer/src/BlockController.py:168-184 | The loop computes the rolling hash; eight zero bytes for no transactions, failure if one cannot be hashed |
| BlockHash.TransactionBytesInjective | sequencer/src/BlockController.py:187-197 | A transfer's bytes determine its body when its sender has 20 bytes, whatever the receiver |
| BlockHash.SameBytesSameBodyIff | sequencer/src/BlockController.py:187-197 | Convertible transactions with the same hashed bytes have the same body iff their senders are equally long |
| BlockHash.UnequalAddressesAreAmbiguous | sequencer/src/BlockController.py:188-197 | Nothing checks the length: every transaction that can be hashed has another one, a byte moved from sender to receiver, with the same hash |
| BlockHash.BlockBytesInjective | sequencer/src/BlockController.py:154-162 | A block's bytes determine number, time, previous hash and rolling hash, empty block or not |
| BlockHash.BlockLayout | sequencer/src/BlockController.py:154-162 | Number and time little-endian in eight bytes each, then the previous hash, then the rolling hash |
| BlockHash.TransactionLayout | sequencer/src/BlockController.py:187-197 | Sender, receiver, then nonce, amount and time little-endian in eight bytes each |
| BlockHash.RollingNext | sequencer/src/BlockController.py:168-184 | Each turn hashes the result so far, or eight zero bytes, followed by the transaction's hash |
| BlockHash.ConvertsIff | sequencer/src/BlockController.py:187-197 | A transaction converts iff its addresses are hexadecimal and its numbers fit eight bytes |
| BlockHash.FromHexIsStrict | sequencer/src/utils.py:25-28 | Without white space the reader takes exactly the digit pairs |
| BlockHash.RollingIff | sequencer/src/BlockController.py:168-184 | A list of transactions has a rolling hash iff each of them can be hashed |
| BlockHash.DepositStopsBlock | sequencer/src/BlockController.py:151-197 | A block with a deposit among its transactions is never hashed, because a deposit has no nonce |
| BlockControllers.CurrentLeadsToGenesis | sequencer/src/BlockController.py:67-149 | Whatever failed so far and however often set-up ran, from the current badge prevBadge leads to a genesis with block numbers falling by exactly one |
| BlockControllers.TrailFalls | sequencer/src/BlockController.py:89-149 | The same from every stored badge, orphaned ones included |
| BlockControllers.StoredHashIsHeadHash | sequencer/src/BlockController.py:100-115 | Each stored block hash is the head hash of the blocks that lead to its badge |
| BlockControllers.StoredHashBinds | sequencer/src/BlockController.py:89-184 | Equal block hashes in two stores mean equal histories behind them |
| BlockControllers.BlockController.FormNewL2Block | sequencer/src/BlockController.py:89-126 | Stores at most one badge, on the current one, exactly when no step fails; keeps the store a chain under every pattern of failures |
| BlockControllers.BlockController.InsertNewBadge | sequencer/src/BlockController.py:79-86 | A failed insertion leaves store and current badge alone |
| BlockControllers.BlockController.IncrementBadgePointer | sequencer/src/BlockController.py:67-77 | Moves the current badge unless the update fails or there is no document to update |
| BlockControllers.FoundIsOnly | sequencer/src/BlockController.py:134-149 | In a sound store the badge found under an id is the only one with that id, so the lookup of the current badge is unambiguous |
| BlockControllers.BlockController.CreateBlockHash | sequencer/src/BlockController.py:151-165 | The hash text of number, time, previous hash and rolling hash, or nothing when a conversion raises |
| BlockControllers.BlockController.constructor | sequencer/src/SetupService.py:45-75 | The first start: genesis with number 0, the zero hash and previous badge 0; a pointer insertion whose failure goes unnoticed |
| BlockControllers.BlockController.SetUpAgain | sequencer/src/SetupService.py:45-80 | Every later start adds another genesis and keeps the store sound; the current badge stays, unless there was none |
| BlockControllers.LinkedNext | sequencer/src/BlockController.py:79-115 | A badge with a fresh id that is a genesis or formed on a stored badge extends a sound store, orphans and several geneses included |
| BlockControllers.BadgeOnIsFormed | sequencer/src/BlockController.py:100-115 | A new badge is linked to the one before by number, id and hash, and none is made over a deposit |
| BlockControllers.BadgeIsMadeIff | sequencer/src/BlockController.py:89-126 | A badge is made iff the block before has a readable hash, number and time fit eight bytes and every transaction can be hashed |
| BlockControllers.HashTextReadsBack | sequencer/src/utils.py:25-36 | A prefixed hash text reads back to the digest |
| ByteOrder.Reverse256Bytes | solidity/contracts/risc0/Util.sol:23-44 | Byte i of the result is byte 31 - i of the input, for all words and positions |
| ByteOrder.Reverse256Involution | solidity/contracts/risc0/Util.sol:23-44 | Reversing twice gives the word back |
| ByteOrder.Reverse32Bytes | solidity/contracts/risc0/Util.sol:50-58 | A reversed 32-bit word written big-endian is the word written little-endian, and reversing twice is nothing |
| ByteOrder.Reverse32Mirrors | solidity/contracts/risc0/Util.sol:50-58 | Byte i of the result is byte 3 - i of the input |
| ByteOrder.Reverse16Bytes | solidity/contracts/risc0/Util.sol:64-69 | The same for 16-bit words |
| StructHash.StructPreimageInjective | solidity/contracts/risc0/StructHash.sol:43-52 | A struct preimage can be read in one way only: tag, digests and data are determined |
| StructHash.StructLayout | solidity/contracts/risc0/StructHash.sol:43-52 | Tag, digests in order, data, and the number of digests little-endian in two bytes |
| StructHash.ListHashIs | solidity/contracts/risc0/StructHash.sol:54-69 | A list hashes tag, head, the hash of its tail and the number 2; the empty list is zero |
| StructHash.TaggedStructBinds | solidity/contracts/risc0/StructHash.sol:43-52 | Equal struct digests mean equal structs, unless these two preimages collide |
| StructHash.DownLenBytes | solidity/contracts/risc0/StructHash.sol:48-50 | The swapped 16-bit length is the length in little-endian bytes |
| StructHash.TaggedList | solidity/contracts/risc0/StructHash.sol:62-69 | The backwards loop computes the recursive cons hash |
| StructHash.ListHashBinds | solidity/contracts/risc0/StructHash.sol:54-69 | Equal list hashes mean equal lists, lengths included |
| ReceiptClaims.ClaimIsTaggedStruct | solidity/contracts/risc0/IRiscZeroVerifier.sol:84-100 | The hand-written claim digest hashes the bytes of the tagged struct |
| ReceiptClaims.StateIsTaggedStruct | solidity/contracts/risc0/IRiscZeroVerifier.sol:118-130 | The hand-written state digest hashes the bytes of the tagged struct |
| ReceiptClaims.OutputIsTaggedStruct | solidity/contracts/risc0/IRiscZeroVerifier.sol:180-191 | The hand-written output digest hashes the bytes of the tagged struct |
| ReceiptClaims.ClaimDigestBinds | solidity/contracts/risc0/IRiscZeroVerifier.sol:84-100 | A claim digest commits to every field, exit code included |
| ReceiptClaims.OkClaims | solidity/contracts/risc0/IRiscZeroVerifier.sol:74-82 | The claim of a successful run: image before, zero state after, no input, exit code halted written as eight zero bytes, output over the journal |
| ReceiptClaims.ExitCodeData | solidity/contracts/risc0/IRiscZeroVerifier.sol:84-100 | The exit code in eight bytes: 0, 1 or 2 for the system, then the user's byte, little-endian |
| ReceiptClaims.StateDigestBinds | solidity/contracts/risc0/IRiscZeroVerifier.sol:118-130 | A state digest commits to program counter and memory root |
| ReceiptClaims.OkDigestBinds | solidity/contracts/risc0/IRiscZeroVerifier.sol:74-82 | The digest of a successful run fixes program and journal |

## Left out

- SHA-256, Keccak, Blake2b, ECDSA recovery and the proof verifier: parameters, see the assumptions.
- The sparse Merkle tree crate, OpenZeppelin's contracts and RISC Zero's set verifier, router and emergency stop: not part of this model.
- Non-ASCII text, for which Rust panics when slicing inside a character and folds case by Unicode tables.
- Uniqueness of deposit ids within one guest batch: the guest does not check it; the escrow does.
- History.SupplyIsDeposits: asks for distinct keys in each batch, because without them a single successful batch refutes it (Listings.SharedKeyMakesAccount).
- History.AccountStatement: the same, for the same reason.
- History.NoTransferReplayed: asks for distinct keys in each batch, because without them it is false (Replays.SignedMessageReplayed).
- SingleUse.NoSignedMessageTwice: the same, for the same reason.
- Escrow: gas and event logs other than payouts.
- Escrow.Exec: the recipient's calls are a finite tree; a frame of several calls that reverts as a whole has no effect and is the tree without it.
- The sequencer's account change log, mempool selection and transaction validation; a block's selected transactions, their ids and the clock are parameters.
- BlockHash.Transaction: amounts are reals cut to whole units; not-a-number and infinite amounts, for which the conversion raises, are not modelled.
- The other fields of a badge (status, state root, execution cause): no property here depends on them.
- The host's comparison of the journal with the batch before it submits, and every network, file and database interface.
- Web server, event polling, front end, deployment and build scripts, and the second copies under `lib/`: nothing in them carries state that these properties depend on.
