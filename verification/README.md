# Namada ledger core in Dafny

This project models five parts of the Namada ledger and proves properties about them.

- **The versioned storage engine** (`storage.dfy`, module `Storage`). The engine behind
  `PersistentStorage` holds:
  - a live key-value subspace;
  - the mutations recorded at each block height;
  - a Merkle tree store per epoch, taken at the epoch's first committed height;
  - the tree committed at each height;
  - the block metadata that survives a restart.

  The model covers reads and writes with their gas, batches, the block lifecycle
  (begin, new epoch, commit), reopening, reads at a past height, Merkle tree
  restoration and the pruning of old tree stores. The Merkle root is an uninterpreted
  hasher passed as a parameter, so every statement about roots holds for any hash
  function.
- **The write log and prefix iteration** (`write_log.dfy`, module `WriteLog`). A
  `WlStorage` buffers a block's writes in front of the storage. Prefix iteration lists
  the pairs under a prefix in ascending key order, each with its gas.
- **The governance validity predicate** (`governance.dfy`, module `Governance`). These
  are the key-by-key rules a transaction's changes to governance storage must satisfy:
  - the proposal key set and counter;
  - content and code size;
  - start, end and activation epochs;
  - funds and the governance balance;
  - author, proposal type (PGF steward and payment actions), votes and parameter changes.
- **The IBC native validity predicate** (`ibc_vp.dfy`, module `IbcVp`). It replays the
  transaction and checks that the IBC keys it changed match the replay's changes and
  events. It also checks the denomination traces and the per-token mint and throughput
  limits.
- **IBC storage** (`ibc_storage.dfy`, module `IbcStorage`). The genesis counters, and the
  per-epoch reset of the deposit and withdraw throughputs.
- **MASP conversion bookkeeping** (`masp_conversions.dfy`, module `MaspConversions`):
  - the native-first ordering of reward keys (sorted by the source but not used afterwards);
  - the per-thread chunk sizes and their power-of-two rounding;
  - the position each asset receives as a leaf of the conversion tree;
  - the decoding entries added for the new epoch.

`common.dfy` (module `Common`) holds the shared vocabulary:
- `Option`, `Result` and `Outcome`;
- bytes;
- the lexicographic order on keys, and ascending listings.

Storage reads that the source performs through a context become explicit maps in the
model, one for the state before the transaction and one for the state after. Queries
into code outside this model are function-typed oracles in the context record. These
cover proof-of-stake, accounts, IBC action execution, message validation and hashing.

As in the source, the governance rules treat any change of a native-token balance,
whoever owns it, as a balance change. That change is checked against the governance
account's own balance.

## Model

| member | source | states |
|---|---|---|
| Storage.Apply | apps/src/lib/node/ledger/storage/mod.rs:95-115 | a key the diff touches reads as the diff's mutation (written value or absent); every other key reads as before |
| Storage.ApplyCompose | apps/src/lib/node/ledger/storage/mod.rs:402-443 | applying two diffs in turn is applying their union with the later one winning |
| Storage.StateAtIsLastMutation | apps/src/lib/node/ledger/storage/mod.rs:325-338 | the state at a height holds, for each key, the value of its last mutation at or below that height, or nothing |
| Storage.StateAtFrame | apps/src/lib/node/ledger/storage/mod.rs:325-338 | the state at a height depends only on the diffs at or below that height |
| Storage.StateAtQuiet | apps/src/lib/node/ledger/storage/mod.rs:343-361 | heights with no recorded mutation leave the state unchanged |
| Storage.ReplayFromState | apps/src/lib/node/ledger/storage/mod.rs:453-456 | replaying the diffs from a stored tree's height onto that tree yields the state at the target height |
| Storage.EpochOf | apps/src/lib/node/ledger/storage/mod.rs:407-414 | the epoch of a height is the last epoch that starts at or below it, so the height lies before the next epoch's start |
| Storage.EpochOfMonotone | apps/src/lib/node/ledger/storage/mod.rs:501-527 | a later height never falls in an earlier epoch |
| Storage.Open | apps/src/lib/node/ledger/storage/mod.rs:72-93 | opening starts at the genesis block: height 0, epoch 0 and no commit yet, over the given byte store and height limit; reads see the byte store's subspace |
| Storage.HasKey | apps/src/lib/node/ledger/storage/mod.rs:86-100 | true exactly when the key holds a value; costs the key's length in gas |
| Storage.Read | apps/src/lib/node/ledger/storage/mod.rs:90-106 | returns the stored value, or none; costs the key's length plus the value's length |
| Storage.ApplyBlockDiff | apps/src/lib/node/ledger/storage/mod.rs:94-115 | the subspace and tree take the mutations; the current height's diff grows by them; other heights, the committed trees, stores and metadata are untouched |
| Storage.Write | apps/src/lib/node/ledger/storage/mod.rs:94-95 | a write charges the key's length plus the value's length |
| Storage.Delete | apps/src/lib/node/ledger/storage/mod.rs:108-109 | a delete charges the key's length |
| Storage.WriteThenRead | apps/src/lib/node/ledger/storage/mod.rs:94-106 | after a write the key exists and reads back the value at full gas; other keys read as before |
| Storage.DeleteThenRead | apps/src/lib/node/ledger/storage/mod.rs:108-115 | after a delete the key is absent and reads as none; other keys read as before |
| Storage.Collapse | apps/src/lib/node/ledger/storage/mod.rs:403-443 | a batch collapses to a diff over exactly the keys it mentions |
| Storage.BatchWrite | apps/src/lib/node/ledger/storage/mod.rs:436-441 | staging a write makes the batch's diff map the key to that value, overriding earlier staging of the key, and keeps every other key's staged mutation |
| Storage.BatchDelete | apps/src/lib/node/ledger/storage/mod.rs:432 | staging a delete makes the batch's diff map the key to a removal, overriding earlier staging of the key, and keeps every other key's staged mutation |
| Storage.ExecBatch | apps/src/lib/node/ledger/storage/mod.rs:403-443 | after executing a batch, each key it mentions reads as its last staged write (or as absent after a delete), every other key as before; the block, last height and committed trees are unchanged |
| Storage.ApplyOpsLast | apps/src/lib/node/ledger/storage/mod.rs:431-443 | executing a batch is executing all but its last operation, then the last one |
| Storage.ApplyBlockDiffTwice | apps/src/lib/node/ledger/storage/mod.rs:402-443 | two diffs applied in one block equal their union applied once |
| Storage.ExecBatchIsDirect | apps/src/lib/node/ledger/storage/mod.rs:431-443 | executing a batch in one step equals performing its writes and deletes one by one |
| Storage.BeginBlock | apps/src/lib/node/ledger/storage/mod.rs:129-131 | sets the block's height and hash and leaves the store, tree and last height alone |
| Storage.NewEpoch | apps/src/lib/node/ledger/storage/mod.rs:407-414 | the current epoch becomes the next one, starting at the current height; nothing else changes |
| Storage.Prune | apps/src/lib/node/ledger/storage/mod.rs:480-538 | without a limit, or below it, nothing is dropped; above it, exactly the stores of epochs before the epoch of height − limit are dropped; kept stores are unchanged |
| Storage.CommitBlock | apps/src/lib/node/ledger/storage/mod.rs:136-166 | records the tree committed at the height and the block metadata, sets the last height, leaves the subspace and diffs alone |
| Storage.LoadLastState | apps/src/lib/node/ledger/storage/mod.rs:148-166 | with saved metadata, the block, last height and tree become those the last commit saved; without, nothing changes; the byte store and limit are untouched |
| Storage.GetState | apps/src/lib/node/ledger/storage/mod.rs:159-162 | there is a state exactly when a commit saved metadata, and then it is the root of the tree and the last committed height |
| Storage.CommitReopenRoundTrip | apps/src/lib/node/ledger/storage/mod.rs:136-166 | committing, reopening the byte store and loading the last state restores the whole in-memory state, so the root and height read back as committed |
| Storage.OpenEmptyValid | apps/src/lib/node/ledger/storage/mod.rs:72-80 | a freshly opened empty store satisfies the storage invariant |
| Storage.ApplyBlockDiffCurrent | apps/src/lib/node/ledger/storage/mod.rs:94-115 | after applying a diff, the live subspace is still the replay of all diffs up to the current height |
| Storage.ApplyBlockDiffEarlier | apps/src/lib/node/ledger/storage/mod.rs:325-338 | applying a diff in the current block leaves the state at every earlier height unchanged |
| Storage.ApplyBlockDiffValid | apps/src/lib/node/ledger/storage/mod.rs:94-115 | applying a diff to an uncommitted block keeps the storage invariant |
| Storage.WriteValid | apps/src/lib/node/ledger/storage/mod.rs:94-95 | a write keeps the storage invariant |
| Storage.DeleteValid | apps/src/lib/node/ledger/storage/mod.rs:108-109 | a delete keeps the storage invariant |
| Storage.ExecBatchValid | apps/src/lib/node/ledger/storage/mod.rs:403-443 | executing a batch keeps the storage invariant |
| Storage.BeginBlockValid | apps/src/lib/node/ledger/storage/mod.rs:305-307 | beginning a block at the same or a higher height keeps the invariant, and a higher height is not yet committed |
| Storage.NewEpochValid | apps/src/lib/node/ledger/storage/mod.rs:407-414 | starting an epoch above the previous epoch's start, in a block not committed yet, keeps the invariant |
| Storage.CommitBlockValid | apps/src/lib/node/ledger/storage/mod.rs:415-446 | committing keeps the invariant: committed trees and tree stores are the replay of the diffs up to their heights, and the store of every committed height's epoch was taken at or below it and is kept unless the epoch lies before the pruning horizon |
| Storage.CommitBlockWellKept | apps/src/lib/node/ledger/storage/mod.rs:415-446 | committing keeps the bookkeeping whatever the block recorded: no store before the new horizon is kept, and every committed height of a later epoch is covered by its epoch's store |
| Storage.ApplyThenCommitValid | apps/src/lib/node/ledger/storage/mod.rs:617-634 | writing into the current block and committing keeps the invariant, also when the block was committed before and opens its epoch |
| Storage.ReadWithHeight | apps/src/lib/node/ledger/storage/mod.rs:326-361 | the gas is the key's length plus the found value's length; from the last committed height on it is the current read |
| Storage.ReadWithHeightHistory | apps/src/lib/node/ledger/storage/mod.rs:325-361 | a read at a height returns the value of the key's last mutation at or below it; from the last committed height on it is the current read |
| Storage.ReadWithHeightAtWrite | apps/src/lib/node/ledger/storage/mod.rs:325-338 | a read at the height of a write or delete returns that write's value, or none |
| Storage.GetMerkleTree | apps/src/lib/node/ledger/storage/mod.rs:519-537 | a height above the last commit is a not-yet-committed error; a tree is restored only from the store of the height's epoch taken at or below that height; every error names the height asked for |
| Storage.CommittedTreeRestores | apps/src/lib/node/ledger/storage/mod.rs:451-456 | the tree of a committed height can be restored exactly when its epoch lies at or after the pruning horizon, so always without a height limit, and it is the tree committed at that height |
| Storage.PrunedTreeGone | apps/src/lib/node/ledger/storage/mod.rs:529-534 | no tree of an epoch before the pruning horizon can be restored |
| Storage.GetMerkleTreeRestores | apps/src/lib/node/ledger/storage/mod.rs:453-474 | a restored tree is the state at that height, holds a key exactly when its last mutation wrote it, and has the root recorded at commit |
| Storage.CommitPrunesOldEpochs | apps/src/lib/node/ledger/storage/mod.rs:529-537 | above the limit, after a commit the tree of a height in an epoch before that of height − limit cannot be restored, while every committed height of a later epoch can |
| Storage.ScenarioEpochs | apps/src/lib/node/ledger/storage/mod.rs:501-527 | with epochs starting at heights 1, 6 and 11, heights 1 and 5 are in epoch 1 and height 6 in epoch 2 |
| Storage.ScenarioFirstCommit | apps/src/lib/node/ledger/storage/mod.rs:491-503 | the first commit at height 1 writes the store of epoch 1 |
| Storage.ScenarioSecondCommit | apps/src/lib/node/ledger/storage/mod.rs:505-520 | the commit at height 6 adds the store of epoch 2, and the tree at height 1 can still be restored |
| Storage.PruneScenarioFirstCommits | apps/src/lib/node/ledger/storage/mod.rs:491-520 | the first two commits of the pruning scenario leave the tree at height 1 restorable |
| Storage.PruneScenarioThirdCommit | apps/src/lib/node/ledger/storage/mod.rs:522-537 | after the commit at height 11 the trees at heights 1 and 5 cannot be restored, while height 6 can |
| Storage.PruneScenario | apps/src/lib/node/ledger/storage/mod.rs:480-538 | the full pruning scenario with a limit of 5 heights |
| WriteLog.IterPrefix | apps/src/lib/node/ledger/storage/mod.rs:199-211 | lists exactly the pairs under the prefix, in strictly ascending key order, each charging key plus value length; the iteration charges the prefix length |
| WriteLog.PartialListingStep | apps/src/lib/node/ledger/storage/mod.rs:575-580 | appending the least remaining key keeps the listing ascending and complete |
| WriteLog.ListingCoverStep | apps/src/lib/node/ledger/storage/mod.rs:575-580 | moving a key from the remaining set to the listing keeps every key under the prefix covered |
| WriteLog.PrefixListingUnique | apps/src/lib/node/ledger/storage/mod.rs:575-589 | two states that agree under a prefix list the same items in the same order |
| WriteLog.WlRead | apps/src/lib/node/ledger/storage/mod.rs:552-580 | a read through the write log sees the pending write or delete, else the storage |
| WriteLog.WlWrite | apps/src/lib/node/ledger/storage/mod.rs:562-568 | a write goes to the log only and charges key plus value length |
| WriteLog.WlDelete | apps/src/lib/node/ledger/storage/mod.rs:616-621 | a delete goes to the log only and charges the key length |
| WriteLog.WlWriteDeleteThenRead | apps/src/lib/node/ledger/storage/mod.rs:596-631 | a logged write reads back at once, a logged delete reads as absent, other keys read as before |
| WriteLog.WlCommitBlock | apps/src/lib/node/ledger/storage/mod.rs:582-583 | a commit empties the log and makes the current height the last committed one |
| WriteLog.CommitPreservesView | apps/src/lib/node/ledger/storage/mod.rs:582-589 | committing changes nothing a reader sees |
| WriteLog.CommitKeepsValid | apps/src/lib/node/ledger/storage/mod.rs:582-634 | committing keeps the storage invariant for a block not committed before, and for a block committed again that opens its epoch with no other epoch's store taken at its height |
| WriteLog.GenesisCommittedTwice | apps/src/lib/node/ledger/storage/mod.rs:582-634 | committing the genesis block, writing and deleting, and committing it again without beginning a block keeps the invariant |
| WriteLog.IterPrefixStableAcrossCommit | apps/src/lib/node/ledger/storage/mod.rs:582-589 | prefix iteration yields the same items before and after a commit |
| WriteLog.IterPrefixOmitsDeleted | apps/src/lib/node/ledger/storage/mod.rs:616-631 | a deleted key no longer appears in a prefix iteration; every listed pair is still what a read returns |
| Governance.ForceRead | crates/namada/src/ledger/governance/mod.rs:726-740 | succeeds exactly when the key is present, returning what it decodes to; a missing key is an empty-field error |
| Governance.ReadU64 | crates/namada/src/ledger/governance/mod.rs:726-740 | succeeds exactly when the key holds a u64; a present value of another kind is a decoding error, a missing key an empty-field error |
| Governance.ReadAmount | crates/namada/src/ledger/governance/mod.rs:726-740 | succeeds exactly when the key holds an amount |
| Governance.ReadOptAmount | crates/namada/src/ledger/governance/mod.rs:629-650 | a missing key reads as none; a present key must hold an amount |
| Governance.ReadAddress | crates/namada/src/ledger/governance/mod.rs:726-740 | succeeds exactly when the key holds an address |
| Governance.ReadType | crates/namada/src/ledger/governance/mod.rs:726-740 | succeeds exactly when the key holds a proposal type |
| Governance.AllMandatoryPresent | crates/namada/src/ledger/governance/mod.rs:149-174 | true exactly when every new proposal id has all its mandatory keys |
| Governance.IsValidInitProposalKeySet | crates/namada/src/ledger/governance/mod.rs:140-175 | fails exactly when a counter is unreadable; accepts exactly when every id between the two counters has its mandatory keys, and reports the counter step |
| Governance.IsValidCounter | crates/namada/src/ledger/governance/mod.rs:673-680 | accepts exactly when the post counter is the pre counter plus the number of new proposals |
| Governance.IsValidProposalCommit | crates/namada/src/ledger/governance/mod.rs:683-693 | accepts exactly when the counter grew |
| Governance.KeySetAgreesWithCounter | crates/namada/src/ledger/governance/mod.rs:140-175 | the counter step the key-set check reports always passes the counter check, and a commit is accepted exactly when that step is positive |
| Governance.IsValidStartEpoch | crates/namada/src/ledger/governance/mod.rs:523-552 | accepts exactly when both epochs are new, current < start < end and end − start is a positive multiple of the minimum voting period; a zero minimum period is an error |
| Governance.IsValidEndEpoch | crates/namada/src/ledger/governance/mod.rs:555-593 | accepts exactly when the start-epoch rule holds and the voting period is at most the maximum proposal period |
| Governance.EndEpochImpliesStartEpoch | crates/namada/src/ledger/governance/mod.rs:523-593 | an accepted end epoch implies an accepted start epoch |
| Governance.IsValidActivationEpoch | crates/namada/src/ledger/governance/mod.rs:459-520 | accepts exactly when the activation epoch is new, committed, at least the minimum grace after the end, and within the maximum proposal period after the start |
| Governance.ProposalTimeline | crates/namada/src/ledger/governance/mod.rs:459-593 | accepted start, end and activation epochs are ordered current < start < end < activation, with both periods within the maximum proposal period |
| Governance.FundingsPartition | crates/namada/src/ledger/governance/mod.rs:376-426 | every funding action is exactly one of: continuous add, continuous remove, retro |
| Governance.PaymentRule | crates/namada/src/ledger/governance/mod.rs:376-426 | a payment proposal is valid exactly when it has fewer than the maximum actions and no target is both added and removed |
| Governance.IsValidProposalType | crates/namada/src/ledger/governance/mod.rs:326-429 | a default proposal passes; a payment passes exactly under the payment rule; a steward proposal adding more than one steward fails |
| Governance.StewardRule | crates/namada/src/ledger/governance/mod.rs:332-375 | a steward proposal with no addition passes exactly under the action limit; one addition needs a readable author who is the added steward |
| Governance.IsValidContentKey | crates/namada/src/ledger/governance/mod.rs:300-323 | accepts exactly when the content is new and no longer than the maximum content size |
| Governance.IsValidProposalCode | crates/namada/src/ledger/governance/mod.rs:432-456 | accepts exactly when the proposal is a default proposal with new code no longer than the maximum code size |
| Governance.CodeImpliesType | crates/namada/src/ledger/governance/mod.rs:432-456 | accepted code implies an accepted proposal type |
| Governance.IsValidFunds | crates/namada/src/ledger/governance/mod.rs:596-626 | reads succeed exactly when funds, minimum funds and the post balance are amounts and the pre balance is absent or an amount |
| Governance.FundsAreDeposit | crates/namada/src/ledger/governance/mod.rs:596-626 | funds are accepted exactly when the balance grew by exactly the funds and the funds reach the minimum |
| Governance.IsValidBalance | crates/namada/src/ledger/governance/mod.rs:629-650 | reads succeed exactly when the minimum funds and the post balance are amounts and the pre balance is absent or an amount; then the balance is accepted exactly when it rose above a present old balance and by at least the minimum funds, counting an absent old balance as zero |
| Governance.FundsImplyBalance | crates/namada/src/ledger/governance/mod.rs:596-650 | with a positive minimum, accepted funds imply an accepted balance change |
| Governance.IsValidAuthor | crates/namada/src/ledger/governance/mod.rs:653-670 | accepts exactly when the author is new, its account exists, and it signed the transaction |
| Governance.IsValidParameter | crates/namada/src/ledger/governance/mod.rs:696-702 | no transaction data rejects; otherwise accepts exactly when the proposal is an accepted one |
| Governance.IsValidVotingWindow | crates/namada/src/ledger/governance/mod.rs:742-758 | a delegator may vote exactly from start to end; a validator by the proof-of-stake voting window |
| Governance.IsValidVoteKey | crates/namada/src/ledger/governance/mod.rs:177-297 | a vote key without both addresses is an error; an accepted vote is on an existing proposal, is stored, comes with a vote for every validator the voter delegates to, lies inside the voting window, and is signed by a validator voting as itself or by a delegator |
| Governance.VoteOutsideWindowRejected | crates/namada/src/ledger/governance/mod.rs:177-297 | a vote outside the voting window is never accepted |
| Governance.KeyTypeOf | crates/namada/src/ledger/governance/mod.rs:814-848 | a key is a balance change exactly when it is a native-token balance key; unknown exactly when it is outside governance or a non-native balance; an unknown governance key exactly when it is no other governance key; votes and the counter are recognised exactly |
| Governance.ProposalKeysHaveIds | crates/namada/src/ledger/governance/mod.rs:814-848 | every proposal-specific key type carries its proposal id |
| Governance.ValidateKey | crates/namada/src/ledger/governance/mod.rs:72-131 | a key outside governance passes; an unknown governance key fails |
| Governance.ValidateTx | crates/namada/src/ledger/governance/mod.rs:66-132 | fails exactly when the key-set check fails; accepts exactly when the key set is valid and every changed key passes its rule |
| Governance.ValidateTxRejectsOnAnyKey | crates/namada/src/ledger/governance/mod.rs:72-131 | one rejected key rejects the whole transaction, and that key was a governance key |
| IbcVp.MatchValue | crates/namada/src/ledger/native_vp/ibc/mod.rs:286-312 | passes exactly when a present value is what the replay wrote, or an absent value is what the replay deleted; a present value against a different written value is the mismatched-value error, a present value against no write the invalid-value error, and an absent value against no delete the unexpected-deletion error |
| IbcVp.ChangedIbcKeys | crates/namada/src/ledger/native_vp/ibc/mod.rs:108-126 | the changed keys that are IBC keys, and only those |
| IbcVp.ValidateState | crates/namada/src/ledger/native_vp/ibc/mod.rs:108-156 | passes exactly when the replay succeeds, changes exactly the changed IBC keys with matching values, and emits the same events; a failed replay is its own error, and after a successful replay a failure is a key-count mismatch, a bad value of a changed IBC key, or an event mismatch |
| IbcVp.StateMatchesIsExecution | crates/namada/src/ledger/native_vp/ibc/mod.rs:127-153 | a matching state has the changed IBC keys equal to the replay's changes, with every write present and every delete absent |
| IbcVp.CheckTrace | crates/namada/src/ledger/native_vp/ibc/mod.rs:197-226 | a trace key passes exactly when it stores a trace whose hash is the key's hash; an absent trace is its own error |
| IbcVp.ValidateTrace | crates/namada/src/ledger/native_vp/ibc/mod.rs:197-226 | passes exactly when every changed trace key passes; a failure names a changed trace key and its reason |
| IbcVp.Throughput | crates/namada/src/ledger/native_vp/ibc/mod.rs:252-280 | the throughput is the absolute difference of deposit and withdraw |
| IbcVp.ThroughputSymmetric | crates/namada/src/ledger/native_vp/ibc/mod.rs:252-280 | throughput is symmetric, and zero exactly when deposit equals withdraw |
| IbcVp.CheckToken | crates/namada/src/ledger/native_vp/ibc/mod.rs:228-283 | a token passes exactly when it has limits, its reads succeed, its minted amount is within the mint limit and its throughput within the throughput limit |
| IbcVp.CheckLimits | crates/namada/src/ledger/native_vp/ibc/mod.rs:228-283 | accepts exactly when every changed token passes; an error is the failure of some changed token |
| IbcVp.ValidateTx | crates/namada/src/ledger/native_vp/ibc/mod.rs:77-99 | accepts exactly when there is transaction data, the state matches, the message validates, traces are valid and limits hold; the first failing stage's error is returned: missing data, a failed replay's action error, a state-change or event error, the message's error, the failing trace key's error, then a failing token's limit error |
| IbcStorage.InitGenesisStorage | crates/namada/src/ledger/ibc/mod.rs:14-41 | the client, connection and channel counters read as the encoded u64 zero; nothing else changes, and the storage behind the log is untouched |
| IbcStorage.ClearedGet | crates/namada/src/ledger/ibc/mod.rs:44-64 | after the reset a present throughput key reads zero; any other key reads as before |
| IbcStorage.WriteZeros | crates/namada/src/ledger/ibc/mod.rs:58-60 | after writing zero to the key of every listed entry, exactly those keys read as zero, every other key reads as before, and the storage behind the log is untouched |
| IbcStorage.ClearPrefix | crates/namada/src/ledger/ibc/mod.rs:51-61 | every present key under the prefix reads as zero; every other key reads as before |
| IbcStorage.ClearThroughputs | crates/namada/src/ledger/ibc/mod.rs:44-64 | the view after the reset is the reference reset of the view before; the storage behind the log is untouched |
| IbcStorage.ClearedSpec | crates/namada/src/ledger/ibc/mod.rs:44-64 | the reset keeps the key set, zeroes exactly the throughput keys, and is idempotent |
| IbcStorage.PrefixesDisjoint | crates/namada/src/ledger/ibc/mod.rs:51-61 | no key is both a deposit and a withdraw key |
| IbcStorage.CountersSurviveClearing | crates/namada/src/ledger/ibc/mod.rs:14-64 | the genesis counters are not throughput keys, so the reset leaves them as they are |
| MaspConversions.NotesPerThreadMax | core/src/ledger/storage/masp_conversions.rs:403-404 | defined exactly when there is an asset, and then the ceiling of assets per thread |
| MaspConversions.NotesPerThreadMin | core/src/ledger/storage/masp_conversions.rs:405-406 | the floor of assets per thread |
| MaspConversions.ChunkBounds | core/src/ledger/storage/masp_conversions.rs:403-411 | min ≤ max ≤ min + 1, with equality exactly when the threads divide the asset count |
| MaspConversions.RoundChunk | core/src/ledger/storage/masp_conversions.rs:433-436 | the result is a power of two at least a quarter of the maximum, and either 1 or less than half of it |
| MaspConversions.PowerOfTwoDoubles | core/src/ledger/storage/masp_conversions.rs:433-436 | of two distinct powers of two, the larger is at least twice the smaller |
| MaspConversions.RoundedChunkUnique | core/src/ledger/storage/masp_conversions.rs:433-436 | the rounding condition has exactly one solution |
| MaspConversions.CompareNativeFirst | core/src/ledger/storage/masp_conversions.rs:216-224 | less exactly when only the first key is native, greater exactly when only the second is, equal exactly when both lie in the same class |
| MaspConversions.ComparatorIsPreorder | core/src/ledger/storage/masp_conversions.rs:216-224 | the comparator is antisymmetric, ties tokens of the same class, puts native before non-native, and is transitive |
| MaspConversions.SortedPutsNativeFirst | core/src/ledger/storage/masp_conversions.rs:214-224 | in a sorted list no non-native key precedes a native one |
| MaspConversions.ClassesPartition | core/src/ledger/storage/masp_conversions.rs:216-224 | the native and non-native keys together are the whole list, as a multiset |
| MaspConversions.NativeFirst | core/src/ledger/storage/masp_conversions.rs:213-224 | the sorted list is a permutation of the input and sorted by the comparator |
| MaspConversions.RankIsIndex | core/src/ledger/storage/masp_conversions.rs:396-417 | an asset's rank is below the asset count, ranks respect the key order, and distinct assets have distinct ranks |
| MaspConversions.SmallerThanLeast | core/src/ledger/storage/masp_conversions.rs:396-402 | when enumerating in order, the assets smaller than the next one are exactly those already enumerated |
| MaspConversions.EnumerateStep | core/src/ledger/storage/masp_conversions.rs:396-402 | giving the next asset the number of assets already enumerated keeps the enumeration invariant |
| MaspConversions.EntriesStep | core/src/ledger/storage/masp_conversions.rs:412-417 | setting one more asset's position to its rank keeps every position equal to its rank |
| MaspConversions.AssignPositions | core/src/ledger/storage/masp_conversions.rs:396-417 | every asset keeps its entry except its position, which becomes its index in key order |
| MaspConversions.InsertKeySpec | core/src/ledger/storage/masp_conversions.rs:450-469 | inserting a reward key adds an entry for each denomination at the epoch and position, and changes no other asset |
| MaspConversions.InsertKeyDecodes | core/src/ledger/storage/masp_conversions.rs:450-469 | with an injective encoding, each inserted asset decodes to its token, denomination, epoch and position |
| MaspConversions.InsertEntries | core/src/ledger/storage/masp_conversions.rs:450-469 | the result holds exactly the old assets and the encoded assets of the keys; the encoded ones carry the epoch and position; others are unchanged |
| MaspConversions.NotEncodedByOther | core/src/ledger/storage/masp_conversions.rs:489-508 | with an injective encoding, a key's asset is never one of another key's assets |
| MaspConversions.InsertedEntriesDecode | core/src/ledger/storage/masp_conversions.rs:450-469 | with an injective encoding, every inserted entry is exactly the token, denomination, epoch and position it was inserted for |
| MaspConversions.UpdatePositions | core/src/ledger/storage/masp_conversions.rs:380-469 | the tree size is the number of assets after adding the old-epoch entries; new-epoch entries sit at the tree size; every other entry is its entry after that step with the position set to its rank in asset order, below the tree size |

## Left out

- The Merkle tree's hash (BLAKE2b with the "namada storage" personalisation, over a sparse Merkle tree) is an uninterpreted hasher parameter. Only equality of roots is stated.
- The storage implementation itself is not part of this model; the storage module is written from the behaviour its tests exercise. Two rules are reconstructed from that behaviour:
  - When a commit writes a full tree store: the epoch has no store yet, or the height is the epoch's first height.
  - The pruning rule: drop the stores of epochs before the epoch of height − limit.
- RocksDB, file paths, closing and reopening are a byte store value (`Db`) passed to `Open`.
- The commit test refers to a `wl_storage` that it never defines (lines 143-146). The model reads the root and hash from the storage that was committed.
- The keys of the prefix-iteration test are i32 segments, which sort by number. The model's keys are strings in lexicographic order.
- The write log's transaction-level commit and rollback are not modelled. Only the block-level log is.
- IBC message handling, its encoding and its events are oracles in the context:
  - executing an IBC action;
  - validating a message;
  - computing a trace hash.
- The IBC key strings of the VP are abstract key constructors.
- Proof-of-stake queries (validator status, delegations, the validator voting window) and account existence are oracles.
- MASP is modelled only in part. The following are left out:
  - the reward and inflation computation;
  - adding the current conversion to each asset's conversion;
  - note commitments;
  - `mint_tokens`;
  - the diagnostic printing.
- The MASP conversion tree is not modelled. Its size is taken as the number of asset entries, one leaf per asset.
- Parallelism (rayon) is left out. The thread count is a parameter of at least 1, which is what rayon guarantees.
- `u64`, `usize` and gas widths are unbounded: overflow is not modelled.
- Storage write errors and the gas the VPs charge are left out.
- `wasm/wasm_source/src/tx_bond.rs` is context only and is not modelled.
- Values are abstract:
  - The u64 zero written at genesis is its Borsh encoding, eight zero bytes.
  - The zero amount of the throughput reset is thirty-two zero bytes.
- In the start and end epoch checks, `x % 0` panics in the source when the minimum voting period is zero. The model returns `Err(DivisionByZero)` instead.
- Lower-casing of PGF targets is modelled for ASCII letters only.
- Steward and funding sets are sequences in the model.
- With no assets, `assets.len() - 1` underflows `usize` and panics in the source. `MaspConversions.NotesPerThreadMax` returns none instead.
- Governance.IsValidVoteKey: states only what an accepted vote implies, not the converse.
- Governance.IsValidProposalType: for steward proposals states the rule only for zero or one addition (through `Governance.StewardRule`) and for more than one.
- Governance.ValidateKey: states the outcome only for keys outside governance and unknown governance keys. The per-key rules are stated on the members above.
- IbcVp.ValidateState: the source iterates a hash set. The model's iteration order is unspecified, so when several keys mismatch, which mismatch is reported is not determined.
- IbcVp.ValidateTrace: states that the reported failure is that of some failing trace key, not the first in key order.
- IbcVp.CheckLimits: states that the reported error is that of some failing token, not the first in token order.
- MaspConversions.NativeFirst: the source's sort is unstable. The model produces one of its admissible outputs: the native keys first, each class in its original order.
- MaspConversions.UpdatePositions: for the new epoch's entries states the epoch and the position only. Their token and denomination are stated, for an injective encoding, by `MaspConversions.InsertedEntriesDecode`.
- The sorted reward keys are never used. `core/src/ledger/storage/masp_conversions.rs` sorts `masp_reward_keys` native first (lines 213-224), and the comment at lines 214-215 says later computations depend on that order. But both loops iterate `masp_rewards.keys()` instead (lines 238 and 450), so the order has no effect. The model proves the ordering of the sorted list, and `MaspConversions.UpdatePositions` takes the reward keys in any order, as the source's loops do.
- WriteLog.CommitKeepsValid: covers committing a block again only when the block opens its epoch and no other epoch's store was taken at its height. This is the case of the genesis block committed twice in the prefix-iteration test.
- The IBC storage keys are placeholders. The client, connection and channel counter keys and the deposit and withdraw prefixes stand for the key builders of `namada_ibc::storage`, which are not part of this model. `IbcStorage.PrefixesDisjoint` and `IbcStorage.CountersSurviveClearing` depend on these strings. The trailing `/` of each prefix models matching by whole key segment.
