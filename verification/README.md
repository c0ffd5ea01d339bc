# Verified model of assertoor's coordinator

Assertoor runs tests against Ethereum networks. This project models the parts of its coordinator
that carry invariants and proves them in Dafny:

- **Block tree** (`BlockTree`, `BlockCaching`): cached blocks in two indexes, eviction, ancestry queries.
- **Forks and clients** (`ConsensusPool`): client heads grouped into forks, ready clients, the
  canonical fork, round robin selection.
- **Reorgs** (`Reorg`): the distance reported for a chain reorganisation.
- **Attestation statistics** (`AttestationVotes`, `CommitteeDuties`, `AttestationTask`): votes counted
  along every chain of a forking block tree in one pass; `VoteLaws`: what they mean, by block, attestation
  and bit; `ElectraBits`: the two readings of the bits.
- **Wallet** (`WalletModel`, `Wallets`): nonces, waiters and balances.
- **Tasks** (`TaskForest`, `TaskScheduling`, `TaskResults`): the task forest and its display order, live
  and from the database, and the result notification protocol.
- **Test queue** (`TestRunning`): schedulers, the executor loop, its semaphore and notification channel.
- **Variables** (`Variables`, `ScopeLaws`, `VariableScopes`): lookup and the flattened map, against each
  other and by position in the chain; nested scopes and sub-scopes.
- **Log buffer** (`LogBuffers`).

`Sorting` and `Arithmetic` hold shared helpers. `dafny verify dfyconfig.toml` checks everything.

Protocols are state machines: a step function over a state value (`Apply`), invariants of every step and
of every run (`Exec`), and classes whose methods take exactly these steps.

## Assumptions

- A mutex section is one atomic step, except that a transaction build is two, around its build function,
  with any other step but a build in between. The wallet guards its pending and confirmed fields with
  different mutexes, and the update channel of a task result is created under a read lock; the model takes
  these steps as exclusive.
- A cached parent has a smaller slot than its child (section "Block header" of the phase 0 consensus
  specification). Slots fit the signed 64 bit field that stores the largest one.
- Grouping heads, searching a reorg and aggregating votes each read one snapshot of heads, client status
  and cache.
- A transaction is a nonce, a value and a hash; a receipt is a hash, a gas price and an amount of gas.
  Requests to clients and the database may fail; their outcome is a parameter. Clients list the receipts
  of a block in the order of its transactions (used by `WalletModel.OutcomeIsTrue` only).
- A sort may return any permutation that is sorted by its comparator.

## Where the code differs from what one may expect

- The reorg search starts at the parent of the old head, so a new head that descends from the old one is
  reported two blocks too far away (`Reorg.ReportedIsPathLength`, `Reorg.ForwardMoveReportedTooFar`).
- For Electra attestations the accumulated bit offset is not used (`ElectraBits.ElectraVotersIff`,
  `ElectraBits.ElectraChainIff`, `ElectraBits.ElectraOverlap`). The offset is a parameter of the model; the
  other vote properties hold for both readings.
- The variable lookup never asks the defaults of a scope with a parent, the flattened map does
  (`Variables.AgreementIff`).
- The status of a task with an id has no parent scope, so the tasks scopes of nested scopes mirror each other
  as a whole but not under task ids (`VariableScopes.RegisterTask`, `VariableScopes.TaskScopes`).
- Client indexes have 16 bits; after 65536 endpoints they are no longer ascending
  (`ConsensusPool.Pool.AddEndpoint`).
- The wallet balances drift when a receipt is missing, an inclusion was missed or a nonce is reused
  (`WalletModel.MissingReceiptDrifts`, `WalletModel.MissedOrReusedDrifts`); `WalletModel.StepBalance` gives
  the exact condition.
- There is one wallet object per address (pkg/coordinator/wallet/manager.go:56-63), and a set-code
  transaction draws the nonces of its authorizations inside its own build function. When the sender signs
  an authorization, both carry the same nonce (`Wallets.Wallet.BuildSetCode`, `WalletModel.TakenTwiceIff`).

## Model

| member | source | states |
|---|---|---|
| BlockTree.LinkedTransitive | pkg/coordinator/clients/consensus/blockcache.go:390-428 | ancestry of cached blocks is transitive |
| BlockTree.LinkedComparable | pkg/coordinator/clients/consensus/blockcache.go:390-428 | two ancestors of one block lie on one chain |
| BlockTree.LinkedAntisymmetric | pkg/coordinator/clients/consensus/blockcache.go:390-428 | two blocks that are ancestors of each other are equal |
| BlockTree.DistanceUnique | pkg/coordinator/clients/consensus/blockcache.go:409-425 | a cached block is met at one distance only |
| BlockTree.PathLengthUnique | pkg/coordinator/tasks/check_consensus_reorgs/task.go:151-178 | every simple path between two blocks has the length given by their nearest common ancestor |
| BlockTree.PathExists | pkg/coordinator/tasks/check_consensus_reorgs/task.go:151-178 | such a path exists |
| BlockCaching.NewBlockCache | pkg/coordinator/clients/consensus/blockcache.go:53-79 | an empty, consistent cache, or none for a follow distance of 0 |
| BlockCaching.BlockCache.SetMinFollowDistance | pkg/coordinator/clients/consensus/blockcache.go:101-111 | the follow distance only grows, and is capped at 10000 before it is compared |
| BlockCaching.BlockCache.AddBlock | pkg/coordinator/clients/consensus/blockcache.go:254-286 | known root: the cached block; unknown root below the cut-off: refused; else one new block in both indexes, all other blocks unchanged; indexes stay consistent and the maximum slot bounds all slots |
| BlockCaching.BlockCache.CleanupBlockCache | pkg/coordinator/clients/consensus/blockcache.go:345-365 | leaves exactly the blocks at or above the cut-off in both indexes and keeps them consistent |
| BlockCaching.BlockCache.DropSlot | pkg/coordinator/clients/consensus/blockcache.go:359-363 | removes one slot from the slot index and exactly its blocks from the root index |
| BlockCaching.AddKeepsIndexes | pkg/coordinator/clients/consensus/blockcache.go:273-279 | adding keeps the two indexes the same set of blocks, each once in the bucket of its slot, no empty bucket |
| BlockCaching.DropKeepsIndexes | pkg/coordinator/clients/consensus/blockcache.go:354-364 | so does dropping slots from both |
| BlockCaching.BlockCache.GetCachedBlocks | pkg/coordinator/clients/consensus/blockcache.go:310-330 | every cached block exactly once, slots descending |
| BlockCaching.BlockCache.GetBlockDistance | pkg/coordinator/clients/consensus/blockcache.go:395-428 | linked exactly for equal roots or a cached block reached by parent steps through cached, header-loaded blocks, with the number of steps; the exit on the slot loses nothing; terminates |
| BlockCaching.BlockCache.IsCanonicalBlock | pkg/coordinator/clients/consensus/blockcache.go:390-393 | ancestor or equal |
| ConsensusPool.AdvanceStaysUnlinked | pkg/coordinator/clients/consensus/forks.go:57-63 | a fork root that moves forward to a descendant does not become linked to another fork |
| ConsensusPool.JoinKeepsGrouping | pkg/coordinator/clients/consensus/forks.go:51-75 | a client joining a fork, with or without moving its root, keeps the grouping promise |
| ConsensusPool.NewForkKeepsGrouping | pkg/coordinator/clients/consensus/forks.go:66-72 | so does a client that opens a fork |
| ConsensusPool.SortKeepsForks | pkg/coordinator/clients/consensus/forks.go:98-104 | the promise does not depend on the order of the forks |
| ConsensusPool.Pool.PlaceClient | pkg/coordinator/clients/consensus/forks.go:51-75 | the inner loop keeps the grouping promise for one more client |
| ConsensusPool.Pool.FilterReady | pkg/coordinator/clients/consensus/forks.go:78-96 | ready clients are exactly the online members at most forkDistance blocks behind the fork root, although the linked flag is ignored |
| ConsensusPool.Pool.GetHeadForks | pkg/coordinator/clients/consensus/forks.go:32-109 | every client in exactly one fork; every member's head equals or is an ancestor of the fork root; roots pairwise unlinked; ready lists exact; most ready clients first; stored results are returned as they are |
| ConsensusPool.Pool.GetCanonicalFork | pkg/coordinator/clients/consensus/forks.go:23-30 | the first fork of the grouping, stored or new, none exactly for an empty one; in a new grouping no fork has more ready clients, and it is empty exactly without clients |
| ConsensusPool.Pool.ResetHeadForkCache | pkg/coordinator/clients/consensus/forks.go:17-21 | forgets all stored groupings |
| ConsensusPool.NewPool | pkg/coordinator/clients/consensus/pool.go:41-66 | a pool with an empty cache exactly for the three names of round robin and a follow distance above 0 |
| ConsensusPool.Pool.AddEndpoint | pkg/coordinator/clients/consensus/pool.go:90-102 | appends a client with the next index, which is used up on failure too; clients stay in index order, and the next index stays above all of them if and only if there is no client or the 16 bit counter has not wrapped around |
| ConsensusPool.Pool.GetReadyEndpoint | pkg/coordinator/clients/consensus/pool.go:108-122 | a selection among the ready clients of the canonical fork, none without them |
| ConsensusPool.Pool.RunClientScheduler | pkg/coordinator/clients/consensus/pool.go:159-191 | round robin: the first matching client with a larger index than the stored one, else the first matching client, and its index is stored; any other mode: the first ready client |
| ConsensusPool.Pool.FindClient | pkg/coordinator/clients/consensus/pool.go:166-188 | the scan of the ready list |
| ConsensusPool.RoundIsRotation | pkg/coordinator/clients/consensus/pool.go:166-188 | from any stored index, n selections among n matching clients are a rotation: each exactly once |
| ConsensusPool.RoundServesEveryClient | pkg/coordinator/clients/consensus/pool.go:159-191 | the same for the matching clients of any ready list in index order |
| ConsensusPool.Pool.ServeRound | pkg/coordinator/clients/consensus/pool.go:159-191 | as many calls of the scheduler as there are matching clients, from any stored index, select each of them exactly once |
| Reorg.ReorgTask.FindShared | pkg/coordinator/tasks/check_consensus_reorgs/task.go:151-172 | stops at the nearest cached proper ancestor of the old head that is an ancestor of, or equal to, the new head; without one it counts the cached proper ancestors |
| Reorg.ReorgTask.ProcessChainReorg | pkg/coordinator/tasks/check_consensus_reorgs/task.go:144-186 | reports that distance, counts the reorg and keeps the maximum |
| Reorg.ReportedIsPathLength | pkg/coordinator/tasks/check_consensus_reorgs/task.go:144-178 | the report is the length of the tree path between the heads if and only if the old head is not an ancestor of the new one; otherwise it is larger by exactly two |
| Reorg.ForwardMoveReportedTooFar | pkg/coordinator/tasks/check_consensus_reorgs/task.go:144-178 | a chain of four blocks on which a move forward by two is reported as four |
| Reorg.PathBetweenHeads | pkg/coordinator/tasks/check_consensus_reorgs/task.go:144-178 | a tree path exists whenever the search succeeds |
| AttestationVotes.VotesStep | pkg/coordinator/tasks/check_consensus_attestation_stats/task.go:371-388 | starting from a copy of the parent's votes gives the plain fold over the block's own chain |
| AttestationVotes.CountDutiesOnce | pkg/coordinator/tasks/check_consensus_attestation_stats/task.go:494-505 | a committee adds each new validator once, with its balance |
| AttestationVotes.CountAttestationVoters | pkg/coordinator/tasks/check_consensus_attestation_stats/task.go:421-447 | an attestation marks exactly the validators whose bit is set in a used committee |
| AttestationVotes.FoldSound | pkg/coordinator/tasks/check_consensus_attestation_stats/task.go:403-476 | on every chain: total count is the number of distinct active validators, total amount the sum of their balances, target and head votes are at most the total |
| AttestationVotes.FoldMeaning | pkg/coordinator/tasks/check_consensus_attestation_stats/task.go:403-476 | every figure (total, target, head; current and next epoch; count and amount) is the number and balance of the validators whose first vote on the chain counts for it |
| AttestationVotes.FirstVoteIff | pkg/coordinator/tasks/check_consensus_attestation_stats/task.go:496-504 | a validator is counted exactly when some attestation of the chain carries its vote |
| AttestationVotes.TotalWithinDuties | pkg/coordinator/tasks/check_consensus_attestation_stats/task.go:490-510 | no chain counts more than the balances of the validators on duty |
| AttestationVotes.TargetIsEpochStart | pkg/coordinator/tasks/check_consensus_attestation_stats/task.go:375-391 | the target root of every chain is its last block at or before the first slot of the epoch, as get_block_root in section "Beacon state accessors" of the phase 0 consensus specification |
| VoteLaws.ParticipantCountedIff | pkg/coordinator/tasks/check_consensus_attestation_stats/task.go:403-476 | for every participating block: a validator is counted if and only if some readable attestation with a slot of the epoch, in the body of some block of the chain, has the bit of its committee place set |
| VoteLaws.CountedIff | pkg/coordinator/tasks/check_consensus_attestation_stats/task.go:403-476 | the same for every chain |
| VoteLaws.FigureIs | pkg/coordinator/tasks/check_consensus_attestation_stats/task.go:449-475 | every figure is number and balance of the validators whose first such attestation qualifies: in a block of or behind the epoch, naming the target root of the chain, naming the parent of its block |
| VoteLaws.FirstOnChain | pkg/coordinator/tasks/check_consensus_attestation_stats/task.go:403-504 | the first vote of a validator, by block of the chain and place in its body |
| VoteLaws.VoteBits | pkg/coordinator/tasks/check_consensus_attestation_stats/task.go:421-447 | an attestation carries a vote exactly when one bit of one listed committee place is set |
| VoteLaws.EventsAreBodies | pkg/coordinator/tasks/check_consensus_attestation_stats/task.go:397-403 | the attestations counted on a chain are those of the block bodies one behind the other |
| VoteLaws.ChainLinks | pkg/coordinator/tasks/check_consensus_attestation_stats/task.go:361-395 | the blocks of a chain are linked by parent roots, from the dependent root to the block itself |
| ElectraBits.ElectraVotersIff | pkg/coordinator/tasks/check_consensus_attestation_stats/task.go:421-447 | for Electra attestations, from any validators counted before, the pass counts the validators, number and balance that EIP-7549 defines if and only if the bits read from 0 and the bits behind the earlier committees coincide for the members not counted before |
| ElectraBits.ElectraChainIff | pkg/coordinator/tasks/check_consensus_attestation_stats/task.go:403-476 | along every chain: the votes are those of EIP-7549 after each of its attestations if and only if the bits of every one coincide for the validators not counted before it |
| ElectraBits.ElectraChainAgrees | pkg/coordinator/tasks/check_consensus_attestation_stats/task.go:371-476 | then the votes reported for the chain are those of EIP-7549 |
| ElectraBits.ChainIsEvents | pkg/coordinator/tasks/check_consensus_attestation_stats/task.go:361-476 | the fold over the blocks of a chain is the fold over its attestations in order |
| ElectraBits.ElectraOverlap | pkg/coordinator/tasks/check_consensus_attestation_stats/task.go:430-441 | an attestation with a voter in each of two committees for which they differ: a validator that did not vote is counted in place of one that did |
| CommitteeDuties.AddCommittee | pkg/coordinator/tasks/check_consensus_attestation_stats/task.go:194-209 | appends the members of one committee under its slot and index, other keys untouched |
| CommitteeDuties.BuildTable | pkg/coordinator/tasks/check_consensus_attestation_stats/task.go:194-209 | the table holds, for every slot and index, the members of all committees listed for it, in order |
| CommitteeDuties.SumActive | pkg/coordinator/tasks/check_consensus_attestation_stats/task.go:187-192 | number and total balance of the active validators |
| CommitteeDuties.BuiltTableConsistent | pkg/coordinator/tasks/check_consensus_attestation_stats/task.go:194-209 | a built table gives every validator one balance and has only committee members on duty |
| CommitteeDuties.TotalWithinActiveBalance | pkg/coordinator/tasks/check_consensus_attestation_stats/task.go:250-252 | when committee members are active validators, the counted amount is at most the active balance |
| AttestationTask.Task.ProcessBlock | pkg/coordinator/tasks/check_consensus_attestation_stats/task.go:140-212 | loads duties exactly once per epoch and dependent root, when a parent of an earlier epoch is cached and all requests succeed; dependent roots lie in front of their epoch |
| AttestationTask.Task.AggregateAttestationVotes | pkg/coordinator/tasks/check_consensus_attestation_stats/task.go:490-510 | equals the counting specification and reports the committee size |
| AttestationTask.Task.CountVotes | pkg/coordinator/tasks/check_consensus_attestation_stats/task.go:418-447 | the committee loop, with the bit offset as the specification record selects it |
| AttestationTask.Task.AddBlockVotes | pkg/coordinator/tasks/check_consensus_attestation_stats/task.go:403-476 | the attestation loop of a block |
| AttestationTask.Task.ScanBlock | pkg/coordinator/tasks/check_consensus_attestation_stats/task.go:361-395 | one block of the pass: skipped, started from the duties, or continued from its parent |
| AttestationTask.Task.AggregateEpochVotes | pkg/coordinator/tasks/check_consensus_attestation_stats/task.go:347-488 | for every block tree and sibling order: one result per participating block without participating child, each the plain fold over its own chain; with duties as they are stored by the task, every figure of every result counts distinct validators and their balances, namely those whose first vote on the chain qualifies for it |
| AttestationTask.StoredFiguresMean | pkg/coordinator/tasks/check_consensus_attestation_stats/task.go:347-488 | the last part for the votes of any participating block |
| AttestationTask.CacheGivesWindow | pkg/coordinator/clients/consensus/blockcache.go:295-308 | the buckets of any consistent block cache give the pass every block of the scanned slots exactly once |
| Wallets.Wallet.LoadState | pkg/coordinator/wallet/wallet.go:111-115 | takes the load step: both nonces and both balances are the loaded ones, the wallet is ready, waiters stay |
| Wallets.Wallet.UseNextNonce | pkg/coordinator/wallet/wallet.go:245-253 | returns the pending nonce and takes the use-nonce step |
| Wallets.Wallet.BeginBuild | pkg/coordinator/wallet/wallet.go:256-266 | takes the begin step: the pending nonce is supplied to the build function |
| Wallets.Wallet.FinishBuild | pkg/coordinator/wallet/wallet.go:279-295 | takes the finish step |
| Wallets.Wallet.BuildSetCode | pkg/coordinator/tasks/generate_transaction/task.go:368-403 | authorizations by the sending wallet get consecutive nonces that start at the nonce of the transaction itself, and the pending nonce advances by one less than there are takers |
| Wallets.Wallet.GetTxNonceChan | pkg/coordinator/wallet/wallet.go:434-453 | nothing for a confirmed nonce, else the one open status registered for it |
| Wallets.Wallet.Close | pkg/coordinator/wallet/wallet.go:483-486 | closes an open channel and unregisters it |
| Wallets.Wallet.CloseWaiters | pkg/coordinator/wallet/wallet.go:478-487 | in any iteration order: closes exactly the waiters below the bound, the receipt goes to the waiter of the included nonce |
| Wallets.Wallet.ProcessTransactionInclusion | pkg/coordinator/wallet/wallet.go:455-494 | takes the include step, with the new nonces, balances and last block spelled out |
| Wallets.Wallet.ProcessStaleConfirmations | pkg/coordinator/wallet/wallet.go:496-526 | takes the recover step; the confirmed nonce stays |
| Wallets.Wallet.ProcessTransactionReceival | pkg/coordinator/wallet/wallet.go:528-535 | takes the receive step |
| WalletModel.StepKeepsWaiters | pkg/coordinator/wallet/wallet.go:434-526 | every step keeps: confirmed nonce at most pending nonce, each status registered and open or unregistered and closed once; only a load can lower the confirmed nonce, and it leaves waiters behind exactly when one is older than the loaded nonce |
| WalletModel.IncludeKeeps | pkg/coordinator/wallet/wallet.go:465-493 | an inclusion that counts leaves no waiter at or below its nonce, also after a resync had left some |
| WalletModel.RunKeepsWaiters | pkg/coordinator/wallet/wallet.go:434-526 | in every run between loads: no waiter below the confirmed nonce, which never decreases |
| WalletModel.RunClosesOnce | pkg/coordinator/wallet/wallet.go:434-526 | in every run, resyncs included: channels are closed at most once and exactly when unregistered |
| WalletModel.StatusChangesOnce | pkg/coordinator/wallet/wallet.go:478-487 | a status changes only in the step that closes it; a receipt comes only from the inclusion of the nonce waited for |
| WalletModel.BlockedIffNeverPassed | pkg/coordinator/wallet/wallet.go:434-526 | along every run, resyncs included, a waiter is still blocked if and only if no step reported that the chain has passed its nonce |
| WalletModel.ReceiptWasIncluded | pkg/coordinator/wallet/wallet.go:478-487 | in every run a receipt that reached a waiter was included, and counted, under exactly its nonce |
| WalletModel.OutcomeIsTrue | pkg/coordinator/wallet/wallet.go:410-427 | in every run: a waiter gets a receipt only if its own transaction was included with it, and nothing only if another transaction was included under its nonce |
| WalletModel.InclusionIsReported | pkg/coordinator/wallet/wallet.go:410-427 | an inclusion with receipt is reported to the waiter registered for it, whatever happens afterwards |
| WalletModel.ReleaseDecides | pkg/coordinator/wallet/wallet.go:410-427 | in every run, whatever happens afterwards: a waiter returns its receipt, nothing, or queries again exactly as the step that passed its nonce decides; without a status it queries |
| WalletModel.RecoveryWaits | pkg/coordinator/wallet/wallet.go:469-514 | within ten blocks of a counting inclusion or of a recovery no recovery changes anything |
| WalletModel.NoncesOnlyGrow | pkg/coordinator/wallet/wallet.go:245-296 | in every run between loads the pending nonce never falls and stays above every built nonce |
| WalletModel.SuppliedExceedsBuilt | pkg/coordinator/wallet/wallet.go:255-296 | in every run between loads a build that uses its supplied nonce exceeds every nonce built before |
| WalletModel.NextIsOneHigher | pkg/coordinator/wallet/wallet.go:255-296 | after a build the next supplied nonce is exactly one higher if and only if no step since its begin took the pending nonce past it: a nonce drawn behind it, an inclusion above it, or a build with a larger nonce of its own |
| WalletModel.FirstBuildAfterLoad | pkg/coordinator/wallet/wallet.go:111-115 | after a load a build is supplied the loaded nonce if and only if no step in between moved the pending nonce |
| WalletModel.TakenTwiceIff | pkg/coordinator/wallet/wallet.go:245-266 | two takers of a run get the same nonce if and only if the first draws it inside an open build whose nonce nobody has passed and the second is the end of that build |
| WalletModel.AuthorizationTakesSameNonce | pkg/coordinator/tasks/generate_transaction/task.go:379-383 | a run in which they do |
| WalletModel.StepBalance | pkg/coordinator/wallet/wallet.go:289-293 | pending balance = confirmed balance minus the value built and not confirmed survives a step if and only if a condition on the state before it holds |
| WalletModel.RunBalance | pkg/coordinator/wallet/wallet.go:465-493 | so the equation holds along every run of such steps, the reset of pending from confirmed included |
| WalletModel.NextInclusionKeepsBalance | pkg/coordinator/wallet/wallet.go:465-493 | the inclusion of the next built transaction with its receipt meets the condition |
| WalletModel.EverydayBalance | pkg/coordinator/wallet/wallet.go:255-535 | the equation holds along every run, resyncs included, whose builds use their supplied nonces and whose inclusions are the next built transaction with its receipt, or lie at or above the pending nonce |
| WalletModel.EverydayAfterLoad | pkg/coordinator/wallet/wallet.go:68-123 | so it holds at every moment after a load, whatever came before it, when the run is such a one from then on |
| WalletModel.ConfirmedBalanceConserved | pkg/coordinator/wallet/wallet.go:455-535 | between loads the confirmed balance grows by what was received and falls by values and fees of the inclusions that are the first to reach their nonces: no nonce is charged twice, in whatever order inclusions are reported; the confirmed nonce is one above the highest |
| WalletModel.BalanceAfterLoad | pkg/coordinator/wallet/wallet.go:111-115 | after a load it is the loaded balance plus what was received minus what was spent |
| WalletModel.MissingReceiptDrifts | pkg/coordinator/wallet/wallet.go:471-476 | a run in which a missing receipt breaks the equation |
| WalletModel.MissedOrReusedDrifts | pkg/coordinator/wallet/wallet.go:289-293 | runs with a missed inclusion and with a reused nonce that break it |
| TaskForest.BeforeStrictTotal | pkg/coordinator/scheduler/scheduler.go:186-215 | the task order is a strict total order |
| TaskForest.SiblingsDecide | pkg/coordinator/scheduler/scheduler.go:210-212 | two siblings decide the order of everything below them |
| TaskForest.AncestorFirst | pkg/coordinator/scheduler/scheduler.go:197-200 | a task comes before everything below it |
| TaskForest.PreorderComplete | pkg/coordinator/scheduler/scheduler.go:136-145 | the depth-first preorder lists every task once, in order |
| TaskForest.SortedUnique | pkg/coordinator/scheduler/scheduler.go:187-214 | there is one sorted list only, whatever the sorting algorithm |
| TaskForest.SortedIsPreorder | pkg/coordinator/scheduler/scheduler.go:186-215 | the sorted list is the depth-first preorder, siblings by index |
| TaskForest.ParentsFirst | pkg/coordinator/scheduler/scheduler.go:186-215 | parents before descendants, siblings by index |
| TaskForest.SubtreesContiguous | pkg/coordinator/scheduler/scheduler.go:186-215 | every subtree is contiguous |
| TaskScheduling.TaskLess | pkg/coordinator/scheduler/scheduler.go:187-214 | the live comparator terminates and decides the order |
| TaskScheduling.SortTaskList | pkg/coordinator/scheduler/scheduler.go:186-215 | the list in order, same tasks |
| TaskScheduling.TaskScheduler.NewTaskState | pkg/coordinator/scheduler/task_state.go:49-137 | a new index, parent and depth; unknown names change nothing, a failed insert still leaves the task registered |
| TaskScheduling.AddTask | pkg/coordinator/scheduler/task_execution.go:81-88 | creation keeps parents before children, depths and inherited cleanup kind |
| TaskScheduling.TaskScheduler.GetAllTasks | pkg/coordinator/scheduler/scheduler.go:136-145 | the preorder of the forest of ordinary tasks |
| TaskScheduling.TaskScheduler.GetAllCleanupTasks | pkg/coordinator/scheduler/scheduler.go:165-174 | the preorder of the forest of cleanup tasks |
| TaskScheduling.RowDepth | pkg/coordinator/test/dbtest.go:207-215 | the depth recomputed from rows is the live depth |
| TaskScheduling.OriginalIsCurrent | pkg/coordinator/test/dbtest.go:200-205 | comparing with the original list entry decides like comparing with the climbing one |
| TaskScheduling.RowLess | pkg/coordinator/test/dbtest.go:187-231 | the database comparator terminates and decides exactly the live order |
| TaskScheduling.BuildTaskMap | pkg/coordinator/test/dbtest.go:181-185 | rows by task id |
| TaskScheduling.SortRowList | pkg/coordinator/test/dbtest.go:180-232 | the list in order, same tasks |
| TaskScheduling.GetPersistedTasks | pkg/coordinator/test/dbtest.go:104-120 | for every persisted forest the list equals the live scheduler's, ordinary and cleanup tasks |
| TaskResults.RunKeepsValid | pkg/coordinator/scheduler/task_state.go:241-264 | every run keeps: an open channel is the current one and the result is the one it was requested for |
| TaskResults.OpenMeansUnchanged | pkg/coordinator/scheduler/task_state.go:303-316 | in every reachable state; no channel is closed twice |
| TaskResults.WatcherMoves | pkg/coordinator/scheduler/task_execution.go:185-205 | while a result is known the watcher is never blocked and moves closer to cancelling |
| TaskResults.PersistingResultCancels | pkg/coordinator/scheduler/task_execution.go:185-205 | a result that persists is not missed: two moves of the watcher cancel the task, whatever else happens |
| TaskResults.CancelledHadResult | pkg/coordinator/scheduler/task_execution.go:199-203 | in every run a cancelled task had a known result at the moment the watcher cancelled it |
| TaskResults.EndedByContext | pkg/coordinator/scheduler/task_execution.go:192-195 | in every run the watcher ends without cancelling only because its context ended while it waited |
| TaskResults.WatcherSleeps | pkg/coordinator/scheduler/task_execution.go:188-198 | the watcher does not poll: while no result is set it makes at most three moves, whatever other callers ask for |
| TaskResults.ResultIsLastSet | pkg/coordinator/scheduler/task_state.go:241-254 | in every run the result is the one set last, or none, and it counts as updated exactly when some call said so |
| TaskResults.TaskState.SetTaskResult | pkg/coordinator/scheduler/task_state.go:241-264 | stores the result and the updated flag; exactly when the result changes it closes the current channel, once, and no other |
| TaskResults.TaskState.GetTaskResultUpdateChan | pkg/coordinator/scheduler/task_state.go:303-316 | no channel when the result differs, else the one open channel |
| TestRunning.StepKeepsValid | pkg/coordinator/testrunner.go:59-181 | every step keeps order, placement, limit and wake-up |
| TestRunning.RunKeepsValid | pkg/coordinator/testrunner.go:59-181 | in every interleaving of schedulers, removers, executor and finishing runs |
| TestRunning.RunKeepsUniqueIds | pkg/coordinator/testrunner.go:101-127 | in every interleaving no two runs share an id, removed runs and runs that skip the queue included, and the id of a run being created exceeds all earlier ones |
| TestRunning.LaterRunsHaveLargerIds | pkg/coordinator/testrunner.go:113-127 | a run that appears later has a larger id than every run that was there: ids tell the order of arrival |
| TestRunning.ExactlyOnePlace | pkg/coordinator/testrunner.go:121-181 | every queued run is in exactly one of queued, held, running, finished, removed, dropped |
| TestRunning.StartsInOrder | pkg/coordinator/testrunner.go:144-168 | when a run has started, every run queued before it has started or was removed |
| TestRunning.NeverStuck | pkg/coordinator/testrunner.go:140-181 | while a run is to start next, the executor, a notifier or a running test can step: no wake-up is lost |
| TestRunning.StepLowersMeasure | pkg/coordinator/testrunner.go:140-181 | every such step lowers a measure on executor, notifications and running tests, which only a newly queued run raises |
| TestRunning.HeadStarts | pkg/coordinator/testrunner.go:121-181 | so in every interleaving the next run has started, was removed or the executor has stopped after as many steps |
| TestRunning.HeadStartsUncancelled | pkg/coordinator/testrunner.go:121-181 | without a cancel the next run starts unless it is removed first |
| TestRunning.StoppedOnlyByCancel | pkg/coordinator/testrunner.go:132-181 | in every run from the start the executor has stopped only after a cancel, and never more tests run at once than the concurrency limit, or one when that is 0 |
| TestRunning.FreeSlotStarts | pkg/coordinator/testrunner.go:151-168 | in every run without a cancel a run in hand starts when fewer tests run than that |
| TestRunning.RunCancels | pkg/coordinator/testrunner.go:161-174 | in every run nothing starts after a cancel |
| TestRunning.CancelStops | pkg/coordinator/testrunner.go:140-181 | a cancelled executor stops in every interleaving, within a bounded number of steps |
| TestRunning.WakeUpsWithinNotifications | pkg/coordinator/testrunner.go:171-176 | no notification wakes the executor twice |
| TestRunning.NoDuplicateTests | pkg/coordinator/testrunner.go:105-111 | without allowed duplicates no test is queued twice, although check and append are separate mutex sections |
| TestRunning.TestRunner.CreateRun | pkg/coordinator/testrunner.go:101-119 | takes the create step |
| TestRunning.TestRunner.EnlistRun | pkg/coordinator/testrunner.go:121-127 | takes the enlist step: registers the run and appends it to the queue unless it skips the queue |
| TestRunning.TestRunner.NotifyQueue | pkg/coordinator/testrunner.go:92-95 | takes the notify step; a full channel is left alone |
| TestRunning.TestRunner.RemoveTestFromQueue | pkg/coordinator/testrunner.go:59-77 | takes the remove step: a queued run of this id leaves the queue and the registry, all others stay in order; tells whether there was one |
| TestRunning.TestRunner.TakeNext | pkg/coordinator/testrunner.go:144-149 | takes the oldest queued run, if any |
| Variables.FlattenResolves | pkg/coordinator/vars/variables.go:173-214 | the flattened map name by name: taken entries, then the lookup, then the outermost default |
| Variables.LookupFinds | pkg/coordinator/vars/variables.go:62-81 | the lookup finds exactly the names of a sub-scope or variable of the chain and the defaults of the root |
| Variables.LookupAgrees | pkg/coordinator/vars/variables.go:62-81 | a found name has the same value in the flattened map, which holds exactly these names and the defaults of non-root scopes |
| Variables.AgreementIff | pkg/coordinator/vars/variables.go:62-81 | lookup and flattened map agree on a name if and only if it is set in the chain (sub-scope or variable of any scope, default of the root) or no non-root scope has a default for it |
| ScopeLaws.LookupIff | pkg/coordinator/vars/variables.go:62-81 | the lookup finds a value if and only if the nearest scope of the chain that has the name holds it, as map of a sub-scope or else as variable, or no scope has the name and it is the default in the root |
| ScopeLaws.ShowsIff | pkg/coordinator/vars/variables.go:173-214 | a map is the flattened one of a sub-scope if and only if it holds exactly the names of the sub-scope's own chain (of its scope alone behind a filter), each with the value of the nearest scope that has it, else the outermost default; nested sub-scopes alike |
| ScopeLaws.ShownIff | pkg/coordinator/vars/variables.go:173-214 | the same, name by name, for the flattened map of a scope |
| Variables.ChildDefaultDiffers | pkg/coordinator/vars/variables.go:74-77 | a scope for which they differ |
| Variables.GetVarIsLookup | pkg/coordinator/vars/variables.go:41-60 | the plain getter is the lookup with nil for a missing name |
| Variables.FilterHidesParents | pkg/coordinator/vars/scope_filter.go:49-51 | a filtered sub-scope shows nothing of its parents |
| Variables.FillMap | pkg/coordinator/vars/variables.go:188-195 | adds exactly the entries whose names are free, in any order |
| Variables.FillSubScopes | pkg/coordinator/vars/variables.go:179-186 | adds the flattened sub-scopes whose names are free |
| Variables.GetVarsMap | pkg/coordinator/vars/variables.go:173-214 | computes the flattened map |
| VariableScopes.ScopeRef.SetVar | pkg/coordinator/vars/variables.go:83-90 | sets one variable |
| VariableScopes.ScopeRef.SetDefaultVar | pkg/coordinator/vars/variables.go:92-99 | sets one default |
| VariableScopes.ScopeRef.NewScope | pkg/coordinator/vars/variables.go:137-139 | an empty child scope that fits in with all others |
| VariableScopes.ScopeRef.SetSubScope | pkg/coordinator/vars/variables.go:130-135 | assigns one sub-scope; all other names keep mirroring |
| VariableScopes.ScopeRef.GetSubScope | pkg/coordinator/vars/variables.go:111-128 | creates missing sub-scopes along the chain and replaces nothing; old and new scopes together stay closed under parents and sub-scopes, and each mirrors its parent under every name assigned in neither; no name and no scope is excluded |
| VariableScopes.NestedScopes | pkg/coordinator/vars/variables.go:111-128 | from any scope, calls on returned sub-scopes to any depth; no call undoes an earlier one |
| VariableScopes.RegisterTask | pkg/coordinator/scheduler/task_state.go:86-98 | the status scope of a task is assigned under its id in the tasks scope, which is the one already there if any; under that name a tasks scope with a parent does not mirror it |
| VariableScopes.TaskScopes | pkg/coordinator/scheduler/task_state.go:93-98 | scopes nested to any depth, with tasks of any ids registered on every level: each tasks scope has as parent the tasks scope of the scope above, all the way up |
| VariableScopes.ChainMirrored | pkg/coordinator/vars/variables.go:111-128 | in every set of scopes that these calls create: when no scope of the chain had the sub-scope of a name assigned, the parent chain of the sub-scope is the chain of the sub-scopes of the parents |
| LogBuffers.LogMemBuffer.constructor | pkg/coordinator/logger/membuf.go:20-26 | an empty buffer |
| LogBuffers.LogMemBuffer.Fire | pkg/coordinator/logger/membuf.go:32-65 | appends to the history, with the next index; the ring keeps the last entries |
| LogBuffers.LogMemBuffer.GetLogEntries | pkg/coordinator/logger/membuf.go:71-106 | the last bufferSize entries, of these the ones from the index on, of these the first limit (0: all), also by position in the full history |
| LogBuffers.RingWrite | pkg/coordinator/logger/membuf.go:55-57 | overwriting the oldest slot keeps the ring a window of the history |
| LogBuffers.FromDrops | pkg/coordinator/logger/membuf.go:92-99 | on numbered entries, selecting by index is dropping a prefix |

## Left out

- RPC clients, event streams, HTTP handlers, web pages, SQL statements, YAML and jq: input and output.
- Execution-layer fork grouping and block cache: the same algorithms over hashes and block numbers.
- Signing, key derivation and transaction encoding: foreign code.
- The database log writer: flushing depends on timers, and its window is not a slice of the log.
- Event subscriptions and their dispatcher.
- Timeouts, the wall clock, cron schedules and panics; the sleep of the executor may end at any time.
- Validator set caching, genesis and specification checks: one-branch updates.
- Tasks other than the two modelled ones, and the percentage thresholds of the attestation check.
- Resync requests that arrive while a load is in progress: they are ignored.
- Runs that skip the queue are only registered in the model; the channel that carries them is not part of it.
- The status test when a queued run is removed: a queued run has not started, so it never applies.
- String keys of the duty table: a key is the pair of slot and committee index.
- Scope filters as objects: a filter hands every call but flattening to its scope, so `VariableScopes` has the scope in its place.
- Cyclic scope structures: flattening them does not end; scopes are finite values in `Variables`.
- ConsensusPool.Pool.GetHeadForks: a stored grouping is returned as it is, and nothing is claimed about its freshness.
- BlockCaching.BlockCache.AddBlock: slots of 2^63 and above are outside the model.
- Sorting.SortDescending: an insertion sort stands in for the library sort; only its contract is used.
