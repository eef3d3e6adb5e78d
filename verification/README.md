# ChessCoin in Dafny

A Dafny 4.11 model of ChessCoin's consensus core and of the node state built on it, with proofs of what the code is for.
`dafny verify dfyconfig.toml` checks all of it.

The modules follow the program:

| area | modules | source |
|---|---|---|
| values, byte encodings, digests | `Prelude`, `Domain`, `Layout`, `Digests` | `crates/chesscoin-core/src/domain.rs` |
| traces, validation, mining, the simulator | `Validation`, `Training`, `Binding`, `Simulator` | `crates/chesscoin-core/src/application.rs` |
| linear chain and block tree | `ForkTree`, `Chain`, `ForkOrder`, `TipOrder`, `ForkChoice` | `crates/chesscoin-core/src/application.rs` |
| node state machine | `Node`, `NodeRuns`, `NodeState` | `crates/chesscoin-node/src/runtime.rs` |
| header-first sync | `Sync`, `SyncProtocol`, `SyncProgress`, `SyncLiveness`, `SyncResults`, `SyncPass`, `Screening` | `crates/chesscoin-node/src/runtime.rs` |
| sampler | `Sampler` | `crates/chesscoin-node/src/adapters.rs` |
| wire text | `Text`, `Wire`, `WireFormat` | `crates/chesscoin-node/src/wire.rs` |
| block log | `Storage`, `LogRecovery`, `LogAppend`, `CrashRecovery`, `FileRuns` | `crates/chesscoin-node/src/runtime.rs` |
| inbound permits | `Permits` | `crates/chesscoin-node/src/runtime.rs` |
| concrete cases of what the proofs found | `Witnesses`, `LogWitnesses` | both |

## How it is modelled

- Operations that the source does in place are classes and loops (`ChainState`, `ForkChoiceState`, `NodeState`, the
  validation, decoding and replay loops). Each is proved equal to a function on values, and the theorems are about those
  functions.
- The hash, the integer mixer and the sampler are parameters (`Rules`), as they are ports in the source. Nothing is
  assumed about the hash. A result that needs it to tell things apart either says: or here are two different byte strings
  with one digest (`Collide`, `TreesCollide`), or excludes the named collisions among the texts and blocks it speaks of
  (`HeadersCollide`, `PrefixCollision`, `GlueCollision`). The lemmas on the way to the sync results use that common blocks
  agree (`TreesAgree`); `SyncResults` states the results themselves with the collision. The sampler's promise
  (`SamplerSound`) is what `Sampler.SampleIndices` proves of the real one.
- The zero digest stands for "no parent". That no known block hashes to it is an explicit hypothesis (`ZeroFree`), never
  built in. `Node.MinedInsertFailsExactly` shows what happens without it, and `Witnesses.ZeroTipExists` that it can.
- Work scores are 128-bit and wrap as in a release build (`AddWork`). `TipOrder` gives the exact order of tips, wraps
  included. `ScoresFit` says that nothing has wrapped; it is left as a hypothesis only of
  `NodeRuns.ReorgsAreBranchSwitches`, and `Witnesses.SkipAheadExists` shows why.
- A node's state changes under one lock, so a run is a list of events. Permits are the exception: there every atomic step
  of every thread is an event.
- Whether an append to the log succeeds is a parameter (`Disk`).

## What the proofs found

Where the code does less than it seems to promise, the exact condition is proved:

- Scores wrap. At difficulty 120 and above a best chain of 255 blocks stays the best while 255 blocks above it are
  accepted, until the block at height 511 takes over at once; `TipOrder.TipAt255IsReplacedExactly` says exactly which
  blocks replace such a tip, and `TipOrder.RankDecides` gives the order for every difficulty. Mining on such a tip never
  moves it (`Node.MiningExtendsChain`).
- Such a jump along one branch is counted as a reorg. `Node.SkipsAheadExactly` is the exact condition for it, and so for a
  wrong `reorgs`; `Witnesses.SkipAheadExists` is a case. Away from wraps the counter is right
  (`NodeRuns.ReorgsAreBranchSwitches`).
- Sync can stall. A node whose own branch after the fork point is longer than one response never joins a better chain;
  with a fork outside the locator window every answer is refused; a server with a smaller locator cap refuses a node once
  its chain has grown; and where scores wrap, responses that do not span the distance between wraps never get a node past
  one (`Witnesses.StoppedAtWrapExists`). `SyncResults.SyncReachesTipExactly` gives the exact condition. Before
  a wrap and with the default limits only the window counts (`SyncResults.WideResponsesNeedOnlyTheWindow`).
- A pass takes one locator for all peers. After the chain has changed, a later peer's answer may no longer attach and is
  refused (`SyncPass.PassStep`); a node without blocks hears only one peer in its first pass
  (`SyncPass.FirstPassHearsOnePeer`).
- Recovery from an interrupted append works once. `docs/node-v0.1.md:111` and `docs/architecture.md:51` describe an
  unfinished last record as ignored on restart, and so it is (`LogRecovery.CutLogReplays`). But the unfinished text stays
  in the file and the next append continues on the same line, after which the file no longer loads
  (`LogAppend.AppendAfterCut`, over runs `FileRuns.TornTailIsLatent`, a case in `LogWitnesses.TornTailExists`). The model
  follows the code.
- After an append that fails the node keeps the block and logs its children, and a later restart is refused
  (`NodeRuns.RestartRefusedExactly`, `FileRuns.FailedAppendIsLatent`, a case in `LogWitnesses.RefusedRestartExists`).
- Text outside ASCII does not survive escaping: `unescape` reads each byte as a character. A node id is garbled, and a
  network whose id is not ASCII refuses its own messages (`Wire.NetworkHearsItselfExactly`).
- A block hash binds the trace only for validated blocks (`Binding.BlockHashBindsBlock`,
  `Binding.HashIgnoresUnvalidatedTrace`).

## Model

| member | source | states |
|---|---|---|
| `NodeRuns.ViewIsAlwaysBestBranch` | crates/chesscoin-node/src/runtime.rs:858-933 | over any interleaving of mining, gossip, sync batches and restarts the active chain is the best branch of the block tree, as long as no known block hashes to the zero digest |
| `NodeRuns.ReorgsAreCountedExactly` | crates/chesscoin-node/src/runtime.rs:906-919 | what `reorgs` is over any run, wrapping scores included: the number of blocks, since the last restart, after which the old non-empty active chain was no prefix of the new one, or was one but more than one block shorter |
| `NodeRuns.ReorgsAreBranchSwitches` | crates/chesscoin-node/src/runtime.rs:906-919 | while scores fit in 128 bits `reorgs` is the number of blocks after which the old active chain was no prefix of the new one, although the code only compares one parent hash with the old head |
| `NodeRuns.HeightNeverFalls` | crates/chesscoin-node/src/runtime.rs:894-952 | between restarts the active height never goes down, over any run and even where scores wrap |
| `NodeRuns.RestartRestoresState` | crates/chesscoin-node/src/runtime.rs:1601-1671 | in every state reachable by a run in which no append has failed at any time, a restart is not refused and brings back the same tree, best tip and active chain |
| `NodeRuns.RunIsLogged` | crates/chesscoin-node/src/runtime.rs:954-962 | over any run in which no append fails at any time, the log is accepted block by block and leads to the current tree |
| `NodeRuns.RestartRefusedExactly` | crates/chesscoin-node/src/runtime.rs:1657-1665 | when appends may fail without writing anything, a restart is refused if and only if the log names a block without its parent before it; otherwise it brings back a part of the tree |
| `NodeRuns.MiningNeverReorgs` | crates/chesscoin-node/src/runtime.rs:858-875 | a mined block never makes the node leave its active chain or skip ahead on it, so `mine_once` is right not to count reorgs |
| `Node.ReorgCountIsExact` | crates/chesscoin-node/src/runtime.rs:906-919 | one block raises `reorgs` exactly if the old non-empty active chain is not a prefix of the new one, or is one but more than one block shorter |
| `Node.SkipsAheadExactly` | crates/chesscoin-node/src/runtime.rs:906-919 | exactly when `reorgs` is wrong: a block is accepted whose parent lies above the best tip on the best tip's own branch, with the best tip and the new block both last before a wrap of the scores |
| `Node.NoSkipBeforeWrap` | crates/chesscoin-node/src/runtime.rs:906-919 | in particular never while scores fit, and never from a height whose next block does not wrap |
| `Node.ActivationAfterInsert` | crates/chesscoin-node/src/runtime.rs:1520-1533 | the equal-heads shortcut is sound: after any insertion the activated chain is the best branch |
| `Node.AppliedKeepsView` | crates/chesscoin-node/src/runtime.rs:894-933 | applying a block, whatever the outcome, keeps the active chain on the best branch |
| `Node.HeightNeverDecreases` | crates/chesscoin-node/src/runtime.rs:894-933 | no incoming block shortens the active chain, even where scores wrap |
| `Node.MinedInsertFailsExactly` | crates/chesscoin-node/src/runtime.rs:867-870 | the first `expect` of `mine_once` fires if and only if the best tip's hash is the zero digest and the mined block is not already known |
| `Node.MiningExtendsChain` | crates/chesscoin-node/src/runtime.rs:858-875 | a mined block validates and neither `expect` fires; it is new, becomes the best tip and extends the active chain by exactly itself if and only if the new height is no multiple of the period of scores, and otherwise the active chain stays |
| `Node.BatchIsAtomic` | crates/chesscoin-node/src/runtime.rs:1220-1233 | a sync batch either changes nothing or makes every one of its blocks known |
| `Node.DryRunPredictsCommit` | crates/chesscoin-node/src/runtime.rs:1222-1231 | after the dry run on the copy has succeeded, no block of the batch is rejected: that branch is dead |
| `Node.CommittedBatch` | crates/chesscoin-node/src/runtime.rs:1225-1232 | committing a batch yields the tree of the dry run, and `synced_blocks` grows by the number of blocks that were new |
| `Node.AppliedCounts` | crates/chesscoin-node/src/runtime.rs:920-923 | `accepted_blocks` and `synced_blocks` count exactly the blocks that were new, each for its source |
| `Node.RejectedCounts` | crates/chesscoin-node/src/runtime.rs:926-931 | `rejected_blocks` counts exactly the gossiped blocks that are refused; a refused block changes nothing else and a known one nothing at all |
| `Node.PersistenceCounts` | crates/chesscoin-node/src/runtime.rs:954-962 | with storage a block ends up in the log or is counted as a failure, without storage neither |
| `NodeRuns.CountersAddUp` | crates/chesscoin-node/src/runtime.rs:858-962 | conservation: over any run between restarts of a node with storage, accepted, synced and mined blocks are as many as records logged and appends failed |
| `NodeStateMachine.NodeState.ActivateBestChain` | crates/chesscoin-node/src/runtime.rs:1520-1533 | never fails on a well-formed tree; the object's new state is the activated state and the result says whether the head changed |
| `NodeStateMachine.NodeState.PersistBlock` | crates/chesscoin-node/src/runtime.rs:954-962 | appends to the log, counts the failure, or does nothing without storage; nothing else changes |
| `NodeStateMachine.NodeState.RecordAcceptance` | crates/chesscoin-node/src/runtime.rs:911-924 | persisting, activating and counting an accepted block leaves exactly the state the value model gives |
| `NodeStateMachine.NodeState.Perform` | crates/chesscoin-node/src/runtime.rs:858-952 | any sequence of mining, gossip and sync batches on the object ends in the state of the run on values |
| `NodeStateMachine.NodeState.ScreenHeaders` | crates/chesscoin-node/src/runtime.rs:1061-1067 | the first lock section of a sync: whether the headers are accepted, and whether one of them is unknown |
| `NodeStateMachine.NodeState.ApplyIncomingBlock` | crates/chesscoin-node/src/runtime.rs:894-933 | whole new state and verdict of an incoming block, for both sources; a well-formed tree stays well formed |
| `NodeStateMachine.NodeState.MineOnce` | crates/chesscoin-node/src/runtime.rs:858-875 | whole new state after mining; neither `expect` can fire while the best tip is not the zero digest |
| `NodeStateMachine.NodeState.ValidateSyncBatch` | crates/chesscoin-node/src/runtime.rs:935-952 | says whether every block of the batch would be accepted in order, and changes nothing; rebuilding the chain afterwards never fails |
| `NodeStateMachine.NodeState.CommitBatch` | crates/chesscoin-node/src/runtime.rs:1220-1233 | dry run, then commit: the new state is that of the batch or the old one |
| `NodeStateMachine.NodeState.BlocksFromPeer` | crates/chesscoin-node/src/runtime.rs:1178-1239 | only blocks that match the expected hashes one by one and are properly ended reach the batch; everything else leaves the state as it was |
| `NodeStateMachine.NodeState.SyncFromPeer` | crates/chesscoin-node/src/runtime.rs:1049-1074 | whole new state after one sync attempt against any peer, honest or not, with any events of other threads between its two lock sections |
| `SyncProtocol.SyncIsAtomic` | crates/chesscoin-node/src/runtime.rs:1049-1074 | against any peer and any answer, whatever other threads did between screening and commit: an error adds nothing to that, success means screened headers, at most as many as asked for, all of whose blocks are known, and adds no more blocks than that |
| `SyncProtocol.SyncSucceedsExactly` | crates/chesscoin-node/src/runtime.rs:1049-1074 | an attempt succeeds if and only if the headers pass and either none is news or the peer writes a block for each and the end, and all are accepted in order |
| `SyncProtocol.FetchedMeaning` | crates/chesscoin-node/src/runtime.rs:1197-1236 | blocks are taken exactly if the peer writes one for every expected hash in order and then the end |
| `SyncProtocol.RoundInsertsSuffix` | crates/chesscoin-node/src/runtime.rs:1049-1074 | against an honest server whose common blocks agree one round succeeds and inserts exactly the server's blocks after the fork point, cut to the limits |
| `SyncResults.OneRoundTakesBetterTip` | crates/chesscoin-node/src/runtime.rs:1049-1074 | if the server's suffix fits into one response, one round makes the requester's best tip the better of the two old ones and its chain the chain that had it, or two blocks collide |
| `SyncResults.SyncBothWaysConverges` | crates/chesscoin-node/src/runtime.rs:964-998 | two quiescent nodes with the fork point in both windows and room for both suffixes have the same best tip and chain after each has synced once, that of the better tip, or two blocks collide |
| `SyncLiveness.RoundCatchesUp` | crates/chesscoin-node/src/runtime.rs:1049-1074 | a node on a prefix of the server's chain moves to the highest-ranking block one response carries, unless its own tip ranks higher because scores have wrapped |
| `SyncResults.CatchUp` | crates/chesscoin-node/src/runtime.rs:1049-1074 | after k rounds such a node has exactly the blocks these rounds lead to, before the first wrap the first n + k * pace, provided the server takes the locator of the last round; or two blocks collide |
| `SyncResults.FollowerReachesTipExactly` | crates/chesscoin-node/src/runtime.rs:964-998 | such a node, if the server takes its locators, reaches the end of the server's chain if and only if it is there, or responses carry blocks and the chain ends before the first wrap or one response spans the distance between wraps; or two blocks collide |
| `SyncLiveness.ProgressIsLinear` | crates/chesscoin-node/src/runtime.rs:964-998 | before the first wrap k rounds from height n reach n + k * pace blocks or the end, so ceil(gap / pace) rounds are enough and necessary |
| `SyncLiveness.CompletesExactly` | crates/chesscoin-node/src/runtime.rs:964-998 | the condition for rounds to lead to the end, at all heights that best tips can have |
| `SyncResults.SyncReachesTipExactly` | crates/chesscoin-node/src/runtime.rs:964-998 | wrapping scores included, repeated sync reaches the server's chain if and only if the node is on it already, or the server takes its locators, the fork point is in its window, the first response overtakes its own branch and rounds lead on from there; otherwise it never does; or two blocks collide |
| `SyncLiveness.LongerBranchNeverOvertaken` | crates/chesscoin-node/src/runtime.rs:1049-1074 | what one response carries never overtakes a longer branch |
| `SyncLiveness.RoundOutcome` | crates/chesscoin-node/src/runtime.rs:1049-1074 | one round moves the node to the highest-ranking block of the transferred part if that ranks above its tip, and otherwise not at all |
| `SyncLiveness.CannotSyncChangesNothing` | crates/chesscoin-node/src/runtime.rs:1076-1127 | a fork outside the locator window, or a locator longer than the server takes, makes every round leave the node exactly as it was |
| `SyncResults.WideResponsesNeedOnlyTheWindow` | crates/chesscoin-node/src/runtime.rs:79-86 | when a response carries at least as many blocks as a locator has hashes, as by default, a longer chain that ends before scores wrap is reached exactly when the fork point is in the window; or two blocks collide |
| `SyncLiveness.NeverComplete` | crates/chesscoin-node/src/runtime.rs:674-681 | a node on the server's chain from where rounds do not lead on, because its locator gets longer than the server takes or because scores wrap, never has the whole chain |
| `SyncLiveness.TipAfterPart` | crates/chesscoin-core/src/application.rs:728-755 | after taking in consecutive blocks of one branch the best tip is the old one or the highest-ranking of them, whichever ranks higher |
| `TipOrder.PeakRanks` | crates/chesscoin-core/src/application.rs:744-755 | of consecutive blocks the last one before a wrap ranks highest, or the last if there is none |
| `SyncPass.PassStep` | crates/chesscoin-node/src/runtime.rs:992-997 | one peer of a pass, with the locator taken before the pass: the attempt succeeds if and only if the answer still attaches to the chain as it is now; then the best tip is the better of the two, otherwise nothing has changed |
| `SyncPass.OnePass` | crates/chesscoin-node/src/runtime.rs:964-998 | a pass over any list of peers within reach ends on the best of its own tip and the tips of the peers whose answer still attaches when their turn comes; or two blocks collide |
| `SyncPass.FirstPassHearsOnePeer` | crates/chesscoin-node/src/runtime.rs:964-998 | a node without blocks takes the chain of the first peer that has blocks and refuses all others in that pass, however good their tips are |
| `Sync.ValidateHeadersAfterLocator` | crates/chesscoin-node/src/runtime.rs:1076-1127 | the loop accepts exactly the header lists that attach where the locator allows and fit one after another |
| `Sync.AcceptedHeadersMeaning` | crates/chesscoin-node/src/runtime.rs:1091-1124 | accepted headers start at the beginning, if the locator allows it or the chain is empty, or behind a block of the chain whose hash is in the locator, at its height; each continues the one before, with the configured sample count and enough work; and all such are accepted |
| `Sync.ServerFindsForkPoint` | crates/chesscoin-node/src/runtime.rs:1446-1499 | the first locator hash the server finds is the last common block if that is in the window, else it starts at the beginning; so it answers with exactly its suffix, cut to the limit |
| `Sync.HonestAnswerAccepted` | crates/chesscoin-node/src/runtime.rs:1076-1127 | an honest answer passes screening if and only if it is empty, the requester has no blocks, or the fork point is in its window |
| `Sync.SharedBlock` | crates/chesscoin-node/src/runtime.rs:1446-1465 | two valid chains that share a block share it at one height, with everything before it |
| `Sync.PositionInOther` | crates/chesscoin-node/src/runtime.rs:1478-1490 | the other chain knows a block exactly if it lies below the fork point, and then at the same height |
| `Sync.ValidChainsAgree` | crates/chesscoin-core/src/application.rs:421-555 | valid chains have one block per hash unless two of their blocks exhibit a collision |
| `Screening.ScreenedBlocksFailOnlyOnTrace` | crates/chesscoin-node/src/runtime.rs:1061-1127 | blocks that match screened headers, inserted into whatever the tree has grown to meanwhile, can only be refused for trace or model reasons, never for parent, height, sample count or work |
| `ForkTree.InsertKeepsWellFormed` | crates/chesscoin-core/src/application.rs:677-742 | every insertion, whatever its outcome, keeps all tree invariants: keys are hashes, parents known one height below, every block valid on its parent, scores summed, best tip maximal |
| `ForkTree.InsertOutcome` | crates/chesscoin-core/src/application.rs:687-725 | what an insertion returns, case by case: the hash, the unknown parent it names, or the verdict of validation on the named parent |
| `ForkTree.InsertGrows` | crates/chesscoin-core/src/application.rs:677-726 | accepting a block adds exactly its hash and overwrites nothing; every other outcome leaves the tree as it was |
| `ForkTree.BetterTotal` | crates/chesscoin-core/src/application.rs:744-751 | of two blocks with different hashes exactly one is the better tip |
| `ForkTree.BetterTransitive` | crates/chesscoin-core/src/application.rs:744-751 | the better-tip comparison is transitive, so a maximum over known blocks is well defined |
| `ForkOrder.InsertAllKeepsWellFormed` | crates/chesscoin-core/src/application.rs:677-742 | every tree reachable by insertions is well formed, with the maximal best tip, and known nodes never change |
| `ForkOrder.ScoreFollowsHeight` | crates/chesscoin-core/src/application.rs:713-716 | a node's score depends on its height alone |
| `ForkOrder.ScoreIsTotalWork` | crates/chesscoin-core/src/application.rs:713-716 | while the total fits in 128 bits the incremental score is the sum of the work along the path |
| `ForkOrder.HigherIsBetter` | crates/chesscoin-core/src/application.rs:744-755 | while scores fit, the higher of two known blocks is the better tip |
| `TipOrder.ScoreIsModular` | crates/chesscoin-core/src/application.rs:713-716 | a chain of n blocks scores the work of its blocks since the last wrap: n modulo the period, times the work of one block |
| `TipOrder.RankDecides` | crates/chesscoin-core/src/application.rs:744-755 | the exact order of tips at all heights: by height modulo the period, then by height, then by the number the hash spells |
| `TipOrder.GreaterHashWins` | crates/chesscoin-core/src/application.rs:744-751 | of two known blocks with one score and one height the one whose hash is the greater number is the better tip |
| `TipOrder.TipAfterInsert` | crates/chesscoin-core/src/application.rs:713-741 | a new accepted block becomes the best tip exactly if it ranks above the old one, and otherwise the old one stays |
| `TipOrder.BestHeightShape` | crates/chesscoin-core/src/application.rs:728-751 | a best tip is in the first period of scores or the last block of a later one |
| `TipOrder.InsertOnlyRaises` | crates/chesscoin-core/src/application.rs:677-742 | no insertion lowers the height of the best tip, even where scores wrap |
| `ForkOrder.ChildOfBestWins` | crates/chesscoin-core/src/application.rs:713-741 | a block on the best tip becomes the best tip if and only if its score does not wrap |
| `ForkOrder.ScoreWrapsAt256` | crates/chesscoin-core/src/application.rs:753-755 | at difficulty 120 and above the score of the 256th block wraps to zero |
| `TipOrder.TipAt255IsReplacedExactly` | crates/chesscoin-core/src/application.rs:713-741 | at such a difficulty a best tip at height 255 gives way to an accepted block if and only if its height leaves 255 modulo 256 and is greater, or is 255 with the greater hash; so blocks at heights 256 to 510 do not take over and one at 511 does |
| `ForkOrder.SameHashesSameTree` | crates/chesscoin-core/src/application.rs:677-751 | two well-formed trees that know the same hashes are equal, scores and best tip included, or exhibit a hash collision |
| `ForkOrder.ArrivalOrderIsIrrelevant` | crates/chesscoin-core/src/application.rs:677-751 | any two runs of insertions, refused ones included, that end up knowing the same hashes end in the same state, or exhibit a collision |
| `ForkOrder.AnyParentFirstOrderRebuilds` | crates/chesscoin-core/src/application.rs:677-751 | inserting a tree's blocks in any order with parents first accepts them all and rebuilds the tree, with no assumption on the hash |
| `ForkOrder.KnownBlocksAcceptedExactly` | crates/chesscoin-core/src/application.rs:677-726 | a list of blocks of a tree is accepted from scratch if and only if every block comes after its parent |
| `ForkChoice.ForkChoiceState.InsertBlock` | crates/chesscoin-core/src/application.rs:677-726 | the object's new map, best tip and result in all cases; a well-formed tree stays well formed and nothing is overwritten |
| `ForkChoice.ForkChoiceState.MaybeUpdateBest` | crates/chesscoin-core/src/application.rs:728-741 | replaces the best tip exactly if the candidate is known and better |
| `ForkChoice.ForkChoiceState.ListBestChain` | crates/chesscoin-core/src/application.rs:610-628 | the pointer walk ends and returns the path from the root to the best tip |
| `ForkChoice.ForkChoiceState.MineNextBlock` | crates/chesscoin-core/src/application.rs:634-675 | mines on the best tip a block with the requested seed and entropy, the honest trace and the first nonce that meets the difficulty |
| `Chain.PathIsValidChain` | crates/chesscoin-core/src/application.rs:610-628 | the path to a known block is a valid hash-linked chain, as long as the block is high, ending at it |
| `Chain.PathPrefix` | crates/chesscoin-core/src/application.rs:610-628 | every block on a path is known, and the path to it is the part that ends there |
| `Chain.BestChainFacts` | crates/chesscoin-core/src/application.rs:586-628 | the best chain is valid, and its head, length and model are what `best_hash`, `best_height` and `best_model` report |
| `Chain.ChainFromBlocks` | crates/chesscoin-node/src/runtime.rs:1535-1550 | succeeds exactly on valid chains and then holds exactly those blocks |
| `Chain.ChainState.ApplyBlock` | crates/chesscoin-core/src/application.rs:404-419 | pushes the block exactly if it validates on the head; otherwise nothing changes and the error is the validator's; a valid chain stays valid |
| `Chain.ChainState.ValidateNextBlock` | crates/chesscoin-core/src/application.rs:386-402 | the verdict is that of validating on the chain's own head, height and model |
| `Chain.ChainState.MineNextBlock` | crates/chesscoin-core/src/application.rs:343-384 | mines on the head a block with the requested seed and entropy, the honest trace and the first sufficient nonce, and it extends a valid chain validly |
| `Chain.TipModelIsTrained` | crates/chesscoin-core/src/application.rs:471-500 | with as many samples as steps the model at the tip of a valid chain is training from genesis over the chain's seeds, nothing else |
| `Chain.TipModelDrift` | crates/chesscoin-core/src/domain.rs:119-140 | so each weight of the tip model is within 2 * steps * height of its genesis value |
| `Validation.BuildTraceFrom` | crates/chesscoin-core/src/application.rs:112-140 | the loop builds the honest trace: states, entries, commitments and root |
| `Validation.ValidMeaning` | crates/chesscoin-core/src/application.rs:421-501 | a block is valid if and only if header, models, trace length, commitment chain and continuity are right and every step drawn for the block's own trace length, sample count, root and entropy re-executes, whatever the order of the checks |
| `Validation.DrawnStepsAreTrained` | crates/chesscoin-core/src/application.rs:483-498 | every step drawn for a valid block is there, carries its index and is a training step of the block's seed |
| `Validation.SingleFaultVerdict` | crates/chesscoin-core/src/application.rs:483-498 | a block whose only fault is step k is refused for k if k is drawn for its root and entropy, and accepted otherwise |
| `Validation.RefusedByFirstFailingCheck` | crates/chesscoin-core/src/application.rs:432-500 | a block passes if all ten checks do, and is refused for the first one, in the source's order, that does not |
| `Validation.RefusalIsTruthful` | crates/chesscoin-core/src/application.rs:432-500 | every refusal names a check that fails, with the values that were compared, the first break of the trace, or a drawn step that does not re-execute |
| `Validation.CommitmentChainMeaning` | crates/chesscoin-core/src/application.rs:522-545 | the commitment check demands that entries start from the zero digest, hand on their commitments, hash each step with the commitment before it, and end in the root |
| `Validation.ContinuityMeaning` | crates/chesscoin-core/src/application.rs:503-520 | the continuity check demands that each step starts where the one before ended, from the initial to the candidate model |
| `Validation.ValidateBlockAfter` | crates/chesscoin-core/src/application.rs:421-501 | the verdict, error by error and in the source's order; if it passes, every step drawn for the block's root and entropy re-executes |
| `Validation.ValidateCommitmentChain` | crates/chesscoin-core/src/application.rs:522-545 | passes exactly if the entries are one commitment chain from zero to the root |
| `Validation.ValidateTraceContinuity` | crates/chesscoin-core/src/application.rs:503-520 | passes exactly if the states join up from initial to candidate model, and otherwise names the first break |
| `Validation.TrainingDrift` | crates/chesscoin-core/src/domain.rs:119-140 | n steps of training move no weight by more than 2n |
| `Layout.StepMeaning` | crates/chesscoin-core/src/domain.rs:119-140 | one step records index, seed and state, picks weight and gradient by remainders, subtracts an eighth of the gradient, fraction dropped, from that weight, clamped at the ends of the range, and leaves all other weights |
| `Layout.StepDirection` | crates/chesscoin-core/src/domain.rs:127-128 | a gradient of eight or more lowers the weight, minus eight or less raises it, anything between leaves it |
| `Domain.StepDrift` | crates/chesscoin-core/src/domain.rs:119-140 | so one step moves one weight by at most two and no other |
| `Training.HonestTracePasses` | crates/chesscoin-core/src/application.rs:471-500 | an honest trace passes every trace check and every sample, whichever are drawn |
| `Training.CheckedTraceIsHonest` | crates/chesscoin-core/src/application.rs:471-545 | a linked, continuous trace whose every step re-executes is the honest trace |
| `Training.FullSamplingAdmitsOnlyHonestTraces` | crates/chesscoin-core/src/application.rs:421-501 | with as many samples as steps a block is valid if and only if its header fits and its trace is the honest one |
| `Training.MineAfter` | crates/chesscoin-core/src/application.rs:651-675 | the proof-of-work loop returns what was asked for, with the first nonce that meets the difficulty |
| `Training.MinedMeaning` | crates/chesscoin-core/src/application.rs:634-675 | a mined block carries the parent's height and hash, the requested seed and entropy, the honest trace of that seed, and enough work; its header with any smaller nonce has too little |
| `Training.MinedIsCandidate` | crates/chesscoin-core/src/application.rs:663-674 | mining finds nothing if and only if every nonce fails, and otherwise an honest candidate with enough work |
| `Training.MinedBlockIsValid` | crates/chesscoin-core/src/application.rs:634-675 | whatever mining returns passes validation on the parent it was mined for |
| `Binding.BlockHashBindsBlock` | crates/chesscoin-core/src/application.rs:547-555 | two valid blocks with one hash are equal, every trace entry included, or two different byte strings they hash collide |
| `Binding.RootBindsEntries` | crates/chesscoin-core/src/application.rs:522-545 | backwards along the commitment chain, a common commitment fixes all entries before it |
| `Binding.HashIgnoresUnvalidatedTrace` | crates/chesscoin-core/src/application.rs:687-690 | a hash that is already known says nothing about the trace offered with it |
| `Binding.VerifiedSampleMeaning` | crates/chesscoin-core/src/application.rs:142-165 | the commitment check of a sample passes exactly if the opened entry is the committed one, up to a collision, and the transition check exactly if the opened step is the training step of that index and seed |
| `Layout.StepLayout` | crates/chesscoin-core/src/domain.rs:142-154 | the bytes of a training step, offset by offset |
| `Layout.CommitLayout` | crates/chesscoin-core/src/application.rs:167-174 | the bytes hashed for a commitment, offset by offset |
| `Layout.HeaderLayout` | crates/chesscoin-core/src/application.rs:551-555 | the bytes hashed for a block, offset by offset, numbers least byte first and weights in two's complement |
| `Domain.CommitInputInjective` | crates/chesscoin-core/src/application.rs:167-174 | the bytes hashed for a commitment determine the step and the commitment before it |
| `Domain.HeaderInputInjective` | crates/chesscoin-core/src/application.rs:551-555 | the bytes hashed for a block determine the header |
| `Digests.LeadingZeroBits` | crates/chesscoin-core/src/domain.rs:46-57 | the loop's count k is the largest for which the digest, as a 256-bit number, is below 2^(256 - k) |
| `Digests.ZeroBitsMeaning` | crates/chesscoin-core/src/domain.rs:46-57 | at least k leading zero bits means below 2^(bits - k), both ways |
| `Digests.LexIsNumeric` | crates/chesscoin-core/src/application.rs:744-751 | byte order on digests is the order of the numbers they spell: the lesser array is the lesser number |
| `Digests.LexTotal` | crates/chesscoin-core/src/application.rs:744-751 | byte order on digests is total and antisymmetric |
| `Digests.LexTransitive` | crates/chesscoin-core/src/application.rs:744-751 | byte order on digests is transitive |
| `Simulator.VerdictIsExact` | crates/chesscoin-core/src/application.rs:56-106 | a tampered run is rejected with exactly the tampered index if and only if that index is drawn for the run's own root and entropy and the tampering changed the weight; every other run is accepted |
| `Simulator.TamperingChangesOneWeight` | crates/chesscoin-core/src/application.rs:57-65 | what is opened is the honest committed trace but for one weight of the tampered step, one higher |
| `Simulator.SampledTamperIsRejected` | crates/chesscoin-core/src/application.rs:56-106 | for every number of steps whose drift cannot reach the saturation bound, sampling alone decides |
| `Sampler.SampleIndices` | crates/chesscoin-node/src/adapters.rs:17-50 | ascending distinct positions in range, exactly min(samples, steps) of them: all, or those the first nonces draw up to the first nonce with which they are enough; nothing if and only if all nonces together draw too few |
| `Sampler.DrawLayout` | crates/chesscoin-node/src/adapters.rs:35-39 | the bytes hashed for a draw, offset by offset |
| `Sampler.DrawMeaning` | crates/chesscoin-node/src/adapters.rs:40-42 | a draw is the first eight bytes of the digest, least byte first, modulo the length of the trace |
| `Wire.MessageRoundTrip` | crates/chesscoin-node/src/wire.rs:117-236 | decoding undoes encoding for every message; for a greeting if and only if its node id is ASCII |
| `Wire.EnvelopeRoundTrip` | crates/chesscoin-node/src/wire.rs:82-115 | a message is taken if and only if version, network id and fingerprint agree with what arrives of the sender's, and then it is what arrives of the message |
| `Wire.EnvelopeIsolatesNetworks` | crates/chesscoin-node/src/wire.rs:82-115 | with ASCII settings a message is taken by nodes with the same settings and by no other |
| `Wire.NetworkHearsItselfExactly` | crates/chesscoin-node/src/wire.rs:93-115 | a network understands its own messages if and only if its settings are ASCII |
| `WireFormat.MessageText` | crates/chesscoin-node/src/wire.rs:117-190 | the tag and the fields of every message type, in their order |
| `WireFormat.BlockText` | crates/chesscoin-node/src/wire.rs:360-387 | the fourteen fields of a block, in their order |
| `WireFormat.HeaderText` | crates/chesscoin-node/src/wire.rs:389-402 | the nine fields of a header, in their order |
| `WireFormat.EntryText` | crates/chesscoin-node/src/wire.rs:460-475 | the ten fields of a trace entry, in their order |
| `WireFormat.ModelText` | crates/chesscoin-node/src/wire.rs:499-506 | the eight weights of a model, in their order |
| `WireFormat.DecoderIsStrict` | crates/chesscoin-node/src/wire.rs:212-358 | whatever decodes has the tag of its type and exactly as many fields |
| `WireFormat.RecordsAreStrict` | crates/chesscoin-node/src/wire.rs:404-519 | headers, entries, models and digests have exactly as many fields or digits |
| `WireFormat.NumbersAreStrict` | crates/chesscoin-node/src/wire.rs:521-528 | a number is digits with at most a plus sign in front, within the range of its type |
| `WireFormat.SignedNumbersAreStrict` | crates/chesscoin-node/src/wire.rs:521-528 | a signed number is digits with at most one sign in front, within 64 bits |
| `WireFormat.NumberExamples` | crates/chesscoin-node/src/wire.rs:360-387 | two numbers digit by digit |
| `WireFormat.SignedExamples` | crates/chesscoin-node/src/wire.rs:499-506 | two weights digit by digit |
| `WireFormat.HexExamples` | crates/chesscoin-core/src/domain.rs:22-44 | two bytes in hexadecimal, high digit first |
| `WireFormat.EscapeExample` | crates/chesscoin-node/src/wire.rs:530-532 | a bar and a percent sign escaped |
| `WireFormat.EnvelopeMeaning` | crates/chesscoin-node/src/wire.rs:93-115 | a network message is taken exactly if it is the magic word, the receiver's settings and a message, in this order |
| `WireFormat.LineEndsIgnored` | crates/chesscoin-node/src/wire.rs:93-95 | line ends behind a message do not matter |
| `WireFormat.MessageExamples` | crates/chesscoin-node/src/wire.rs:136-138 | three messages letter by letter |
| `WireFormat.UnescapeExamples` | crates/chesscoin-node/src/wire.rs:534-553 | a good escape and three bad ones |
| `Wire.MessageFieldsClean` | crates/chesscoin-node/src/wire.rs:117-190 | no field of any message contains the field separator, and the last one no line end |
| `Wire.BlockFieldsRoundTrip` | crates/chesscoin-node/src/wire.rs:360-458 | all fourteen fields of a block are decoded back, trace entries included |
| `Wire.HeaderListField` | crates/chesscoin-node/src/wire.rs:297-312 | header lists of any length survive, and no header contains the list or field separator |
| `Wire.EntryListField` | crates/chesscoin-node/src/wire.rs:423-497 | trace lists of any length survive, and no entry contains the list or field separator |
| `Wire.ModelRoundTrip` | crates/chesscoin-node/src/wire.rs:499-519 | models survive, negative weights included |
| `Wire.DecodeModelText` | crates/chesscoin-node/src/wire.rs:508-519 | filling the weight array field by field is decoding the list |
| `Wire.FingerprintIdentifiesConfig` | crates/chesscoin-node/src/wire.rs:30-40 | fingerprints are equal if and only if the chain parameters are |
| `WireFormat.FingerprintText` | crates/chesscoin-node/src/wire.rs:30-40 | the parts of a fingerprint, in their order |
| `Text.EscapeRoundTrip` | crates/chesscoin-node/src/wire.rs:530-553 | escaping hides every bar, and unescaping gives the text's bytes as characters |
| `Text.EscapeKeepsExactlyAscii` | crates/chesscoin-node/src/wire.rs:530-553 | a text survives escaping and unescaping if and only if it is ASCII |
| `Text.UnescapeText` | crates/chesscoin-node/src/wire.rs:534-553 | the byte loop computes the recursive definition, with the same failures |
| `Text.SplitJoin` | crates/chesscoin-node/src/wire.rs:212-214 | splitting undoes joining when no part contains the separator |
| `Text.ListRoundTrip` | crates/chesscoin-node/src/wire.rs:325-334 | a list field of any length, the empty one included, survives |
| `Text.SignedRoundTrip` | crates/chesscoin-node/src/wire.rs:521-528 | signed numbers survive printing and parsing over the whole 64-bit range |
| `Text.DigestRoundTrip` | crates/chesscoin-core/src/domain.rs:22-44 | digests survive hexadecimal |
| `Text.ToHex` | crates/chesscoin-core/src/domain.rs:22-29 | the digit loop prints a text that reads back as the digest |
| `Text.FromHex` | crates/chesscoin-core/src/domain.rs:31-44 | the digit loop decodes exactly the 64-digit texts, either case |
| `Storage.LoadChains` | crates/chesscoin-node/src/runtime.rs:1601-1671 | the replay loop: result or error for every file content; on success the tree is well formed and the chain is its best branch |
| `LogRecovery.CutLogReplays` | crates/chesscoin-node/src/runtime.rs:1601-1671 | a log cut anywhere loads to the tree after exactly the records whose text survived, unless some prefix of a payload has the payload's checksum |
| `LogRecovery.LogIsAscii` | crates/chesscoin-node/src/runtime.rs:1761-1796 | the text of a log is ASCII |
| `LogRecovery.ByteCutIsCharCut` | crates/chesscoin-node/src/runtime.rs:1601-1671 | so a cut of the file's bytes is a cut of its characters, and the theorem covers every byte |
| `LogRecovery.EveryCutHasSurvivors` | crates/chesscoin-node/src/runtime.rs:1601-1671 | every byte position has its number of surviving records, so the theorem covers all cuts |
| `LogRecovery.IntactLogReplays` | crates/chesscoin-node/src/runtime.rs:1601-1671 | an intact log loads to the full tree, with no assumption on checksums |
| `LogRecovery.CompleteLogIsStrict` | crates/chesscoin-node/src/runtime.rs:1648-1655 | in a file that loads every line that is not blank decodes, but for the last one of a file that does not end in a newline |
| `LogRecovery.HeaderComesFirst` | crates/chesscoin-node/src/runtime.rs:1623-1646 | in a file that loads a header carries the configured fingerprint, stands before everything but blank lines, and is the only one |
| `LogRecovery.BlankLineIgnored` | crates/chesscoin-node/src/runtime.rs:1619-1621 | blank lines change nothing |
| `LogRecovery.CarriageReturnIgnored` | crates/chesscoin-node/src/runtime.rs:1610-1610 | finished lines may end in a carriage return |
| `LogRecovery.RefusedBlockIsNamed` | crates/chesscoin-node/src/runtime.rs:1657-1665 | a record whose block is refused ends the load with the reason of the refusal |
| `LogRecovery.OtherChainRefused` | crates/chesscoin-node/src/runtime.rs:1638-1643 | the log of a chain with other parameters is refused because of its header |
| `LogRecovery.RecordDecodes` | crates/chesscoin-node/src/runtime.rs:1712-1734 | a stored record decodes to its block |
| `LogRecovery.LogLineTexts` | crates/chesscoin-node/src/runtime.rs:1688-1716 | records and headers are their tag, the digest of the payload's bytes and the payload, in this order |
| `LogRecovery.PlainLineDecodes` | crates/chesscoin-node/src/runtime.rs:1718-1722 | block lines of older logs, without checksum, still decode |
| `LogRecovery.TornLineFails` | crates/chesscoin-node/src/runtime.rs:1678-1734 | an unfinished header or record line does not decode |
| `CrashRecovery.NodeSurvivesCrash` | crates/chesscoin-node/src/runtime.rs:1601-1671 | for any run in which no append failed at any time and any cut of its log, the next start succeeds with a part of the old tree on its best branch, and with all of it if nothing was cut off |
| `FileRuns.CleanRunsRecover` | crates/chesscoin-node/src/runtime.rs:858-962 | over any run of live events, restarts and crashes whose cuts end in a newline, the node is up, and starting it again brings back its tree and active chain |
| `FileRuns.FreshNodeRecovers` | crates/chesscoin-node/src/runtime.rs:858-962 | the same for a node that has never run: it comes up again with its tree after any such run |
| `FileRuns.TornTailIsLatent` | crates/chesscoin-node/src/runtime.rs:1601-1671 | after a crash that leaves an unfinished line the node starts with the surviving records, and its next restart succeeds if and only if it has logged no block in between; otherwise it fails with an invalid line |
| `FileRuns.AppendAfterFailedAppend` | crates/chesscoin-node/src/runtime.rs:1774-1796 | after an append that failed anywhere, with the node going on: if it left an unfinished line, the file never loads again; if not, it loads exactly if the blocks before it, perhaps the failed one, and the later ones are accepted in that order |
| `FileRuns.FailedAppendIsLatent` | crates/chesscoin-node/src/runtime.rs:954-962 | the same over runs: the node keeps the block, and whether a later restart succeeds is decided by the text the failed append left and by what is logged afterwards |
| `LogAppend.AppendAfterCut` | crates/chesscoin-node/src/runtime.rs:1761-1796 | appending to a file cut anywhere: if the cut file is empty or ended in a newline, it becomes whole again, the surviving records and the new ones; if not, it is refused with an invalid line |
| `LogAppend.WholeLoadsExactly` | crates/chesscoin-node/src/runtime.rs:1601-1671 | a file of finished lines loads if and only if its blocks are accepted in order, and then to their tree |
| `LogAppend.GluedLineFails` | crates/chesscoin-node/src/runtime.rs:1678-1734 | an unfinished line continued with a record never decodes, wherever it broke off |
| `Witnesses.TipAt255Exists` | crates/chesscoin-core/src/application.rs:713-755 | there are rules and a tree with a best tip at height 255 whose child is accepted and does not become the best tip |
| `Witnesses.SkipAheadExists` | crates/chesscoin-node/src/runtime.rs:906-919 | there is a node whose active chain grows from 255 to 511 blocks on one branch with one block, and the code counts a reorg |
| `Witnesses.StalledPairExists` | crates/chesscoin-node/src/runtime.rs:1049-1074 | there are two nodes, without collisions and with the fork point in the window, where the requester keeps its shorter branch for ever |
| `Witnesses.ZeroTipExists` | crates/chesscoin-node/src/runtime.rs:867-870 | there is a tree whose best tip is the zero digest and on which the first `expect` of `mine_once` fires |
| `Witnesses.StoppedAtWrapExists` | crates/chesscoin-node/src/runtime.rs:964-998 | there is a server with 511 blocks at difficulty 120 whose chain a node without blocks never gets with the default limits |
| `LogWitnesses.ChecksumsTell` | crates/chesscoin-node/src/runtime.rs:1736-1738 | there are rules under which torn and glued lines never keep a checksum, for every log of small blocks |
| `LogWitnesses.TornTailExists` | crates/chesscoin-node/src/runtime.rs:1601-1671 | there is a run: a block logged, a crash inside its record, a successful start, the block logged again, a failed restart |
| `LogWitnesses.RefusedRestartExists` | crates/chesscoin-node/src/runtime.rs:1657-1665 | there is a reachable state, after one failed and one successful append, whose next restart is refused |
| `Permits.CounterIsLivePermits` | crates/chesscoin-node/src/runtime.rs:554-580 | under every interleaving of any number of threads the counter is the number of live permits and within the limit |
| `Permits.NoUnderflowNoSpuriousRefusal` | crates/chesscoin-node/src/runtime.rs:558-580 | dropping a permit never underflows, and a refusal means that all permits were live |
| `Permits.FailedExchangeMeansProgress` | crates/chesscoin-node/src/runtime.rs:568-579 | a thread that found the counter below the limit gets a permit and raises the counter by one exactly if the counter is unchanged when it compares; otherwise nothing changes and it tries again |
| `Permits.FreePermitIsGranted` | crates/chesscoin-node/src/runtime.rs:564-580 | from every reachable state with a free permit a thread that is alone gets one |
| `Permits.DroppedPermitIsFree` | crates/chesscoin-node/src/runtime.rs:558-562 | dropping a permit frees exactly that one |

## Left out

- Sockets, timeouts, thread spawning, the lock file, `fsync` and other file errors: input and output.
- NodeStateMachine.NodeState.PersistBlock: a failed append leaves the list of logged blocks as it was; what it may leave
  in the file is the subject of the failing events of `FileRuns`, for a received or mined block.
- NodeRuns.RestartRefusedExactly: failed appends write nothing there.
- The framing of messages into lines and the message size limit: a decoder is given one line. A node id with a line break
  in it is outside that.
- The inside of `toy_digest` and of `mix64`: parameters. Of `deterministic_gradient` only the range survives.
- `ChainConfig::validate` and `validate_node_config`: single-branch checks; where a theorem needs a bound it states it.
- Peer lists, HELLO handling, `serve_blocks` by height, inventories and the counters for malformed, oversized,
  incompatible, dropped and failed exchanges: easy members.
- The command line, configuration files, snapshots and the texts of decoding errors: decoders return an option.
- The printing and parsing of socket addresses: library code, a parameter with a round-trip hypothesis
  (`AddrCodecSound`).
- Heights above 2^64: `next_height` is a natural number, so its wrap-around is not modelled; mining asks for a height that
  fits.
- `Simulator.Run`: the source would panic on a sampler that answers out of range; the model asks for a sound one.
- Training.MineAfter: the source's nonce wraps and its loop need not end; the model tries each of the 2^64 nonces once
  and returns nothing exactly where the source runs for ever.
- Sampler.SampleIndices: the rejection loop of the source need not end; the model returns nothing exactly where it does
  not.
- SyncResults.SyncBothWaysConverges: the two nodes stand still except for the sync itself. Sync attempts that interleave
  with other events are covered by `SyncProtocol.SyncIsAtomic` and by the runs in `NodeRuns`, without a claim of
  convergence.
- SyncPass.OnePass: every peer's fork point is in the window of the locator, its whole suffix fits into one response, and
  it stands still during the pass.
- SyncResults.SyncReachesTipExactly: asks for a locator cap of at least one, which the node's configuration check
  demands.
- NodeRuns.RestartRestoresState: the log is a list of blocks there; `CrashRecovery.NodeSurvivesCrash` and `FileRuns` make
  the step to the file's text.
- Wallets, slashing, the evaluation oracle and other whitepaper content: not implemented in the source.
