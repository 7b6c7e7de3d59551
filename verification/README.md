# Verification of the doged block chain core

A Dafny model of the parts of the doged node that keep state consistent over long runs, with
proofs about all their runs. Where the program updates objects in place, the model has a class
whose methods are proved against a specification on values; the properties are then proved of
that specification, over every run.

- **Best chain** (`BlockTree`, `ChainView`, `ChainState`, `ChainInvariants`, `WorkRecords`,
  `ChainReorg`, `ChainRuns`, `ChainOutcomes`, `ChainReports`, `BlockChain`). Blocks form a tree; a
  block node holds its parent.
  The index keeps a status per node and a set of nodes to be written. The chain view is an array
  over a ghost branch. Submitting a block is one step: admit, index, flush, then extend, ignore
  or reorganize. Whether a block validates, and how much work it has, is arbitrary. The states at
  which the chain lock is released for a notification are recorded, and the consistency of each
  of them is proved.
- **Queries** (`Locator`, `ChainQueries`, `MedianTime`): block locators, inventory, checkpoint
  interval hashes and past median time, all as loops proved against plain definitions.
- **Storage** (`Vlq`, `Amounts`, `AmountLimits`, `Scripts`, `SpendJournal`, `ByteOrder`,
  `UtxoKeys`, `Documented`, `Reload`): the codecs as functions on byte sequences with round trips, the
  buffer-writing code as methods on arrays, 64-bit wrap-around written out, and the replay of the
  block index at start-up. The public-key curve is a parameter; what the round trip needs of it
  is stated as sections 2.3.3 and 2.3.4 of SEC 1 give it.
- **Address manager** (`AddrTables`, `AddrEffects`, `AddrManager`, `PeersFile`): new and tried
  buckets, reference counts and counters, and the peers file.
- **Checkpoint cache** (`CheckpointCache`): the cache behind the cfcheckpt message of BIP 157.
- **Notification queues** (`NotificationQueues`, `NotificationProgress`): the manager's queue,
  and the protocol between a websocket client's two goroutines as interleaved steps over its
  channels, with what every run keeps and how it progresses.
- **Orphan pool** (`OrphanPool`).

Six promises do not hold of the code as it stands. For each the model follows the code and the
exact condition under which the promise is kept is proved, as an equivalence: the main-chain flag
returned for a new block (`ChainReports.ReportIsRight`), the persisted work sum
(`ChainRuns.RecordWrongExactly`), the order of outpoint keys (`UtxoKeys.KeyOrder`), the survival of
64-bit amounts (`AmountLimits.SurvivesExactly`), the limit of the orphan pool
(`OrphanPools.WhenOverLimit`) and the fresh start after a malformed peers file
(`PeersFiles.FreshExactly`).

Clocks, randomness, map iteration order, hashing and the network are parameters or arbitrary
choices. A block hash identifies its block.

## Model

| member | source | states |
|---|---|---|
| ChainRuns.EveryRunIsSafe | blockchain/accept.go:24-92 | after every run of block submissions from genesis: no indexed block without a known-invalid block on its path has more work than the tip, the status flags obey their laws, every main-chain block is known valid, the persisted work sum is the tip's, and every state published during the run, mid-reorganization included, is consistent, obeys the status laws and has no known-invalid block on its main chain |
| ChainRuns.AcceptKeeps | blockchain/accept.go:24-92 | one submission of a new block, with any context check, any flags and any validation verdicts, keeps the whole invariant, meets none of the modelled assertion errors, publishes only sound states with the exact work-record law, never lowers the tip's work and leaves the tip only for its own child or for strictly more work |
| ChainRuns.RunWork | blockchain/chain.go:1074-1205 | along any run the work of the tip never decreases |
| ChainOutcomes.AcceptOutcome | blockchain/accept.go:24-92 | a block is refused with a rule error and no trace if and only if its parent is unknown or known invalid or its contextual checks fail; any other is indexed, becomes the tip if and only if it extends the tip and is fast-added or passes, or has more work, no known-invalid block above the fork and every block above the fork known valid or passing; the error is returned if and only if a connection check was made and failed; a new state is announced last |
| ChainOutcomes.SelectionOutcome | blockchain/chain.go:1074-1205 | the same for choosing the best chain: tip, error and main-chain flag from work, flags and verdicts |
| ChainOutcomes.SwitchOutcome | blockchain/chain.go:811-1058 | a switch to a branch without known-invalid blocks ends at the new block, without error, if and only if every block above the fork is known valid or passes; otherwise the lowest block that does not pass has failed, those below it are valid and all above it are marked |
| ChainOutcomes.InvalidBranchOutcome | blockchain/chain.go:505-534 | on a branch with a known-invalid block exactly the blocks above the topmost one are marked as having an invalid ancestor, no other status changes, the main chain stays and nothing is published |
| ChainOutcomes.CheckOutcome | blockchain/chain.go:925-980 | the validation phase on a branch passes if and only if every block is known valid or passes, and otherwise stops at the lowest that does not |
| ChainOutcomes.AssertionsExact | blockchain/chain.go:557-565 | connecting fails its assertion exactly for a block that is not a child of the tip, disconnecting exactly for a block that is not the tip, and then nothing changes |
| ChainRuns.PublishedSound | blockchain/chain.go:557-788 | every state at which the chain lock is released for a notification has the view equal to the tip's parent path, buckets, snapshot and journal that belong to that tip, lawful flags and no known-invalid block on the main chain |
| ChainRuns.SelectionKeeps | blockchain/chain.go:1074-1205 | choosing the best chain after indexing a block keeps the invariant in all branches: extension, rejected extension, fast add, side chain, switch, failed switch and switch to a branch known to be invalid |
| ChainRuns.InitialInv | blockchain/chainio.go:1005-1099 | the state created for a genesis block satisfies the invariant |
| ChainRuns.IndexingReady | blockchain/accept.go:66-74 | indexing an admitted block adds exactly one node, without children and not yet validated, leaves the main chain alone, and leaves everything ready for chain selection |
| ChainRuns.ExtendSelected | blockchain/chain.go:1088-1159 | a block on top of the tip becomes the tip if and only if it is fast-added or validates, and the rule error is returned if and only if it is neither; a block that fails leaves the main chain alone and is marked |
| ChainRuns.SideChainSelected | blockchain/chain.go:1165-1181 | a block with no more work than the tip, ties included, changes nothing but the index |
| ChainRuns.ReorganizeSelected | blockchain/chain.go:1183-1204 | switching to a side chain with more work ends at the new block or leaves the main chain alone with the new block on a dead branch; which of the two is ChainOutcomes.SwitchOutcome and ChainOutcomes.InvalidBranchOutcome |
| ChainRuns.RecordWrongExactly | blockchain/chain.go:557-788 | over every run, the persisted work sum of a published state differs from its tip's if and only if the state was reached by taking a block with work off the main chain |
| ChainReports.WrongRecord | blockchain/chain.go:710-716 | a run of two blocks, all with work, that publishes a state whose tip is genesis and whose persisted work is that of the removed block |
| WorkRecords.DetachRecords | blockchain/chain.go:991-1015 | while blocks are detached, the record of a state is wrong exactly when the block just removed has work |
| WorkRecords.AttachRecords | blockchain/chain.go:1018-1044 | attaching blocks keeps that law and, if anything is attached, ends with the right record whatever the record was before |
| ChainReports.ReportIsRight | blockchain/chain.go:1060-1205 | the main-chain flag returned for a new block tells whether that block is the tip if and only if the block extends the tip, has no more work than it, or has no known-invalid block above the fork |
| ChainReports.WrongReport | blockchain/chain.go:1190-1204 | a concrete run of five blocks, all with work, after which the flag is true although the tip did not move |
| ChainReorg.ReorganizeNodesExact | blockchain/chain.go:498-544 | the lists for a switch are exactly the main chain above the fork, tip first, and the side chain above the fork, lowest first |
| ChainReorg.SwitchKeeps | blockchain/chain.go:811-1058 | a switch with these lists attaches exactly the branch above the fork, succeeds if and only if the validation phase does, meets none of the modelled assertion errors and publishes only sound states; success ends with the block as tip, known valid and with its work recorded; a rule failure leaves the state of the validation phase, publishes nothing and leaves the block on a dead branch |
| ChainReorg.CheckKeeps | blockchain/chain.go:925-980 | the validation phase keeps the status laws; when it succeeds all blocks to attach are known valid, and when it fails the last of them is on a dead branch |
| ChainReorg.CheckMarks | blockchain/chain.go:925-980 | the validation phase succeeds if and only if every block to attach is known valid already or passes; otherwise the blocks before the first that does not pass are known valid, that one has failed, and all above it are marked as having an invalid ancestor |
| ChainReorg.InvalidBranchKeeps | blockchain/chain.go:505-534 | a branch with a known-invalid block is marked, not attached, and the status laws hold |
| ChainReorg.UpFromInvalidMeans | blockchain/chain.go:505-525 | collecting a side chain stops exactly at a known-invalid block above the fork, if there is one |
| ChainReorg.MainChainValid | blockchain/chain.go:1093-1156 | every block of the main chain is known valid and has no known-invalid block below it |
| ChainReorg.ValidDownwards | blockchain/blockindex.go:299-309 | known-valid is closed under taking ancestors |
| ChainReorg.MarkKeeps | blockchain/blockindex.go:304-309 | setting flags keeps the status laws: valid and invalid stay disjoint, valid stays closed under parents, and an invalid-ancestor flag always has a failed ancestor |
| ChainInvariants.BucketsMatchView | blockchain/chainio.go:833-866 | in every consistent state the hash-to-height and height-to-hash buckets are mutual inverses that list exactly the view, the journal covers exactly its blocks other than genesis, and the snapshot's transaction total is the sum along the view |
| ChainInvariants.ConnectKeeps | blockchain/chain.go:557-669 | connecting a child of the tip cannot hit the assertion and gives a consistent state with that child as tip |
| ChainInvariants.DisconnectKeeps | blockchain/chain.go:675-788 | disconnecting the tip cannot hit the assertion and gives a consistent state with the parent as tip |
| ChainInvariants.DetachKeeps | blockchain/chain.go:991-1015 | detaching down to a fork is consistent after every single block |
| ChainInvariants.AttachKeeps | blockchain/chain.go:1018-1044 | attaching a linked branch is consistent after every single block |
| ChainInvariants.FlushWritesAll | blockchain/blockindex.go:324-348 | a flush makes the persisted rows equal to the statuses in memory, relying on every changed node being marked dirty |
| ChainInvariants.TotalIsSum | blockchain/blockindex.go:108-123 | the running transaction total is the sum over the path |
| ChainInvariants.AncestorsKnown | blockchain/blockindex.go:63-123 | the indexed nodes are closed under taking ancestors and share one root |
| ChainState.GetReorganizeNodesFrame | blockchain/chain.go:498-544 | computing the lists touches nothing but status flags |
| ChainState.CheckAttachFrame | blockchain/chain.go:925-980 | the validation phase touches nothing but status flags |
| BlockChains.BlockChain.ConnectBlock | blockchain/chain.go:557-669 | the object checks the link, updates view, snapshot and buckets in place, and publishes the new state: its new state, error and published states are those of the step function whose runs are proved safe |
| BlockChains.BlockChain.DisconnectBlock | blockchain/chain.go:675-788 | the object undoes one block in place and publishes the new state: its new state, error and published states are those of the step function whose runs are proved safe |
| BlockChains.BlockChain.GetReorganizeNodes | blockchain/chain.go:498-544 | the object builds both lists with loops and marks the new branch when it is invalid: its new state, error and published states are those of the step function whose runs are proved safe |
| BlockChains.BlockChain.CheckNodes | blockchain/chain.go:925-980 | the object validates the blocks to attach in order, marking a failed one and those above it: its new state, error and published states are those of the step function whose runs are proved safe |
| BlockChains.BlockChain.DetachNodes | blockchain/chain.go:991-1015 | the object disconnects block by block, stopping at an error: its new state, error and published states are those of the step function whose runs are proved safe |
| BlockChains.BlockChain.AttachNodes | blockchain/chain.go:1018-1044 | the object connects block by block, stopping at an error: its new state, error and published states are those of the step function whose runs are proved safe |
| BlockChains.BlockChain.ReorganizeChain | blockchain/chain.go:811-1058 | the object checks the lists against the tip, validates, then detaches and attaches, with the outcome of ChainOutcomes.SwitchOutcome: its new state, error and published states are those of the step function whose runs are proved safe |
| BlockChains.BlockChain.ConnectBestChain | blockchain/chain.go:1074-1205 | the object extends, ignores or reorganizes: its new state, error and published states are those of the step function whose runs are proved safe |
| BlockChains.BlockChain.MaybeAcceptBlock | blockchain/accept.go:24-92 | the entry point needs only the invariant and a new hash, performs exactly one step of a run, keeps the invariant, refuses exactly the blocks whose parent is unknown or known invalid or whose contextual checks fail, without a trace, and otherwise has the tip, error and main-chain flag that the work, the flags on the branch and the verdicts determine |
| BlockChains.BlockChain.constructor | blockchain/chainio.go:1005-1099 | a new chain is the initial state of a run |
| BlockChains.BlockIndex.AddNode | blockchain/blockindex.go:274-287 | adds a node and marks it dirty |
| BlockChains.BlockIndex.SetStatusFlags | blockchain/blockindex.go:304-309 | adds flags to those a node has, and marks it dirty |
| BlockChains.BlockIndex.FlushToDB | blockchain/blockindex.go:324-348 | walks the dirty set in any order, storing the current status of each node, and leaves nothing dirty |
| BlockTree.Ancestor | blockchain/blockindex.go:159-170 | the loop returns the ancestor at the height, or nothing outside 0 to the node's height |
| BlockTree.ForkIsHighestCommon | blockchain/chainview.go:288-318 | every common ancestor of the view and a node is an ancestor of the fork |
| BlockTree.AboveForkNotInView | blockchain/chainview.go:288-318 | no ancestor of the node above the fork is in the view |
| BlockTree.InBranch | blockchain/chainview.go:225-227 | being found at one's height is the same as being an ancestor of the tip |
| BlockTree.WorkMonotonic | blockchain/blockindex.go:108-123 | an ancestor has no more cumulative work |
| ChainViews.ChainView.SetTip | blockchain/chainview.go:114-146 | whatever the old tip was, the array ends up as the parent path of the new one, though only the part that differs is rewritten and stale entries beyond the length remain |
| ChainViews.ChainView.Resize | blockchain/chainview.go:129-140 | capacity is reused when it suffices and otherwise grown with the old entries kept |
| ChainViews.ChainView.Repair | blockchain/chainview.go:142-145 | walking down until an entry agrees makes the whole array the path |
| ChainViews.ChainView.Contains | blockchain/chainview.go:225-227 | the height lookup decides membership of the branch |
| ChainViews.ChainView.Next | blockchain/chainview.go:248-254 | the next node is the child on the branch, or nothing at the tip and off the branch |
| ChainViews.ChainView.NodeByHeight | blockchain/chainview.go:188-194 | the entry of the branch, or nothing for heights out of range |
| ChainViews.ChainView.FindFork | blockchain/chainview.go:288-318 | the walk that first drops to the view's height finds the highest common ancestor |
| Locators.FastLog2Floor | blockchain/chainview.go:18-32 | the masks and shifts compute the floor of the binary logarithm of every 32-bit number |
| Locators.BlockLocator | blockchain/chainview.go:351-408 | lists the hashes of exactly the expected ancestors and fills the preallocated count exactly |
| Locators.LocatorShape | blockchain/chainview.go:351-408 | the listed heights descend strictly from the node to genesis |
| Locators.EntryAboveGenesis | blockchain/chainview.go:363-372 | the entry count, h+1 up to height 12 and 12 plus the logarithm of h-10 above, is exactly where the doubling steps reach genesis |
| Locators.LocatorMove | blockchain/chainview.go:374-405 | as long as a step is used, the doubled 32-bit step has not overflowed |
| Locators.AncestorInView | blockchain/chainview.go:394-398 | jumping through the view gives the same ancestor as walking parents |
| ChainQueries.LocatorFindsFork | blockchain/chain.go:1480-1525 | a locator of any node of the tree leads to the true fork when it is at most 11 blocks deep, and otherwise to a common ancestor less than twice as deep |
| ChainQueries.LocateInventory | blockchain/chain.go:1480-1525 | starts right after the first known main-chain entry, or after genesis, and serves a range that ends with the stop block if that is ahead, else with the tip, unless the limit cuts it short; the empty locator names a single block and an empty view gives nothing |
| ChainQueries.InventoryCount | blockchain/chain.go:1504-1525 | the number of blocks from the start to the stop block if that is ahead, else to the tip, or the limit if that is less |
| ChainQueries.FindStart | blockchain/chain.go:1496-1503 | the first locator entry that is a known main-chain block, else genesis if there is one |
| ChainQueries.LocateBlocks | blockchain/chain.go:1534-1550 | returns consecutive main-chain hashes up to the stop block if that is ahead, else up to the tip, unless the limit cuts it short |
| ChainQueries.IntervalBlockHashes | blockchain/chain.go:1429-1462 | the walk that switches to the view equals plain ancestor lookup at every multiple of the interval; unknown or unvalidated end blocks are refused, and a negative interval gives nothing |
| MedianTime.CalcPastMedianTime | blockchain/blockindex.go:185-218 | collecting, sorting and picking the middle gives the past median |
| MedianTime.CollectTimestamps | blockchain/blockindex.go:188-201 | the buffer is filled with the timestamps of the node and its ancestors, at most as many as it holds |
| MedianTime.SortAscending | blockchain/blockindex.go:202-202 | sorting is ascending and a permutation |
| MedianTime.PastMedianRank | blockchain/blockindex.go:201-217 | a time is at most the median if and only if at most half of the window, rounded down, is earlier |
| MedianTime.MedianNeverDecreases | blockchain/README.md:44-48 | along a chain whose blocks are each later than their parent's past median, the past median never decreases, while the window fills and once it slides |
| Reload.ReloadExact | blockchain/chainio.go:1131-1250 | loading what any completed step has persisted, in key order, gives back the very same state: tree, statuses, view, snapshot and buckets |
| Reload.ReloadPublished | blockchain/chainio.go:1131-1250 | loading any published state, mid-reorganization included, gives it back with the blocks of its main chain marked valid |
| Reload.RestartSound | blockchain/chainio.go:1215-1232 | marking the main chain valid at load keeps the status laws, so a restart at any published state gives a sound state with that main chain, all of it known valid |
| Reload.RestartAnywhere | blockchain/chainio.go:1104-1251 | in every run, a restart from what is persisted at any notification gives the same tree and main chain, every block of it known valid and none below a known-invalid one |
| Reload.IndexRebuilt | blockchain/chainio.go:1152-1194 | replaying the rows rebuilds the same index and statuses |
| Reload.ParentFirst | blockchain/chainio.go:1358-1363 | a parent's row comes before the rows of its children |
| Reload.LowerFirst | blockchain/chainio.go:1358-1363 | big-endian heights make the byte order of keys follow the height |
| Reload.RootFirst | blockchain/chainio.go:1164-1171 | the first row, and only the first, is the genesis block |
| Reload.MarkPathValidMeans | blockchain/chainio.go:1220-1232 | the walk from the tip marks exactly the blocks of the path that were not yet known valid |
| Reload.LoadChain | blockchain/chainio.go:1131-1250 | the loading loops compute the replay, with its error when a parent is missing or genesis is not first; which rows load is Reload.LoadsExactly |
| Reload.LoadsExactly | blockchain/chainio.go:1131-1201 | stored rows load if and only if the first is the genesis block, every other one names a block of an earlier row, and the recorded best block is among them; then exactly the blocks of the rows are indexed and nothing is left dirty |
| Reload.LoadRows | blockchain/chainio.go:1152-1194 | the row loop computes the fold over the rows, stopping at the first bad one |
| Vlq.RoundTrip | blockchain/compress.go:52-106 | reading an encoded number gives it back with its exact length, whatever follows |
| Vlq.Bijection | blockchain/compress.go:52-106 | a byte string is the encoding of a number if and only if it is terminated and read as that number: numbers and terminated strings correspond one to one |
| Vlq.Onto | blockchain/compress.go:93-106 | every terminated byte string is the encoding of the number it is read as |
| Vlq.PrefixFree | blockchain/compress.go:66-88 | no encoding is a prefix of another |
| Vlq.SerializeSize | blockchain/compress.go:52-59 | the precomputed size is the length of the encoding |
| Vlq.Put | blockchain/compress.go:66-88 | writing digits backwards and reversing in place leaves exactly the encoding in the buffer and touches nothing else |
| Vlq.ReverseRange | blockchain/compress.go:83-85 | the exchange loop reverses the range and only the range |
| Vlq.Deserialize | blockchain/compress.go:93-106 | on any bytes the 64-bit loop returns the value modulo 2^64 and the number of bytes read |
| Vlq.RoundTrip64 | blockchain/compress.go:66-106 | every 64-bit number survives without overflow |
| Vlq.MaxBytes | blockchain/chainio.go:575-586 | a 64-bit number takes at most ten bytes and a 32-bit one at most five, which is what the key buffers reserve |
| UtxoKeys.OutpointKey | blockchain/chainio.go:594-604 | a pooled buffer, whatever it held, ends up with the hash followed by the encoded index and is large enough |
| UtxoKeys.IndexZeroLeast | blockchain/chainio.go:700-706 | for one hash, index zero has the least key |
| UtxoKeys.FetchByHash | blockchain/chainio.go:700-725 | seeking that key finds an entry of the hash if and only if the bucket has one |
| UtxoKeys.KeyOrder | blockchain/chainio.go:594-597 | for two indexes of one hash, key order follows index order if and only if the encodings are equally long, the smaller is one byte, or its leading digits do not exceed those of the larger |
| UtxoKeys.OrderBroken | blockchain/chainio.go:594-597 | the claimed order fails: index 16512 sorts before 16511 |
| Amounts.CompressInverts | blockchain/compress.go:463-528 | over the naturals decompression undoes compression |
| Amounts.CompressFormula | blockchain/compress.go:436-449 | an amount that is n times the largest power of ten up to the ninth compresses to the documented formula in n, its last digit and the exponent |
| Amounts.DecompressInverts | blockchain/compress.go:463-528 | over the naturals compression undoes decompression |
| Amounts.AtMostNineTimes | blockchain/compress.go:463-488 | the compressed value is at most nine times the amount |
| Amounts.CompressAmount | blockchain/compress.go:463-488 | the 64-bit loop computes the compressed value modulo 2^64 |
| Amounts.DecompressAmount | blockchain/compress.go:493-528 | the 64-bit loop computes the amount modulo 2^64 |
| Amounts.NineTimesFits | blockchain/compress.go:463-528 | the 64-bit code brings back every amount whose ninefold fits in 64 bits |
| Amounts.LargestAmountLost | blockchain/compress.go:463-528 | the largest 64-bit amount does not come back |
| AmountLimits.SurvivesExactly | blockchain/compress.go:463-528 | a 64-bit amount comes back if and only if its compressed value fits in 64 bits, which holds if and only if it is a multiple of ten or nine times it plus its last digit minus nine fits |
| AmountLimits.Lost | blockchain/compress.go:463-528 | when the compressed value overflows, the overflow of decompression never makes up for it |
| Scripts.RoundTrip | blockchain/compress.go:244-421 | for a curve that inverts as in sections 2.3.3 and 2.3.4 of SEC 1, every script comes back from its compressed form |
| Scripts.HashForms | blockchain/compress.go:177-205 | the pay-to-pubkey-hash script of a 20-byte hash compresses to a zero byte and the hash, the pay-to-script-hash script to a one byte and the hash |
| Scripts.KeyForms | blockchain/compress.go:216-239 | the script of a valid compressed key compresses to its prefix and x-coordinate, that of a valid uncompressed key to four plus the parity of y and the x-coordinate |
| Scripts.OnlyStandardShrinks | blockchain/compress.go:244-265 | a script gets shorter if and only if it has one of the four standard forms, and any other is kept whole behind its length plus six |
| Scripts.NoSuchKey | blockchain/compress.go:394-408 | a stored x-coordinate that does not parse gives no script |
| Scripts.SizeFound | blockchain/compress.go:271-292 | the size of a compressed script is found with any data after it |
| Scripts.CompressedSize | blockchain/compress.go:244-265 | the precomputed size is the length of the compressed form |
| Scripts.UncompressedKey | blockchain/compress.go:394-411 | an uncompressed public key comes back from its parity byte and first coordinate |
| Scripts.Put | blockchain/compress.go:299-338 | the buffer holds exactly the compressed form and nothing else is touched |
| SpendJournal.SpentOutputsRestored | blockchain/chainio.go:377-448 | for any split of the inputs over transactions, reading a written journal gives the outputs in the original order, and they are unchanged if and only if the compressed form of every amount fits in 64 bits |
| SpendJournal.JournalRoundTrip | blockchain/chainio.go:377-448 | the backwards-written entries of any outputs read back in order, whatever follows them |
| SpendJournal.StxoRoundTrip | blockchain/chainio.go:296-369 | any spent output, negative heights and amounts included, reads back with its exact length, whatever follows, its amount as 64-bit arithmetic leaves it |
| SpendJournal.StoredExactly | blockchain/chainio.go:311-369 | writing and reading changes nothing if and only if the compressed amount fits in 64 bits |
| SpendJournal.TxOutRoundTrip | blockchain/compress.go:546-586 | one compressed output reads back with its exact length, whatever follows, its amount as 64-bit arithmetic leaves it |
| SpendJournal.SerializeJournal | blockchain/chainio.go:428-448 | the buffer of precomputed size is filled exactly |
| SpendJournal.JournalSize | blockchain/chainio.go:433-437 | the precomputed size is the length of the journal |
| SpendJournal.PutStxo | blockchain/chainio.go:311-322 | the bytes of one spent output and nothing else are written |
| SpendJournal.StxoSize | blockchain/chainio.go:296-305 | the precomputed size of a spent output is its length |
| SpendJournal.PutTxOut | blockchain/compress.go:556-560 | the bytes of one compressed output and nothing else are written |
| SpendJournal.DeserializeJournal | blockchain/chainio.go:377-424 | the nested backwards loops read exactly as many entries as there are inputs; empty bytes with inputs left, and bytes that do not decode, are errors |
| SpendJournal.UtxoRoundTrip | blockchain/chainio.go:632-693 | an unspent output entry reads back from its bytes, unchanged if and only if its compressed amount fits in 64 bits |
| SpendJournal.JournalErrors | blockchain/chainio.go:377-424 | an absent entry is a mismatch if and only if some transaction has inputs, and a read entry has one output per input |
| Documented.UnspentExample | blockchain/chainio.go:559-573 | the documented bytes of an unspent output of block 338156, for every script hash |
| Documented.JournalExample | blockchain/chainio.go:210-235 | the documented bytes of the journal entry of block 100025, for all key hashes, last output first |
| Documented.CoinbaseExample | blockchain/chainio.go:194-208 | the documented bytes of a coinbase output with an uncompressed key whose y-coordinate is odd |
| AddrTables.EveryRunIsSound | addrmgr/addrmanager.go:166-297 | in every state of every run from the empty tables: an untried address is in one to eight new buckets and its count says how many; a tried one is in no new bucket and exactly one tried slot; the counters add up; no bucket outgrows its limit |
| AddrTables.StepKeeps | addrmgr/addrmanager.go:166-297 | every step, with any draws, bucket numbers and bad addresses, keeps all table invariants |
| AddrTables.UpdateKeeps | addrmgr/addrmanager.go:166-240 | updating or adding an address keeps the invariants |
| AddrTables.DropKeeps | addrmgr/addrmanager.go:244-280 | dropping entries of a bucket, forgetting those without another reference, keeps the invariants and makes that much room |
| AddrTables.GoodKeeps | addrmgr/addrmanager.go:913-999 | marking an address as good keeps the invariants, with room or by trading places; what it changes is AddrEffects.GoodEffect |
| AddrEffects.GoodEffect | addrmgr/addrmanager.go:913-999 | an unknown or tried address changes nothing; an untried one leaves all new buckets and becomes tried: with room at the end of its bucket, and no other address changes; without, in the slot of an entry than which none of that bucket is older, which becomes untried with one reference in its own new bucket or, when that is full, in the first of those just left, and nothing else changes |
| AddrEffects.AddEffect | addrmgr/addrmanager.go:211-236 | a new address becomes untried with one reference, its timestamp and its bucket; a bucket over its size first loses exactly its bad entries and one oldest of the others, and an address that leaves its last bucket is forgotten |
| AddrEffects.RefreshEffect | addrmgr/addrmanager.go:175-209 | the timestamp of a known address changes if and only if the announced one is later or services are new; the address gets one more bucket if and only if it is untried, below the limit, not in that bucket and the draw is zero; otherwise nothing else changes |
| AddrTables.AlwaysHeld | addrmgr/addrmanager.go:954-957 | the branch for an untried address in no bucket is unreachable |
| AddrTables.DrawPossible | addrmgr/addrmanager.go:205-209 | the random draw is always from a non-empty range |
| AddrTables.CountersAddUp | addrmgr/addrmanager.go:644-646 | the two counters add up to the number of known addresses |
| AddrTables.PickTried | addrmgr/addrmanager.go:285-297 | the first entry of a bucket than which none is older |
| AddrTables.FirstHolder | addrmgr/addrmanager.go:938-951 | the first new bucket that holds the address |
| AddrManagers.AddrManager.UpdateAddress | addrmgr/addrmanager.go:166-240 | performs one step of the table model, whose effects are AddrEffects.AddEffect and AddrEffects.RefreshEffect, leaves the tables alone for an address that is not routable, and keeps the invariants |
| AddrManagers.AddrManager.ExpireNew | addrmgr/addrmanager.go:244-280 | in any iteration order removes all bad entries of a bucket and one oldest of the others, with counts and index adjusted |
| AddrManagers.AddrManager.PlaceAddress | addrmgr/addrmanager.go:221-236 | puts an address in its bucket unless it is there, expiring first when the bucket is over its size |
| AddrManagers.AddrManager.PickTried | addrmgr/addrmanager.go:285-297 | the loop finds the first of the oldest entries |
| AddrManagers.AddrManager.RemoveFromNew | addrmgr/addrmanager.go:938-951 | the bucket loop takes the address out everywhere, brings its count to zero and returns the first bucket it was in |
| AddrManagers.AddrManager.Good | addrmgr/addrmanager.go:913-999 | performs the step of the table model in place, keeps the invariants and has the effect of AddrEffects.GoodEffect |
| AddrManagers.AddrManager.constructor | addrmgr/addrmanager.go:1207-1218 | a new manager has empty tables that satisfy the invariants |
| AddrManagers.AddrManager.SavePeers | addrmgr/addrmanager.go:373-408 | writes every address once and every bucket, in any map order |
| AddrManagers.AddrManager.DeserializePeers | addrmgr/addrmanager.go:466-548 | accepts a file if and only if its version is known, all addresses parse, all bucket entries are listed and every address is of exactly one kind; then references, marks and counters are those the buckets imply |
| AddrManagers.AddrManager.LoadPeers | addrmgr/addrmanager.go:425-442 | after loading, the tables are sound if and only if an accepted file was well formed, or a rejected one was rejected before anything was counted |
| AddrManagers.AddrManager.Reset | addrmgr/addrmanager.go:708-720 | all tables are emptied and the counters stay as they are |
| PeersFiles.LoadedSound | addrmgr/addrmanager.go:507-546 | an accepted file gives sound tables if and only if no bucket repeats an entry, no tried address is listed twice and all limits are kept |
| PeersFiles.FreshExactly | addrmgr/addrmanager.go:423-440 | after a rejected file the manager starts afresh, as documented, if and only if no bucket entry had been counted; otherwise a counter stays above the size of its empty table |
| PeersFiles.CountersStay | addrmgr/addrmanager.go:507-521 | a file with one unlisted bucket entry is rejected and leaves a counter that is not zero |
| PeersFiles.SaveThenLoad | addrmgr/addrmanager.go:373-548 | loading any file saved from sound tables restores index, references, marks, buckets and counters |
| PeersFiles.SavedIsAccepted | addrmgr/addrmanager.go:373-548 | every file saved from sound tables loads |
| PeersFiles.LoadedInv | addrmgr/addrmanager.go:473-546 | what has been loaded satisfies the table invariants |
| CheckpointCaches.EveryReplyIsRight | server.go:1027-1151 | for every sequence of requests, whatever branches they ask for, each reply equals looking up the filter header of every checkpoint block |
| CheckpointCaches.CacheIsOneChain | server.go:1027-1151 | the cache always holds the checkpoints of one single chain |
| CheckpointCaches.RequestIsRight | server.go:1027-1151 | one request answers correctly and keeps the cache one chain |
| CheckpointCaches.OneMatchIsAll | server.go:1087-1103 | two known chains that share a checkpoint share all earlier ones |
| CheckpointCaches.ForkIndex | server.go:1091-1096 | the last position at which cache and request agree |
| CheckpointCaches.CheckpointCache.OnGetCFCheckpt | server.go:1041-1151 | growing, searching backwards, copying and overwriting compute the reply and the new cache |
| NotificationQueues.EveryRunDelivers | rpcwebsocket.go:1795-1943 | in every interleaving: what has been written is a prefix, in order, of what was queued; nothing is lost while connected; at most one notification is outstanding, and while connected the handler waits if and only if one is; and whoever is about to report on the done channel can, during cleanup too |
| NotificationQueues.StepKeeps | rpcwebsocket.go:1795-1968 | every step of the handler, the writer, their callers and a disconnect keeps the protocol invariant, which ties waiting to one notification outstanding or just lost |
| NotificationProgress.InternalStep | rpcwebsocket.go:1795-1902 | while connected, every step of the two goroutines that needs no caller lowers a measure of the work left and neither loses nor adds a notification |
| NotificationProgress.Quiescent | rpcwebsocket.go:1795-1861 | while connected, when neither goroutine can take a step without a caller, everything queued has been written |
| NotificationProgress.BoundedAndDelivered | rpcwebsocket.go:1795-1861 | so while connected every sequence of internal steps is bounded, and one that cannot be continued has delivered everything |
| NotificationProgress.CanDeliver | rpcwebsocket.go:1795-1861 | from every reachable connected state some internal steps deliver everything that was queued |
| NotificationProgress.EveryRunProgresses | rpcwebsocket.go:1795-1861 | the same in every run from the start of a client |
| NotificationProgress.ShutDown | rpcwebsocket.go:1845-1902 | after a disconnect the writer can take a step if and only if it is not done, and the handler if and only if it is not done and not about to send to a full channel |
| NotificationQueues.QueuedIsGiven | rpcwebsocket.go:1935-1943 | the queued messages are those given to the client, in that order |
| NotificationQueues.LossKeeps | rpcwebsocket.go:1866-1902 | a failed write and the cleanup lose only the last messages of the line |
| NotificationQueues.QueueHandler | rpcwebsocket.go:151-193 | whatever the readers do, what was sent followed by what is queued is what was read, and no message waits that a reader could have had |
| OrphanPools.EveryRunIsIndexed | blockchain/chain.go:246-325 | in every run of adds, expiries and removals each orphan is listed exactly once under its parent, no list is empty, and the pool holds at most one orphan more than its limit |
| OrphanPools.WhenOverLimit | blockchain/chain.go:285-325 | an add leaves the pool over its limit if and only if it was over it already or was full with a note of the oldest orphan that had left the pool and was no younger than the rest |
| OrphanPools.LimitExceeded | blockchain/chain.go:300-305 | a run that ends with one orphan too many; the only orphan removed in it is one whose parent no other orphan names |
| OrphanPools.OldestIsNoted | blockchain/chain.go:301-304 | when the pool is full there is an orphan to drop, so nothing nil is dereferenced |
| OrphanPools.AddEffect | blockchain/chain.go:285-325 | an add keeps exactly the orphans that have not expired, with their expirations, and the new block, last in the list of its parent; when they fill the pool exactly one of them may go, the noted one than which none is older, and the note is cleared |
| OrphanPools.RemoveIndexed | blockchain/chain.go:246-277 | removing orphans keeps the two maps indexing each other exactly |
| OrphanPools.OrphanPool.RemoveOrphanBlock | blockchain/chain.go:246-277 | the shifting loop takes the orphan out of both maps and drops a list that becomes empty |
| OrphanPools.OrphanPool.AddOrphanBlock | blockchain/chain.go:285-325 | in any iteration order drops the expired, notes the oldest, makes room and adds the block, keeping the invariants |
| OrphanPools.OrphanPool.RemoveExpired | blockchain/chain.go:287-298 | removes exactly the expired orphans and notes one of the oldest among the rest and the previous note |

## Left out

- Validation rules, proof of work, difficulty, threshold states and unspent-output views: the verdict of validation and the work of a block are arbitrary inputs.
- Database failures: a step that hits one is a step that did not happen; connecting a block raises no rule error of its own.
- Mutexes: chain steps are atomic, except that the states visible while the lock is released for a notification are recorded and proved consistent; calls made by other goroutines at those points are not interleaved.
- Node identity: block nodes and known addresses are values or keys, so aliasing between the index and the buckets is not modelled; hashes identify blocks.
- Serialized best-state record, block headers and index row bytes: rows carry their fields, only their keys are bytes.
- ChainRuns.EveryRunIsSafe: every submitted hash is new, which `ProcessBlock` checks before it calls the modelled entry point (blockchain/process.go:150-165).
- BlockChains.BlockChain.ConnectBlock: the assertion that compares the number of spent outputs with the block's inputs is not modelled (blockchain/chain.go:567-571); the view code that collects them is not part of this model.
- BlockChains.BlockChain.ReorganizeChain: the assertion that compares the hash of a block loaded from the database with its node is not modelled (blockchain/chain.go:870-874); stored blocks are not modelled.
- Locators.BlockLocator: heights below 2^31, as the 32-bit heights of the program imply.
- ChainQueries.IntervalBlockHashes: the status of the end block is a given set of known-valid nodes; interval zero, and a negative interval not longer than the chain, on which the program panics, are excluded.
- Reload.LoadChain: heights below 2^32, and the parts of the load that fetch the tip block to recompute its size are not modelled.
- Scripts.Decompress: bytes that no encoder produces, on which the program's slices would panic or reach into neighbouring bytes, read as an empty result.
- SpendJournal.DeserializeJournal: the same bytes inside a journal read as an error or an empty script.
- Scripts.RoundTrip: scripts shorter than 2^63 - 16 bytes; no slice is longer.
- Services, attempts, and last-seen times of addresses other than the timestamp, and the probability-weighted choice in `GetAddress`.
- PeersFiles.SaveThenLoad: timestamps are not restored, because the loader does not read them back; address texts are assumed to parse back to themselves.
- AddrManagers.AddrManager.LoadPeers: a file that cannot be opened or decoded is not modelled; the documented fresh start after a malformed file does not always happen, because `reset` keeps the two counters (addrmgr/addrmanager.go:423-424 and 708-720), and the code is followed.
- AddrTables.EveryRunIsSound: runs start from empty tables, not from those a rejected file leaves with a counter above zero.
- CheckpointCaches.EveryReplyIsRight: all lookups in the filter index succeed and no block has the all-zero hash; a request that fails partway through writing entries is not modelled.
- NotificationQueues.EveryRunDelivers: after a disconnect only order is claimed of what was written, and that nothing blocks on the done channel; when each goroutine can go on is NotificationProgress.ShutDown.
- OrphanPools.OrphanPool.AddOrphanBlock: the hash is not in the pool, which `ProcessBlock` checks before; the order in which `processOrphans` removes orphans is arbitrary removals here.
- RPC handlers, configuration, logging, port mapping, signals, upgrade paths and peer message plumbing.
