# Verified models of dcroxide

Dafny models of the parts of dcroxide, a Decred full node, that keep redundant state or convert
data both ways, with proofs of what they promise. `dafny verify dfyconfig.toml` checks the
project.

- **Block index** (`SkipList`, `Work`, `NodeStore`, `BlockTree`, `ChainTips`, `Linking`,
  `BlockIndex`, `IndexRuns`): an arena of block nodes with parent and skip links and cumulative
  work, and an index over it that tracks chain tips, a cache of recent tips, the best header, the
  most-work invalid block, blocks waiting for their parent's data, and candidates for the best
  chain. Part of the invariant that ties these to the tree is kept by every operation; the rest,
  a complete cache, closed flags, right headers and right linkage, by each operation exactly under
  a stated condition. Node fields
  that never change (links, hash, height, work) and those that do (status, linkage) are two
  sequences of the store. Block status bits are booleans. Callbacks over tips are collectors that
  return the tips in the order of the calls.
- **Power-loss replay** (`LogFormat`, `Replay`, `Shim`, `ShimMachine`): a preloaded library logs
  what each file change destroys, and a script replays the log after a simulated power cut. The
  protocol is a state machine over calls, its whole runs are proved to rewind to the last sync
  under an exact condition on each call, and the machine class performs the same steps on log
  bytes. A descriptor carries its access mode, because the shim reads what a change destroys
  through the descriptor of the change.
- **base58** (`Digits`, `Base58`): both conversions in place on arrays, held to an independent
  statement of base change, with the arithmetic behind their buffer sizes.
- **Address manager** (`AddrBooks`, `AddrPick`, `AddrFile`, `AddrManager`): `AddrBooks` is the
  books as values, their invariant and each elementary change; `AddrManager` is the manager with
  known-address objects shared by its index and buckets, changed in place, each method proved to be
  the stated change of the books. Randomness is any number below the bound, the bucket hashes and
  the badness test are arbitrary functions, service flags are sets of bits, times are integers of
  nanoseconds, and floating point is real arithmetic. An address key carries its network type: the
  text of an address determines it.
- **Onion addresses** (`Base32`, `OnionText`): printing and parsing, for any checksum function.
  Text is a sequence of bytes written as characters.
- **Merkle trees** (`Merkle`), **spend journal** (`SpendJournal`) and **agendas** (`Agendas`).

Where a promise turned out to hold only sometimes, a lemma or a run gives an input on which it
fails, and another the exact condition:

- The power-loss log keeps no bytes through a descriptor opened for writing only, as the block
  files are (`crates/dcroxide-database/src/blockfile.rs`, lines 470 to 475 and 693 to 704), so an
  overwrite or a shrink through one is not undone (`WriteOnlyLoses`, `StepRewindsExactly`).
- A block marked failed while it waits for its parent's data is linked when that arrives, and may
  become the best candidate (`FailedCandidate`, `FailedWhileWaiting`, `CandidatesStayValid`).
- A prune of the tip cache at a falling best height can lose a leaf (`MissedLeaf`, `LoweredPrune`,
  `PruneCovers`). A timed prune can fall on a block connected during a reorganisation, which may
  be lower than the best block of the prune before.
- Marking a block failed from such a cache can leave a descendant unflagged and a wrong best header
  (`UnflaggedChild`, `LoweredMark`, `MarkedKeeps`, `HeaderExactly`).
- A malformed peers file can leave counters above zero over an empty index
  (`MalformedMiscounts`, `CountsNothing`).
- Repeated ids in the historical agenda table (`RepeatedId`, `LookupAgrees`).
- A time in the first partial second of the 64-bit range (`TimeRestored`).

## Model

| member | source | states |
|---|---|---|
| `BlockIndexes.BlockIndex.MarkBlockFailedValidation` | crates/dcroxide-blockchain/src/blockindex.rs:1004-1062 | in every index, with a complete tip cache or not: the marked node fails, exactly its proper descendants with a visited leaf at or below them get the invalid-ancestor flag and lose their validated flag, it and they leave the candidates and the waiting map, and no other field of any node changes, all stated field by field; the nodes to write out are exactly it and the newly flagged; linkage is kept; flagged nodes stay quiet and the tips exact; these are all its indexed descendants if and only if every one not flagged already is so reached; flags are closed if and only if every unflagged node that is below the failed one, or under a known-invalid parent, is so reached; while work sums do not wrap, a best invalid block that was right is right again, and a best header that was right is right again if and only if it was not itself marked or flagged, or every valid descendant not reached is outweighed by a valid node outside the subtree; from a complete cache all of this holds; if no candidate was known to be invalid, none is |
| `BlockTree.PartlyMarkedFields` | crates/dcroxide-blockchain/src/blockindex.rs:1004-1062 | marking a node and flagging a set sets the failed flag of the one, the invalid-ancestor flag of the others, clears the validated flag of all of them and changes nothing else, field by field |
| `BlockIndexes.MarkedCandidates` | crates/dcroxide-blockchain/src/blockindex.rs:876-879 | with every descendant flagged, the candidates left after marking a node are exactly the earlier ones that do not descend from it, the set `remove_best_chain_candidates_from` leaves |
| `BlockIndexes.BlockIndex.RemoveBestChainCandidatesFrom` | crates/dcroxide-blockchain/src/blockindex.rs:876-879 | exactly the candidates that do not descend from the node remain |
| `BlockTree.MarkedKeeps` | crates/dcroxide-blockchain/src/blockindex.rs:1004-1033 | marking a node and flagging the descendants reached keeps flagged nodes quiet, and leaves the flags closed if and only if every unflagged node that is below it, or under a known-invalid parent, is reached |
| `BlockTree.UnreachedOpen` | crates/dcroxide-blockchain/src/blockindex.rs:1018-1033 | a descendant neither flagged nor reached leaves an unflagged node under a known-invalid one |
| `BlockTree.ReachedMarks` | crates/dcroxide-blockchain/src/blockindex.rs:1004-1033 | the statuses are those with exactly the descendants flagged if and only if every descendant not flagged already is reached |
| `BlockTree.PathsCover` | crates/dcroxide-blockchain/src/blockindex.rs:1018-1033 | walking from each tip above the node down to it reaches every indexed descendant |
| `BlockIndexes.CompleteReaches` | crates/dcroxide-blockchain/src/blockindex.rs:1013-1033 | so does walking from the tips a complete cache gives, which closes closed flags and keeps the best header right |
| `BlockIndexes.BlockIndex.FlagDescendants` | crates/dcroxide-blockchain/src/blockindex.rs:1013-1033 | for every list of visited tips, the walk over them flags exactly the proper descendants with a visited tip at or below them, and leaves no visited tip below the node with more work than the best invalid node |
| `BlockIndexes.BlockIndex.FindBestHeader` | crates/dcroxide-blockchain/src/blockindex.rs:1035-1061 | the search over tips and the failed node's own ancestors finds the valid node of most work among those that do not descend from the failed one, and none exactly when all of these are known invalid |
| `BlockIndexes.BlockIndex.RefreshBestHeader` | crates/dcroxide-blockchain/src/blockindex.rs:1035-1061 | a best header that was right is right again exactly under the condition above |
| `BlockTree.HeaderExactly` | crates/dcroxide-blockchain/src/blockindex.rs:1035-1061 | the same of the values, both ways, for every set of visited tips |
| `BlockIndexes.BlockIndex.MaybeUpdateBestHeaderForTip` | crates/dcroxide-blockchain/src/blockindex.rs:936-952 | afterwards the best header has at least the work of every valid ancestor of the tip |
| `BlockTree.HeaderFound` | crates/dcroxide-blockchain/src/blockindex.rs:1035-1061 | covering the ancestors of every tip outside the failed subtree and of the failed node covers every valid node outside it |
| `BlockTree.HeaderStays` | crates/dcroxide-blockchain/src/blockindex.rs:1035-1038 | a best header not invalidated by the marking is still best, whatever is flagged |
| `BlockTree.InvalidCovered` | crates/dcroxide-blockchain/src/blockindex.rs:926-934 | the best invalid block is again an indexed known-invalid node with at least the work of every other, whatever tips were visited, given that it is the old one, the failed node or a reached one and covers the failed node and the visited tips below it |
| `BlockIndexes.BlockIndex.AddNodeUnmarked` | crates/dcroxide-blockchain/src/blockindex.rs:677-706 | adding a node keeps index and tips exact, and a complete cache, closed flags and a right best header as they were, with the flags closed after if and only if they were and the node is flagged or its parent not known invalid, and flagged nodes quiet if and only if the node is, when flagged, not validated; linkage is right after if and only if it was and the node, when linked, has a linked parent with data |
| `BlockIndexes.BlockIndex.AddNode` | crates/dcroxide-blockchain/src/blockindex.rs:666-669 | the same, and the node is recorded as modified |
| `BlockIndexes.BlockIndex.AddNodeFromDb` | crates/dcroxide-blockchain/src/blockindex.rs:711-734 | loading a stored node, in any status, keeps index and tips exact and complete caches and right headers right, files exactly an unlinked block with data under a parent not known invalid, last among its waiting children, keeps linkage right if and only if its own linkage agrees with its parent's, and keeps closed flags closed and flagged nodes quiet exactly under conditions on its own status and its parent's |
| `BlockIndexes.BlockIndex.AddHeader` | crates/dcroxide-blockchain/src/process.rs:3753-3756 | a header under a known, not invalid parent makes a new unflagged node; what every operation keeps is kept, and so are a complete cache, closed flags, right headers and right linkage |
| `BlockIndexes.BlockIndex.constructor` | crates/dcroxide-blockchain/src/blockindex.rs:641-655 | an empty index satisfies every invariant |
| `BlockIndexes.BlockIndex.MoveTips` | crates/dcroxide-blockchain/src/blockindex.rs:684-693 | after an addition the tracked tips are exactly the leaves of the tree, each once under its own height, counted by `total_tips`, and the cache still holds every leaf from its start height up |
| `ChainTips.AddTipKeeps` | crates/dcroxide-blockchain/src/blockindex.rs:740-750 | adding a tip to the height map adds exactly that tip |
| `ChainTips.RemoveTipKeeps` | crates/dcroxide-blockchain/src/blockindex.rs:756-776 | removing a tip removes exactly that tip, promoting another of its height, and reports a tip found exactly when it was one |
| `BlockTree.LeavesAfterAdd` | crates/dcroxide-blockchain/src/blockindex.rs:684-693 | a new node replaces its parent among the leaves |
| `ChainTips.PruneCovers` | crates/dcroxide-blockchain/src/blockindex.rs:890-902 | a prune keeps the cache complete from its new start height if and only if no leaf between the new and the old start height is missing from the cache; never lowering the start height is enough |
| `ChainTips.LoweredPruneMisses` | crates/dcroxide-blockchain/src/blockindex.rs:890-902 | for all leaves and caches: a leaf dropped by a prune at one best height stays out of the cached path after a prune at a lower one whose start is at or below the leaf |
| `BlockIndexes.BlockIndex.PruneCachedTips` | crates/dcroxide-blockchain/src/blockindex.rs:890-902 | keeps exactly the cached tips from 12 below the best height on; a complete cache stays complete exactly under that condition, and always when the cut does not fall |
| `ChainTips.VisitMap` | crates/dcroxide-blockchain/src/blockindex.rs:820-831 | the full path visits each leaf above the height once |
| `ChainTips.VisitCache` | crates/dcroxide-blockchain/src/blockindex.rs:805-818 | the cached path visits exactly the cached leaves above the height, each once |
| `ChainTips.VisitedIsAll` | crates/dcroxide-blockchain/src/blockindex.rs:799-832 | while the cache holds every leaf from its start on, the cached path and the full path give the same leaves for every filter height |
| `BlockIndexes.BlockIndex.ForEachChainTip` | crates/dcroxide-blockchain/src/blockindex.rs:781-794 | visits each leaf once |
| `BlockIndexes.BlockIndex.ForEachChainTipAfterHeight` | crates/dcroxide-blockchain/src/blockindex.rs:799-832 | visits each leaf above the filter node's height once, whichever path is taken, while the cache is complete, and otherwise what the cache holds of them |
| `IndexRuns.LoweredPrune` | crates/dcroxide-blockchain/src/blockindex.rs:799-902 | in every index: after a prune at one block and a prune at a lower one, every leaf below the first cut and at or above the second is missed by the iteration from a filter node between the second cut and the leaf |
| `IndexRuns.MissedLeaf` | crates/dcroxide-blockchain/src/blockindex.rs:799-902 | the same from a new chain of thirty blocks with a fork at height ten, built by the index's own operations |
| `IndexRuns.LoweredMark` | crates/dcroxide-blockchain/src/blockindex.rs:799-1062 | in every index: after such prunes, marking a node above that leaf leaves the leaf unflagged and the flags not closed |
| `IndexRuns.UnflaggedChild` | crates/dcroxide-blockchain/src/blockindex.rs:799-1062 | the same from that chain: the block at height nine is marked failed, its child on the fork is not known invalid, and the tracked best header is not the best |
| `IndexRuns.Genesis` | crates/dcroxide-blockchain/src/process.rs:846-856 | the index of a new chain: every invariant holds, and the genesis block can be validated |
| `BlockIndexes.BlockIndex.LinkBlockData` | crates/dcroxide-blockchain/src/blockindex.rs:1084-1112 | ends; links exactly the node and all that transitively wait for it, parents before children, each once, with consecutive received-order ids modulo 2^32, removes them from the waiting keys and adds exactly those with at least the tip's work as candidates |
| `BlockIndexes.BlockIndex.AcceptBlockData` | crates/dcroxide-blockchain/src/blockindex.rs:1118-1135 | links exactly when the parent is fully linked and has its data, else waits, last, under a parent not known invalid and changes nothing else; when linkage was right and the block has its data it stays right, and every linked block and all its ancestors have their data; headers stay exact and closed flags closed; quietness is kept if and only if the block is not flagged, or is linked with less than the tip's work, or does not wait because its parent is known invalid; if no candidate was known to be invalid, none is if and only if no known-invalid block with at least the tip's work is linked |
| `Linking.LinkedAncestors` | crates/dcroxide-blockchain/src/blockindex.rs:1066-1135 | when linkage is right every proper ancestor of a linked block is linked and has its data |
| `Linking.LinkKeepsLinkage` | crates/dcroxide-blockchain/src/blockindex.rs:1084-1112 | linking a block with its data under a linked parent with its data keeps every linked block's parent linked with data and every waiting block with data, and all it links have theirs |
| `Linking.CandidatesStayValid` | crates/dcroxide-blockchain/src/blockindex.rs:1084-1112 | linking makes a candidate of a known-invalid block if and only if a known-invalid block with at least the tip's work is the linked one or waits in turn for it |
| `Linking.InvalidWaiterFailed` | crates/dcroxide-blockchain/src/blockindex.rs:1084-1112 | when the linked block is not flagged, such a block was itself marked failed |
| `Linking.LinkOutcomeExactly` | crates/dcroxide-blockchain/src/blockindex.rs:1084-1112 | linking leaves the flags closed or not as they were, and keeps flagged nodes and the waiting map quiet if and only if the block is not flagged or has less than the tip's work |
| `Linking.WaitOutcomeOk` | crates/dcroxide-blockchain/src/blockindex.rs:1128-1134 | waiting keeps them quiet if and only if the block is not flagged or its parent is known invalid |
| `IndexRuns.FailedWhileWaiting` | crates/dcroxide-blockchain/src/blockindex.rs:1004-1148 | in every index: a block that waits for its parent's data and is then marked failed is linked when that arrives, is a candidate when it has at least the tip's work, and is the best one unless another has as much work |
| `IndexRuns.FailedCandidate` | crates/dcroxide-blockchain/src/blockindex.rs:1004-1148 | the same from a new chain: the best candidate found is a block that failed validation |
| `BlockIndexes.BlockIndex.SetDataStored` | crates/dcroxide-blockchain/src/blockindex.rs:847-850 | recording stored data sets that flag of that node and changes nothing else, and keeps flags, headers and linkage exact |
| `Linking.LinkedExactly` | crates/dcroxide-blockchain/src/blockindex.rs:1084-1112 | a list whose members' waiting children are all listed, each after its parent, is exactly the transitive waiting set |
| `Linking.ListChildren` | crates/dcroxide-blockchain/src/blockindex.rs:1107-1109 | extending the list by a node's waiting children keeps it free of repeats and in parent order |
| `Linking.OrderIdsIncrease` | crates/dcroxide-blockchain/src/blockindex.rs:1093-1100 | received-order ids strictly increase along the list until the counter wraps |
| `Linking.LinkedKeepsFlags` | crates/dcroxide-blockchain/src/blockindex.rs:1084-1112 | linking keeps flagged nodes and the waiting map quiet, when the block is not flagged |
| `BlockIndexes.BlockIndex.FindBestChainCandidate` | crates/dcroxide-blockchain/src/blockindex.rs:1139-1148 | whatever order the set is walked in, every other candidate has less work, or as much and no data where the result has it, or the same and a later received-order id, or the same and a hash that is not a smaller number; the result is the one such candidate; none exactly when there are no candidates; not known to be invalid when no candidate is |
| `NodeStores.BestChosen` | crates/dcroxide-blockchain/src/blockindex.rs:585-599 | the comparison prefers a node to another exactly as its work, its data, its received-order id and its hash's 256-bit number say, in this order |
| `NodeStores.BetterTransitive` | crates/dcroxide-blockchain/src/blockindex.rs:585-599 | candidate comparison is transitive |
| `NodeStores.BetterTotal` | crates/dcroxide-blockchain/src/blockindex.rs:585-599 | it is irreflexive, asymmetric, and total on nodes with distinct hashes |
| `NodeStores.CompareHashesByValue` | crates/dcroxide-blockchain/src/blockindex.rs:277-284 | byte comparison from the end is comparison of the little-endian numbers |
| `NodeStores.NodeStore.InitNode` | crates/dcroxide-blockchain/src/blockindex.rs:420-470 | appends a node linked to its parent, with skip link and work sum as the tree demands |
| `NodeStores.NodeStore.Ancestor` | crates/dcroxide-blockchain/src/blockindex.rs:527-547 | the skip-list search returns the plain parent walk's node for every height, following at most b(b+1) links for a start height of b bits |
| `NodeStores.NodeStore.IsAncestorOf` | crates/dcroxide-blockchain/src/blockindex.rs:558-560 | true exactly for the nodes on the parent path |
| `NodeStores.AncestorByHeight` | crates/dcroxide-blockchain/src/blockindex.rs:558-560 | a node is on another's parent path exactly when the walk to its height ends at it |
| `NodeStores.WorkSumExact` | crates/dcroxide-blockchain/src/blockindex.rs:453-458 | a node's work sum is the sum of exact works along its whole path modulo 2^256 |
| `NodeStores.WorkGrows` | crates/dcroxide-blockchain/src/blockindex.rs:453-458 | while sums do not wrap, work never falls from ancestor to descendant |
| `SkipList.SkipFalls` | crates/dcroxide-blockchain/src/blockindex.rs:202-207 | a skip link leads strictly lower |
| `SkipList.LinksQuadratic` | crates/dcroxide-blockchain/src/blockindex.rs:196-207 | the number of links between two heights is at most b(b+1) for a start of b bits |
| `Work.DecodeExact` | crates/dcroxide-blockchain/src/blockindex.rs:213-251 | compact bits decode to the exact magnitude, with overflow flagged exactly when that reaches 2^256 |
| `Work.CalcWorkExact` | crates/dcroxide-blockchain/src/blockindex.rs:264-272 | the fixed-width formula is the floor of 2^256 over target plus one, zero for zero, negative and overflowing targets |
| `Shim.PowerLoss` | tools/powerloss/shim.c:186-420 | for every run, from a fresh log, of opens, seeks, writes, truncates, allocations, syncs and closes that the log can rewind, and a kill at any byte of the records the next call, whatever it is, writes before its change, replaying the log gives every file its contents at its last successful sync or at the start, and removes exactly the files created and never synced |
| `Shim.RunRewinds` | tools/powerloss/shim.c:186-420 | at every point of every such run the log rewinds the files to the durable ones |
| `Shim.StepRewinds` | tools/powerloss/shim.c:186-420 | each such call keeps that: one that changes no content, one through a descriptor that can be read, one on a file created and never synced, or one whose every changeable byte is put right by records already logged |
| `Shim.StepRewindsExactly` | tools/powerloss/shim.c:211-231 | the condition is exact: for every buffer and every answer a call keeps the log able to rewind the files if and only if it is one of these |
| `Shim.NotKeptLoses` | tools/powerloss/shim.c:211-231 | any other call, for some buffer and answer, leaves a log that does not rewind its file, because a descriptor opened for writing only cannot be read before the change |
| `Shim.WriteOnlyLoses` | tools/powerloss/shim.c:211-231 | a concrete one: a file of one byte, opened for writing only and cut to nothing, comes back as a zero, and written over stays so |
| `Shim.WritesJoin` | tools/powerloss/shim.c:297-307 | a write moves the offset by what it wrote: two writes in a row leave the contents one write of both does |
| `Shim.UndoSaved` | tools/powerloss/shim.c:211-231 | when the range could be read, undoing its chunk records restores a file that changed only inside the range, in length and contents |
| `Shim.UndoUnread` | tools/powerloss/shim.c:211-231 | when it could not, undoing them gives back the length alone |
| `Shim.UndoAllSame` | tools/powerloss/replay.py:90-98 | files that differ only in bytes some pending action overwrites or cuts off are undone to the same |
| `Shim.UndoAllStays` | tools/powerloss/replay.py:90-98 | a byte no pending action overwrites or cuts off stays as it is |
| `Shim.CallUndone` | tools/powerloss/shim.c:297-406 | what a write (short, failed, appended or past the end), truncate or allocation does is undone by the records logged before it, when its descriptor can be read or it can change no byte |
| `Shim.UndoneExactly` | tools/powerloss/shim.c:297-406 | and for every buffer and every answer only then |
| `Shim.ReplayKilled` | tools/powerloss/shim.c:186-231 | replaying a log cut inside a call's records rewinds to the durable files |
| `Shim.KilledInSyncRecord` | tools/powerloss/shim.c:410-417 | a kill inside the record that follows a sync rewinds to the sync before it |
| `Shim.KilledInCreateRecord` | tools/powerloss/shim.c:259-264 | a kill inside the record that follows a creating open leaves the new file, empty |
| `Shim.NeverSynced` | tools/powerloss/replay.py:51-105 | a file no call syncs keeps its durable contents, or absence |
| `Shim.LastSync` | tools/powerloss/replay.py:51-105 | a synced file's durable contents are those at its last sync |
| `LogFormat.ParseEncoded` | tools/powerloss/replay.py:31-48 | reading a log of records with a torn last one gives exactly the whole records |
| `LogFormat.FirstOfTorn` | tools/powerloss/replay.py:34-47 | no proper part of a record reads as a record |
| `LogFormat.Records` | tools/powerloss/replay.py:31-48 | the cursor loop reads the records of the recursive parser |
| `Replay.NoteRecords` | tools/powerloss/replay.py:54-65 | the bookkeeping loop is the fold of the four record kinds |
| `Replay.UndoFile` | tools/powerloss/replay.py:90-98 | undoes a file's pending records, last first |
| `Replay.ReplayLog` | tools/powerloss/replay.py:51-105 | rewinds every pending file and removes every created one, in whatever order the files are taken |
| `ShimMachine.Machine.constructor` | tools/powerloss/shim.c:127-160 | starts with an empty log, the files durable as they are |
| `ShimMachine.Machine.Emit` | tools/powerloss/shim.c:186-203 | appends one record's bytes, or nothing when the record would not fit the buffer |
| `ShimMachine.Machine.SaveRange` | tools/powerloss/shim.c:211-231 | the chunk loop logs exactly the records of the range as the file stands, without their bytes through a descriptor that cannot be read |
| `ShimMachine.Machine.Open` | tools/powerloss/shim.c:253-295 | the opened machine is the stepped one, with the access mode kept and a create record exactly for a new file |
| `ShimMachine.Machine.Write` | tools/powerloss/shim.c:297-307 | saves the range, then writes what the call took; a log that rewinds goes on doing so when the call is one it can rewind |
| `ShimMachine.Machine.PWriteAt` | tools/powerloss/shim.c:309-362 | the same at an explicit offset, which an append descriptor ignores |
| `ShimMachine.Machine.Truncate` | tools/powerloss/shim.c:364-381 | saves from the new length to the end, then truncates; likewise |
| `ShimMachine.Machine.Allocate` | tools/powerloss/shim.c:383-406 | saves what the mode can change, then allocates; likewise |
| `ShimMachine.Machine.Sync` | tools/powerloss/shim.c:408-420 | records a sync only when it succeeded, making the file durable |
| `ShimMachine.Machine.PowerCut` | tools/powerloss/replay.py:51-105 | replaying the machine's own log at any call boundary undoes what is pending in it, which gives the durable files when the log rewinds |
| `Base58.AlphabetText` | crates/dcroxide-base58/src/lib.rs:20 | the alphabet, built from runs of digits and letters, is the constant's 58 characters |
| `Base58.Encode` | crates/dcroxide-base58/src/lib.rs:129-185 | returns the base-58 text of the bytes' number with one leading 1 per leading zero byte, never storing past its buffer |
| `Base58.Decode` | crates/dcroxide-base58/src/lib.rs:38-125 | returns the bytes of a text over the alphabet and nothing for any other text, never storing past its buffer |
| `Base58.EncodeThenDecode` | crates/dcroxide-base58/src/lib.rs:38-185 | decoding an encoding gives the bytes back, for every byte string |
| `Base58.DecodeThenEncode` | crates/dcroxide-base58/src/lib.rs:38-185 | encoding a decoding gives the text back, for every text over the alphabet |
| `Base58.RebaseInverse` | crates/dcroxide-base58/src/lib.rs:38-185 | changing base and back, keeping leading zeros, is the identity |
| `Base58.Log58Of256` | crates/dcroxide-base58/src/lib.rs:136 | 256^100 is at most 58^137 |
| `Base58.Log256Of58` | crates/dcroxide-base58/src/lib.rs:54-64 | 58^64 is at most 256^47 |
| `Base58.EncodeRoom` | crates/dcroxide-base58/src/lib.rs:136 | n bytes always fit n * 137 / 100 + 1 base-58 digits |
| `Base58.DecodeRoom` | crates/dcroxide-base58/src/lib.rs:54-64 | n digits always fit n * 47 / 64 + 1 bytes |
| `Base58.LeadingZerosRoom` | crates/dcroxide-base58/src/lib.rs:174-180 | the digits and the leading 1s together fit the buffer |
| `Base58.ScaleAndAdd` | crates/dcroxide-base58/src/lib.rs:81-85 | the carry loop multiplies a limb array in place and adds, losing nothing to the returned carry |
| `Base58.PushCarry` | crates/dcroxide-base58/src/lib.rs:157-161 | pushing the carry's digits keeps the number exact and canonical |
| `Base58.EncodeDigits` | crates/dcroxide-base58/src/lib.rs:136-162 | the digit array is the canonical base-58 form of the whole input |
| `Base58.AddDigit` | crates/dcroxide-base58/src/lib.rs:81-94 | one step of the limb accumulation: 58 times the number plus the digit |
| `Base58.DecodeLimbs` | crates/dcroxide-base58/src/lib.rs:62-94 | succeeds exactly on alphabet texts, with the canonical 32-bit limbs of their number |
| `Base58.LimbBytes` | crates/dcroxide-base58/src/lib.rs:104-106 | the little-endian bytes of the limbs are the same number |
| `Base58.TrimBytes` | crates/dcroxide-base58/src/lib.rs:110-119 | cutting the high zero bytes leaves the canonical bytes |
| `Base58.CheckEncodeThenDecode` | crates/dcroxide-base58/src/lib.rs:220-252 | for any four-byte checksum, checked decoding inverts checked encoding |
| `Base58.CheckDecodeThenEncode` | crates/dcroxide-base58/src/lib.rs:220-252 | a text that decodes with its checksum is the encoding of what it decodes to |
| `Base58.CheckDecode` | crates/dcroxide-base58/src/lib.rs:235-252 | reports a text too short, a wrong checksum, or payload and version |
| `Base58.CheckEncode` | crates/dcroxide-base58/src/lib.rs:220-231 | encodes version, payload and their checksum |
| `AddrManagers.AddrManager.constructor` | crates/dcroxide-addrmgr/src/manager.rs:626-672 | a fresh manager satisfies the bucket invariant |
| `AddrManagers.AddrManager.AddOrUpdateAddress` | crates/dcroxide-addrmgr/src/manager.rs:704-789 | keeps the bucket invariant; an unroutable address changes nothing, a new one gets a record with its source and no history and is put in its bucket, a known one gains the services, and the timestamp when that is later or brings a service, and nothing else of its record but the reference changes; a known one is put in one more bucket if and only if it is not tried, has fewer than 8 references, draws 0 below twice its references and is not in that bucket; the changed flag is set exactly when it is put in one; tried buckets and, else, new buckets stay |
| `AddrBooks.AddedMeans` | crates/dcroxide-addrmgr/src/manager.rs:704-789 | what adding an address does to its own record, field by field, and to the buckets |
| `AddrManagers.AddrManager.ExpireNew` | crates/dcroxide-addrmgr/src/manager.rs:794-847 | takes out exactly the bad addresses and the oldest other one, forgetting those whose last reference it was, and keeps the invariant |
| `AddrManagers.AddrManager.Good` | crates/dcroxide-addrmgr/src/manager.rs:1101-1204 | keeps the invariant; an unknown address is an error and changes nothing, of a known one, attempts are 0, both times are now and nothing else of its address or source changes; a tried one stays where it is, a new one leaves every new bucket for its tried bucket, and exactly then the changed flag is set; no address is forgotten; the exit for an address not marked new is never taken |
| `AddrBooks.PromotedSelf` | crates/dcroxide-addrmgr/src/manager.rs:1124-1204 | a moved address is in its tried bucket and no new one, tried with no references, and no address is forgotten |
| `AddrManagers.AddrManager.Promote` | crates/dcroxide-addrmgr/src/manager.rs:1124-1204 | a new address leaves all its new buckets for its tried bucket, evicting when that is full |
| `AddrManagers.AddrManager.Evict` | crates/dcroxide-addrmgr/src/manager.rs:1163-1203 | the oldest tried address goes to its own new bucket if that has room and else to the first bucket the promoted address left, so new buckets never exceed 65 |
| `AddrManagers.AddrManager.GetOldestAddressIndex` | crates/dcroxide-addrmgr/src/manager.rs:851-862 | the first position of the least timestamp |
| `AddrManagers.AddrManager.RemoveFromNew` | crates/dcroxide-addrmgr/src/manager.rs:803-815 | one entry out of a bucket, and out of the index with its last reference |
| `AddrManagers.AddrManager.ClearNewBuckets` | crates/dcroxide-addrmgr/src/manager.rs:1124-1140 | takes the address out of every new bucket and finds the first that held it |
| `AddrBooks.PutNewInv` | crates/dcroxide-addrmgr/src/manager.rs:784-788 | putting an address in one more bucket keeps the invariant: references count holders, 1 to 8 of them, statistics equal contents, counters are exact |
| `AddrBooks.RemoveNewInv` | crates/dcroxide-addrmgr/src/manager.rs:803-815 | taking an address out of a bucket keeps the invariant, the address being forgotten with its last reference |
| `AddrBooks.PutTriedInv` | crates/dcroxide-addrmgr/src/manager.rs:1154-1161 | promotion into a bucket with room keeps the invariant |
| `AddrBooks.SwapTriedInv` | crates/dcroxide-addrmgr/src/manager.rs:1180-1195 | replacing a tried address keeps the invariant but for the replaced one, which is left to place |
| `AddrBooks.EvictedFits` | crates/dcroxide-addrmgr/src/manager.rs:1174-1203 | the replaced address fits the bucket chosen for it and the invariant is restored |
| `AddrBooks.PlacedMeans` | crates/dcroxide-addrmgr/src/manager.rs:773-847 | placing adds one holder; of the others the expired ones lose that bucket, and an address is forgotten exactly when it had no other |
| `AddrBooks.PromotedMeans` | crates/dcroxide-addrmgr/src/manager.rs:1101-1161 | after a promotion with room the address is tried in one place and new in none, the counters move by one, every other address is unchanged |
| `AddrBooks.EvictedMeans` | crates/dcroxide-addrmgr/src/manager.rs:1164-1203 | after a promotion with eviction the oldest tried address is new in exactly one bucket, the counters are unchanged, every other address is unchanged |
| `AddrBooks.ExpiryMakesRoom` | crates/dcroxide-addrmgr/src/manager.rs:779-782 | expiry leaves a bucket smaller than it was |
| `AddrBooks.StatsAdd` | crates/dcroxide-addrmgr/src/manager.rs:424-442 | below 2^16 members the wrapping counters follow the contents exactly, both ways |
| `AddrManagers.AddrManager.GetAddress` | crates/dcroxide-addrmgr/src/manager.rs:924-1038 | returns an address of a wanted type exactly when one is known; no draw is from an empty range, every pick is found, and there are at most 27 rounds whatever the randomness |
| `AddrManagers.AddrManager.DrawUntilChosen` | crates/dcroxide-addrmgr/src/manager.rs:965-1037 | the retry loop ends within 27 rounds with a filed address of a wanted type |
| `AddrManagers.AddrManager.NthTried` | crates/dcroxide-addrmgr/src/manager.rs:978-990 | finds the address with exactly n wanted ones before it |
| `AddrManagers.AddrManager.NthNew` | crates/dcroxide-addrmgr/src/manager.rs:1015-1027 | finds a wanted address of the bucket in whatever order it is walked |
| `AddrPick.TotalCounts` | crates/dcroxide-addrmgr/src/manager.rs:446-467 | a bucket's statistics total is the number of its wanted addresses, and they match exactly when there is one |
| `AddrPick.MatchingBuckets` | crates/dcroxide-addrmgr/src/manager.rs:942-957 | some statistic matches exactly when some known address is wanted |
| `AddrPick.FailedDraw` | crates/dcroxide-addrmgr/src/manager.rs:992-998 | a failed draw means fewer than 26 rounds went before, because the factor grows by 1.2 and the chance is at least 0.01 |
| `AddrPick.Chance` | crates/dcroxide-addrmgr/src/manager.rs:214-232 | the chance is at least 0.01, for every attempt count |
| `AddrPick.ChanceSteps` | crates/dcroxide-addrmgr/src/manager.rs:214-232 | an address never or recently attempted has chance 0.01; any other has 1 for no attempts, and one more attempt divides it by 1.5, down to 0.01 |
| `AddrPick.ChanceFalls` | crates/dcroxide-addrmgr/src/manager.rs:214-232 | more attempts never raise it |
| `AddrPick.MatchingIndexes` | crates/dcroxide-addrmgr/src/manager.rs:942-949 | lists exactly the matching buckets, in order |
| `AddrManagers.AddrManager.SavePeers` | crates/dcroxide-addrmgr/src/manager.rs:1381-1424 | writes a file that lists every address once, every new bucket's keys once and the tried buckets in order, or nothing exactly when nothing changed; each record holds the address, its source, its attempts and its three times in whole seconds, an unset one as the zero time |
| `AddrFile.ListsSaved` | crates/dcroxide-addrmgr/src/manager.rs:1381-1415 | each saved record is an indexed address's, field by field, and each indexed address has exactly one |
| `AddrManagers.AddrManager.DeserializePeers` | crates/dcroxide-addrmgr/src/manager.rs:1476-1593 | loads the books the file describes step by step, stopping where it is malformed |
| `AddrManagers.AddrManager.LoadPeers` | crates/dcroxide-addrmgr/src/manager.rs:1435-1442 | a file saved by a well-formed manager restores its key and books, and of every address the attempts, source, references, tried flag and both times to the second; after a failed load the manager is empty and well-formed if and only if the version is wrong, the address list is malformed, no key is listed in the buckets read, or the first key listed in them is not among the addresses |
| `AddrManagers.AddrManager.Reset` | crates/dcroxide-addrmgr/src/manager.rs:661-672 | empties the manager and leaves its counters |
| `AddrFile.SaveThenLoad` | crates/dcroxide-addrmgr/src/manager.rs:1381-1593 | loading what was saved succeeds, passes the sanity checks and restores index keys, bucket membership, statistics and counters, and of every address its text, source, attempts, references and tried flag as they were and each time unset exactly when it was unset, else rounded down to the second; only its timestamp and services are the parser's, since the code reads none back |
| `AddrFile.RestoredReadBack` | crates/dcroxide-addrmgr/src/manager.rs:1476-1593 | the books a saved file describes hold these fields, address by address |
| `AddrFile.TimeRestored` | crates/dcroxide-addrmgr/src/manager.rs:1829-1834 | an unset time stays unset; a set one comes back rounded down to the second, except in the first partial second of the 64-bit range, where it comes back as that range's least value |
| `AddrFile.CountsNothing` | crates/dcroxide-addrmgr/src/manager.rs:1476-1593 | for every file, a load leaves both counters zero if and only if the version is wrong, the address list is malformed, no key is listed in the buckets read, or the first key listed in them is not among the addresses |
| `AddrFile.MalformedMiscounts` | crates/dcroxide-addrmgr/src/manager.rs:653-672 | a concrete malformed file leaves a counter at one over an empty index |
| `Base32.Base32Lower` | crates/dcroxide-addrmgr/src/network.rs:322-344 | the text is the base-32 form of the same number as the bytes filled up to whole groups, with padding for the digits past the data |
| `Base32.Base32StdDecode` | crates/dcroxide-addrmgr/src/network.rs:351-368 | decodes exactly the alphabet texts of whole groups, to the bytes of the same number |
| `Base32.EncodeGroup` | crates/dcroxide-addrmgr/src/network.rs:325-342 | one group's characters and padding |
| `Base32.DecodeGroup` | crates/dcroxide-addrmgr/src/network.rs:357-365 | eight characters to the five bytes of the same number |
| `Base32.PaddedDigitsZero` | crates/dcroxide-addrmgr/src/network.rs:334-341 | the digits that padding replaces are zeros, so padding loses nothing |
| `Base32.PrintThenRead` | crates/dcroxide-addrmgr/src/network.rs:322-368 | whole groups read back as the bytes printed |
| `Base32.ReadThenPrint` | crates/dcroxide-addrmgr/src/network.rs:322-368 | a text that reads is, up to case, what its bytes print as |
| `OnionText.SplitExact` | crates/dcroxide-addrmgr/src/seed.rs:247-302 | splitting succeeds exactly on the two forms of host and port, with exactly their parts |
| `OnionText.JoinThenSplit` | crates/dcroxide-addrmgr/src/netaddress.rs:69-76 | a joined host and port split into themselves |
| `OnionText.ParsePort` | crates/dcroxide-addrmgr/src/seed.rs:446-467 | a port is the decimal value of a non-empty digit string up to 65535; a number too large is reported before any later character |
| `OnionText.PortText` | crates/dcroxide-addrmgr/src/netaddress.rs:69-76 | a printed port is a digit string of that value |
| `OnionText.OnionHost` | crates/dcroxide-addrmgr/src/netaddress.rs:43-55 | prints public key, checksum and version, cutting or filling the address to 32 bytes |
| `OnionText.Key` | crates/dcroxide-addrmgr/src/netaddress.rs:69-76 | the address text is host, colon and port |
| `OnionText.EncodeHost` | crates/dcroxide-addrmgr/src/netaddress.rs:213-245 | finds the public key of every printed onion host, for any checksum, and takes no text for an onion host that is not one up to case; any other text is what the IP parser makes of it, a mapped IPv4 address as IPv4, unknown when it is none |
| `OnionText.FromText` | crates/dcroxide-addrmgr/src/manager.rs:1355-1378 | every onion key and port reads back from its text as that key and port; any other text is read exactly when it is a host the IP parser knows and a port in range, in one of the two forms, and then as these; an unknown host is an error |
| `Merkle.RootAndInnerNodes` | crates/dcroxide-blockchain/src/blockhashes.rs:1255-1271 | the level walk computes the root of the tree of least depth and counts its inner nodes |
| `Merkle.RootIsTree` | crates/dcroxide-blockchain/src/blockhashes.rs:1255-1271 | level by level and from the top down are the same root, for any pair hash |
| `Merkle.TreeLevel` | crates/dcroxide-blockchain/src/blockhashes.rs:1258-1268 | one level of the walk is one level of the tree |
| `Merkle.InnerNodesOf` | crates/dcroxide-blockchain/src/blockhashes.rs:1275-1282 | counts the inner nodes, at most n - 1 plus the ceiling of log2 n |
| `Merkle.InnerNodesBound` | crates/dcroxide-blockchain/src/blockhashes.rs:397-416 | a tree of n leaves has between n - 1 and n - 1 plus the ceiling of log2 n inner nodes |
| `Merkle.InnerNodesLeast` | crates/dcroxide-blockchain/src/blockhashes.rs:397-416 | n - 1 is met exactly by powers of two |
| `Merkle.WithRepeatedTail` | crates/dcroxide-blockchain/src/blockhashes.rs:1396-1407 | repeats the last 2^j leaves at the first odd level j; returns nothing exactly for no leaves and for a power of two of them |
| `Merkle.RepeatedTailTransactions` | crates/dcroxide-blockchain/src/blockhashes.rs:1391-1407 | for any leaf and pair hash, transactions with their tail repeated have the root they had without |
| `Merkle.RepeatedTailRoot` | crates/dcroxide-blockchain/src/blockhashes.rs:1391-1407 | the repeated list is longer and has the same root, for any pair hash |
| `Merkle.PowerHasNoTail` | crates/dcroxide-blockchain/src/blockhashes.rs:1391-1395 | a power of two has no odd level to repeat at |
| `SpendJournal.SerializeSpendJournalEntry` | crates/dcroxide-blockchain/src/chainio.rs:403-420 | fills a buffer of exactly the right size with the outputs' encodings, last first; nothing for no outputs |
| `SpendJournal.DeserializeSpendJournalEntry` | crates/dcroxide-blockchain/src/chainio.rs:427-500 | reads the outputs against the inputs from last to first; on success the slots written are, in this order, the last down to the first, each once; an empty journal is valid only for no outputs |
| `SpendJournal.JournalReadBack` | crates/dcroxide-blockchain/src/chainio.rs:403-500 | for any codec that decodes its own output from the front of a longer buffer, the journal of outputs aligned with the inputs reads back as those outputs |
| `SpendJournal.CountOutputs` | crates/dcroxide-blockchain/src/chainio.rs:431-445 | one output for each input, one for each vote: as many as there are spending inputs |
| `SpendJournal.SpendingAt` | crates/dcroxide-blockchain/src/chainio.rs:431-445 | the spending inputs are, transaction by transaction in order, a vote's second input alone and all of any other transaction's inputs |
| `SpendJournal.ReadTx` | crates/dcroxide-blockchain/src/chainio.rs:474-497 | reads one transaction's outputs into their slots, each once and downward, skipping a vote's stakebase |
| `Agendas.MakeAgendas` | crates/dcroxide-blockchain/src/agendas.rs:820-878 | succeeds exactly on distinct deployments with disjoint masks and usable choices and acceptable activations; then it has exactly the deployed and required agendas, and each says what its deployment and activation say |
| `Agendas.AgendaSays` | crates/dcroxide-blockchain/src/agendas.rs:671-781 | a forced no gives a failed agenda and any other usable forced choice an active one, only off the main network and with no deployment; without a forced choice the agenda has its deployment and, when an activation is given whose choice is not no, exactly that activation; an agenda that is not deployed is defined on the main network and active elsewhere |
| `Agendas.DeploymentOkMeans` | crates/dcroxide-blockchain/src/agendas.rs:671-696 | a deployment is acceptable exactly when its choices are usable and a forced choice, off the main network only, names one that is not an abstention |
| `Agendas.EntryOkMeans` | crates/dcroxide-blockchain/src/agendas.rs:762-781 | an activation is acceptable exactly when its deployment exists, has no forced choice, and the choice named is one that is not an abstention |
| `Agendas.CollectDeployments` | crates/dcroxide-blockchain/src/agendas.rs:825-862 | succeeds exactly on acceptable deployments, with each one's agenda under its id |
| `Agendas.AttachAll` | crates/dcroxide-blockchain/src/agendas.rs:864-872 | succeeds exactly when every activation is acceptable; each agenda ends with the last one given for it |
| `Agendas.LookupRefines` | crates/dcroxide-blockchain/src/agendas.rs:905-925 | on an acceptable table with distinct ids the lookup returns the map's own agenda for every id in the map and the unknown-agenda error for every other |
| `Agendas.LookupUnknown` | crates/dcroxide-blockchain/src/agendas.rs:905-925 | on any acceptable table an id not in the map is unknown to the lookup |
| `Agendas.LookupAgrees` | crates/dcroxide-blockchain/src/agendas.rs:399-407 | on any acceptable table the two agree on an agenda exactly when it has no activation or its first and last resolve alike |
| `Agendas.RepeatedIdDiffers` | crates/dcroxide-blockchain/src/agendas.rs:399-407 | a table that repeats an id can make them differ: concrete parameters and a concrete table that the map accepts |
| `Agendas.RepeatedId` | crates/dcroxide-blockchain/src/agendas.rs:820-925 | the map is built from them, and the lookup gives another agenda |
| `Agendas.AttachAgain` | crates/dcroxide-blockchain/src/agendas.rs:762-781 | attaching replaces what was attached before |
| `Agendas.DeploymentAgenda` | crates/dcroxide-blockchain/src/agendas.rs:671-696 | an agenda without a forced state has a deployment, so attaching an activation always finds one |

## Left out

- BlockIndexes.BlockIndex.AcceptBlockData: requires the block to have a parent and not to wait under it already, as block processing guarantees.
- BlockIndexes.BlockIndex.AddNode: requires a new node under a new hash with an indexed parent, as its callers guarantee.
- BlockIndexes.BlockIndex.MarkBlockFailedValidation: promises the best header and the best invalid block only while work sums stay below 2^256.
- AddrManagers.AddrManager.constructor: takes a tried bucket size from 1 to 65535, where the code's is 256.
- AddrManagers.AddrManager.LoadPeers: is for a fresh manager, and says nothing of well-formedness after a file that loads but was not saved by a manager, since repeated keys in a bucket are accepted.
- AddrManagers.AddrManager.GetAddress: uses real numbers for the factor and chance, so rounding of doubles is not modelled.
- AddrManagers.AddrManager.DrawUntilChosen: likewise.
- AddrPick.FailedDraw: likewise.
- AddrPick.Chance: likewise, with a real power for the floating-point one.
- AddrPick.ChanceSteps: likewise.
- AddrPick.ChanceFalls: likewise.
- OnionText.EncodeHost: takes the parser of IP address text as an arbitrary function.
- OnionText.FromText: likewise.
- AddrFile.SaveThenLoad: assumes that the address parser reads back every text the books print; the JSON text and the file operations are not modelled.
- Agendas.MakeAgendas: takes the check of a vote's choices as an arbitrary predicate.
- SpendJournal.JournalReadBack: takes the codec of a single spent output as arbitrary functions; variable-length integers and script compression are not modelled.
- Shim.PowerLoss: takes fstat, and reads through a descriptor that can be read, to succeed.
- ShimMachine.Machine.Write: the vectored forms write the concatenation of their buffers and are not modelled apart; injected write failures are the failing outcome of a write.
- Power-loss shim: unlink, rename, opens with O_TRUNC, untracked descriptors, threads, and a kill between a sync or an open and its record (other than inside that record) are not modelled; paths are shorter than PATH_MAX and valid UTF-8.
- Address manager: attempt, connected and set_services change one record and are covered by RefiledInv; local addresses, reachability and the address cache are not modelled.
- Block index: block reconsideration, threshold-state and stake-version caches, and past median time.
- The hash functions, the historical activation tables and the network parameters.
- The rest of the node: wire protocol, script engine, mempool, database, RPC and peers.
