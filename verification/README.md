# A verified model of the chain, the certificate repository and the ledger

This project models, in Dafny 4.11, the parts of the repository where state has to stay consistent over long runs, and
proves what they keep. The nodes, stores, pools, caches, trees, tasks and account tables are classes whose methods
change them in place; each method is tied to a specification function or to an invariant, and the laws are lemmas
about those.

- **The chain node.** Blocks arrive in any order. `BlockChains.BlockChain.ProcessBlock` pools, accepts, drains and
  reorganises; `ChainViews`, `BlockStores`, `SequenceLog`, `TxCaches` and `OrphanPools` are the structures it keeps in
  step, and `ForkChoice` says which blocks a node must hold and which tip it must choose. The node's invariant says
  that the view, the height index, the total difficulties, the sequence log, the block cache and the transaction cache
  all describe the same parent-linked best chain. It holds between any two calls, whatever failed before. The ghost
  set `received` is the history of a run and the ghost flag `clean` records that nothing has gone wrong in it.
- **The authenticated repository.** `Trie` is the hexary certificate trie as a value, with its digests and proofs;
  `Mpt` is the linked tree the program builds, proved equal to it; `Repositories` is the platform with its tree, proof
  and root caches, the serialised management updates against the root on chain, and authentications whose steps may
  interleave with the updates in any way. A digest is a datatype that remembers what it was taken of: a collision-free
  hash.
- **The baseline's binary Merkle tree** is in `BinaryMerkle`, with odd levels pairing their last node with itself.
- **The request plan.** `Apportionment` is the largest-remainder allocator over reals, `Interleaving` the smooth
  weighted interleaver, and `Sorting` the stable sort both use.
- **The ledger.** `AccountDBs` runs every operation over one flat key-value store; `Addresses` shows that flat keys
  tell accounts apart; `Ledgers` turns operations into postings and proves supply and backing over runs.
- **Range download** is in `Downloads`, **chunk archiving** in `Chunks`, and facts about products in `Arithmetic`.

## What the code does not keep

Where the code falls short of what its comments or its callers expect, the model follows the code and the exact
condition is proved.

- The orphan pool's comment promises a limit. After an addition it holds exactly when there was room or the remembered
  oldest orphan can still be evicted (`OrphanPools.OrphanPool.AddOrphanBlock`); `OrphanPools.StaleOldestOverflows`
  reaches a pool that breaks it. The orphan evicted is one that expires first, unless it came back while its earlier
  stay was remembered (`OrphanPools.ReturnedIsEvicted` is a run).
- Rolling the transaction cache back reads transactions at another height than they were added at. It undoes an
  addition exactly when the fork height does not fall in between (`TxCaches.DelIsExactIff`;
  `TxCaches.RollbackLeavesKey` is a chain where it does).
- The duplicate check is sound exactly when no tx-height transaction packed below the fork height may still be packed
  (`TxCaches.CheckIsSoundIff`; `TxCaches.DuplicateAcrossFork` is a chain with a transaction twice). Neither happens on
  a node that received no such transaction up to the fork height (`BlockChains.BlockChain.NoDuplicates`).
- When a block does not execute in the middle of a reorganisation, the best chain stays at a proper prefix of the new
  path. It can be lighter than the old chain (`Blocks.FailureLightens`), and cannot, wherever it stops, exactly when
  the fork is as heavy as the old tip (`Blocks.StopsNoLighterIff`). On a clean node it is never heavier
  (`BlockChains.BlockChain.AcceptOrphan`).
- A pooled block with a wrong height stops the draining, and what was not handed over stays pooled
  (`BlockChains.BlockChain.ProcessOrphans`, with `BlockChains.SiblingStaysBehind` as a run).
- Deleting a block from the database returns -1 as its sequence number although the log has grown, and that is what
  subscribers are told (`BlockStores.BlockStore.DelBlock`, `BlockStores.BlockStore.RevertBlock`).
- A block cache whose two sizes are equal never evicts a body (`BlockStores.BlockCache.AddBlock`).
- A move between two spellings of one address inside a contract creates funds, because both accounts are read before
  either is written (`Ledgers.InsideSparesIff`, with `AccountDBs.InsideMoveCreates` as a run). A withdrawal between
  two spellings panics half way, with the debit written (`AccountDBs.AccountDB.TransferWithdraw`, with
  `AccountDBs.WithdrawalPanics` as a run). So does a genesis deposit with an invalid amount or of a contract into
  itself, with the contract credited (`AccountDBs.AccountDB.GenesisInitExec`).
- A binary Merkle proof shorter than the tree is deep shows nothing, whatever its length
  (`BinaryMerkle.ShortProofForges`). Over leaves of plain bytes, accepted proofs of one length show membership exactly
  when the length is at least the depth (`BinaryMerkle.SoundFromDepthOn`); longer proofs are never accepted
  (`BinaryMerkle.LongProofRejected`).
- A download task is idle as soon as its window is complete, before the callback of that window has run, and callers
  only look at the task. Such a leftover callback, run while the next session's window is running, asks for nothing
  and moves the remainder past a window nobody asks for. A session started with the task idle that is not given up has
  every height at the end, however the events are timed, exactly when nothing was left over or one window is enough:
  `Downloads.Downloader.ProcDownLoadBlocks` and `Downloads.Downloader.NothingSkipped` are one half,
  `Downloads.Overtaken` is the other. `Downloads.LeftoverSession` decides each kind of leftover, and
  `Downloads.IdleStartSkips` is a run.
- A download session started while a window is running does not ask for its first window at the start. The window is
  lost when the running one completes (`Downloads.BusyStartSkips`) and asked for when that one times out below it
  (`Downloads.BusyStartRecovers`); with no callback pending, `Downloads.BusySession` says exactly when. The last
  window of a session has no timeout callback (`Downloads.Downloader.TimerFires`).
- Keys of different accounts can coincide when addresses are not clean. A main key meets a sub-account's exactly when
  the address starts with `exec-` and has a colon after that (`Addresses.MainMeetsSubIff`), and a sub-account's key
  meets another's exactly when its contract or its address has a colon (`Addresses.SubMeetsSubIff`).
- The local-body guarantee holds exactly while the tip is at most a chunk, the reserve and one block below its peak
  (`Chunks.DropIsSafeIff`).

## Model

| member | source | states |
|---|---|---|
| BlockChains.BlockChain.StoresAgree | omnilink/omnilink-base/blockchain/blockstore.go:562-653 | In every state a run can reach: height→hash has domain 0 to the tip and names the best chain, last height and last block are the tip, exactly the indexed blocks have a total difficulty and it is the sum of the work of the blocks on their path, replaying the sequence log gives the best chain, and last sequence = tip height + 2 × deletes |
| BlockChains.BlockChain.LogDeterminesChain | omnilink/omnilink-base/blockchain/blockstore.go:998-1052 | The sequence log replays to the best chain and to no other |
| BlockChains.BlockChain.AcceptsExactlyLinked | omnilink/omnilink-base/blockchain/process.go:24-261 | While nothing has failed, the accepted set is exactly the received blocks linked to genesis through received blocks, and no linked block's path has more work than the best chain |
| BlockChains.BlockChain.NodesAgree | omnilink/omnilink-base/blockchain/process.go:195-261 | Two nodes fed the same blocks in whatever order hold the same blocks, and their best chains have the same work |
| BlockChains.BlockChain.NoDuplicates | omnilink/omnilink-base/blockchain/cache.go:132-249 | For any fork height: while no received block from height 1 up to it carries a transaction with a tx height, in every reachable state no transaction is twice on the best chain, the cache is exactly the tx-height window of its newest blocks, and the transaction index is exactly its transactions |
| BlockChains.BlockChain.ProcessBlock | omnilink/omnilink-base/blockchain/process.go:24-104 | Which blocks are refused as known, which become orphans and which are accepted, both directions; the main-chain answer is given only to an accepted block that is on the best chain and extended it or may outweigh it, and refused only to one that did not extend it and has no more work; every invariant of the node survives every call, whatever fails; a run stays clean unless execution, a drained block's height, the view window or the pool interferes |
| BlockChains.BlockChain.MaybeAddBestChain | omnilink/omnilink-base/blockchain/process.go:107-128 | Refuses known blocks and nothing else as known; accepts a block and drains its pooled descendants, which never take it off the best chain; the main-chain answer as in ProcessBlock |
| BlockChains.BlockChain.BlockExists | omnilink/omnilink-base/blockchain/process.go:131-145 | The two-store lookup answers true exactly for indexed blocks |
| BlockChains.BlockChain.MaybeAcceptBlock | omnilink/omnilink-base/blockchain/process.go:148-193 | The parent and height errors, each exactly when; otherwise exactly this block joins the index and the database; refused blocks change nothing; the main-chain answer is the outcome against the work of the best chain; a failed execution leaves a tip that was indexed before |
| BlockChains.BlockChain.StoreAndIndex | omnilink/omnilink-base/blockchain/process.go:163-183 | Database and index grow by the same block and all parts still agree |
| BlockChains.BlockChain.ConnectBestChain | omnilink/omnilink-base/blockchain/process.go:196-261 | The best chain becomes the block's whole path only when it extends the tip, has more summed work, or as much at the same height with the comparison enabled; it stays only when the block's path has no more work; after a failed execution it is a proper prefix of the path no shorter than the fork, and no lighter than before when the fork was as heavy as the tip |
| BlockChains.BlockChain.IsSideChain | omnilink/omnilink-base/blockchain/process.go:214-235 | The verdict against the sums of work of the two paths: a side chain has no more work; a block that is not one has more, or as much at the same height with the comparison enabled |
| BlockChains.BlockChain.ReorganizeChain | omnilink/omnilink-base/blockchain/process.go:528-603 | Success leaves exactly the path; failure a proper prefix at least as long and as heavy as the fork; the log gains exactly the pops tip first and then the pushes in order |
| BlockChains.BlockChain.Reorganize | omnilink/omnilink-base/blockchain/process.go:251-260 | Ends at the block's path, at a proper prefix above the fork when a block does not execute, or unchanged exactly when the fork lies below the view |
| Blocks.StopsNoLighterIff | omnilink/omnilink-base/blockchain/process.go:574-584 | A reorganisation that stops half way can leave no lighter tip, wherever it stops, if and only if the fork is as heavy as the old tip |
| Blocks.FailureLightens | omnilink/omnilink-base/blockchain/process.go:574-584 | Two concrete branches where stopping before the last block leaves a lighter chain |
| Blocks.TdIsWork | omnilink/omnilink-base/blockchain/blockstore.go:937-950 | The running total of own work and parent total is the sum of the work of all blocks on the path |
| BlockChains.BlockChain.DetachBlocks | omnilink/omnilink-base/blockchain/process.go:562-572 | Pops exactly the listed suffix, with the view a linked path after every pop |
| BlockChains.BlockChain.AttachBlocks | omnilink/omnilink-base/blockchain/process.go:574-584 | Pushes in order and stops at the first block that does not execute, with every store in step at that point |
| BlockChains.BlockChain.LoadBlocks | omnilink/omnilink-base/blockchain/process.go:528-560 | Loading never fails: every node to detach or attach has its block in the cache or the database |
| BlockChains.BlockChain.LoadBlockByHash | omnilink/omnilink-base/blockchain/process.go:500-525 | The cache-first lookup returns the block of that hash, and misses no stored one |
| BlockChains.BlockChain.ConnectBlock | omnilink/omnilink-base/blockchain/process.go:264-409 | Either the block is pushed onto the view, both caches, the database and the log together, or nothing changes; refused exactly when its parent is not the tip |
| BlockChains.BlockChain.DisconnectBlock | omnilink/omnilink-base/blockchain/process.go:412-478 | Pops the tip from view, caches, database and log together; refuses exactly the blocks that are not the tip |
| BlockChains.BlockChain.ExecBlock | omnilink/omnilink-base/util/util.go:286-352 | What a successful execution says about the block's transactions: distinct, unseen, and from the fork on within the two allowances around their tx height |
| BlockChains.BlockChain.ExecutedIsUnique | omnilink/omnilink-base/util/exec.go:156-199 | A block that executed adds no duplicate to the chain, unless a tx-height transaction packed below the fork height may still be packed |
| BlockChains.BlockChain.AcceptOrphan | omnilink/omnilink-base/blockchain/process.go:148-193 | A pooled block whose parent is indexed leaves the pool; it is a height error exactly when its height is wrong, and joins the accepted set otherwise; on a clean node a failed execution never leaves a heavier tip |
| BlockChains.BlockChain.DrainChildren | omnilink/omnilink-base/blockchain/orphanpool.go:214-241 | All pooled children of one hash are handed over although the list shrinks under the loop |
| BlockChains.BlockChain.ProcessOrphans | omnilink/omnilink-base/blockchain/orphanpool.go:207-243 | Terminates. Without an error it hands over exactly the pooled descendants of the hash, each once and after its parent. A height error means a pooled descendant has a wrong height, and such a descendant means an error; draining stopped there, and all not handed over stay pooled |
| BlockChains.BlockChain.NoOrphanWaits | omnilink/omnilink-base/blockchain/orphanpool.go:207-243 | While nothing has failed, no pooled block of the right height has an accepted parent |
| BlockChains.SiblingStaysBehind | omnilink/omnilink-base/blockchain/orphanpool.go:235-238 | A run in which a pooled block with a wrong height leaves its well-formed sibling pooled although their parent is accepted |
| BlockChains.BlockChain.AddOrphan | omnilink/omnilink-base/blockchain/process.go:96-100 | The node stays right when a block is pooled, and clean when the pool drops nothing |
| ForkChoice.AcceptedIsLinked | omnilink/omnilink-base/blockchain/process.go:85-128 | A set closed under acceptance and draining is exactly the received blocks linked to genesis |
| ForkChoice.LinkedIff | omnilink/omnilink-base/blockchain/process.go:85-128 | Linked means: descends from genesis with consecutive heights, and every block on the path was received |
| ForkChoice.ForkChoiceAgrees | omnilink/omnilink-base/blockchain/process.go:225-235 | Any two settled states over the same received blocks agree on the accepted set and the tip's total difficulty |
| ForkChoice.TipIsBest | omnilink/omnilink-base/blockchain/process.go:230-235 | No received linked block outweighs the tip of a settled node |
| ForkChoice.Accepted | omnilink/omnilink-base/blockchain/process.go:185-261 | Accepting one block, as new tip or on a side chain, leaves only its own children to be drained |
| ForkChoice.ChildrenDone | omnilink/omnilink-base/blockchain/orphanpool.go:219-240 | A hash without pooled children needs no more draining |
| ChainViews.Ancestor | omnilink/omnilink-base/blockchain/blockindex.go:87-98 | The node at that height on the path, and none for a height outside it |
| ChainViews.BlockIndex.AddNode | omnilink/omnilink-base/blockchain/blockindex.go:130-145 | The index and the queue gain exactly this node |
| ChainViews.IndexGrows | omnilink/omnilink-base/blockchain/process.go:177-183 | A child of an indexed node may be added: every node still descends from genesis through indexed nodes |
| ChainViews.ChainView.SetTip | omnilink/omnilink-base/blockchain/chainview.go:62-82 | A child of the tip becomes the tip and the oldest node leaves past the limit; any other node changes nothing; the view stays the newest part of a parent-linked path |
| ChainViews.ChainView.DelTip | omnilink/omnilink-base/blockchain/chainview.go:91-105 | The node at that height leaves map and queue, whichever it is; when it was the tip of a longer view, its parent becomes the tip and the lower end does not move |
| ChainViews.DroppedAt | omnilink/omnilink-base/blockchain/chainview.go:91-105 | Up to its first place in the queue nothing changes, that one place goes, and what follows moves up |
| ChainViews.ChainView.ContainsIff | omnilink/omnilink-base/blockchain/chainview.go:130-146 | A node is contained exactly when its block is on the best chain, at a height still in the view |
| ChainViews.ChainView.HaveBlockIff | omnilink/omnilink-base/blockchain/chainview.go:192-202 | A hash is found at a height exactly when it is the best chain's block there and still in the view |
| ChainViews.ChainView.FindFork | omnilink/omnilink-base/blockchain/chainview.go:167-183 | The highest common ancestor with the best chain; null exactly when it lies below the view |
| ChainViews.ChainView.GetReorganizeNodes | omnilink/omnilink-base/blockchain/process.go:481-497 | Detach is the best chain above the fork tip first, attach the new path above it ascending |
| ChainViews.PathUp | omnilink/omnilink-base/blockchain/process.go:488-490 | Every node above the fork, ascending |
| ChainViews.PathDown | omnilink/omnilink-base/blockchain/process.go:492-494 | Every node above the fork, descending |
| Blocks.AgreeExactlyOnShared | omnilink/omnilink-base/blockchain/chainview.go:162-183 | Two block paths agree at a height exactly when it lies in their shared part, so the fork is one point |
| BlockStores.BlockStore.SaveBlock | omnilink/omnilink-base/blockchain/blockstore.go:562-597 | The block becomes the tip in every table and the log gains one add |
| BlockStores.BlockStore.DelBlock | omnilink/omnilink-base/blockchain/blockstore.go:619-653 | The tip leaves every table and the log gains one delete, while -1 is returned as its number |
| BlockStores.BlockStore.MaybeStoreBlock | omnilink/omnilink-base/blockchain/blockstore.go:905-965 | A new block is stored with the sum of the work of its path; a known one changes nothing; it fails only when the parent's total is missing |
| BlockStores.BlockStore.GetBlockHashByHeight | omnilink/omnilink-base/blockchain/blockstore.go:794-807 | Reading through the cache gives the best chain's hash, the same as the database |
| BlockStores.BlockStore.GetBlock | omnilink/omnilink-base/blockchain/chain.go:432-465 | Reading a block by height through both caches gives the best chain's block |
| BlockStores.BlockStore.SaveBlockSequence | omnilink/omnilink-base/blockchain/blockstore.go:998-1052 | One entry with the next number; only adds update the hash's number, which stays that of its latest add |
| BlockStores.BlockStore.CommitBlock | omnilink/omnilink-base/blockchain/process.go:320-378 | Everything a connected block writes: all tables, the total difficulty, the height and the last block; the log's newest number is returned |
| BlockStores.BlockStore.RevertBlock | omnilink/omnilink-base/blockchain/process.go:420-445 | Everything a disconnected block removes, with height and last block reloaded; -1 is handed on as the last sequence |
| BlockStores.BlockStore.CheckSequenceStatus | omnilink/omnilink-base/blockchain/blockstore.go:1237-1266 | The three verdicts exactly, and a store kept by these operations is always found in order |
| BlockStores.BlockCache.AddBlock | omnilink/omnilink-base/blockchain/cache.go:80-102 | Exactly the hash that leaves the window is forgotten, and no body but the one named by the hash that many below; with both sizes equal no body is ever evicted |
| BlockStores.BlockCache.DelBlock | omnilink/omnilink-base/blockchain/cache.go:105-119 | Exactly the tip leaves both maps and the rest still names the best chain |
| SequenceLog.LengthLaw | omnilink/omnilink-base/blockchain/blockstore.go:1237-1266 | The length of a replayable log is the chain's plus twice the deletes |
| SequenceLog.ReplayPush | omnilink/omnilink-base/blockchain/blockstore.go:998-1052 | Logging an add replays as a push |
| SequenceLog.ReplayPop | omnilink/omnilink-base/blockchain/blockstore.go:998-1052 | Logging a delete of the tip replays as a pop |
| SequenceLog.TablesAppend | omnilink/omnilink-base/blockchain/blockstore.go:1013-1050 | Numbers stay contiguous and hash→seq names the latest add |
| TxCaches.AddIsExact | omnilink/omnilink-base/blockchain/cache.go:160-178 | Adding a block keeps the cache equal to the tx-height transactions of the last lower+upper blocks |
| TxCaches.DelIsExactIff | omnilink/omnilink-base/blockchain/cache.go:181-205 | A rollback restores the window exactly when no fork height separates the tip or the returning block from the height it is read at |
| TxCaches.RollbackLeavesKey | omnilink/omnilink-base/blockchain/cache.go:181-205 | A linked chain whose rollback leaves a transaction in the cache that the chain no longer has |
| TxCaches.PlainIsHarmless | omnilink/omnilink-base/blockchain/cache.go:160-205 | When no block up to the fork height carries a tx height, every rollback is exact and the check is sound |
| TxCaches.CheckIsSoundIff | omnilink/omnilink-base/blockchain/query_tx.go:116-149 | Rejecting seen transactions keeps every child of the chain's last block duplicate-free exactly when no tx-height transaction packed below the fork can still be packed |
| TxCaches.InRangeIff | omnilink/omnilink-base/types/tx.go:614-634 | From the fork on a transaction with a tx height may be packed from the one allowance before its height to the other after it, any other anywhere |
| TxCaches.DuplicateAcrossFork | omnilink/omnilink-base/types/tx.go:614-634 | A linked chain over a plain genesis in which one transaction passes every check and is packed twice across the fork height |
| TxCaches.TxsKnownPush | omnilink/omnilink-base/blockchain/blockstore.go:728-743 | The transaction index follows a push |
| TxCaches.TxsKnownPop | omnilink/omnilink-base/blockchain/blockstore.go:746-764 | The transaction index follows a pop of a duplicate-free chain |
| TxCaches.TxHashCache.Add | omnilink/omnilink-base/blockchain/cache.go:160-178 | The cache moves forward one block and stays the window while the chain has no duplicate |
| TxCaches.TxHashCache.Del | omnilink/omnilink-base/blockchain/cache.go:181-205 | The cache moves back one block and stays the window exactly on steady steps, with no empty inner map |
| TxCaches.TxHashCache.AddTxList | omnilink/omnilink-base/blockchain/cache.go:207-224 | Exactly the tx-height transactions of the list are added |
| TxCaches.TxHashCache.DelTxList | omnilink/omnilink-base/blockchain/cache.go:226-237 | Exactly the tx-height transactions of the list are removed, and no empty inner map is left |
| TxCaches.TxHashCache.HasTx | omnilink/omnilink-base/blockchain/query_tx.go:116-122 | While the cache is faithful, the answer for the next block is the chain's: a tx-height transaction is seen exactly when it is in the window of the last lower+upper blocks, any other exactly when it is anywhere on the chain |
| TxCaches.TxHashCache.GetDuplicateTxHashList | omnilink/omnilink-base/blockchain/query_tx.go:125-149 | Exactly the listed transactions already seen, at increasing places of the list, once for each place; refused exactly when the lists do not match |
| OrphanPools.OrphanPool.AddOrphanBlock | omnilink/omnilink-base/blockchain/orphanpool.go:148-191 | Expired orphans go and the block is filed in both indexes; a fresh orphan that goes expires first of all, unless it is one that came back while its earlier stay was remembered; the documented limit on the pool holds exactly when there was room or an orphan could be evicted |
| OrphanPools.ReturnedIsEvicted | omnilink/omnilink-base/blockchain/orphanpool.go:164-174 | A run in which a full pool evicts the orphan that expires last: it came back while its earlier stay was remembered |
| OrphanPools.StaleOldestOverflows | omnilink/omnilink-base/blockchain/orphanpool.go:169-175 | A reachable pool one block over its limit: the remembered oldest orphan was already gone |
| OrphanPools.OrphanPool.ExpireOrphans | omnilink/omnilink-base/blockchain/orphanpool.go:155-167 | Exactly the unexpired orphans remain, none of them expires before the remembered one, and whether that one is among them |
| OrphanPools.OrphanPool.RemoveOrphanBlock | omnilink/omnilink-base/blockchain/orphanpool.go:115-140 | Both indexes lose exactly this block and its siblings keep their order |
| OrphanPools.OrphanPool.RemoveOrphanBlockByHash | omnilink/omnilink-base/blockchain/orphanpool.go:81-90 | Removes the block of that hash from both indexes, if pooled, and nothing else; its siblings keep their order |
| OrphanPools.OrphanPool.GetOrphanRoot | omnilink/omnilink-base/blockchain/orphanpool.go:60-77 | The top of the orphan's pooled ancestry: every block from the orphan up to it is pooled and its own parent is not |
| OrphanPools.RemovalKeepsPool | omnilink/omnilink-base/blockchain/orphanpool.go:115-140 | The two indexes stay mutually consistent under removal |
| OrphanPools.AdditionKeepsPool | omnilink/omnilink-base/blockchain/orphanpool.go:177-190 | The two indexes stay mutually consistent under addition |
| OrphanPools.Compact | omnilink/omnilink-base/blockchain/orphanpool.go:124-134 | The in-place removal loop is order-preserving filtering |
| OrphanPools.HandOne | omnilink/omnilink-base/blockchain/orphanpool.go:228-239 | Handing one child over keeps: each once, each after its parent, the rest waiting |
| OrphanPools.HandedAreDescendants | omnilink/omnilink-base/blockchain/orphanpool.go:207-243 | With an empty worklist, the handed blocks are exactly the pooled descendants of the root |
| Trie.RootsAgreeIffContentsAgree | blockchain/dpki-experiment/run-real-dpki-experiment.js:1372-1382 | Two repositories have equal roots if and only if their key→value maps are equal |
| Trie.Sound | blockchain/dpki-experiment/run-real-dpki-experiment.js:1405-1426 | Whatever the proof, a value accepted against a repository's root is the repository's value of that key |
| Trie.Complete | blockchain/dpki-experiment/run-real-dpki-experiment.js:1393-1426 | Every stored certificate verifies with the proof made for it |
| Trie.SamePathIff | blockchain/dpki-experiment/run-real-dpki-experiment.js:1339-1341 | Two keys take one path if and only if they agree character by character after an optional leading 0x or 0X and up to letter case, and the path has one step per character |
| Trie.VerifiesIffLast | blockchain/dpki-experiment/run-real-dpki-experiment.js:1352-1361 | Some proof of a listed certificate is accepted if and only if the last record with its key has its value, and then the repository's own proof is |
| Trie.EveryRecordVerifies | blockchain/dpki-experiment/run-real-dpki-experiment.js:1372-1426 | Certificates whose keys differ up to prefix and letter case all verify with the repository's own proofs: none overwrites another |
| Trie.AcceptsIff | blockchain/dpki-experiment/run-real-dpki-experiment.js:1405-1426 | Acceptance decided: the path exists, the expected value is the stored one, and the proof's leading items have the nodes' digests |
| Trie.TamperedProofRejected | blockchain/dpki-experiment/run-real-dpki-experiment.js:4029-4037 | Altering the value in the last item of an honest proof is rejected against any expectation |
| Trie.RootIgnoresOrder | blockchain/dpki-experiment/run-real-dpki-experiment.js:1372-1382 | Two lists of the same records, with no key twice, have the same root in whatever order they were inserted |
| Trie.RootIsInjective | blockchain/dpki-experiment/run-real-dpki-experiment.js:1343-1350 | Equal digests mean equal tries, sorted children included |
| Trie.PrunedIsCanonical | blockchain/dpki-experiment/run-real-dpki-experiment.js:1352-1361 | Tries grown by insertion are equal when they answer every lookup alike |
| Trie.BuildHoldsContents | blockchain/dpki-experiment/run-real-dpki-experiment.js:1372-1382 | The built tree answers every lookup with the last record of that normalised key |
| Trie.GetPut | blockchain/dpki-experiment/run-real-dpki-experiment.js:1352-1361 | Insertion is map update |
| Trie.ProveIsHonest | blockchain/dpki-experiment/run-real-dpki-experiment.js:1393-1403 | A proof exists exactly when the path does, one item per node, each with its node's digest |
| Mpt.InsertMpt | blockchain/dpki-experiment/run-real-dpki-experiment.js:1352-1361 | The in-place insertion into linked nodes is the map update of the trie value |
| Mpt.FinalizeMpt | blockchain/dpki-experiment/run-real-dpki-experiment.js:1363-1370 | Every node below carries the digest of its own subtrie, and no other node changed |
| Mpt.BuildMpt | blockchain/dpki-experiment/run-real-dpki-experiment.js:1372-1382 | The linked tree holds the repository's trie and its root is that trie's digest |
| Mpt.ProofNode | blockchain/dpki-experiment/run-real-dpki-experiment.js:1384-1391 | A node's value with its children's stored digests, by nibble, is the trie value's item |
| Mpt.MptProof | blockchain/dpki-experiment/run-real-dpki-experiment.js:1393-1403 | The walk collects exactly the honest proof and fails exactly when the path is missing |
| Mpt.VerifyMpt | blockchain/dpki-experiment/run-real-dpki-experiment.js:1405-1426 | The replay loop decides acceptance |
| Repositories.Platform.FinishUpdate | blockchain/dpki-experiment/run-real-dpki-experiment.js:2568-2585 | The mined update is applied: its record stands in the place of its subject's or at the end, every other record stays at its index and every other domain as it was; repository and chain agree again, and the check that follows never fails |
| Repositories.Platform.VerifyRepositoryUpdate | blockchain/dpki-experiment/run-real-dpki-experiment.js:1834-1858 | Passes exactly when the certificate is there, the list has the expected root and the key maps to it |
| Repositories.Platform.BeginUpdate | blockchain/dpki-experiment/run-real-dpki-experiment.js:2552-2567 | The root sent is that of the list with the record in its place and every other record at its index |
| Repositories.Platform.Mine | blockchain/dpki-experiment/run-real-dpki-experiment.js:2564-2567 | The chain's root moves to the version with the record in its place and every other record kept, while the repository still lags |
| Repositories.Platform.RejectUpdate | blockchain/dpki-experiment/run-real-dpki-experiment.js:2583-2585 | A refused transaction leaves repository, caches and chain in agreement |
| Repositories.Platform.ApplyUpdate | blockchain/dpki-experiment/run-real-dpki-experiment.js:2568-2572 | Replacing in place keeps every other record and domain; dropping the caches and setting the cached root restores agreement with the chain |
| Repositories.Platform.GetRepoTree | blockchain/dpki-experiment/run-real-dpki-experiment.js:1465-1471 | Cached or not, the tree is that of the repository as it is now |
| Repositories.Platform.GetRepoProof | blockchain/dpki-experiment/run-real-dpki-experiment.js:1473-1480 | Cached or not, the proof is the honest one for the repository as it is now |
| Repositories.Platform.DomainRootFromCache | blockchain/dpki-experiment/run-real-dpki-experiment.js:1939-1945 | Cached or not, the root is that of the repository as it is now |
| Repositories.Platform.InvalidateDomainCache | blockchain/dpki-experiment/run-real-dpki-experiment.js:415-421 | Exactly the domain's tree and the proofs under its prefix are dropped |
| Repositories.Platform.ForgetDomain | blockchain/dpki-experiment/run-real-dpki-experiment.js:2062-2063 | Forgetting a domain keeps all caches in agreement |
| Repositories.Platform.LocalProof | blockchain/dpki-experiment/run-real-dpki-experiment.js:1963-1974 | The proof handed out is honest and named with the root it belongs to |
| Repositories.Platform.DomainRootOnChain | blockchain/dpki-experiment/run-real-dpki-experiment.js:1932-1937 | The root read is that of the version committed under it |
| Repositories.Platform.ChainIsRepository | blockchain/dpki-experiment/run-real-dpki-experiment.js:2552-2585 | With no update in flight the root on chain is the repository's root |
| Repositories.Platform.FindCert | blockchain/dpki-experiment/run-real-dpki-experiment.js:1785-1789 | The first certificate of that subject, and none only when there is none |
| Repositories.UpdatesAgree | blockchain/dpki-experiment/run-real-dpki-experiment.js:2552-2570 | Building from a replaced copy and replacing in place give the same list: one longer exactly when the subject was absent, other records at their indices, and no record but those and the new one |
| Repositories.UpdateDetermines | blockchain/dpki-experiment/run-real-dpki-experiment.js:2552-2570 | Length, kept indices and membership leave only one list |
| Repositories.CacheKeyIsInjective | blockchain/dpki-experiment/run-real-dpki-experiment.js:1473-1476 | A proof cache key names one domain and one certificate key |
| Repositories.CachesFollow | blockchain/dpki-experiment/run-real-dpki-experiment.js:2568-2572 | After an update of one domain every cached tree, proof and root, its own and the others', is the repository's |
| Repositories.CheckPasses | blockchain/dpki-experiment/run-real-dpki-experiment.js:1834-1858 | A record just put in place passes the check |
| Repositories.AcceptedIsCertified | blockchain/dpki-experiment/run-real-dpki-experiment.js:2066-2072 | Acceptance against a version's root, whoever made the proof, certifies the record in that version |
| Repositories.QuietProofAccepted | blockchain/dpki-experiment/run-real-dpki-experiment.js:1963-1974 | With no update in flight, the proof of a stored record verifies against the root on chain |
| Repositories.AuthExecution.Decide | blockchain/dpki-experiment/run-real-dpki-experiment.js:2054-2098 | Success certifies the source in the version committed under the root that was read; a differing root starts over at most once, with everything cached for the domain forgotten |
| Repositories.AuthExecution.FindSource | blockchain/dpki-experiment/run-real-dpki-experiment.js:2038-2040 | The source is looked up in the repository as it is now; failing means it is not there |
| Repositories.AuthExecution.ReceiveRoot | blockchain/dpki-experiment/run-real-dpki-experiment.js:2044-2053 | The root read commits a known version of the repository |
| Apportionment.BuildKindPlan | blockchain/dpki-experiment/run-real-dpki-experiment.js:2683-2701 | The plan fills every slot and holds each kind as often as the floor or ceiling of its exact share |
| Apportionment.AllocateFixedCounts | blockchain/dpki-experiment/run-real-dpki-experiment.js:2627-2655 | Counts add up to the total for any weights, both correction loops end, and who gained or lost units is the remainder order |
| Apportionment.QuotaHolds | blockchain/dpki-experiment/run-real-dpki-experiment.js:2639-2646 | When the shares add up to the total, each count is within one of its share and the largest remainders get the extra units |
| Apportionment.ExtraHasRemainder | blockchain/dpki-experiment/run-real-dpki-experiment.js:2640-2646 | A row that gets an extra unit had a fractional share |
| Apportionment.ExtraGoesToLargest | blockchain/dpki-experiment/run-real-dpki-experiment.js:2640-2646 | Of two rows of which only one gets an extra unit, it has the larger fractional part, or the same one and the lower index |
| Apportionment.LeastIsTakenFirst | blockchain/dpki-experiment/run-real-dpki-experiment.js:2647-2653 | Of two rows of which one lost units while the other has some left, it has the smaller fractional part, or the same one and the higher index |
| Apportionment.DealOut | blockchain/dpki-experiment/run-real-dpki-experiment.js:2639-2646 | The surplus goes round after round in remainder order and the sum grows by exactly that |
| Apportionment.TakeBack | blockchain/dpki-experiment/run-real-dpki-experiment.js:2647-2653 | The excess is taken from the smallest remainders, one row emptied before the next, until the total is met |
| Apportionment.KindWeightsAddUp | blockchain/dpki-experiment/run-real-dpki-experiment.js:2694-2699 | The four fixed-mode weights are non-negative and add up to one |
| Apportionment.KindShares | blockchain/dpki-experiment/run-real-dpki-experiment.js:2694-2699 | Which kind has which share: management of all, cross-domain of the rest, on-chain of the requests inside a domain |
| Interleaving.EveryPrefixIsFair | blockchain/dpki-experiment/run-real-dpki-experiment.js:2657-2681 | After k of T slots with n kinds, kind i was used fewer than k·c/T + 1 times and at least k·c/T − (n − 1) times |
| Interleaving.NoneAhead | blockchain/dpki-experiment/run-real-dpki-experiment.js:2667-2677 | No score falls to minus the total |
| Interleaving.SlotAvailable | blockchain/dpki-experiment/run-real-dpki-experiment.js:2670-2675 | Until the total is reached a kind is always available |
| Interleaving.FullPlanIsExact | blockchain/dpki-experiment/run-real-dpki-experiment.js:2657-2681 | The full plan uses every kind exactly as often as its count |
| Interleaving.PlanIsUnique | blockchain/dpki-experiment/run-real-dpki-experiment.js:2670-2675 | The counts determine the plan |
| Interleaving.PickIsFurthestBehind | blockchain/dpki-experiment/run-real-dpki-experiment.js:2670-2675 | At every slot the kind picked is, among those not exhausted, the one furthest behind its share, the lowest index among equals |
| Interleaving.PlanMatchesRequest | blockchain/dpki-experiment/run-real-dpki-experiment.js:2657-2681 | The emitted plan has the requested length and holds each kind exactly as often as asked |
| Interleaving.InterleaveFixedPlan | blockchain/dpki-experiment/run-real-dpki-experiment.js:2657-2681 | The loop over score and used fields emits one slot per unit of the total; when kinds are distinct, every prefix of what it emits holds each kind within its share's bounds, and the whole plan exactly its count |
| Interleaving.EmittedPlanIsRight | blockchain/dpki-experiment/run-real-dpki-experiment.js:2657-2681 | Fairness and exactness carry over from picks to the kinds emitted |
| Interleaving.FillSlot | blockchain/dpki-experiment/run-real-dpki-experiment.js:2667-2678 | One slot picks the available kind of highest score, lowest index on ties, and keeps the fields true |
| BinaryMerkle.MerkleTree | experiments/baseline-comparison/prototype_baseline_benchmark/run_prototype_baseline_benchmark.js:447-461 | Each level pairs the one below, an odd last node with itself, up to a single root |
| BinaryMerkle.TreeHashes | experiments/baseline-comparison/prototype_baseline_benchmark/run_prototype_baseline_benchmark.js:447-461 | What is hashed: leaves at the bottom, above each pair its left node then its right one, or the left one twice at the end of an odd level |
| BinaryMerkle.MerkleProof | experiments/baseline-comparison/prototype_baseline_benchmark/run_prototype_baseline_benchmark.js:463-476 | One step per level, each from the node the path has reached |
| BinaryMerkle.VerifyMerkleProof | experiments/baseline-comparison/prototype_baseline_benchmark/run_prototype_baseline_benchmark.js:478-487 | The folding loop decides acceptance |
| BinaryMerkle.ProofVerifies | experiments/baseline-comparison/prototype_baseline_benchmark/run_prototype_baseline_benchmark.js:463-487 | For every tree and leaf index, odd levels included, the proof is as long as the tree is deep and verifies |
| BinaryMerkle.AcceptedIsLeaf | experiments/baseline-comparison/prototype_baseline_benchmark/run_prototype_baseline_benchmark.js:478-487 | Any accepted proof as long as the tree is deep shows that the leaf is in the list, at the position its sides spell |
| BinaryMerkle.HonestPosition | experiments/baseline-comparison/prototype_baseline_benchmark/run_prototype_baseline_benchmark.js:463-476 | An honest proof spells its own index |
| BinaryMerkle.ShortProofForges | experiments/baseline-comparison/prototype_baseline_benchmark/run_prototype_baseline_benchmark.js:478-487 | For every length below the depth there is an accepted proof of a leaf that is not in the list |
| BinaryMerkle.LongProofRejected | experiments/baseline-comparison/prototype_baseline_benchmark/run_prototype_baseline_benchmark.js:478-487 | Over leaves of plain bytes no proof longer than the tree is deep is accepted, for any leaf |
| BinaryMerkle.SoundFromDepthOn | experiments/baseline-comparison/prototype_baseline_benchmark/run_prototype_baseline_benchmark.js:478-487 | Among proofs of one length, acceptance shows membership if and only if the length is at least the depth of the tree, for lengths past the depth over leaves of plain bytes |
| Chunks.ChunksTile | omnilink/omnilink-base/blockchain/chunkshard.go:338-343 | Chunks tile the heights: each height is in its own chunk and in no other |
| Chunks.ChunkHoldsHeightIff | omnilink/omnilink-base/blockchain/chunkshard.go:338-343 | A height's chunk holds it exactly when it is not negative or is a chunk boundary |
| Chunks.SafeChunkIsDeep | omnilink/omnilink-base/blockchain/chunkshard.go:321-331 | Heights of chunks up to the safe one lie deeper than the rollback limit and the reserve |
| Chunks.SafeIff | omnilink/omnilink-base/blockchain/chunkshard.go:321-331 | A chunk is safe if and only if its last height lies deeper than the rollback limit and the reserve |
| Chunks.DeletedIsNotLocal | omnilink/omnilink-base/blockchain/blockstore.go:1651-1656 | A chunk behind the deletion margin is outside the range that must be local while the tip stays near its peak |
| Chunks.DropIsSafeIff | omnilink/omnilink-base/blockchain/blockstore.go:1651-1656 | For any drop of the tip below its peak: no deletable height has to be local, whatever the peak, the archived chunks and the height, if and only if the drop is at most a chunk, the reserve and one block |
| Chunks.Archive.CheckGenChunkNum | omnilink/omnilink-base/blockchain/chunkshard.go:68-87 | Archived chunks stay a prefix, each deeper than the rollback limit and the reserve; unless one failed, archiving stops only after a batch or when the next chunk is not that deep |
| Chunks.Archive.CheckDeleteBlockBody | omnilink/omnilink-base/blockchain/chunkshard.go:90-135 | Deleted chunks stay a prefix behind the margin; exactly their heights on the best chain lose bodies, up to a batch |
| Chunks.Archive.DeleteBlockBody | omnilink/omnilink-base/blockchain/chunkshard.go:138-157 | Exactly the chunk's heights on the best chain lose their bodies |
| Chunks.Archive.LocalBodiesAreHeld | omnilink/omnilink-base/blockchain/blockstore.go:1647-1676 | Over any run, no body that must be local was deleted while the tip is within a chunk and the reserve of its peak |
| Chunks.Archive.ArchivedIsDeep | omnilink/omnilink-base/blockchain/chunkshard.go:68-87 | Every archived height is deeper than the rollback limit below the peak |
| Downloads.Downloader.NothingSkipped | omnilink/omnilink-base/blockchain/download.go:388-431 | An undisturbed session that is at rest and was not abandoned has every height from where it is undisturbed, which is its start unless something was left over; what undisturbed means is decided by ProcDownLoadBlocks and Overtaken |
| Downloads.Downloader.RequestsInOrder | omnilink/omnilink-base/blockchain/blocksyn.go:231-272 | From where the session is undisturbed, after any number of timeouts, all earlier heights were done at every request, and the window is inside the session and as large as allowed or all that was left |
| Downloads.NeverAsked | omnilink/omnilink-base/blockchain/download.go:388-431 | A height that an undisturbed session has passed without a request is in no request of its whole history, however it goes on |
| Downloads.Overtaken | omnilink/omnilink-base/blockchain/download.go:322-334 | Whatever callbacks are left over when a session of more than one window starts with the task idle, some continuation never asks for the height after its first window; so an idle start is safe exactly when nothing is left over or one window is enough |
| Downloads.LeftoverSession | omnilink/omnilink-base/blockchain/download.go:400-431 | One leftover callback that runs while the first window is running: a completion callback always loses the height after that window, a timeout callback exactly when a peer is left and its height is above the session's start |
| Downloads.IdleStartSkips | omnilink/omnilink-base/blockchain/task.go:120-130 | A run with maximum 1 in which a session started with the task idle asks for 10, then 12, and has lost 11 |
| Downloads.BusyStartSkips | omnilink/omnilink-base/blockchain/download.go:322-334 | A run in which a session is started while a window is running that then completes: its whole history of requests never covers its first height |
| Downloads.BusyStartRecovers | omnilink/omnilink-base/blockchain/download.go:419-429 | When the running window times out below it instead, the first window is asked for after all |
| Downloads.BusySession | omnilink/omnilink-base/blockchain/download.go:322-334 | A session started while a window is running and no callback is pending: when it goes on at all, where it then starts, and that its first height is asked for exactly when it goes on after a timeout at a height no greater |
| Downloads.Task.Start | omnilink/omnilink-base/blockchain/task.go:85-104 | Both refusals exactly; otherwise the window starts empty |
| Downloads.Task.Done | omnilink/omnilink-base/blockchain/task.go:107-161 | Start is the least unreported height; the task stops, and its callback fires once, exactly when all heights are reported |
| Downloads.Task.Timeout | omnilink/omnilink-base/blockchain/task.go:45-57 | A running task stops without its callback and passes on the least unreported height |
| Downloads.Task.Cancel | omnilink/omnilink-base/blockchain/task.go:133-138 | A running task stops and no callback fires |
| Downloads.Downloader.FetchBlock | omnilink/omnilink-base/blockchain/blocksyn.go:231-275 | The window, the callbacks attached exactly when heights remain, and the remainder recorded before the task is started |
| Downloads.Downloader.ReqDownLoadBlocks | omnilink/omnilink-base/blockchain/download.go:388-397 | The next window of the session, or nothing when none is left; while a window is running nothing is asked for, although the remainder moves on |
| Downloads.Downloader.RunCallback | omnilink/omnilink-base/blockchain/blocksyn.go:257-260 | With the task idle the next window is asked for where the remainder starts; while a window is running nothing is asked for and the remainder starts past the window lost; in a disturbed session with nothing else going on, the rest from there on is undisturbed |
| Downloads.Downloader.ProcDownLoadBlocks | omnilink/omnilink-base/blockchain/download.go:322-334 | With the task idle the first window is asked for, with a window running nothing is; either way the recorded remainder starts after the first window. The session is undisturbed exactly when nothing was left over, or the task was idle and one window is enough |
| Downloads.Downloader.ReportDone | omnilink/omnilink-base/blockchain/task.go:107-118 | The session's done set grows by exactly the reported height of the window; a last window completes the session |
| Downloads.Downloader.TimerFires | omnilink/omnilink-base/blockchain/task.go:50-57 | A timeout is queued for windows with a successor; the last window is abandoned |
| Downloads.Downloader.DownLoadTimeOutProc | omnilink/omnilink-base/blockchain/download.go:400-431 | With the task idle and any one named peer connected, the session resumes at the missed height or its remainder, whichever is lower; an undisturbed one is given up exactly when no named peer is connected; while a window is running nothing is asked for and the remainder starts past the window lost |
| Addresses.FlatIsInjective | omnilink/omnilink-base/account/account.go:251-256 | Flat keys of clean addresses tell all accounts apart: main keys, sub-account keys, and each from the other |
| Addresses.MainMeetsSubIff | omnilink/omnilink-base/account/account.go:251-256 | A main key is some sub-account's key, too, if and only if the address starts with exec- and has a colon after that |
| Addresses.SubMeetsSubIff | omnilink/omnilink-base/account/execaccount.go:57-64 | A sub-account's key is another sub-account's, too, if and only if the contract or the address has a colon |
| Addresses.FormatKeepsClean | omnilink/omnilink-base/common/address/util.go:26-36 | Folding an address keeps it free of the separators |
| Addresses.SameFormIff | omnilink/omnilink-base/common/address/util.go:26-36 | Two addresses take one form in keys if and only if they are equal, or Ethereum addresses that agree up to letter case |
| Addresses.EthAddressIff | omnilink/omnilink-base/common/address/util.go:26-36 | An Ethereum address is forty hex digits, alone or behind 0x or 0X |
| Addresses.SpellingsExist | omnilink/omnilink-base/common/address/util.go:26-36 | Two given clean strings are different spellings of one address |
| Ledgers.OperationsKeepLedger | omnilink/omnilink-base/account/execaccount.go:67-328 | Over any run of operations the supply changes by exactly what was issued, minted, burned and put in at genesis; contracts never debited directly stay backed by their main balance |
| AccountDBs.PerformAll | omnilink/omnilink-base/account/execaccount.go:67-328 | A run of calls on the account database, refusals included: the ledger is what the operations of the successful calls make of it, in order, and the store what replaying their receipts does; the supply moves by exactly what they created, no balance becomes negative, and contracts that no call debits stay backed |
| AccountDBs.Perform | omnilink/omnilink-base/account/execaccount.go:67-328 | Each call either changes nothing or applies its ledger operation, and replaying its receipt gives the new store |
| Ledgers.ProperOperation | omnilink/omnilink-base/account/execaccount.go:67-328 | An operation lowers no contract's backing if and only if it debits none of them directly; only issue, mint, burn and genesis create coins |
| Ledgers.OperationEffect | omnilink/omnilink-base/account/execaccount.go:67-328 | What each operation adds to and takes from the balance and the frozen funds of every account, and that it touches no other |
| Ledgers.PostEffect | omnilink/omnilink-base/account/account.go:121-177 | Supply and every contract's slack change by exactly what the entries say |
| Ledgers.InsideSparesIff | omnilink/omnilink-base/account/execaccount.go:150-219 | A move inside a contract keeps its backing exactly when the two addresses are not spellings of one |
| Ledgers.TransfersSpareIff | omnilink/omnilink-base/account/execaccount.go:67-96 | Transfers in or out create no coins and spare the contracts exactly when the payer is none of them |
| Ledgers.FreezeAndIssueSpare | omnilink/omnilink-base/account/execaccount.go:99-147 | Freezing and activating move nothing; issuing into a sub-account is covered |
| Ledgers.WithdrawalIsCovered | omnilink/omnilink-base/account/execaccount.go:81-96 | A backed contract can pay out whatever a sub-account holds |
| Ledgers.PostOneNonNegativeIff | omnilink/omnilink-base/account/account.go:155-177 | One change keeps all balances non-negative exactly when it keeps that account's so |
| AccountDBs.AccountDB.LoadAccount | omnilink/omnilink-base/account/account.go:89-100 | What is stored under the address's key, or an empty account; in a ledger of clean addresses, that address's main account |
| AccountDBs.AccountDB.LoadExecAccount | omnilink/omnilink-base/account/execaccount.go:14-25 | What is stored under the contract's and the address's key, or an empty account; in a ledger of clean addresses, that sub-account |
| AccountDBs.AccountDB.SaveKVSet | omnilink/omnilink-base/account/account.go:211-218 | Writing the pairs is replaying them |
| AccountDBs.AccountDB.CheckTransfer | omnilink/omnilink-base/account/account.go:103-113 | Both refusals exactly |
| AccountDBs.AccountDB.Transfer | omnilink/omnilink-base/account/account.go:121-153 | Every refusal exactly, and replaying the receipt gives the new store; between clean addresses the amount moves from one account to another, never below zero |
| AccountDBs.AccountDB.DepositBalance | omnilink/omnilink-base/account/account.go:155-177 | Credits a valid amount; the receipt replays to the new store |
| AccountDBs.AccountDB.Mint | omnilink/omnilink-base/account/account.go:453-474 | Succeeds exactly for a valid amount within the balance limit; the receipt replays to the new store |
| AccountDBs.AccountDB.Burn | omnilink/omnilink-base/account/account.go:491-511 | Succeeds exactly when funded; the receipt replays to the new store |
| AccountDBs.AccountDB.GenesisInit | omnilink/omnilink-base/account/genesis.go:20-34 | Succeeds exactly within the balance limit; balances stay non-negative exactly when the sum does |
| AccountDBs.AccountDB.GenesisInitExec | omnilink/omnilink-base/account/genesis.go:37-58 | Refused exactly when the sum is out of range; panics exactly when it is not but the amount is invalid or the contract is its own depositor, and then the contract has been credited |
| AccountDBs.AccountDB.TransferToExec | omnilink/omnilink-base/account/execaccount.go:67-78 | The panic is unreachable and the merged receipt replays to the new store; between clean addresses it is a transfer with a matching deposit |
| AccountDBs.AccountDB.TransferWithdraw | omnilink/omnilink-base/account/execaccount.go:81-96 | Every refusal with its error, and the receipt replays; for clean addresses it panics exactly when every check passes and the two are spellings of one, which leaves the sub-account debited, and otherwise moves all or nothing |
| AccountDBs.WithdrawalPanics | omnilink/omnilink-base/account/execaccount.go:81-96 | A run from an empty database: genesis funds inside a contract, withdrawn by another spelling of it, panic |
| AccountDBs.SpelledWithdrawal | omnilink/omnilink-base/account/execaccount.go:81-96 | From an empty database, for any two clean spellings of one address: the withdrawal panics, the sub-account is empty and the contract keeps the main funds |
| AccountDBs.AccountDB.ExecFrozen | omnilink/omnilink-base/account/execaccount.go:99-122 | Moves balance to frozen exactly when funded |
| AccountDBs.AccountDB.ExecActive | omnilink/omnilink-base/account/execaccount.go:125-147 | Moves frozen to balance exactly when funded |
| AccountDBs.AccountDB.ExecTransfer | omnilink/omnilink-base/account/execaccount.go:150-183 | Refusals exactly, and the receipt replays; for clean addresses, the effect on two sub-accounts, spellings of one address included |
| AccountDBs.InsideMoveCreates | omnilink/omnilink-base/account/execaccount.go:150-183 | A run from an empty database: a move of 5 between two spellings of one address succeeds and leaves a contract with a slack of -5 |
| AccountDBs.SpelledMoveInside | omnilink/omnilink-base/account/execaccount.go:150-183 | From an empty database, for any two clean spellings of one address: a move of 5 between them creates it, and the contract is 5 short |
| AccountDBs.AccountDB.ExecTransferFrozen | omnilink/omnilink-base/account/execaccount.go:186-219 | As ExecTransfer, out of frozen funds |
| AccountDBs.AccountDB.ExecDeposit | omnilink/omnilink-base/account/execaccount.go:285-304 | Credits the sub-account; refusals exactly |
| AccountDBs.AccountDB.ExecWithdraw | omnilink/omnilink-base/account/execaccount.go:307-328 | Debits the sub-account exactly when funded |
| AccountDBs.AccountDB.ExecIssueCoins | omnilink/omnilink-base/account/execaccount.go:244-262 | Only listed contracts may issue, exactly |
| AccountDBs.AccountDB.ExecDepositFrozen | omnilink/omnilink-base/account/execaccount.go:227-241 | Issue and frozen credit both happen or neither; the merged receipt replays |
| AccountDBs.SafeAdd | omnilink/omnilink-base/account/genesis.go:12-17 | For balances that are not negative: the sum exactly when it is within the limit |

## Left out

- Blocks of the node itself, which are hashed again after execution: the model's blocks come from peers and keep their hash.
- Execution results: whether a block executes is arbitrary, except that duplicates, seen transactions and transactions out of their tx-height range are rejected; the configuration without the duplicate check, and heights before its fork, are not modelled.
- Faulty-peer records and the removal of index nodes after a failed download block.
- Bootstrapping: a node starts with its genesis block stored; another block of height 0 has no indexed parent and is refused.
- A fork point below the view: the program stops on a null node; the model returns `ErrForkOutsideView` and marks the run as no longer clean.
- BlockChains.BlockChain.ConnectBestChain: when the fork of a heavier block lies below the view, the program detaches the whole view, writing the database, before it stops on the null tip; the model stops before detaching.
- BlockChains.BlockChain.Reorganize: likewise.
- BlockChains.BlockChain.DisconnectBlock: asks for a view of more than one node; disconnecting the only one empties the view, and the program stops on the null tip after writing the database.
- ChainViews.BlockIndex.AddNode: the eviction of the oldest node past 102400 is not modelled.
- Para-chain sequences, block deletion by para chains, the never-rollback setting and the cache of active blocks.
- Crashes inside a write batch: a batch and the cache updates around it are one step.
- Closing the node, batch-sync modes, broadcasting, events to other modules and push subscriptions.
- BlockChains.BlockChain.NodesAgree: agrees on total difficulty and not on the tip itself, because among equally heavy tips the first to arrive wins.
- BlockChains.BlockChain.AcceptsExactlyLinked: speaks of runs without execution failure, height error in the pool, dropped orphan or fork below the view, because the code then gives blocks up.
- BlockChains.BlockChain.NoDuplicates: asks that no received block up to the fork height carries a transaction with a tx height; without that the code can pack a transaction twice.
- TxCaches.TxHashCache.GetDuplicateTxHashList: transactions are identified with their hashes; the cache's cut of hashes to 16 bytes is taken to be collision-free.
- OrphanPools.OrphanPool.ExpireOrphans: the clock is a parameter, and the order of the scan is arbitrary.
- Mutexes and goroutine races: each locked section is one step.
- Wire formats, database encodings and receipt logs; a receipt is its list of key-value pairs.
- Int64 wrap-around: balances, heights and sequence numbers are unbounded, total difficulty is a natural number.
- Apportionment.AllocateFixedCounts: weights are reals, so floating-point rounding of shares is not modelled, and the list of kinds is not empty.
- Apportionment.BuildKindPlan: the random mode is not modelled.
- Repositories.Platform.BeginUpdate: the record's key fits the list, equal for its own subject and different from all others, as keys derived from domain and subject are.
- Repositories.Platform.RejectUpdate: a transaction that is mined but reported as failed is not modelled.
- Repositories.AuthExecution.Decide: certificate, assertion and signature checks run after the proof check and can only reject further; the mode that reads the root from the platform's cache is not modelled.
- Repositories.Platform.GetRepoTree: the platform caches trie values; that the linked trees are these values is proved in Mpt.
- Addresses.FormatKeepsClean: address folding is modelled with its fork active.
- Ledgers.OperationsKeepLedger: deposits into and withdrawals from sub-accounts count as parts of the operations that also move main funds; a plain debit of a contract's main balance, or a lone sub-account deposit, is outside the law.
- AccountDBs.PerformAll: asks for clean addresses and for no move between two spellings of one; a run ends at a panic, and what the executor then discards is not modelled (what a panic leaves in the store is stated by the operation that panics). Account operations accept any address; what they say about accounts holds while every address written is clean, and their receipts replay always.
- Downloads.Downloader.NothingSkipped: speaks of sessions that nothing left over interferes with (exactly those started with nothing left over, or with the task idle and no more than one window), and of the rest of other sessions once nothing interferes any more; the session was not cancelled, did not lose all its peers, and did not time out in its last window.
- Downloads.BusySession: asks that no callback is pending beside the running window.
- BinaryMerkle.SoundFromDepthOn: for proofs longer than the tree is deep, leaves are plain bytes and hold no digest themselves.
- Downloads.Downloader.FetchBlock: errors of the message queue and the variant for ordinary synchronisation are not modelled.
- Chunks.Archive.CheckGenChunkNum: loading and storing a chunk may fail at any point; uploading it to peers is not modelled.
- Total difficulties of blocks whose bodies were archived.
- HTTP, JSON-RPC, Web3, contract deployment, OpenSSL and OCSP.
- Plotting, statistics, random generators, reindexing, upgrades and the limiter helpers.
