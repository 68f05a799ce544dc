/** The node: receives blocks in any order, keeps the best chain, and keeps every store in step with it. */
module BlockChains {
  import opened Wrappers
  import opened Blocks
  import opened SequenceLog
  import opened ChainViews
  import opened BlockStores
  import opened TxCaches
  import opened OrphanPools
  import opened ForkChoice

  datatype Error =
    | ErrBlockExist
    | ErrBlockHashNoMatch
    | ErrParentBlockNoExist
    | ErrBlockHeightNoMatch
    | ErrParentTdNoExist
    | ErrExec          // the block did not execute
    | ErrLoadBlock     // a block to be reorganised is in no store
    | ErrForkOutsideView  // the program stops on a null fork node

  datatype StorePart = InDatabase | InBlockCache | InTxCache

  datatype Part = TheView | TheStores | TheIndex

  class BlockChain {
    const genesis: Block
    const enableBestBlockCmp: bool
    const index: BlockIndex
    const bestChain: ChainView
    const blockStore: BlockStore
    const blockCache: BlockCache
    const txHeightCache: TxHashCache
    const orphanPool: OrphanPool
    ghost var received: set<Block>
    ghost var clean: bool

    /** A node started on a database that holds the genesis block only. */
    constructor (g: Block, enableBestBlockCmp: bool, saveSequence: bool, lower: nat, upper: nat, fork: int,
                 blkCacheSize: int, hashCacheSize: int)
      requires Genesis(g) && Plain(g.txs) && lower + upper > 0 && 0 < blkCacheSize <= hashCacheSize
      ensures Best() == [g] && genesis == g && txHeightCache.fork == fork
      ensures received == {g} && clean && Valid() && orphanPool.orphans == map[] && orphanPool.prevOrphans == map[]
      ensures fresh(Parts()) && this.enableBestBlockCmp == enableBestBlockCmp
      ensures blockStore.saveSequence == saveSequence
      ensures txHeightCache.lowerTxHeightRange == lower && txHeightCache.upperTxHeightRange == upper
      ensures blockCache.blkCacheSize == blkCacheSize && blockCache.hashCacheSize == hashCacheSize
    {
      genesis, this.enableBestBlockCmp := g, enableBestBlockCmp;
      var idx, view := NewView(g);
      var cache, store, txCache := NewStores(g, saveSequence, lower, upper, fork, blkCacheSize, hashCacheSize);
      var pool := new OrphanPool();
      index, bestChain, blockStore, blockCache, txHeightCache, orphanPool := idx, view, store, cache, txCache, pool;
      received, clean := {g}, true;
      new;
      CloseStores([g]);
      StartsValid();
    }

    /** The objects the node is made of. */
    ghost function Parts(): set<object> {
      {index, bestChain, blockStore, blockCache, txHeightCache, orphanPool}
    }

    /** A node that holds genesis only is valid. */
    lemma StartsValid()
      requires bestChain.Valid(genesis, index.index) && Best() == [genesis] && Stores([genesis])
      requires index.index.Keys == {HashOf(genesis)} == blockStore.blocks.Keys
      requires orphanPool.Valid() && orphanPool.orphans == map[] && received == {genesis}
      ensures Valid()
    {
      assert PartOk(TheView) && PartOk(TheStores) && PartOk(TheIndex);
      FirstSettled(genesis);
    }

    ghost function Best(): seq<Block>
      reads bestChain
    {
      bestChain.chain
    }

    ghost function TipBlock(): Block
      requires Best() != []
      reads bestChain
    {
      Best()[|Best()| - 1]
    }

    /** While the transaction cache is faithful, the transaction index is too. Both are, for good, unless a stored block
        up to the fork height carries a transaction with a tx height. */
    ghost predicate TxsOk(txIndex: set<Tx>, blocks: set<Hash>, chain: seq<Block>)
      reads txHeightCache`faithful
    {
      && Plain(genesis.txs)
      && (PlainUpTo(blocks, txHeightCache.fork) ==> txHeightCache.faithful)
      && (txHeightCache.faithful ==>
            TxsKnown(txIndex, chain, txHeightCache.upperTxHeightRange, txHeightCache.lowerTxHeightRange,
                txHeightCache.fork))
    }

    /** What one store must satisfy to describe a chain. */
    ghost predicate StoreOk(store: StorePart, chain: seq<Block>)
      reads blockStore, blockCache, txHeightCache
    {
      match store
      case InDatabase => blockStore.Valid() && blockStore.Current() && blockStore.chain == chain
      case InBlockCache => blockCache.Valid() && blockCache.chain == chain
      case InTxCache =>
        && txHeightCache.Valid() && txHeightCache.chain == chain
        && TxsOk(blockStore.txIndex, blockStore.blocks.Keys, chain)
    }

    /** Database, block cache, transaction cache and transaction index all describe this chain. */
    ghost predicate Stores(chain: seq<Block>)
      reads blockStore, blockCache, txHeightCache
    {
      && chain != [] && blockStore.blockCache == blockCache && txHeightCache.store == blockStore
      && forall store {:trigger StoreOk(store, chain)} :: StoreOk(store, chain)
    }

    lemma OpenStores(chain: seq<Block>)
      requires Stores(chain)
      ensures blockStore.Valid() && blockStore.Current() && blockStore.chain == chain
      ensures blockCache.Valid() && blockCache.chain == chain
      ensures txHeightCache.Valid() && txHeightCache.chain == chain
                && TxsOk(blockStore.txIndex, blockStore.blocks.Keys, chain)
    {
      assert StoreOk(InDatabase, chain) && StoreOk(InBlockCache, chain) && StoreOk(InTxCache, chain);
    }

    lemma CloseStores(chain: seq<Block>)
      requires chain != [] && blockStore.blockCache == blockCache && txHeightCache.store == blockStore
      requires blockStore.Valid() && blockStore.Current() && blockStore.chain == chain
      requires blockCache.Valid() && blockCache.chain == chain
      requires txHeightCache.Valid() && txHeightCache.chain == chain
                 && TxsOk(blockStore.txIndex, blockStore.blocks.Keys, chain)
      ensures Stores(chain)
    {
      assert StoreOk(InDatabase, chain) && StoreOk(InBlockCache, chain) && StoreOk(InTxCache, chain);
    }

    /** One part of the node's invariant. */
    ghost predicate PartOk(part: Part)
      reads index, bestChain, blockStore, blockCache, txHeightCache
    {
      match part
      case TheView => bestChain.Valid(genesis, index.index)
      case TheStores => Stores(Best())
      case TheIndex => blockStore.blocks.Keys == index.index.Keys
    }

    /** View and stores describe the same best chain, and exactly the indexed blocks are stored. */
    ghost predicate Core()
      reads index, bestChain, blockStore, blockCache, txHeightCache
    {
      Best() != [] && forall part {:trigger PartOk(part)} :: PartOk(part)
    }

    // ----- one block -----

    /** Execution rejects duplicate or out-of-range transactions; otherwise it may succeed or fail. */
    method ExecBlock(b: Block) returns (ok: bool)
      ensures ok ==> Distinct(b.txs)
      ensures ok ==> forall tx | tx in b.txs :: !txHeightCache.Seen(tx, tx.expire, b.height)
      ensures ok ==> forall tx | tx in b.txs ::
                InRange(tx, b.height, txHeightCache.upperTxHeightRange, txHeightCache.lowerTxHeightRange,
                    txHeightCache.fork)
      ensures ok && b.height >= txHeightCache.fork ==> forall tx | tx in b.txs && tx.expire > TX_HEIGHT_FLAG ::
                var h := tx.expire - TX_HEIGHT_FLAG;
                h - txHeightCache.upperTxHeightRange <= b.height <= h + txHeightCache.lowerTxHeightRange
    {
      if !Distinct(b.txs) {
        return false;
      }
      var expires := seq(|b.txs|, i requires 0 <= i < |b.txs| => b.txs[i].expire);
      ghost var at;
      var dups;
      dups, at := txHeightCache.GetDuplicateTxHashList(b.txs, Some(expires), b.height);
      if dups.None? || dups.value != [] {
        return false;
      }
      forall tx | tx in b.txs ensures !txHeightCache.Seen(tx, tx.expire, b.height) {
        var i: nat :| i < |b.txs| && b.txs[i] == tx;
        assert txHeightCache.SeenAt(b.txs, Some(expires), b.height, i) ==> i in at;
      }
      if exists tx | tx in b.txs ::
        !InRange(tx, b.height, txHeightCache.upperTxHeightRange, txHeightCache.lowerTxHeightRange, txHeightCache.fork) {
        return false;
      }
      ok := *;
    }

    /** A block that executed keeps the chain free of duplicates, unless the fork height interferes. */
    lemma ExecutedIsUnique(chain: seq<Block>, b: Block)
      requires txHeightCache.Valid() && txHeightCache.chain == chain && txHeightCache.faithful
      requires TxsKnown(txHeightCache.store.txIndex, chain, txHeightCache.upperTxHeightRange,
                 txHeightCache.lowerTxHeightRange, txHeightCache.fork)
      requires chain != [] && b.parent == HashOf(chain[|chain| - 1]) && b.height == |chain| && Distinct(b.txs)
      requires forall tx | tx in b.txs :: !txHeightCache.Seen(tx, tx.expire, b.height)
      requires forall tx | tx in b.txs ::
                 InRange(tx, b.height, txHeightCache.upperTxHeightRange, txHeightCache.lowerTxHeightRange,
                     txHeightCache.fork)
      requires NoStale(chain)
      ensures Unique(chain + [b])
    {
      var low, high, fork := txHeightCache.upperTxHeightRange, txHeightCache.lowerTxHeightRange, txHeightCache.fork;
      forall tx | tx in b.txs ensures !Known(chain, tx, low + high, fork) {
        assert !txHeightCache.Seen(tx, tx.expire, b.height);
        var h := TxHeightOf(tx.expire, |chain|, fork);
        assert TxCaches.Filed(txHeightCache.txHashes, h, tx) <==>
            (h, tx) in WindowKeys(chain, Low(|chain|, low + high), fork);
      }
      CheckIsSoundIff(chain, low, high, fork);
      assert Passes(chain, b, low, high, fork);
    }

    /** No tx-height transaction packed below the fork height may be packed again. */
    ghost predicate NoStale(chain: seq<Block>) {
      forall i, tx :: !StaleEarly(chain, i, tx, txHeightCache.upperTxHeightRange, txHeightCache.lowerTxHeightRange,
          txHeightCache.fork)
    }

    lemma HarmlessWhenPlain(chain: seq<Block>)
      requires blockStore.Valid() && blockStore.chain == chain
      ensures PlainUpTo(blockStore.blocks.Keys, txHeightCache.fork) ==>
                Steady(chain, txHeightCache.Width(), txHeightCache.fork) && NoStale(chain)
    {
      assert Among(chain, blockStore.blocks.Keys);
      if PlainUpTo(blockStore.blocks.Keys, txHeightCache.fork) {
        PlainIsHarmless(chain, blockStore.blocks.Keys, txHeightCache.upperTxHeightRange,
            txHeightCache.lowerTxHeightRange, txHeightCache.fork);
      }
    }

    /** Writes an executed block to the caches and the database. */
    method PushStores(b: Block, ghost chain: seq<Block>)
      requires Stores(chain) && b.height == |chain|
      requires HashOf(b) in blockStore.blocks && b.parent == HashOf(chain[|chain| - 1])
      requires forall tx | tx in b.txs ::
                 InRange(tx, b.height, txHeightCache.upperTxHeightRange, txHeightCache.lowerTxHeightRange,
                     txHeightCache.fork)
      requires txHeightCache.faithful && NoStale(chain) ==> Unique(chain + [b])
      modifies blockStore, blockCache, txHeightCache
      ensures Stores(chain + [b])
      ensures blockStore.blocks == old(blockStore.blocks)
      ensures blockStore.log == if blockStore.saveSequence then old(blockStore.log) + [Entry(HashOf(b), true)]
                else old(blockStore.log)
      ensures old(txHeightCache.faithful) && NoStale(chain) ==> txHeightCache.faithful
    {
      OpenStores(chain);
      HarmlessWhenPlain(chain);
      txHeightCache.Add(b);
      blockCache.AddBlock(b);
      if txHeightCache.faithful {
        TxsKnownPush(blockStore.txIndex, chain, b, txHeightCache.upperTxHeightRange, txHeightCache.lowerTxHeightRange,
            txHeightCache.fork);
      }
      var lastSequence := blockStore.CommitBlock(b);
      CloseStores(chain + [b]);
    }

    /** Removes the tip from the caches and the database. */
    method PopStores(b: Block, ghost chain: seq<Block>)
      requires Stores(chain) && |chain| > 1 && b == chain[|chain| - 1] && b.parent == HashOf(chain[|chain| - 2])
      modifies blockStore, blockCache, txHeightCache
      ensures Stores(chain[..|chain| - 1])
      ensures blockStore.blocks == old(blockStore.blocks)
      ensures blockStore.log == if blockStore.saveSequence then old(blockStore.log) + [Entry(HashOf(b), false)]
                else old(blockStore.log)
    {
      OpenStores(chain);
      HarmlessWhenPlain(chain);
      assert b.height == |chain| - 1;
      if txHeightCache.faithful {
        TxsKnownPop(blockStore.txIndex, chain, txHeightCache.upperTxHeightRange, txHeightCache.lowerTxHeightRange,
            txHeightCache.fork);
      }
      txHeightCache.Del(b.height);
      blockCache.DelBlock(b.height);
      var lastSequence := blockStore.RevertBlock(b);
      CloseStores(chain[..|chain| - 1]);
    }

    lemma TipIsTip()
      requires Core()
      ensures bestChain.Tip() != null && bestChain.Tip().hash == HashOf(TipBlock())
      ensures IsNode(index.index, bestChain.Tip(), TipBlock()) && Best() == Path(TipBlock())
      ensures |Best()| > 1 ==> TipBlock().parent == HashOf(Best()[|Best()| - 2])
    {
      assert PartOk(TheView);
      bestChain.TipFacts(genesis, index.index);
      if |Best()| > 1 { PathLinks(TipBlock(), |Best()| - 1); }
    }

    lemma NodeFacts(n: BlockNode, b: Block)
      requires Core() && IsNode(index.index, n, b)
      ensures n.hash == HashOf(b) && n.height == b.height && n.difficulty == b.work
    {
      assert PartOk(TheView);
      NodesFollowPath(genesis, index.index, n, b);
    }

    lemma NextHeight(b: Block)
      requires Core() && HashOf(b) in index.index && b.parent == HashOf(TipBlock())
      ensures b.height == |Best()|
    {
      assert PartOk(TheView);
      BestPathPush(genesis, index.index, Best(), b);
    }

    lemma TdKnown(b: Block)
      requires Core() && HashOf(b) in index.index
      ensures HashOf(b) in blockStore.blocks && blockStore.blocks[HashOf(b)] == b
      ensures HashOf(b) in blockStore.tds && blockStore.tds[HashOf(b)] == Td(b)
    {
      assert PartOk(TheStores) && PartOk(TheIndex);
      OpenStores(Best());
      assert HashOf(b) in blockStore.blocks.Keys;
      assert blockStore.blocks[HashOf(b)] == b;
    }

    lemma WorkKnown(b: Block)
      requires Core() && HashOf(b) in index.index
      ensures HashOf(b) in blockStore.tds && blockStore.tds[HashOf(b)] == WorkOf(Path(b))
    {
      TdKnown(b);
      TdIsWork(b);
    }

    /** What a block that executed satisfies. */
    ghost predicate Executed(b: Block)
      reads bestChain, txHeightCache
    {
      && (forall tx | tx in b.txs ::
            InRange(tx, b.height, txHeightCache.upperTxHeightRange, txHeightCache.lowerTxHeightRange,
                txHeightCache.fork))
      && (txHeightCache.faithful && NoStale(Best()) ==> Unique(Best() + [b]))
    }

    method ExecOnTip(b: Block) returns (ok: bool)
      requires Core() && b.height == |Best()| && b.parent == HashOf(TipBlock())
      ensures ok ==> Executed(b)
    {
      ok := ExecBlock(b);
      assert PartOk(TheStores);
      OpenStores(Best());
      if ok && txHeightCache.faithful && NoStale(Best()) {
        ExecutedIsUnique(Best(), b);
      }
    }

    /** Writes an executed child of the tip to every store and makes it the tip. */
    method ExtendStores(node: BlockNode, b: Block)
      requires bestChain.Valid(genesis, index.index) && Stores(Best()) && HashOf(b) in blockStore.blocks
      requires IsNode(index.index, node, b) && b.parent == HashOf(TipBlock()) && b.height == |Best()|
      requires Executed(b)
      modifies bestChain, blockStore, blockCache, txHeightCache
      ensures bestChain.Valid(genesis, index.index) && Stores(Best())
      ensures blockStore.blocks == old(blockStore.blocks) && Best() == old(Best()) + [b]
      ensures blockStore.log == if blockStore.saveSequence then old(blockStore.log) + [Entry(HashOf(b), true)]
                else old(blockStore.log)
      ensures bestChain.Base() >= old(bestChain.Base())
      ensures old(txHeightCache.faithful) && NoStale(old(Best())) ==> txHeightCache.faithful
    {
      PushStores(b, Best());
      bestChain.SetTip(node, genesis, index.index, b);
    }

    method Extend(node: BlockNode, b: Block)
      requires Core() && IsNode(index.index, node, b) && b.parent == HashOf(TipBlock()) && b.height == |Best()|
      requires Executed(b)
      modifies bestChain, blockStore, blockCache, txHeightCache
      ensures Core() && blockStore.blocks == old(blockStore.blocks) && Best() == old(Best()) + [b]
      ensures blockStore.log == if blockStore.saveSequence then old(blockStore.log) + [Entry(HashOf(b), true)]
                else old(blockStore.log)
      ensures bestChain.Base() >= old(bestChain.Base())
      ensures old(txHeightCache.faithful) && NoStale(old(Best())) ==> txHeightCache.faithful
    {
      TdKnown(b);
      assert PartOk(TheView) && PartOk(TheStores) && PartOk(TheIndex);
      ExtendStores(node, b);
      assert PartOk(TheView) && PartOk(TheStores) && PartOk(TheIndex);
    }

    /** Pushes a block onto the best chain and every store, or changes nothing. */
    method ConnectBlock(node: BlockNode, b: Block) returns (err: Option<Error>)
      requires Core() && IsNode(index.index, node, b)
      modifies bestChain, blockStore, blockCache, txHeightCache
      ensures Core() && blockStore.blocks == old(blockStore.blocks)
      ensures err.None? || err == Some(ErrBlockHashNoMatch) || err == Some(ErrExec)
      ensures err == Some(ErrBlockHashNoMatch) <==> b.parent != HashOf(old(TipBlock()))
      ensures Best() == if err.None? then old(Best()) + [b] else old(Best())
      ensures blockStore.log == if err.None? && blockStore.saveSequence
                then old(blockStore.log) + [Entry(HashOf(b), true)] else old(blockStore.log)
      ensures bestChain.Base() >= old(bestChain.Base())
      ensures old(txHeightCache.faithful) && NoStale(old(Best())) ==> txHeightCache.faithful
    {
      TipIsTip();
      if b.parent != bestChain.Tip().hash {
        return Some(ErrBlockHashNoMatch);
      }
      NextHeight(b);
      var ok := ExecOnTip(b);
      if !ok {
        return Some(ErrExec);
      }
      Extend(node, b);
      err := None;
    }

    /** Removes the tip from every store and from the view. */
    method RetractStores(node: BlockNode, b: Block)
      requires bestChain.Valid(genesis, index.index) && Stores(Best()) && node == bestChain.Tip()
                 && |bestChain.cacheQueue| > 1
      requires |Best()| > 1 && b == TipBlock() && b.parent == HashOf(Best()[|Best()| - 2])
      modifies bestChain, blockStore, blockCache, txHeightCache
      ensures bestChain.Valid(genesis, index.index) && Stores(Best())
      ensures blockStore.blocks == old(blockStore.blocks) && Best() == old(Best())[..|old(Best())| - 1]
      ensures blockStore.log == if blockStore.saveSequence then old(blockStore.log) + [Entry(HashOf(b), false)]
                else old(blockStore.log)
      ensures bestChain.Base() == old(bestChain.Base())
    {
      PopStores(b, Best());
      bestChain.DelTip(node, genesis, index.index);
    }

    method Retract(node: BlockNode, b: Block)
      requires Core() && node == bestChain.Tip() && b == TipBlock() && |bestChain.cacheQueue| > 1
      modifies bestChain, blockStore, blockCache, txHeightCache
      ensures Core() && blockStore.blocks == old(blockStore.blocks) && Best() == old(Best())[..|old(Best())| - 1]
      ensures blockStore.log == if blockStore.saveSequence then old(blockStore.log) + [Entry(HashOf(b), false)]
                else old(blockStore.log)
      ensures bestChain.Base() == old(bestChain.Base())
    {
      TipIsTip();
      assert PartOk(TheView) && PartOk(TheStores) && PartOk(TheIndex);
      RetractStores(node, b);
      assert PartOk(TheView) && PartOk(TheStores) && PartOk(TheIndex);
    }

    /** Pops the tip from the best chain and every store; refuses any other block. */
    method DisconnectBlock(node: BlockNode, b: Block) returns (err: Option<Error>)
      requires Core() && IsNode(index.index, node, b) && |bestChain.cacheQueue| > 1
      modifies bestChain, blockStore, blockCache, txHeightCache
      ensures Core() && blockStore.blocks == old(blockStore.blocks)
      ensures err == if b == old(TipBlock()) then None else Some(ErrBlockHashNoMatch)
      ensures Best() == if err.None? then old(Best())[..|old(Best())| - 1] else old(Best())
      ensures blockStore.log == if err.None? && blockStore.saveSequence
                then old(blockStore.log) + [Entry(HashOf(b), false)] else old(blockStore.log)
      ensures bestChain.Base() == old(bestChain.Base())
    {
      TipIsTip();
      NodeFacts(node, b);
      if node.hash != bestChain.Tip().hash {
        return Some(ErrBlockHashNoMatch);
      }
      Retract(node, b);
      err := None;
    }

    // ----- reorganisation -----

    /** The block of a hash, from the cache or the database. */
    method LoadBlockByHash(hash: Hash) returns (r: Option<Block>)
      requires Core()
      ensures r.Some? ==> hash.HashOf? && r.value == hash.block
      ensures hash in blockStore.blocks ==> r.Some?
    {
      r := blockCache.GetBlockByHash(hash);
      assert PartOk(TheStores);
      OpenStores(Best());
      if r.Some? {
        return;
      }
      r := blockStore.LoadBlockByHash(hash);
    }

    /** The blocks of a list of nodes; it would be None if one of them were in no store. */
    method LoadBlocks(nodes: seq<BlockNode>, ghost blocks: seq<Block>) returns (r: Option<seq<Block>>)
      requires Core() && |nodes| == |blocks|
      requires forall i | 0 <= i < |nodes| :: IsNode(index.index, nodes[i], blocks[i])
      ensures r == Some(blocks)
    {
      var loaded: seq<Block> := [];
      for i := 0 to |nodes|
        invariant loaded == blocks[..i]
      {
        NodeFacts(nodes[i], blocks[i]);
        TdKnown(blocks[i]);
        var b := LoadBlockByHash(nodes[i].hash);
        if b.None? {
          return None;
        }
        loaded := loaded + [b.value];
      }
      assert blocks[..|nodes|] == blocks;
      r := Some(loaded);
    }

    /** Pops the listed blocks, tip first. */
    method DetachBlocks(nodes: seq<BlockNode>, blocks: seq<Block>, ghost k: nat) returns (err: Option<Error>)
      requires Core() && bestChain.Base() < k <= |Best()|
      requires NodesDown(index.index, nodes, Best(), k) && blocks == TopDown(Best(), k)
      modifies bestChain, blockStore, blockCache, txHeightCache
      ensures Core() && blockStore.blocks == old(blockStore.blocks)
      ensures err.None? && Best() == old(Best())[..k]
      ensures LogGrew(old(blockStore.log), blockStore.log, Popped(old(Best()), |nodes|), blockStore.saveSequence)
      ensures bestChain.Base() == old(bestChain.Base())
    {
      ghost var chain := Best();
      for i := 0 to |nodes|
        invariant Core() && blockStore.blocks == old(blockStore.blocks)
        invariant Best() == chain[..|chain| - i]
        invariant LogGrew(old(blockStore.log), blockStore.log, Popped(chain, i), blockStore.saveSequence)
        invariant bestChain.Base() == old(bestChain.Base())
      {
        ghost var log := blockStore.log;
        assert IsNode(index.index, nodes[i], chain[|chain| - 1 - i]);
        err := DisconnectBlock(nodes[i], blocks[i]);
        PoppedMore(old(blockStore.log), log, blockStore.log, chain, i, blockStore.saveSequence);
        if err.Some? {
          return;
        }
      }
      err := None;
    }

    /** Pushes the listed blocks in order, stopping at the first that does not execute. */
    method AttachBlocks(nodes: seq<BlockNode>, blocks: seq<Block>, ghost path: seq<Block>) returns (err: Option<Error>)
      requires Core() && Linked(path) && PrefixOf(Best(), path)
      requires NodesUp(index.index, nodes, path, |Best()|) && blocks == path[|Best()|..]
      modifies bestChain, blockStore, blockCache, txHeightCache
      ensures Core() && blockStore.blocks == old(blockStore.blocks)
      ensures |old(Best())| <= |Best()| && PrefixOf(Best(), path)
      ensures err == if |Best()| == |path| then None else Some(ErrExec)
      ensures LogGrew(old(blockStore.log), blockStore.log, Pushed(Best(), |old(Best())|), blockStore.saveSequence)
    {
      ghost var k := |Best()|;
      for i := 0 to |nodes|
        invariant Core() && blockStore.blocks == old(blockStore.blocks)
        invariant |Best()| == k + i && PrefixOf(Best(), path)
        invariant LogGrew(old(blockStore.log), blockStore.log, Pushed(Best(), k), blockStore.saveSequence)
      {
        assert IsNode(index.index, nodes[i], blocks[i]);
        ghost var chain, log := Best(), blockStore.log;
        err := AttachOne(nodes[i], blocks[i], path);
        if err.Some? {
          return;
        }
        PushedMore(old(blockStore.log), log, blockStore.log, chain, k, blocks[i], blockStore.saveSequence);
      }
      err := None;
    }

    /** Pushes the next block of a path. */
    method AttachOne(node: BlockNode, b: Block, ghost path: seq<Block>) returns (err: Option<Error>)
      requires Core() && Linked(path) && PrefixOf(Best(), path) && |Best()| < |path|
      requires IsNode(index.index, node, b) && b == path[|Best()|]
      modifies bestChain, blockStore, blockCache, txHeightCache
      ensures Core() && blockStore.blocks == old(blockStore.blocks) && PrefixOf(Best(), path)
      ensures err.None? || err == Some(ErrExec)
      ensures Best() == if err.None? then old(Best()) + [b] else old(Best())
      ensures LogGrew(old(blockStore.log), blockStore.log, if err.None? then [Entry(HashOf(b), true)] else [],
                      blockStore.saveSequence)
    {
      NextOnPath(path, |Best()|);
      err := ConnectBlock(node, b);
      assert old(blockStore.log) + [] == old(blockStore.log);
    }

    /** Replaces the best chain above height k by the branch to the end of a path. On success the best chain is that
        path; when a block does not execute it is a proper prefix of the path, at least k long and no lighter than the
        fork: it is no lighter than the old chain whenever the fork is as heavy. */
    method ReorganizeChain(detach: seq<BlockNode>, attach: seq<BlockNode>, ghost path: seq<Block>, ghost k: nat)
      returns (err: Option<Error>)
      requires Core() && Linked(path) && bestChain.Base() < k <= |Best()| && k <= |path| && path[..k] == Best()[..k]
      requires NodesUp(index.index, attach, path, k) && NodesDown(index.index, detach, Best(), k)
      modifies bestChain, blockStore, blockCache, txHeightCache
      ensures Core() && blockStore.blocks == old(blockStore.blocks)
      ensures k <= |Best()| && PrefixOf(Best(), path)
      ensures err == if |Best()| == |path| then None else Some(ErrExec)
      ensures k > 0 ==> Td(path[k - 1]) <= Td(TipBlock())
      ensures blockStore.saveSequence ==>
                blockStore.log == old(blockStore.log) + Popped(old(Best()), |detach|) + Pushed(Best(), k)
    {
      var detachBlocks := LoadBlocks(detach, TopDown(Best(), k));
      if detachBlocks.None? {
        return Some(ErrLoadBlock);
      }
      var attachBlocks := LoadBlocks(attach, path[k..]);
      if attachBlocks.None? {
        return Some(ErrLoadBlock);
      }
      err := DetachBlocks(detach, detachBlocks.value, k);
      if err.Some? {
        return;
      }
      err := AttachBlocks(attach, attachBlocks.value, path);
      if k > 0 { LinkedGrows(path, k - 1, |Best()| - 1); }
    }

    // ----- fork choice -----

    /** b may become the tip: it extends the best chain, or its path has more work, or as much at the same height when
        the comparison is enabled. */
    ghost predicate MayLead(b: Block, best: seq<Block>)
      requires best != []
    {
      var tip := best[|best| - 1];
      || b.parent == HashOf(tip)
      || WorkOf(Path(b)) > WorkOf(best)
      || (enableBestBlockCmp && WorkOf(Path(b)) == WorkOf(best) && b.height == tip.height)
    }

    /** What the answer to an accepted block says: on the main chain only when it may lead, on a side chain only when it
        does not extend the best chain and has no more work. */
    ghost predicate Judged(b: Block, best: seq<Block>, isMain: bool, err: Option<Error>)
      requires best != []
    {
      && (isMain ==> err.None? && MayLead(b, best))
      && (err.None? && !isMain ==> b.parent != HashOf(best[|best| - 1]) && WorkOf(Path(b)) <= WorkOf(best))
    }

    /** Whether an indexed block is a side-chain block, judged by stored total difficulties. */
    method IsSideChain(node: BlockNode, b: Block) returns (r: Option<bool>)
      requires Core() && IsNode(index.index, node, b) && b.parent.HashOf? && b.parent in index.index
      ensures r.Some?
      ensures !r.value && !enableBestBlockCmp ==> WorkOf(Path(b)) > WorkOf(Best())
      ensures !r.value ==>
                || WorkOf(Path(b)) > WorkOf(Best())
                || (WorkOf(Path(b)) == WorkOf(Best()) && b.height == TipBlock().height)
      ensures r.value ==> WorkOf(Path(b)) <= WorkOf(Best())
    {
      TipIsTip();
      TdIsWork(b);
      TdIsWork(TipBlock());
      NodeFacts(node, b);
      NodeFacts(bestChain.Tip(), TipBlock());
      TdKnown(TipBlock());
      TdKnown(b.parent.block);
      var tip := bestChain.Tip();
      var tipTd := blockStore.GetTd(tip.hash);
      if tipTd.None? {
        return None;
      }
      var parentTd := blockStore.GetTd(b.parent);
      if parentTd.None? {
        return None;
      }
      var blockTd := node.difficulty + parentTd.value;
      var sideChain := blockTd <= tipTd.value;
      if enableBestBlockCmp && blockTd == tipTd.value && node.height == tip.height {
        var better: bool := *;
        if better {
          sideChain := false;
        }
      }
      r := Some(sideChain);
    }

    /** Makes an indexed block the tip when it extends the tip or outweighs it, and leaves it on a side chain
        otherwise. */
    method ConnectBestChain(node: BlockNode, b: Block) returns (isMain: bool, err: Option<Error>)
      requires Core() && IsNode(index.index, node, b) && b.parent.HashOf? && b.parent in index.index
      modifies bestChain, blockStore, blockCache, txHeightCache
      ensures Core() && blockStore.blocks == old(blockStore.blocks)
      ensures err == Some(ErrForkOutsideView) <==>
                b.parent != HashOf(old(TipBlock())) && old(Shared(Path(b), Best()) <= bestChain.Base())
      ensures err.None? || err == Some(ErrForkOutsideView) || err == Some(ErrExec)
      ensures err.None? && isMain ==> Best() == Path(b)
      ensures err.None? && !isMain ==>
                && Best() == old(Best()) && b.parent != HashOf(old(TipBlock()))
                && WorkOf(Path(b)) <= WorkOf(old(Best()))
      ensures isMain || err == Some(ErrExec) ==>
                || b.parent == HashOf(old(TipBlock()))
                || WorkOf(Path(b)) > WorkOf(old(Best()))
                || (enableBestBlockCmp && WorkOf(Path(b)) == WorkOf(old(Best())) && b.height == old(TipBlock()).height)
      ensures isMain ==> err.None?
      ensures err == Some(ErrForkOutsideView) ==> Best() == old(Best())
      ensures err == Some(ErrExec) ==>
                old(Shared(Path(b), Best())) <= |Best()| < |Path(b)| && PrefixOf(Best(), Path(b))
      ensures err == Some(ErrExec) ==> 0 < |Best()| <= |Path(b)| && TipBlock() == StoppedAt(b, |Best()|)
      ensures err == Some(ErrExec) && old(ForkIsAsHeavy(b)) ==> Td(TipBlock()) >= Td(old(TipBlock()))
    {
      TipIsTip();
      if b.parent == bestChain.Tip().hash {
        SharesAll(b);
        err := ConnectBlock(node, b);
        return err.None?, err;
      }
      isMain, err := Compete(node, b);
    }

    /** A block that does not extend the tip is left on a side chain, or takes the best chain over. */
    method Compete(node: BlockNode, b: Block) returns (isMain: bool, err: Option<Error>)
      requires Core() && IsNode(index.index, node, b) && b.parent.HashOf? && b.parent in index.index
      requires b.parent != HashOf(TipBlock())
      modifies bestChain, blockStore, blockCache, txHeightCache
      ensures Core() && blockStore.blocks == old(blockStore.blocks)
      ensures err == Some(ErrForkOutsideView) <==> old(Shared(Path(b), Best()) <= bestChain.Base())
      ensures err.None? || err == Some(ErrForkOutsideView) || err == Some(ErrExec)
      ensures err.None? && isMain ==> Best() == Path(b)
      ensures err.None? && !isMain ==> Best() == old(Best()) && WorkOf(Path(b)) <= WorkOf(old(Best()))
      ensures isMain || err == Some(ErrExec) ==> MayLead(b, old(Best()))
      ensures isMain ==> err.None?
      ensures err == Some(ErrForkOutsideView) ==> Best() == old(Best())
      ensures err == Some(ErrExec) ==>
                old(Shared(Path(b), Best())) <= |Best()| < |Path(b)| && PrefixOf(Best(), Path(b))
      ensures err == Some(ErrExec) && old(ForkIsAsHeavy(b)) ==> Td(TipBlock()) >= Td(old(TipBlock()))
    {
      var sideChain := IsSideChain(node, b);
      if sideChain.None? {
        return false, Some(ErrParentTdNoExist);
      }
      if sideChain.value {
        assert PartOk(TheView);
        var fork := bestChain.FindFork(node, genesis, index.index, b);
        return false, if fork == null then Some(ErrForkOutsideView) else None;
      }
      isMain, err := Reorganize(node, b);
    }

    /** Replaces the best chain above its fork with b's path by that path. */
    method Reorganize(node: BlockNode, b: Block) returns (isMain: bool, err: Option<Error>)
      requires Core() && IsNode(index.index, node, b)
      modifies bestChain, blockStore, blockCache, txHeightCache
      ensures Core() && blockStore.blocks == old(blockStore.blocks) && isMain == err.None?
      ensures err == Some(ErrForkOutsideView) <==> old(Shared(Path(b), Best()) <= bestChain.Base())
      ensures err == Some(ErrForkOutsideView) ==> Best() == old(Best())
      ensures err.None? ==> Best() == Path(b)
      ensures err.None? || err == Some(ErrForkOutsideView) || err == Some(ErrExec)
      ensures err == Some(ErrExec) ==> old(Shared(Path(b), Best())) <= |Best()| < |Path(b)| && PrefixOf(Best(), Path(b))
      ensures err == Some(ErrExec) && old(ForkIsAsHeavy(b)) ==> Td(TipBlock()) >= Td(old(TipBlock()))
    {
      TipIsTip();
      assert PartOk(TheView);
      var detach, attach, fork := bestChain.GetReorganizeNodes(node, genesis, index.index, b);
      if fork == null {
        return false, Some(ErrForkOutsideView);
      }
      ghost var k := Shared(Path(b), Best());
      SharedAgrees(Path(b), Best());
      PathIsLinked(b);
      err := ReorganizeChain(detach, attach, Path(b), k);
      isMain := err.None?;
    }

    /** The blocks of the best chain above its fork with b's path carry no work. */
    ghost predicate ForkIsAsHeavy(b: Block)
      requires Best() != []
      reads bestChain
    {
      var k := Shared(Path(b), Path(TipBlock()));
      0 < k && Td(StoppedAt(b, k)) == Td(TipBlock())
    }

    lemma SharesAll(b: Block)
      requires Core() && b.parent == HashOf(TipBlock())
      ensures Path(b) == Best() + [b] && Shared(Path(b), Best()) == |Best()|
    {
      TipIsTip();
      assert Path(b) == Best() + [b];
      SharedOfPrefix(Best(), [b]);
    }

    // ----- acceptance -----

    /** Whether a block is stored and its height names it. */
    method StoredOnBest(hash: Hash) returns (found: bool)
      requires Stores(Best())
      ensures found ==> hash in blockStore.blocks.Keys
      ensures found <==>
                && hash in blockStore.blocks && hash.HashOf? && 0 <= hash.block.height < |Best()|
                && Best()[hash.block.height] == hash.block
    {
      OpenStores(Best());
      var b := blockStore.LoadBlockByHash(hash);
      if b.None? {
        return false;
      }
      assert blockStore.blocks[hash] == hash.block;
      var mainHash := blockStore.GetBlockHashByHeight(b.value.height);
      found := mainHash == Some(hash);
    }

    /** Whether a block is indexed, or stored on the best chain. */
    method BlockExists(hash: Hash) returns (found: bool)
      requires Core()
      ensures found == (hash in index.index)
    {
      if index.HaveBlock(hash) {
        return true;
      }
      assert PartOk(TheStores);
      found := StoredOnBest(hash);
      assert PartOk(TheIndex);
    }

    lemma StopsKnown(b: Block)
      requires Core() && b.parent.HashOf? && b.parent in index.index
      ensures forall n: nat {:trigger StoppedAt(b, n)} | 0 < n < |Path(b)| ::
                HashOf(StoppedAt(b, n)) in index.index.Keys
    {
      assert PartOk(TheView);
      StopsIndexed(genesis, index.index, b);
    }

    lemma ParentFacts(b: Block)
      requires Core() && b.parent in index.index
      ensures b.parent.HashOf? && IsNode(index.index, index.index[b.parent], b.parent.block)
      ensures index.index[b.parent].height == b.parent.block.height >= 0
    {
      assert PartOk(TheView);
      NodesFollowPath(genesis, index.index, index.index[b.parent], b.parent.block);
    }

    /** Stores a received block with its total difficulty. */
    method StoreBlock(b: Block, ghost chain: seq<Block>) returns (ok: bool)
      requires Stores(chain) && b.height > 0 && b.parent.HashOf? && b.parent in blockStore.blocks.Keys
                 && HashOf(b) !in blockStore.blocks.Keys
      modifies blockStore`blocks, blockStore`tds
      ensures ok && Stores(chain) && blockStore.blocks.Keys == old(blockStore.blocks.Keys) + {HashOf(b)}
    {
      OpenStores(chain);
      ghost var was := blockStore.blocks.Keys;
      ok := blockStore.MaybeStoreBlock(b);
      PlainBefore(was, blockStore.blocks.Keys, txHeightCache.fork);
      CloseStores(chain);
    }

    /** Stores a block with its total difficulty and adds its node to the index. */
    method StoreAndIndex(prevNode: BlockNode, b: Block) returns (node: BlockNode?)
      requires Core() && HeightOk(b) && IsNode(index.index, prevNode, b.parent.block) && HashOf(b) !in index.index
      modifies index, blockStore`blocks, blockStore`tds
      ensures Core() && node != null && IsNode(index.index, node, b)
      ensures index.index == old(index.index)[HashOf(b) := node]
      ensures Best() == old(Best()) && bestChain.Base() == old(bestChain.Base())
    {
      ParentFacts(b);
      assert PartOk(TheView) && PartOk(TheStores) && PartOk(TheIndex);
      assert HashOf(b) !in index.index.Keys && b.parent in index.index.Keys;
      var ok := StoreBlock(b, Best());
      if !ok {
        return null;
      }
      node := IndexBlock(prevNode, b);
      assert PartOk(TheView) && PartOk(TheStores) && PartOk(TheIndex);
    }

    /** Adds a new node for a block whose parent is indexed. */
    method IndexBlock(prevNode: BlockNode, b: Block) returns (node: BlockNode)
      requires bestChain.Valid(genesis, index.index) && HeightOk(b)
      requires IsNode(index.index, prevNode, b.parent.block) && HashOf(b) !in index.index
      modifies index
      ensures bestChain.Valid(genesis, index.index) && index.index == old(index.index)[HashOf(b) := node]
      ensures index.index.Keys == old(index.index.Keys) + {HashOf(b)}
    {
      node := new BlockNode(b, prevNode);
      ghost var was := index.index;
      IndexGrows(genesis, was, node, b);
      bestChain.ValidInGrownIndex(genesis, was, node, b);
      index.AddNode(node);
    }

    /** Accepts a block whose parent is indexed and whose height follows: stores it, indexes it, and lets it compete for
        the best chain. Any other block changes nothing. */
    method MaybeAcceptBlock(b: Block) returns (isMain: bool, err: Option<Error>)
      requires Core() && HashOf(b) !in index.index
      modifies index, bestChain, blockStore, blockCache, txHeightCache
      ensures Core() && Judged(b, old(Best()), isMain, err)
      ensures b.parent !in old(index.index) <==> err == Some(ErrParentBlockNoExist)
      ensures b.parent in old(index.index) && !HeightOk(b) <==> err == Some(ErrBlockHeightNoMatch)
      ensures b.parent !in old(index.index) || !HeightOk(b) ==>
                && !isMain && index.index == old(index.index) && Best() == old(Best())
                && blockStore.blocks == old(blockStore.blocks)
                && blockStore.log == old(blockStore.log)
      ensures b.parent in old(index.index) && HeightOk(b) ==>
                && index.index.Keys == old(index.index.Keys) + {HashOf(b)}
                && (err.None? || err == Some(ErrForkOutsideView) || err == Some(ErrExec))
      ensures err == Some(ErrForkOutsideView) <==>
                && b.parent in old(index.index) && HeightOk(b)
                && b.parent != HashOf(old(TipBlock())) && old(Shared(Path(b), Best()) <= bestChain.Base())
      ensures err.None? && isMain ==> Best() == Path(b)
      ensures err.None? && !isMain ==> Best() == old(Best())
      ensures err == Some(ErrForkOutsideView) ==> Best() == old(Best())
      ensures err == Some(ErrExec) ==>
                && old(Shared(Path(b), Best())) <= |Best()| < |Path(b)| && PrefixOf(Best(), Path(b))
                && MayLead(b, old(Best()))
      ensures err == Some(ErrExec) ==> HashOf(TipBlock()) in old(index.index.Keys)
    {
      var prevNode := index.LookupNode(b.parent);
      if prevNode == null {
        return false, Some(ErrParentBlockNoExist);
      }
      ParentFacts(b);
      if b.height != prevNode.height + 1 {
        return false, Some(ErrBlockHeightNoMatch);
      }
      isMain, err := AcceptChild(prevNode, b);
    }

    /** Stores and indexes a block of the right height and lets it compete for the best chain. */
    method AcceptChild(prevNode: BlockNode, b: Block) returns (isMain: bool, err: Option<Error>)
      requires Core() && HeightOk(b) && IsNode(index.index, prevNode, b.parent.block) && HashOf(b) !in index.index
      modifies index, bestChain, blockStore, blockCache, txHeightCache
      ensures Core() && Judged(b, old(Best()), isMain, err)
      ensures index.index.Keys == old(index.index.Keys) + {HashOf(b)}
      ensures err.None? || err == Some(ErrForkOutsideView) || err == Some(ErrExec)
      ensures err == Some(ErrForkOutsideView) <==>
                b.parent != HashOf(old(TipBlock())) && old(Shared(Path(b), Best()) <= bestChain.Base())
      ensures err.None? && isMain ==> Best() == Path(b)
      ensures err.None? && !isMain ==> Best() == old(Best())
      ensures err == Some(ErrForkOutsideView) ==> Best() == old(Best())
      ensures err == Some(ErrExec) ==>
                && old(Shared(Path(b), Best())) <= |Best()| < |Path(b)| && PrefixOf(Best(), Path(b))
                && MayLead(b, old(Best()))
      ensures err == Some(ErrExec) ==> HashOf(TipBlock()) in old(index.index.Keys)
    {
      StopsKnown(b);
      var node := StoreAndIndex(prevNode, b);
      if node == null {
        return false, Some(ErrParentTdNoExist);
      }
      isMain, err := ConnectBestChain(node, b);
    }

    // ----- orphans -----

    ghost predicate Consistent()
      reads this`received, index, bestChain, blockStore, blockCache, txHeightCache, orphanPool
    {
      Core() && orphanPool.Valid() && Apart(orphanPool.orphans.Keys, index.index.Keys, received)
    }

    /** While nothing has failed, the accepted set and the tip are right but for the children of pending. */
    ghost predicate Tracking(pending: set<Hash>)
      reads this`received, this`clean, index, bestChain, blockStore, blockCache, txHeightCache, orphanPool
    {
      && Consistent()
      && (clean ==> Draining(genesis, received, index.index.Keys, orphanPool.orphans.Keys, TipBlock(), pending))
    }

    /** Takes an orphan out of the pool: it is being handed over. */
    method TakeOrphan(orphan: Orphan, ghost pending: set<Hash>)
      requires Tracking(pending) && HashOf(orphan.block) in orphanPool.orphans
      modifies orphanPool
      ensures Consistent() && orphan.block in received && HashOf(orphan.block) !in index.index
      ensures orphanPool.orphans.Keys == old(orphanPool.orphans.Keys) - {HashOf(orphan.block)}
      ensures clean ==> Awaiting(genesis, received, index.index.Keys, orphanPool.orphans.Keys, TipBlock(), pending,
                orphan.block)
    {
      if clean {
        HandOver(genesis, received, index.index.Keys, orphanPool.orphans.Keys, TipBlock(), pending, orphan.block);
        assert received + {orphan.block} == received;
      }
      orphanPool.RemoveOrphanBlock(orphan);
    }

    /** Takes an orphan whose parent is indexed out of the pool and accepts it. */
    method AcceptOrphan(orphan: Orphan, ghost pending: set<Hash>) returns (err: Option<Error>)
      requires Tracking(pending) && HashOf(orphan.block) in orphanPool.orphans && orphan.block.parent in index.index
      modifies this`clean, index, bestChain, blockStore, blockCache, txHeightCache, orphanPool
      ensures Consistent() && old(index.index.Keys) <= index.index.Keys
      ensures orphanPool.orphans.Keys == old(orphanPool.orphans.Keys) - {HashOf(orphan.block)}
      ensures err.None? ==> Tracking(pending + {HashOf(orphan.block)}) && clean == old(clean)
      ensures err.None? ==> index.index.Keys == old(index.index.Keys) + {HashOf(orphan.block)}
      ensures err.Some? ==> !clean && err.value in {ErrBlockHeightNoMatch, ErrForkOutsideView, ErrExec}
      ensures err == Some(ErrBlockHeightNoMatch) <==> !HeightOk(orphan.block)
      ensures err.None? ==> Best() == old(Best()) || Best() == Path(orphan.block)
      ensures err == Some(ErrExec) && old(clean) ==> Td(TipBlock()) <= Td(old(TipBlock()))
    {
      var b := orphan.block;
      TakeOrphan(orphan, pending);
      var isMain: bool;
      isMain, err := AcceptAwaited(b, pending);
      if err.Some? {
        clean := false;
      }
    }

    /** Accepts a block that is being handed over. */
    method AcceptAwaited(b: Block, ghost pending: set<Hash>) returns (isMain: bool, err: Option<Error>)
      requires Consistent() && b in received && HashOf(b) !in orphanPool.orphans && HashOf(b) !in index.index
      requires b.parent.HashOf? ==> b.parent in index.index
      requires clean ==>
                 Awaiting(genesis, received, index.index.Keys, orphanPool.orphans.Keys, TipBlock(), pending, b)
      modifies index, bestChain, blockStore, blockCache, txHeightCache
      ensures Consistent() && old(index.index.Keys) <= index.index.Keys
      ensures err.None? ==>
                && HeightOk(b) && index.index.Keys == old(index.index.Keys) + {HashOf(b)}
                && Tracking(pending + {HashOf(b)})
      ensures Judged(b, old(Best()), isMain, err) && (isMain ==> Best() == Path(b))
      ensures err.None? && !isMain ==> Best() == old(Best())
      ensures HeightOk(b) ==> HashOf(b) in index.index
      ensures !HeightOk(b) && clean ==>
                Awaiting(genesis, received, index.index.Keys, orphanPool.orphans.Keys, TipBlock(), pending, b)
      ensures err.Some? ==> err.value in {ErrParentBlockNoExist, ErrBlockHeightNoMatch, ErrForkOutsideView, ErrExec}
      ensures err == Some(ErrParentBlockNoExist) <==> !b.parent.HashOf?
      ensures err == Some(ErrBlockHeightNoMatch) <==> b.parent.HashOf? && !HeightOk(b)
      ensures err == Some(ErrExec) && clean ==> Td(TipBlock()) <= Td(old(TipBlock()))
    {
      ghost var tip, accepted := TipBlock(), index.index.Keys;
      TipIsTip();
      isMain, err := MaybeAcceptBlock(b);
      TdIsWork(b);
      TdIsWork(tip);
      ApartAfter(orphanPool.orphans.Keys, accepted, index.index.Keys, received, b);
      if err.None? && clean {
        Accepted(genesis, received, accepted, orphanPool.orphans.Keys, tip, pending, b, TipBlock());
      }
    }

    /** The first child pooled under a hash has a wrong height. */
    ghost predicate FirstIsBad(h: Hash)
      reads orphanPool
    {
      ChildrenOf(orphanPool.prevOrphans, h) != [] && !HeightOk(ChildrenOf(orphanPool.prevOrphans, h)[0].block)
    }

    /** The pool without the first child of a hash. */
    ghost function WithoutFirst(h: Hash): set<Hash>
      requires ChildrenOf(orphanPool.prevOrphans, h) != []
      reads orphanPool
    {
      orphanPool.orphans.Keys - {HashOf(ChildrenOf(orphanPool.prevOrphans, h)[0].block)}
    }

    /** A pooled descendant of a hash has a wrong height. */
    ghost predicate BadBelow(h: Hash)
      reads orphanPool
    {
      exists c :: PooledBelow(orphanPool.orphans.Keys, h, c) && !HeightOk(c)
    }

    /** The block of a hash is on the best chain. */
    ghost predicate Leads(h: Hash)
      reads bestChain
    {
      h.HashOf? && h.block in Best()
    }

    /** Hands one pooled child of a ready hash over and queues it. A root on the best chain stays there: the child
        descends from it. */
    method DrainOne(orphan: Orphan, queue: seq<Hash>, ghost pool: set<Hash>, ghost root: Hash,
        ghost handed: seq<Block>, ghost pending: set<Hash>)
      returns (err: Option<Error>)
      requires Tracking(pending)
                 && Progress(pool, orphanPool.orphans.Keys, index.index.Keys, root, handed, pending, queue)
      requires HashOf(orphan.block) in orphanPool.orphans && orphan.block.parent in queue && HeightsOk(handed)
      modifies this`clean, index, bestChain, blockStore, blockCache, txHeightCache, orphanPool
      ensures Consistent() && old(index.index.Keys) <= index.index.Keys
      ensures orphanPool.orphans.Keys == old(orphanPool.orphans.Keys) - {HashOf(orphan.block)}
      ensures err.Some? ==> !clean && err.value in {ErrBlockHeightNoMatch, ErrForkOutsideView, ErrExec}
      ensures err.Some? ==> StoppedDraining(pool, orphanPool.orphans.Keys, root, handed + [orphan.block], err.value)
      ensures err.None? ==> HeightsOk(handed + [orphan.block]) && (old(Leads(root)) ==> Leads(root))
      ensures !HeightOk(orphan.block) ==> err == Some(ErrBlockHeightNoMatch)
      ensures err.None? ==>
                && Tracking(pending + {HashOf(orphan.block)}) && clean == old(clean)
                && Progress(pool, orphanPool.orphans.Keys, index.index.Keys, root, handed + [orphan.block],
                      pending + {HashOf(orphan.block)}, queue + [HashOf(orphan.block)])
    {
      var b := orphan.block;
      ProgressOne(pool, orphanPool.orphans.Keys, index.index.Keys, root, handed, pending, queue, b);
      assert b.parent in index.index.Keys;
      if Leads(root) { RootOnPath(pool, orphanPool.orphans.Keys, root, handed, b); }
      HandedNext(pool, orphanPool.orphans.Keys - {HashOf(b)}, root, handed, b);
      err := AcceptOrphan(orphan, pending);
    }

    /** Hands every pooled child of the first queued hash over, in pool order, and queues each. */
    method DrainChildren(queue: seq<Hash>, ghost pool: set<Hash>, ghost root: Hash, ghost handed: seq<Block>,
        ghost pending: set<Hash>)
      returns (err: Option<Error>, queue': seq<Hash>, ghost handed': seq<Block>, ghost pending': set<Hash>)
      requires queue != [] && Tracking(pending)
                 && Progress(pool, orphanPool.orphans.Keys, index.index.Keys, root, handed, pending, queue)
      requires HeightsOk(handed)
      modifies this`clean, index, bestChain, blockStore, blockCache, txHeightCache, orphanPool
      ensures Consistent() && old(index.index.Keys) <= index.index.Keys
      ensures err.Some? ==> !clean && err.value in {ErrBlockHeightNoMatch, ErrForkOutsideView, ErrExec}
      ensures err.Some? ==> StoppedDraining(pool, orphanPool.orphans.Keys, root, handed', err.value)
      ensures err.None? ==> HeightsOk(handed') && (old(Leads(root)) ==> Leads(root))
      ensures old(FirstIsBad(queue[0])) ==>
                err == Some(ErrBlockHeightNoMatch) && orphanPool.orphans.Keys == old(WithoutFirst(queue[0]))
      ensures err.None? ==>
                && Tracking(pending') && clean == old(clean)
                && Progress(pool, orphanPool.orphans.Keys, index.index.Keys, root, handed', pending', queue')
                && orphanPool.orphans.Keys <= old(orphanPool.orphans.Keys)
                && (orphanPool.orphans.Keys == old(orphanPool.orphans.Keys) ==> queue' == queue[1..])
    {
      var processHash := queue[0];
      queue', handed', pending', err := queue, handed, pending, None;
      orphanPool.ChildFacts(processHash, 0);
      var count: int := orphanPool.GetChildOrphanCount(processHash);
      var i := 0;
      while i < count
        invariant 0 <= i && (i > 0 || count == 0 ==> processHash !in orphanPool.prevOrphans)
        invariant err.None? && queue <= queue' && old(index.index.Keys) <= index.index.Keys && HeightsOk(handed')
        invariant old(FirstIsBad(queue[0])) ==> i == 0 < count && unchanged(orphanPool)
        invariant Tracking(pending') && clean == old(clean) && (old(Leads(root)) ==> Leads(root))
                  && Progress(pool, orphanPool.orphans.Keys, index.index.Keys, root, handed', pending', queue')
        invariant orphanPool.orphans.Keys <= old(orphanPool.orphans.Keys)
        invariant orphanPool.orphans.Keys == old(orphanPool.orphans.Keys) ==> queue' == queue
        decreases orphanPool.orphans.Keys, count - i
      {
        orphanPool.ChildFacts(processHash, i);
        var orphan := orphanPool.GetChildOrphan(processHash, i);
        if orphan.None? {
          i := i + 1;
          continue;
        }
        assert processHash == queue'[0];
        err := DrainOne(orphan.value, queue', pool, root, handed', pending');
        if err.Some? {
          handed' := handed' + [orphan.value.block];
          return;
        }
        queue' := queue' + [HashOf(orphan.value.block)];
        handed', pending' := handed' + [orphan.value.block], pending' + {HashOf(orphan.value.block)};
      }
      orphanPool.ChildFacts(processHash, 0);
      ChildrenHanded(pool, orphanPool.orphans.Keys, root, handed', pending', processHash);
      if clean {
        ChildrenDone(genesis, received, index.index.Keys, orphanPool.orphans.Keys, TipBlock(), pending', processHash);
      }
      queue', pending' := queue'[1..], pending' - {processHash};
    }

    /** Hands over every pooled descendant of an accepted block, each once and after its parent, until no pooled block
        has an accepted parent; stops at the first error. */
    method ProcessOrphans(hash: Hash) returns (err: Option<Error>, ghost handed: seq<Block>)
      requires Tracking({hash}) && hash in index.index
      modifies this`clean, index, bestChain, blockStore, blockCache, txHeightCache, orphanPool
      ensures Consistent() && old(index.index.Keys) <= index.index.Keys
      ensures err.Some? ==> !clean && err.value in {ErrBlockHeightNoMatch, ErrForkOutsideView, ErrExec}
      ensures err.None? ==> Tracking({}) && clean == old(clean) && (old(Leads(hash)) ==> Leads(hash))
      ensures err.None? ==> Handing(old(orphanPool.orphans.Keys), orphanPool.orphans.Keys, hash, handed, {})
      ensures err.None? ==> forall b :: b in handed <==> PooledBelow(old(orphanPool.orphans.Keys), hash, b)
      ensures err.Some? ==> StoppedDraining(old(orphanPool.orphans.Keys), orphanPool.orphans.Keys, hash, handed,
                err.value)
      ensures err == Some(ErrBlockHeightNoMatch) ==> old(BadBelow(hash))
      ensures old(BadBelow(hash)) ==> err.Some?
      ensures old(FirstIsBad(hash)) ==>
                err == Some(ErrBlockHeightNoMatch) && orphanPool.orphans.Keys == old(WithoutFirst(hash))
    {
      ghost var pool, pending := orphanPool.orphans.Keys, {hash};
      var processHashes := [hash];
      handed, err := [], None;
      StartHanding(pool, hash);
      while processHashes != []
        invariant Tracking(pending) && clean == old(clean) && (old(Leads(hash)) ==> Leads(hash))
                  && Progress(pool, orphanPool.orphans.Keys, index.index.Keys, hash, handed, pending, processHashes)
        invariant err.None? && old(index.index.Keys) <= index.index.Keys && HeightsOk(handed)
        invariant old(FirstIsBad(hash)) ==> processHashes == [hash] && unchanged(orphanPool)
        decreases orphanPool.orphans.Keys, |processHashes|
      {
        err, processHashes, handed, pending := DrainChildren(processHashes, pool, hash, handed, pending);
        if err.Some? {
          StoppedIsBelow(pool, orphanPool.orphans.Keys, hash, handed, err.value);
          return;
        }
      }
      assert pending == {};
      forall b ensures b in handed <==> PooledBelow(pool, hash, b) {
        HandedAreDescendants(pool, orphanPool.orphans.Keys, hash, handed, b);
      }
    }

    // ----- receiving -----

    /** All parts agree; while nothing has failed, the node holds exactly the received blocks it must hold, and its tip
        is the heaviest of them. */
    ghost predicate Valid()
      reads this`received, this`clean, index, bestChain, blockStore, blockCache, txHeightCache, orphanPool
    {
      Tracking({})
    }

    /** As Valid, but the received block b is being handed over. */
    ghost predicate Receiving(b: Block)
      reads this`received, this`clean, index, bestChain, blockStore, blockCache, txHeightCache, orphanPool
    {
      && Consistent() && b in received
      && (clean ==> Awaiting(genesis, received, index.index.Keys, orphanPool.orphans.Keys - {HashOf(b)}, TipBlock(),
            {}, b))
    }

    lemma Receive(b: Block, before: set<Block>)
      requires Core() && received == before + {b}
      requires clean ==> Draining(genesis, before, index.index.Keys, orphanPool.orphans.Keys, TipBlock(), {})
      ensures clean ==> Awaiting(genesis, received, index.index.Keys, orphanPool.orphans.Keys - {HashOf(b)},
                TipBlock(), {}, b)
    {
      if clean { HandOver(genesis, before, index.index.Keys, orphanPool.orphans.Keys, TipBlock(), {}, b); }
    }

    /** b needs no more handling. */
    lemma Settle(b: Block, pool: set<Hash>)
      requires Consistent() && pool <= orphanPool.orphans.Keys
      requires clean ==> Awaiting(genesis, received, index.index.Keys, pool, TipBlock(), {}, b)
      requires HeightOk(b) ==>
                 HashOf(b) in index.index.Keys
                     || (HashOf(b) in orphanPool.orphans.Keys && b.parent !in index.index.Keys)
      ensures Valid()
    {
      if clean { SetAside(genesis, received, index.index.Keys, pool, orphanPool.orphans.Keys, TipBlock(), b); }
    }

    /** Accepts a received block; its pooled descendants remain to be drained. */
    method AcceptReceived(b: Block) returns (isMain: bool, err: Option<Error>)
      requires Receiving(b) && HashOf(b) !in orphanPool.orphans && HashOf(b) !in index.index
      requires b.parent.HashOf? ==> b.parent in index.index
      modifies this`clean, index, bestChain, blockStore, blockCache, txHeightCache
      ensures Consistent() && old(index.index.Keys) <= index.index.Keys
      ensures err.None? ==> Tracking({HashOf(b)}) && clean == old(clean) && HashOf(b) in index.index && HeightOk(b)
      ensures err.Some? ==> Valid() && clean == (old(clean) && !HeightOk(b)) && err != Some(ErrBlockExist)
      ensures err == Some(ErrExec) && old(clean) ==> Td(TipBlock()) <= Td(old(TipBlock()))
      ensures HeightOk(b) ==> HashOf(b) in index.index
      ensures Judged(b, old(Best()), isMain, err) && (isMain ==> b in Best())
    {
      ghost var pool := orphanPool.orphans.Keys;
      assert pool - {HashOf(b)} == pool;
      isMain, err := AcceptAwaited(b, {});
      if err.Some? {
        clean := clean && !HeightOk(b);
        Settle(b, pool);
        return;
      }
      assert {} + {HashOf(b)} == {HashOf(b)};
    }

    /** Accepts a block and then its pooled descendants. */
    method MaybeAddBestChain(b: Block) returns (isMain: bool, err: Option<Error>)
      requires Receiving(b) && HashOf(b) !in orphanPool.orphans && (b.parent.HashOf? ==> b.parent in index.index)
      modifies this`clean, index, bestChain, blockStore, blockCache, txHeightCache, orphanPool
      ensures Valid()
      ensures err == Some(ErrBlockExist) <==> HashOf(b) in old(index.index)
      ensures err == Some(ErrBlockExist) ==> Best() == old(Best()) && index.index == old(index.index)
      ensures old(clean) && (err.None? || err == Some(ErrBlockExist) || !HeightOk(b)) ==> clean
      ensures err.None? || HeightOk(b) ==> HashOf(b) in index.index
      ensures Judged(b, old(Best()), isMain, err) && (isMain ==> b in Best())
      ensures old(FirstIsBad(HashOf(b)) && HashOf(b) !in index.index) ==>
                err.Some? && old(WithoutFirst(HashOf(b))) <= orphanPool.orphans.Keys
    {
      var found := BlockExists(HashOf(b));
      if found {
        Settle(b, orphanPool.orphans.Keys - {HashOf(b)});
        return false, Some(ErrBlockExist);
      }
      isMain, err := AcceptReceived(b);
      if err.Some? {
        return false, err;
      }
      ghost var handed;
      err, handed := ProcessOrphans(HashOf(b));
      if err.Some? {
        return false, err;
      }
    }

    /** Pools a block; the run is clean no more when the pool drops others to make room. */
    method PoolOrphan(broadcast: bool, b: Block, pid: string, sequence: int, now: int)
      requires Consistent() && b in received && HashOf(b) !in orphanPool.orphans && HashOf(b) !in index.index
      modifies this`clean, orphanPool
      ensures Consistent() && HashOf(b) in orphanPool.orphans
      ensures clean ==> old(clean) && old(orphanPool.orphans).Keys <= orphanPool.orphans.Keys
      ensures old(clean && orphanPool.DropsNone(now)) ==> clean
      ensures old(orphanPool.DropsNone(now)) ==>
                Pooled(b, now, old(orphanPool.prevOrphans), old(orphanPool.orphans.Keys))
    {
      ghost var pool := orphanPool.orphans.Keys;
      orphanPool.AddOrphanBlock(broadcast, b, pid, sequence, now);
      if !(pool <= orphanPool.orphans.Keys) {
        clean := false;
      }
    }

    /** The pool is this one with b filed last among its parent's children. */
    ghost predicate Pooled(b: Block, now: int, prev: Children, pool: set<Hash>)
      reads orphanPool
    {
      && HashOf(b) in orphanPool.orphans && orphanPool.orphans[HashOf(b)].block == b
      && orphanPool.orphans[HashOf(b)].expiration > now
      && orphanPool.orphans.Keys == pool + {HashOf(b)}
      && orphanPool.prevOrphans == prev[b.parent := ChildrenOf(prev, b.parent) + [orphanPool.orphans[HashOf(b)]]]
    }

    lemma PooledIsLinked(b: Block)
      requires Core() && (b.parent !in index.index || b.height == 0)
      ensures HeightOk(b) ==> b.parent !in index.index.Keys
    {
      if b.parent in index.index { ParentFacts(b); }
    }

    /** Pools a block whose parent is unknown. Blocks the pool drops to make room are not retained. */
    method AddOrphan(broadcast: bool, b: Block, pid: string, sequence: int, now: int)
      requires Receiving(b) && HashOf(b) !in orphanPool.orphans && HashOf(b) !in index.index
      requires b.parent !in index.index || b.height == 0
      modifies this`clean, orphanPool
      ensures Valid() && HashOf(b) in orphanPool.orphans
      ensures old(clean && orphanPool.DropsNone(now)) ==> clean
      ensures old(orphanPool.DropsNone(now)) ==>
                Pooled(b, now, old(orphanPool.prevOrphans), old(orphanPool.orphans.Keys))
    {
      ghost var pool := orphanPool.orphans.Keys;
      assert pool - {HashOf(b)} == pool;
      PooledIsLinked(b);
      PoolOrphan(broadcast, b, pid, sequence, now);
      if clean {
        Settle(b, pool);
      }
    }

    /** A block arrives: known blocks are refused, blocks without a known parent are pooled, and the rest are accepted
        together with their pooled descendants. */
    method ProcessBlock(broadcast: bool, b: Block, pid: string, sequence: int, now: int)
      returns (isMain: bool, isOrphan: bool, err: Option<Error>)
      requires Valid()
      modifies this`received, this`clean, index, bestChain, blockStore, blockCache, txHeightCache, orphanPool
      ensures Valid() && received == old(received) + {b}
      ensures err == Some(ErrBlockExist) <==>
                HashOf(b) in old(index.index) || (HashOf(b) in old(orphanPool.orphans) && b.parent !in old(index.index))
      ensures isOrphan <==>
                && err != Some(ErrBlockExist)
                && (if b.height == 0 then b.parent != ZeroHash else b.parent !in old(index.index))
      ensures isOrphan ==> err.None? && HashOf(b) in orphanPool.orphans
      ensures err == Some(ErrBlockExist) || isOrphan ==> Best() == old(Best()) && index.index == old(index.index)
      ensures !isOrphan && (err.None? || (HeightOk(b) && err != Some(ErrBlockExist))) ==> HashOf(b) in index.index
      ensures isOrphan || err.Some? ==> !isMain
      ensures isMain ==> b in Best() && MayLead(b, old(Best()))
      ensures err.None? && !isOrphan && !isMain ==>
                b.parent != HashOf(old(TipBlock())) && WorkOf(Path(b)) <= WorkOf(old(Best()))
      ensures isOrphan && HashOf(b) !in old(orphanPool.orphans) && old(orphanPool.DropsNone(now)) ==>
                Pooled(b, now, old(orphanPool.prevOrphans), old(orphanPool.orphans.Keys))
      ensures !isOrphan && old(FirstIsBad(HashOf(b)) && HashOf(b) !in orphanPool.orphans
                && HashOf(b) !in index.index) ==>
                err.Some? && old(WithoutFirst(HashOf(b))) <= orphanPool.orphans.Keys
      ensures old(clean) && !isOrphan && (err.None? || err == Some(ErrBlockExist) || !HeightOk(b)) ==> clean
      ensures isOrphan && old(clean && orphanPool.DropsNone(now)) ==> clean
    {
      ghost var before := received;
      received := received + {b};
      Receive(b, before);
      var known := IsKnown(b);
      if known {
        return false, false, Some(ErrBlockExist);
      }
      var prevHashExists := false;
      if b.height == 0 {
        if b.parent == ZeroHash {
          prevHashExists := true;
        }
      } else {
        prevHashExists := BlockExists(b.parent);
      }
      if !prevHashExists {
        AddOrphan(broadcast, b, pid, sequence, now);
        return false, true, None;
      }
      isMain, err := MaybeAddBestChain(b);
      isOrphan := false;
    }

    /** Takes a received block out of the pool: it is being handed over. */
    method ReleaseOrphan(b: Block)
      requires Receiving(b) && HashOf(b) in orphanPool.orphans
      modifies orphanPool
      ensures Receiving(b) && HashOf(b) !in orphanPool.orphans
      ensures forall now :: old(orphanPool.DropsNone(now)) ==> orphanPool.DropsNone(now)
    {
      ghost var pool := orphanPool.orphans.Keys - {HashOf(b)};
      orphanPool.RemoveOrphanBlockByHash(HashOf(b));
      assert orphanPool.orphans.Keys - {HashOf(b)} == pool;
    }

    /** Whether a received block is accepted, or pooled and still without its parent. A pooled block whose parent has
        been accepted meanwhile is taken out of the pool to be accepted now. */
    method IsKnown(b: Block) returns (known: bool)
      requires Receiving(b)
      modifies orphanPool
      ensures known <==> HashOf(b) in index.index || (HashOf(b) in old(orphanPool.orphans) && b.parent !in index.index)
      ensures known ==> Valid() && unchanged(orphanPool)
      ensures !known ==> Receiving(b) && HashOf(b) !in orphanPool.orphans
      ensures HashOf(b) !in old(orphanPool.orphans) ==> unchanged(orphanPool)
      ensures forall now :: old(orphanPool.DropsNone(now)) ==> orphanPool.DropsNone(now)
    {
      var found := BlockExists(HashOf(b));
      if found {
        Settle(b, orphanPool.orphans.Keys - {HashOf(b)});
        return true;
      }
      found := orphanPool.IsKnownOrphan(HashOf(b));
      if found {
        var parentExists := BlockExists(b.parent);
        if parentExists {
          ReleaseOrphan(b);
        } else {
          Settle(b, orphanPool.orphans.Keys - {HashOf(b)});
          return true;
        }
      }
      known := false;
    }

    // ----- what a node guarantees -----

    /** Exactly the indexed blocks have a total difficulty, and it is the work of the blocks on their path. */
    lemma TdsAgree()
      requires Valid()
      ensures forall b :: HashOf(b) in index.index <==> HashOf(b) in blockStore.tds
      ensures forall b | HashOf(b) in index.index :: blockStore.tds[HashOf(b)] == WorkOf(Path(b))
    {
      assert PartOk(TheStores) && PartOk(TheIndex);
      OpenStores(Best());
      forall b ensures HashOf(b) in index.index <==> HashOf(b) in blockStore.tds {
        assert HashOf(b) in index.index.Keys <==> HashOf(b) in blockStore.blocks.Keys;
      }
      forall b | HashOf(b) in index.index ensures blockStore.tds[HashOf(b)] == WorkOf(Path(b)) {
        WorkKnown(b);
      }
    }

    /** The height index, the last height and the last block are the best chain's. */
    lemma HeightsAgree()
      requires Valid()
      ensures Best() == Path(TipBlock()) && Best()[0] == genesis
      ensures forall h :: h in blockStore.heightToHash <==> 0 <= h < |Best()|
      ensures forall h | 0 <= h < |Best()| :: blockStore.heightToHash[h] == HashOf(Best()[h])
      ensures blockStore.lastHeight == blockStore.height == TipBlock().height == |Best()| - 1
                && blockStore.lastBlock == TipBlock()
    {
      TipIsTip();
      assert PartOk(TheStores) && PartOk(TheView);
      OpenStores(Best());
      AncestorsIndexed(genesis, index.index, TipBlock());
    }

    /** Replaying the sequence log yields the best chain. */
    lemma LogAgrees()
      requires Valid() && blockStore.saveSequence
      ensures Replay(blockStore.log) == Some(Hashes(Best())) && blockStore.lastSeq == |blockStore.log| - 1
      ensures blockStore.lastSeq == |Best()| - 1 + 2 * Deletes(blockStore.log)
    {
      assert PartOk(TheStores);
      OpenStores(Best());
      LengthLaw(blockStore.log);
      assert |Hashes(Best())| == |Best()|;
    }

    /** Whatever happened before: the height index has domain 0 to the tip and names the best chain, the last height and
        block are the tip's, exactly the indexed blocks are stored, each with the work along its path, and replaying the
        sequence log yields the best chain. */
    lemma StoresAgree()
      requires Valid()
      ensures Best() == Path(TipBlock()) && Best()[0] == genesis
      ensures forall h :: h in blockStore.heightToHash <==> 0 <= h < |Best()|
      ensures forall h | 0 <= h < |Best()| :: blockStore.heightToHash[h] == HashOf(Best()[h])
      ensures blockStore.lastHeight == blockStore.height == TipBlock().height == |Best()| - 1
                && blockStore.lastBlock == TipBlock()
      ensures forall b :: HashOf(b) in index.index <==> HashOf(b) in blockStore.tds
      ensures forall b | HashOf(b) in index.index :: blockStore.tds[HashOf(b)] == WorkOf(Path(b))
      ensures blockStore.saveSequence ==>
                Replay(blockStore.log) == Some(Hashes(Best())) && blockStore.lastSeq == |blockStore.log| - 1
      ensures blockStore.saveSequence ==> blockStore.lastSeq == TipBlock().height + 2 * Deletes(blockStore.log)
    {
      HeightsAgree();
      TdsAgree();
      if blockStore.saveSequence { LogAgrees(); }
    }

    /** The sequence log determines the best chain: no other chain is what it replays to. */
    lemma LogDeterminesChain(chain: seq<Block>)
      requires Valid() && blockStore.saveSequence && Replay(blockStore.log) == Some(Hashes(chain))
      ensures chain == Best()
    {
      StoresAgree();
      HashesDetermine(chain, Best());
    }

    /** While nothing has failed, the accepted blocks are exactly the received ones linked to genesis through received
        blocks, and the tip is the heaviest of them. */
    lemma AcceptsExactlyLinked(b: Block)
      requires Valid() && clean
      ensures HashOf(b) in index.index <==> LinkedIn(genesis, received, b)
      ensures LinkedIn(genesis, received, b) ==> WorkOf(Path(b)) <= WorkOf(Best())
    {
      TipIsTip();
      TdIsWork(b);
      TdIsWork(TipBlock());
      AcceptedIsLinked(genesis, received, index.index.Keys, orphanPool.orphans.Keys, TipBlock(), b);
      assert HashOf(b) in index.index.Keys <==> LinkedIn(genesis, received, b);
      if LinkedIn(genesis, received, b) {
        TipIsBest(genesis, received, index.index.Keys, orphanPool.orphans.Keys, TipBlock(), b);
      }
    }

    /** While nothing has failed, no pooled block of the right height has an accepted parent. */
    lemma NoOrphanWaits(h: Hash)
      requires Valid() && clean && h in orphanPool.orphans && HeightOk(h.block)
      ensures h.block.parent !in index.index
    {
      assert h in orphanPool.orphans.Keys && h.block in received && HashOf(h.block) !in index.index.Keys;
      assert DrainedAt(index.index.Keys, {}, h.block);
    }

    /** Two nodes that received the same blocks in whatever order agree on the accepted blocks and on the total
        difficulty of their tips. */
    lemma NodesAgree(other: BlockChain)
      requires Valid() && clean && other.Valid() && other.clean
      requires genesis == other.genesis && received == other.received
      ensures index.index.Keys == other.index.index.Keys && WorkOf(Best()) == WorkOf(other.Best())
    {
      TipIsTip();
      other.TipIsTip();
      TdIsWork(TipBlock());
      TdIsWork(other.TipBlock());
      ForkChoiceAgrees(genesis, received, index.index.Keys, orphanPool.orphans.Keys, TipBlock(),
                       other.index.index.Keys, other.orphanPool.orphans.Keys, other.TipBlock());
    }

    /** As long as no received block up to the fork height carries a transaction with a tx height, no transaction occurs
        twice on the best chain, the transaction cache is exactly the tx-height window of its newest blocks, and the
        transaction index is exactly its transactions, whatever was reorganised. */
    lemma NoDuplicates()
      requires Valid() && forall b | b in received && 0 < b.height <= txHeightCache.fork :: PlainTxs(b.txs)
      ensures Unique(Best()) && Kept(txHeightCache.txHashes, Best(), txHeightCache.Width(), txHeightCache.fork)
      ensures forall tx :: tx in blockStore.txIndex <==> exists i :: 0 <= i < |Best()| && tx in Best()[i].txs
    {
      assert PartOk(TheStores) && PartOk(TheIndex) && PartOk(TheView);
      OpenStores(Best());
      forall h | h in blockStore.blocks.Keys && h.HashOf?
          && h.block.height <= txHeightCache.fork ensures PlainTxs(h.block.txs) {
        assert h in index.index.Keys;
        AncestorsIndexed(genesis, index.index, h.block);
        assert h.block.height == 0 ==> h.block == genesis;
      }
    }
  }

  /** A block handed over, or about to be, has the root on its path. */
  lemma RootOnPath(pool: set<Hash>, left: set<Hash>, root: Hash, handed: seq<Block>, b: Block)
    requires HandedSoFar(pool, left, root, handed) && root.HashOf? && FromHanded(root, handed, b.parent)
    ensures root.block in Path(b)
  {
    if b.parent != root {
      var i: nat :| i < |handed| && handed[i] == b.parent.block;
      HandedIsBelow(pool, left, root, handed, i);
      BelowHasRoot(pool, root, handed[i]);
    }
    assert Path(b)[|Path(b)| - 2] == b.parent.block;
  }

  lemma {:induction false} BelowHasRoot(pool: set<Hash>, root: Hash, b: Block)
    requires root.HashOf? && PooledBelow(pool, root, b)
    ensures root.block in Path(b)
  {
    if b.parent != root {
      BelowHasRoot(pool, root, b.parent.block);
    } else {
      assert Path(b)[|Path(b)| - 2] == root.block;
    }
  }

  /** Wherever a reorganisation to a child of an indexed block stops half way, the tip it leaves was indexed. */
  lemma StopsIndexed(g: Block, index: Index, b: Block)
    requires IndexOk(g, index) && b.parent.HashOf? && b.parent in index
    ensures forall n: nat | 0 < n < |Path(b)| :: HashOf(StoppedAt(b, n)) in index
  {
    AncestorsIndexed(g, index, b.parent.block);
    assert Path(b) == Path(b.parent.block) + [b];
  }

  lemma {:induction false} SharedOfPrefix(chain: seq<Block>, rest: seq<Block>)
    ensures Shared(chain + rest, chain) == |chain|
  {
    if chain != [] {
      assert (chain + rest)[1..] == chain[1..] + rest;
      SharedOfPrefix(chain[1..], rest);
    }
  }

  ghost predicate PrefixOf(chain: seq<Block>, path: seq<Block>) {
    0 < |chain| <= |path| && chain == path[..|chain|]
  }

  ghost predicate LinkedAt(path: seq<Block>, n: int) {
    0 < n < |path| ==> path[n].parent == HashOf(path[n - 1])
  }

  /** Each block names its predecessor as its parent. */
  ghost predicate Linked(path: seq<Block>) {
    forall n {:trigger LinkedAt(path, n)} :: LinkedAt(path, n)
  }

  /** Total difficulty does not fall along linked blocks. */
  lemma {:induction false} LinkedGrows(path: seq<Block>, i: nat, j: nat)
    requires Linked(path) && i <= j < |path|
    ensures Td(path[i]) <= Td(path[j])
  {
    if i < j {
      LinkedGrows(path, i, j - 1);
      assert LinkedAt(path, j);
    }
  }

  lemma PathIsLinked(b: Block)
    ensures Linked(Path(b))
  {
    forall n ensures LinkedAt(Path(b), n) {
      if 0 < n < |Path(b)| { PathLinks(b, n); }
    }
  }

  lemma NextOnPath(path: seq<Block>, n: nat)
    requires Linked(path) && 0 < n < |path|
    ensures path[n].parent == HashOf(path[..n][n - 1]) && PrefixOf(path[..n] + [path[n]], path)
  {
    assert LinkedAt(path, n);
  }

  /** The blocks of a chain down to height k, tip first. */
  ghost function TopDown(chain: seq<Block>, k: nat): seq<Block>
    requires k <= |chain|
  {
    seq(|chain| - k, i requires 0 <= i < |chain| - k => chain[|chain| - 1 - i])
  }

  /** The log of popping the top n blocks of a chain. */
  ghost function Popped(chain: seq<Block>, n: nat): seq<Entry>
    requires n <= |chain|
  {
    seq(n, i requires 0 <= i < n => Entry(HashOf(chain[|chain| - 1 - i]), false))
  }

  /** The log of pushing a chain's blocks from height k up. */
  ghost function Pushed(chain: seq<Block>, k: nat): seq<Entry>
    requires k <= |chain|
  {
    seq(|chain| - k, i requires 0 <= i < |chain| - k => Entry(HashOf(chain[k + i]), true))
  }

  /** The log grew by these entries, if it is kept. */
  ghost predicate LogGrew(was: seq<Entry>, now: seq<Entry>, entries: seq<Entry>, kept: bool) {
    now == if kept then was + entries else was
  }

  lemma PoppedMore(was: seq<Entry>, mid: seq<Entry>, now: seq<Entry>, chain: seq<Block>, n: nat, kept: bool)
    requires n < |chain| && LogGrew(was, mid, Popped(chain, n), kept)
    requires LogGrew(mid, now, [Entry(HashOf(chain[|chain| - 1 - n]), false)], kept)
    ensures LogGrew(was, now, Popped(chain, n + 1), kept)
  {
    assert Popped(chain, n + 1) == Popped(chain, n) + [Entry(HashOf(chain[|chain| - 1 - n]), false)];
  }

  lemma PushedMore(was: seq<Entry>, mid: seq<Entry>, now: seq<Entry>, chain: seq<Block>, k: nat, b: Block, kept: bool)
    requires k <= |chain| && LogGrew(was, mid, Pushed(chain, k), kept)
    requires LogGrew(mid, now, [Entry(HashOf(b), true)], kept)
    ensures LogGrew(was, now, Pushed(chain + [b], k), kept)
  {
    assert Pushed(chain + [b], k) == Pushed(chain, k) + [Entry(HashOf(b), true)];
  }

  lemma FirstSettled(g: Block)
    requires Genesis(g)
    ensures Settled(g, {g}, {HashOf(g)}, {}, g)
  {
    assert RootedAt(g, {g}, {HashOf(g)}, g);
  }

  /** A block and two children of it; the first has a wrong height. */
  function Family(g: Block): (Block, Block, Block) {
    var p := Block(HashOf(g), 1, 1, [], 1);
    (p, Block(HashOf(p), 3, 1, [], 2), Block(HashOf(p), 2, 1, [], 3))
  }

  /** A node that holds genesis, and whose pool holds the two children in order. */
  method TwoOrphans(g: Block) returns (node: BlockChain)
    requires Genesis(g) && Plain(g.txs)
    ensures fresh(node) && fresh(node.Parts()) && node.Valid()
    ensures HashOf(Family(g).0) !in node.index.index && HashOf(g) in node.index.index
    ensures HashOf(Family(g).0) !in node.orphanPool.orphans && HashOf(Family(g).2) in node.orphanPool.orphans
    ensures node.FirstIsBad(HashOf(Family(g).0))
    ensures HashOf(Family(g).2) in node.WithoutFirst(HashOf(Family(g).0))
  {
    var (p, bad, sibling) := Family(g);
    node := new BlockChain(g, false, true, 200, 600, 0, 16, 32);
    node.AcceptsExactlyLinked(p);
    node.AcceptsExactlyLinked(g);
    node.AcceptsExactlyLinked(bad);
    node.AcceptsExactlyLinked(sibling);
    FirstOrphan(node, bad);
    SecondOrphan(node, bad, sibling);
  }

  method FirstOrphan(node: BlockChain, bad: Block)
    requires node.Valid() && node.orphanPool.orphans == map[] && node.orphanPool.prevOrphans == map[]
    requires bad.height > 0 && HashOf(bad) !in node.index.index && bad.parent !in node.index.index
    modifies node, node.Parts()
    ensures node.Valid() && node.index.index == old(node.index.index)
    ensures node.orphanPool.orphans.Keys == {HashOf(bad)} && node.orphanPool.orphans[HashOf(bad)].block == bad
    ensures node.orphanPool.orphans[HashOf(bad)].expiration >= 0
    ensures node.orphanPool.prevOrphans == map[bad.parent := [node.orphanPool.orphans[HashOf(bad)]]]
  {
    var isMain, isOrphan, err := node.ProcessBlock(false, bad, "", 0, 0);
    assert [] + [node.orphanPool.orphans[HashOf(bad)]] == [node.orphanPool.orphans[HashOf(bad)]];
  }

  method SecondOrphan(node: BlockChain, bad: Block, sibling: Block)
    requires node.Valid() && node.orphanPool.orphans.Keys == {HashOf(bad)}
               && node.orphanPool.orphans[HashOf(bad)].block == bad
    requires node.orphanPool.orphans[HashOf(bad)].expiration >= 0
    requires node.orphanPool.prevOrphans == map[bad.parent := [node.orphanPool.orphans[HashOf(bad)]]]
    requires sibling.height > 0 && HashOf(sibling) !in node.index.index && sibling.parent !in node.index.index
    requires sibling != bad && sibling.parent == bad.parent
    modifies node, node.Parts()
    ensures node.Valid() && node.index.index == old(node.index.index)
    ensures node.orphanPool.orphans.Keys == {HashOf(bad), HashOf(sibling)}
    ensures var children := ChildrenOf(node.orphanPool.prevOrphans, bad.parent);
            |children| == 2 && children[0].block == bad && children[1].block == sibling
  {
    assert |node.orphanPool.orphans| == |node.orphanPool.orphans.Keys| == 1;
    var isMain, isOrphan, err := node.ProcessBlock(false, sibling, "", 0, 0);
  }

  /** A pooled block with a wrong height stops the draining: its sibling stays pooled although its parent is
      accepted. */
  method SiblingStaysBehind(g: Block) returns (node: BlockChain, sibling: Block)
    requires Genesis(g) && Plain(g.txs)
    ensures node.Valid() && HeightOk(sibling) && sibling.parent in node.index.index
              && HashOf(sibling) in node.orphanPool.orphans
  {
    var (p, _, child) := Family(g);
    sibling := child;
    node := TwoOrphans(g);
    var isMain, isOrphan, err := node.ProcessBlock(false, p, "", 0, 0);
  }

  /** Pooled and accepted blocks were received, and none is both. */
  ghost predicate Apart(pool: set<Hash>, accepted: set<Hash>, received: set<Block>) {
    && (forall h | h in pool :: h.HashOf? && h.block in received && h !in accepted)
    && (forall h | h in accepted :: h.HashOf? && h.block in received)
  }

  lemma ApartAfter(pool: set<Hash>, before: set<Hash>, after: set<Hash>, received: set<Block>, b: Block)
    requires Apart(pool, before, received) && HashOf(b) !in pool && b in received
    requires after == before || after == before + {HashOf(b)}
    ensures Apart(pool, after, received)
  {
  }

  ghost predicate HeightsOk(handed: seq<Block>) {
    forall i | 0 <= i < |handed| :: HeightOk(handed[i])
  }

  /** Draining stopped at the last block handed over, with a height error exactly when its height was wrong; what was
      not handed over is still pooled. */
  ghost predicate StoppedDraining(pool: set<Hash>, left: set<Hash>, root: Hash, handed: seq<Block>, err: Error) {
    && handed != [] && HandedSoFar(pool, left, root, handed) && HeightsOk(handed[..|handed| - 1])
    && (err == ErrBlockHeightNoMatch <==> !HeightOk(handed[|handed| - 1]))
  }

  lemma HandedNext(pool: set<Hash>, left: set<Hash>, root: Hash, handed: seq<Block>, b: Block)
    requires HeightsOk(handed) && HandedSoFar(pool, left, root, handed + [b])
    ensures HeightOk(b) ==> HeightsOk(handed + [b])
    ensures forall err :: (err == ErrBlockHeightNoMatch <==> !HeightOk(b)) ==>
              StoppedDraining(pool, left, root, handed + [b], err)
  {
    assert (handed + [b])[..|handed|] == handed;
  }

  lemma StoppedIsBelow(pool: set<Hash>, left: set<Hash>, root: Hash, handed: seq<Block>, err: Error)
    requires StoppedDraining(pool, left, root, handed, err)
    ensures PooledBelow(pool, root, handed[|handed| - 1])
  {
    HandedIsBelow(pool, left, root, handed, |handed| - 1);
  }

  lemma PlainBefore(before: set<Hash>, after: set<Hash>, fork: int)
    requires before <= after
    ensures PlainUpTo(after, fork) ==> PlainUpTo(before, fork)
  {
  }

  /** The index and the view of a genesis block. */
  method NewView(g: Block) returns (idx: BlockIndex, view: ChainView)
    requires Genesis(g)
    ensures idx.index.Keys == {HashOf(g)} && view.Valid(g, idx.index) && view.chain == [g] && fresh(idx) && fresh(view)
  {
    var node := new BlockNode(g, null);
    idx := new BlockIndex(node);
    assert NodeOk(g, idx.index, g);
    view := new ChainView(g, idx.index, node);
  }

  /** The stores of a genesis block. */
  method NewStores(g: Block, saveSequence: bool, lower: nat, upper: nat, fork: int, blkCacheSize: int,
      hashCacheSize: int)
    returns (cache: BlockCache, store: BlockStore, txCache: TxHashCache)
    requires Genesis(g) && Plain(g.txs) && lower + upper > 0 && 0 < blkCacheSize <= hashCacheSize
    ensures cache.Valid() && cache.chain == [g] && fresh(cache) && fresh(store) && fresh(txCache)
    ensures store.Valid() && store.Current() && store.chain == [g] && store.blocks.Keys == {HashOf(g)}
              && store.blockCache == cache
    ensures txCache.Valid() && txCache.chain == [g] && txCache.faithful && txCache.store == store
              && txCache.fork == fork
    ensures store.saveSequence == saveSequence
    ensures cache.blkCacheSize == blkCacheSize && cache.hashCacheSize == hashCacheSize
    ensures txCache.lowerTxHeightRange == lower && txCache.upperTxHeightRange == upper
    ensures TxsKnown(store.txIndex, [g], txCache.upperTxHeightRange, txCache.lowerTxHeightRange, fork)
  {
    cache := new BlockCache(g, blkCacheSize, hashCacheSize);
    store := new BlockStore(g, saveSequence, cache);
    txCache := new TxHashCache(g, lower, upper, fork, store);
    GenesisTxs(g, lower, upper, fork);
  }

  lemma GenesisTxs(g: Block, lower: nat, upper: nat, fork: int)
    requires Plain(g.txs)
    ensures TxsKnown(TxHashes(g), [g], upper, lower, fork)
  {
    assert [g][0] == g;
  }
}
