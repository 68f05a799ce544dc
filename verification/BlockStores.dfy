/** The block database, the newest-blocks cache in front of it, and the sequence log it keeps. */
module BlockStores {
  import opened Wrappers
  import opened Blocks
  import opened SequenceLog

  ghost predicate ByHeight(chain: seq<Block>) {
    forall i | 0 <= i < |chain| :: chain[i].height == i
  }

  /** hashes names exactly the chain's blocks from height low up. */
  ghost predicate HashWindow(hashes: map<int, Hash>, chain: seq<Block>, low: int) {
    && 0 <= low <= |chain|
    && (forall h :: h in hashes <==> low <= h < |chain|)
    && (forall h {:trigger hashes[h]} | h in hashes :: hashes[h] == HashOf(chain[h]))
  }

  ghost predicate Bodies(bodies: map<Hash, Block>) {
    forall k {:trigger bodies[k]} | k in bodies :: k.HashOf? && bodies[k] == k.block
  }

  /** bodies holds exactly the chain's blocks from height low up. */
  ghost predicate BodyWindow(bodies: map<Hash, Block>, chain: seq<Block>, low: int) {
    && 0 <= low <= |chain|
    && (forall b {:trigger HashOf(b) in bodies} :: HashOf(b) in bodies <==>
          low <= b.height < |chain| && chain[b.height] == b)
  }

  function Min(a: int, b: int): int {
    if a < b then a else b
  }

  function Max(a: int, b: int): int {
    if a < b then b else a
  }

  lemma HashWindowSlides(hashes: map<int, Hash>, chain: seq<Block>, low: int, b: Block, size: int)
    requires HashWindow(hashes, chain, low) && size > 0 && |chain| - low <= size
    ensures HashWindow((hashes - {|chain| - size})[|chain| := HashOf(b)], chain + [b], Max(low, |chain| + 1 - size))
  {
  }

  lemma BodyWindowSlides(kept: map<int, Hash>, bodies: map<Hash, Block>, rest: map<Hash, Block>, chain: seq<Block>,
      low: int, b: Block, size: int)
    requires ByHeight(chain) && b.height == |chain| && size > 0 && |chain| - low <= size
    requires BodyWindow(bodies, chain, low)
    requires forall h | h in kept :: 0 <= h < |chain| && kept[h] == HashOf(chain[h])
    requires |chain| - size >= low ==> |chain| - size in kept
    requires rest == if |chain| - size in kept then bodies - {kept[|chain| - size]} else bodies
    ensures BodyWindow(rest[HashOf(b) := b], chain + [b], Max(low, |chain| + 1 - size))
  {
    var out := |chain| - size;
    forall c ensures HashOf(c) in rest[HashOf(b) := b] <==>
      Max(low, out + 1) <= c.height < |chain| + 1 && (chain + [b])[c.height] == c
    {
      if out in kept && chain[out] == c { assert c.height == out; }
    }
  }

  lemma WindowsPop(hashes: map<int, Hash>, bodies: map<Hash, Block>, rest: map<Hash, Block>, chain: seq<Block>,
      hashLow: int, low: int)
    requires ByHeight(chain) && chain != [] && HashWindow(hashes, chain, hashLow) && hashLow <= low
    requires rest == if |chain| - 1 in hashes then bodies - {hashes[|chain| - 1]} else bodies
    ensures HashWindow(hashes - {|chain| - 1}, chain[..|chain| - 1], Min(hashLow, |chain| - 1))
    ensures BodyWindow(bodies, chain, low) ==> BodyWindow(rest, chain[..|chain| - 1], Min(low, |chain| - 1))
  {
    var n := |chain| - 1;
    if BodyWindow(bodies, chain, low) {
      forall c ensures HashOf(c) in rest <==> Min(low, n) <= c.height < n && chain[..n][c.height] == c {
        if n in hashes && chain[n] == c { assert c.height == n; }
      }
    }
  }

  /** Heights hashLow up to the tip are cached; when fewer bodies than hashes are kept, the cached bodies are exactly
      those of heights bodyLow up to the tip. */
  ghost predicate CacheOk(bodySize: int, hashSize: int, hashes: map<int, Hash>, bodies: map<Hash, Block>,
                          chain: seq<Block>, hashLow: int, bodyLow: int)
  {
    && 0 < bodySize <= hashSize
    && ByHeight(chain) && Bodies(bodies)
    && HashWindow(hashes, chain, hashLow) && |chain| - hashLow <= hashSize
    && (bodySize < hashSize ==>
          BodyWindow(bodies, chain, bodyLow) && hashLow <= bodyLow && |chain| - bodyLow <= bodySize)
  }

  lemma CacheSlides(bodySize: int, hashSize: int, hashes: map<int, Hash>, bodies: map<Hash, Block>,
                    chain: seq<Block>, hashLow: int, bodyLow: int, b: Block,
                    kept: map<int, Hash>, rest: map<Hash, Block>)
    requires CacheOk(bodySize, hashSize, hashes, bodies, chain, hashLow, bodyLow) && b.height == |chain|
    requires kept == hashes - {|chain| - hashSize}
    requires rest == if |chain| - bodySize in kept then bodies - {kept[|chain| - bodySize]} else bodies
    ensures CacheOk(bodySize, hashSize, kept[|chain| := HashOf(b)], rest[HashOf(b) := b],
                    chain + [b], Max(hashLow, |chain| + 1 - hashSize), Max(bodyLow, |chain| + 1 - bodySize))
    ensures bodySize == hashSize ==> rest == bodies
    ensures HashesSlid(hashes, kept[|chain| := HashOf(b)], |chain|, hashSize)
    ensures OneEvicted(bodies, rest[HashOf(b) := b],
                       if |chain| - bodySize in hashes then Some(hashes[|chain| - bodySize]) else None)
  {
    HashWindowSlides(hashes, chain, hashLow, b, hashSize);
    if bodySize < hashSize {
      BodyWindowSlides(kept, bodies, rest, chain, bodyLow, b, bodySize);
    }
  }

  /** A height was added, and the one that many below forgotten. */
  ghost predicate HashesSlid(before: map<int, Hash>, after: map<int, Hash>, height: int, size: int) {
    forall h {:trigger h in after} :: h in after <==> h == height || (h in before && h != height - size)
  }

  /** No body but one was forgotten. */
  ghost predicate OneEvicted(before: map<Hash, Block>, after: map<Hash, Block>, evicted: Option<Hash>) {
    forall k {:trigger k in after} | k in before :: k in after || evicted == Some(k)
  }

  /** Hashes and bodies of the newest blocks, by height and by hash. */
  class BlockCache {
    const blkCacheSize: int
    const hashCacheSize: int
    var hashCache: map<int, Hash>
    var blockCache: map<Hash, Block>
    var currentHeight: int
    ghost var chain: seq<Block>
    ghost var hashFrom: int
    ghost var blkFrom: int

    ghost predicate Valid()
      reads this
    {
      && chain != [] && currentHeight == |chain| - 1
      && CacheOk(blkCacheSize, hashCacheSize, hashCache, blockCache, chain, hashFrom, blkFrom)
    }

    /** A cache warmed with the first block. */
    constructor (g: Block, blkCacheSize: int, hashCacheSize: int)
      requires 0 < blkCacheSize <= hashCacheSize && g.height == 0
      ensures Valid() && chain == [g] && this.blkCacheSize == blkCacheSize && this.hashCacheSize == hashCacheSize
    {
      this.blkCacheSize, this.hashCacheSize := blkCacheSize, hashCacheSize;
      hashCache, blockCache, currentHeight := map[0 := HashOf(g)], map[HashOf(g) := g], 0;
      chain, hashFrom, blkFrom := [g], 0, 0;
    }

    function GetBlockHash(height: int): Option<Hash>
      reads this
    {
      if height in hashCache then Some(hashCache[height]) else None
    }

    function GetBlockByHash(hash: Hash): Option<Block>
      reads this
    {
      if hash in blockCache then Some(blockCache[hash]) else None
    }

    /** The best chain grew by b: the cache slides, evicting the oldest hash before the oldest body. When both sizes are
        equal the body's hash is already gone, and no body is ever evicted. */
    method AddBlock(b: Block)
      requires Valid() && b.height == |chain|
      modifies this
      ensures Valid() && chain == old(chain) + [b]
      ensures GetBlockHash(b.height) == Some(HashOf(b)) && GetBlockByHash(HashOf(b)) == Some(b)
      ensures blkCacheSize == hashCacheSize ==> old(blockCache).Keys <= blockCache.Keys
      ensures HashesSlid(old(hashCache), hashCache, b.height, hashCacheSize)
      ensures OneEvicted(old(blockCache), blockCache, old(GetBlockHash(b.height - blkCacheSize)))
    {
      currentHeight := b.height;
      var kept := hashCache - {currentHeight - hashCacheSize};
      var rest := if currentHeight - blkCacheSize in kept then blockCache - {kept[currentHeight - blkCacheSize]}
          else blockCache;
      CacheSlides(blkCacheSize, hashCacheSize, hashCache, blockCache, chain, hashFrom, blkFrom, b, kept, rest);
      hashCache := kept[currentHeight := HashOf(b)];
      blockCache := rest[HashOf(b) := b];
      hashFrom := Max(hashFrom, |chain| + 1 - hashCacheSize);
      blkFrom := Max(blkFrom, |chain| + 1 - blkCacheSize);
      chain := chain + [b];
    }

    /** The tip at this height is rolled back. */
    method DelBlock(height: int)
      requires Valid() && height == |chain| - 1 && |chain| > 1
      modifies this
      ensures Valid() && chain == old(chain)[..|old(chain)| - 1]
      ensures GetBlockHash(height) == None
      ensures forall h :: h in hashCache <==> h in old(hashCache) && h != height
      ensures forall k :: k in blockCache <==> k in old(blockCache) && old(GetBlockHash(height)) != Some(k)
    {
      currentHeight := height - 1;
      var rest := if height in hashCache then blockCache - {hashCache[height]} else blockCache;
      WindowsPop(hashCache, blockCache, rest, chain, hashFrom, Max(hashFrom, blkFrom));
      blockCache := rest;
      hashCache := hashCache - {height};
      chain := chain[..height];
      hashFrom, blkFrom := Min(hashFrom, height), Min(blkFrom, height);
    }
  }

  // ----- the database -----

  /** Every stored block carries the work along its ancestry. */
  ghost predicate TdsOk(blocks: map<Hash, Block>, tds: map<Hash, nat>) {
    && Bodies(blocks)
    && (forall k {:trigger k in tds} {:trigger k in blocks} :: k in blocks <==> k in tds)
    && (forall k {:trigger tds[k]} | k in blocks :: tds[k] == Td(k.block))
  }

  /** A block stored with its own work and its parent's total difficulty has the work of its path. */
  lemma TdStored(blocks: map<Hash, Block>, tds: map<Hash, nat>, b: Block, td: nat)
    requires TdsOk(blocks, tds) && HashOf(b) !in blocks
    requires td == b.work + if b.height == 0 then 0 else if b.parent in tds then tds[b.parent] else 0
    requires if b.height == 0 then b.parent == ZeroHash else b.parent in tds
    ensures td == WorkOf(Path(b)) && TdsOk(blocks[HashOf(b) := b], tds[HashOf(b) := td])
  {
    TdIsWork(b);
    assert td == Td(b);
  }

  /** Every block of the chain is stored. */
  ghost predicate Stored(chain: seq<Block>, blocks: map<Hash, Block>) {
    forall i {:trigger chain[i]} | 0 <= i < |chain| :: HashOf(chain[i]) in blocks
  }

  /** The log's tables are its entries, and replaying it yields the chain. */
  ghost predicate LogOk(log: seq<Entry>, seqToEntry: map<int, Entry>, hashToSeq: map<Hash, int>, lastSeq: int,
      chain: seq<Block>) {
    Tables(log, seqToEntry, hashToSeq, lastSeq) && Replay(log) == Some(Hashes(chain))
  }

  lemma FirstEntry(g: Block)
    ensures LogOk([Entry(HashOf(g), true)], map[0 := Entry(HashOf(g), true)], map[HashOf(g) := 0], 0, [g])
  {
    var log := [Entry(HashOf(g), true)];
    assert Hashes([]) == [] && Replay([]) == Some([]);
    ReplayPush([], [], g);
    assert [] + log == log && [] + [g] == [g];
    assert LatestAdd(log, HashOf(g), 0);
  }

  lemma LogHasEntries(log: seq<Entry>, seqToEntry: map<int, Entry>, hashToSeq: map<Hash, int>, lastSeq: int,
      chain: seq<Block>)
    requires LogOk(log, seqToEntry, hashToSeq, lastSeq, chain) && chain != []
    ensures lastSeq >= 0
  {
    assert |Hashes(chain)| > 0;
  }

  /** What the database says about the best chain. */
  ghost predicate Records(heightToHash: map<int, Hash>, lastHeight: int, blocks: map<Hash, Block>, chain: seq<Block>) {
    && chain != [] && ByHeight(chain)
    && HashWindow(heightToHash, chain, 0) && lastHeight == |chain| - 1
    && Stored(chain, blocks)
  }

  lemma RecordsPush(heightToHash: map<int, Hash>, lastHeight: int, blocks: map<Hash, Block>, chain: seq<Block>,
      b: Block)
    requires Records(heightToHash, lastHeight, blocks, chain) && b.height == |chain| && HashOf(b) in blocks
    ensures Records(heightToHash[b.height := HashOf(b)], b.height, blocks, chain + [b])
  {
    PushKeepsStored(chain, blocks, b);
  }

  lemma RecordsPop(heightToHash: map<int, Hash>, lastHeight: int, blocks: map<Hash, Block>, chain: seq<Block>, b: Block)
    requires Records(heightToHash, lastHeight, blocks, chain) && |chain| > 1 && b == chain[|chain| - 1]
    ensures Records(heightToHash - {b.height}, b.height - 1, blocks, chain[..|chain| - 1])
  {
    PopKeepsStored(chain, heightToHash, blocks);
  }

  lemma PushKeepsStored(chain: seq<Block>, blocks: map<Hash, Block>, b: Block)
    requires Stored(chain, blocks) && HashOf(b) in blocks
    ensures Stored(chain + [b], blocks)
  {
  }

  lemma PopKeepsStored(chain: seq<Block>, hashes: map<int, Hash>, blocks: map<Hash, Block>)
    requires chain != [] && ByHeight(chain) && HashWindow(hashes, chain, 0) && Stored(chain, blocks)
    ensures var n := |chain| - 1;
            ByHeight(chain[..n]) && HashWindow(hashes - {n}, chain[..n], 0) && Stored(chain[..n], blocks)
  {
    var shorter := chain[..|chain| - 1];
    forall i | 0 <= i < |shorter| ensures HashOf(shorter[i]) in blocks {
      assert HashOf(chain[i]) in blocks;
    }
  }

  datatype SeqStatus = SeqOk | SeqNeedCreate | SeqPanic

  class BlockStore {
    const saveSequence: bool
    const blockCache: BlockCache
    var heightToHash: map<int, Hash>
    var lastHeight: int
    var blocks: map<Hash, Block>
    var tds: map<Hash, nat>
    var txIndex: set<Tx>
    var seqToEntry: map<int, Entry>
    var hashToSeq: map<Hash, int>
    var lastSeq: int
    var height: int
    var lastBlock: Block
    ghost var chain: seq<Block>
    ghost var log: seq<Entry>

    ghost predicate Valid()
      reads this`heightToHash, this`lastHeight, this`blocks, this`tds, this`seqToEntry, this`hashToSeq, this`lastSeq,
          this`chain, this`log
    {
      && Records(heightToHash, lastHeight, blocks, chain) && TdsOk(blocks, tds)
      && (saveSequence ==> LogOk(log, seqToEntry, hashToSeq, lastSeq, chain))
      && (!saveSequence ==> lastSeq == -1)
    }

    /** The in-memory height and last block name the tip. */
    ghost predicate Current()
      reads this`height, this`lastBlock, this`chain
    {
      chain != [] && height == |chain| - 1 && lastBlock == chain[|chain| - 1]
    }

    /** A store that holds the genesis block only. */
    constructor (g: Block, saveSequence: bool, cache: BlockCache)
      requires Genesis(g)
      ensures Valid() && Current() && chain == [g] && blocks == map[HashOf(g) := g]
      ensures this.saveSequence == saveSequence && blockCache == cache
      ensures txIndex == TxHashes(g)
      ensures saveSequence ==> log == [Entry(HashOf(g), true)]
    {
      this.saveSequence, blockCache := saveSequence, cache;
      heightToHash, lastHeight := map[0 := HashOf(g)], 0;
      blocks, tds := map[HashOf(g) := g], map[HashOf(g) := g.work];
      txIndex := TxHashes(g);
      seqToEntry, hashToSeq, lastSeq := map[], map[], -1;
      height, lastBlock := 0, g;
      chain, log := [g], [];
      new;
      if saveSequence {
        seqToEntry, hashToSeq, lastSeq := map[0 := Entry(HashOf(g), true)], map[HashOf(g) := 0], 0;
        log := [Entry(HashOf(g), true)];
        FirstEntry(g);
      }
    }

    // ----- reading -----

    function GetTd(hash: Hash): Option<nat>
      reads this`tds
    {
      if hash in tds then Some(tds[hash]) else None
    }

    function LoadBlockByHash(hash: Hash): Option<Block>
      reads this`blocks
    {
      if hash in blocks then Some(blocks[hash]) else None
    }

    /** Asks the cache first; the answer is the best chain's all the same. */
    method GetBlockHashByHeight(h: int) returns (r: Option<Hash>)
      requires Valid() && blockCache.Valid() && blockCache.chain == chain
      ensures r == if 0 <= h < |chain| then Some(HashOf(chain[h])) else None
    {
      r := blockCache.GetBlockHash(h);
      if r.None? {
        r := if h in heightToHash then Some(heightToHash[h]) else None;
      }
    }

    method GetBlock(h: int) returns (r: Option<Block>)
      requires Valid() && blockCache.Valid() && blockCache.chain == chain
      ensures r == if 0 <= h < |chain| then Some(chain[h]) else None
    {
      var hash := GetBlockHashByHeight(h);
      if hash.None? {
        return None;
      }
      r := blockCache.GetBlockByHash(hash.value);
      if r.None? {
        r := LoadBlockByHash(hash.value);
      }
    }

    method HasTx(tx: Tx) returns (has: bool)
      ensures has == (tx in txIndex)
    {
      has := tx in txIndex;
    }

    // ----- writing -----

    /** Stores a received block with its total difficulty, unless its header is there already. */
    method MaybeStoreBlock(b: Block) returns (ok: bool)
      requires Valid() && (b.height == 0 ==> b.parent == ZeroHash)
      modifies this`blocks, this`tds
      ensures Valid()
      ensures HashOf(b) in old(blocks) ==> ok && blocks == old(blocks) && tds == old(tds)
      ensures HashOf(b) !in old(blocks) && ok ==>
                blocks == old(blocks)[HashOf(b) := b] && tds == old(tds)[HashOf(b) := WorkOf(Path(b))]
      ensures !ok ==> blocks == old(blocks) && tds == old(tds) && b.height != 0 && b.parent !in old(tds)
      ensures b.parent.HashOf? && b.parent in old(blocks) ==> ok
    {
      if HashOf(b) in blocks {
        return true;
      }
      var td := b.work;
      if b.height != 0 {
        var parentTd := GetTd(b.parent);
        if parentTd.None? {
          return false;
        }
        td := b.work + parentTd.value;
      }
      TdStored(blocks, tds, b, td);
      blocks := blocks[HashOf(b) := b];
      tds := tds[HashOf(b) := td];
      ok := true;
    }

    /** Rewrites a stored block's total difficulty. */
    method SaveTdByBlockHash(hash: Hash, td: nat)
      requires Valid() && hash in blocks && td == Td(hash.block)
      modifies this`tds
      ensures Valid()
    {
      tds := tds[hash := td];
    }

    method AddTxs(b: Block)
      modifies this`txIndex
      ensures txIndex == old(txIndex) + TxHashes(b)
    {
      txIndex := txIndex + TxHashes(b);
    }

    method DelTxs(b: Block)
      modifies this`txIndex
      ensures txIndex == old(txIndex) - TxHashes(b)
    {
      txIndex := txIndex - TxHashes(b);
    }

    /** Writes b as the new tip and logs the push. */
    method SaveBlock(b: Block) returns (lastSequence: int)
      requires Valid() && b.height == |chain| && HashOf(b) in blocks
      modifies this`blocks, this`heightToHash, this`lastHeight, this`seqToEntry, this`hashToSeq, this`lastSeq,
          this`chain, this`log
      ensures Valid() && chain == old(chain) + [b] && blocks == old(blocks)
      ensures saveSequence ==> log == old(log) + [Entry(HashOf(b), true)] && lastSequence == |log| - 1
      ensures !saveSequence ==> log == old(log) && lastSequence == -1
    {
      lastSequence := -1;
      RecordsPush(heightToHash, lastHeight, blocks, chain, b);
      assert blocks[HashOf(b)] == b;
      blocks := blocks[HashOf(b) := b];
      lastHeight := b.height;
      heightToHash := heightToHash[b.height := HashOf(b)];
      if saveSequence {
        lastSequence := LogPush(b, chain);
      }
      chain := chain + [b];
    }

    /** Everything one connected block writes: transactions, block, sequence, total difficulty, and then the in-memory
        height and last block. None when the parent's total difficulty is missing. */
    method CommitBlock(b: Block) returns (lastSequence: Option<int>)
      requires Valid() && b.height == |chain| && HashOf(b) in blocks
      requires b.parent == HashOf(chain[|chain| - 1])
      modifies this
      ensures lastSequence == Some(if saveSequence then |log| - 1 else -1) && Valid() && Current()
      ensures chain == old(chain) + [b] && blocks == old(blocks) && txIndex == old(txIndex) + TxHashes(b)
      ensures log == if saveSequence then old(log) + [Entry(HashOf(b), true)] else old(log)
    {
      lastSequence := CommitRows(b);
      if lastSequence.None? {
        return;
      }
      UpdateHeight2(b.height);
      UpdateLastBlock2(b);
    }

    /** The transactions, block, sequence and total difficulty of a connected block. */
    method CommitRows(b: Block) returns (lastSequence: Option<int>)
      requires Valid() && b.height == |chain| && HashOf(b) in blocks
      requires b.parent == HashOf(chain[|chain| - 1])
      modifies this`blocks, this`heightToHash, this`lastHeight, this`seqToEntry, this`hashToSeq, this`lastSeq,
          this`chain, this`log, this`tds, this`txIndex
      ensures lastSequence == Some(if saveSequence then |log| - 1 else -1) && Valid()
      ensures chain == old(chain) + [b] && blocks == old(blocks) && txIndex == old(txIndex) + TxHashes(b)
      ensures log == if saveSequence then old(log) + [Entry(HashOf(b), true)] else old(log)
    {
      ParentTdKnown(b.parent.block);
      AddTxs(b);
      var seqNo := SaveBlock(b);
      var ok := CommitTd(b);
      lastSequence := if ok then Some(seqNo) else None;
    }

    /** Writes a connected block's total difficulty; false when its parent's is missing. */
    method CommitTd(b: Block) returns (ok: bool)
      requires Valid() && HashOf(b) in blocks && b.height > 0 && b.parent.HashOf?
      requires b.parent in tds && tds[b.parent] == Td(b.parent.block)
      modifies this`tds
      ensures ok && Valid()
    {
      var td := b.work;
      if b.height != 0 {
        var parentTd := GetTd(b.parent);
        if parentTd.None? {
          return false;
        }
        td := b.work + parentTd.value;
      }
      SaveTdByBlockHash(HashOf(b), td);
      ok := true;
    }

    lemma ParentTdKnown(p: Block)
      requires Valid() && p == chain[|chain| - 1]
      ensures HashOf(p) in tds && tds[HashOf(p)] == Td(p)
    {
      assert HashOf(chain[|chain| - 1]) in blocks;
    }

    /** Removes the tip b and logs the pop. The new sequence number is assigned to a variable of an inner block, so -1
        is returned although the log has grown. */
    method DelBlock(b: Block) returns (lastSequence: int)
      requires Valid() && |chain| > 1 && b == chain[|chain| - 1]
      modifies this`heightToHash, this`lastHeight, this`seqToEntry, this`hashToSeq, this`lastSeq, this`chain, this`log
      ensures Valid() && chain == old(chain)[..|old(chain)| - 1]
      ensures log == if saveSequence then old(log) + [Entry(HashOf(b), false)] else old(log)
      ensures lastSequence == -1
    {
      lastSequence := -1;
      RecordsPop(heightToHash, lastHeight, blocks, chain, b);
      lastHeight := b.height - 1;
      heightToHash := heightToHash - {b.height};
      if saveSequence {
        var newSequence := LogPop(b, chain);
      }
      chain := chain[..|chain| - 1];
    }

    /** Everything one disconnected block writes: transactions, block, sequence, and then the in-memory height and last
        block reloaded from the database. What is handed on as the last sequence is -1. */
    method RevertBlock(b: Block) returns (lastSequence: int)
      requires Valid() && |chain| > 1 && b == chain[|chain| - 1] && b.parent == HashOf(chain[|chain| - 2])
      modifies this
      ensures Valid() && Current() && lastSequence == -1
      ensures chain == old(chain)[..|old(chain)| - 1] && blocks == old(blocks) && txIndex == old(txIndex) - TxHashes(b)
      ensures log == if saveSequence then old(log) + [Entry(HashOf(b), false)] else old(log)
    {
      DelTxs(b);
      assert HashOf(chain[|chain| - 2]) in blocks;
      lastSequence := DelBlock(b);
      UpdateHeight();
      UpdateLastBlock(b.parent);
    }

    /** Logs the push of b onto a chain. */
    method LogPush(b: Block, ghost chain: seq<Block>) returns (newSequence: int)
      requires saveSequence && LogOk(log, seqToEntry, hashToSeq, lastSeq, chain) && chain != []
      modifies this`seqToEntry, this`hashToSeq, this`lastSeq, this`log
      ensures LogOk(log, seqToEntry, hashToSeq, lastSeq, chain + [b])
      ensures log == old(log) + [Entry(HashOf(b), true)] && newSequence == |log| - 1
    {
      LogHasEntries(log, seqToEntry, hashToSeq, lastSeq, chain);
      newSequence := SaveBlockSequence(HashOf(b), b.height, true);
      ReplayPush(old(log), chain, b);
    }

    /** Logs the pop of a chain's tip. */
    method LogPop(b: Block, ghost chain: seq<Block>) returns (newSequence: int)
      requires saveSequence && LogOk(log, seqToEntry, hashToSeq, lastSeq, chain) && chain != []
                 && b == chain[|chain| - 1]
      modifies this`seqToEntry, this`hashToSeq, this`lastSeq, this`log
      ensures LogOk(log, seqToEntry, hashToSeq, lastSeq, chain[..|chain| - 1])
      ensures log == old(log) + [Entry(HashOf(b), false)] && newSequence == |log| - 1
    {
      LogHasEntries(log, seqToEntry, hashToSeq, lastSeq, chain);
      newSequence := SaveBlockSequence(HashOf(b), b.height, false);
      ReplayPop(old(log), chain);
    }

    /** Appends one entry to the log; only adds update the hash's number. */
    method SaveBlockSequence(hash: Hash, h: int, isAdd: bool) returns (newSequence: int)
      requires saveSequence && Tables(log, seqToEntry, hashToSeq, lastSeq)
      requires lastSeq == -1 ==> h == 0
      modifies this`seqToEntry, this`hashToSeq, this`lastSeq, this`log
      ensures log == old(log) + [Entry(hash, isAdd)] && Tables(log, seqToEntry, hashToSeq, lastSeq)
      ensures newSequence == |log| - 1
    {
      newSequence := lastSeq + 1;
      var entry := Entry(hash, isAdd);
      TablesAppend(log, entry, seqToEntry, hashToSeq);
      seqToEntry := seqToEntry[newSequence := entry];
      if isAdd {
        hashToSeq := hashToSeq[hash := newSequence];
      }
      lastSeq := newSequence;
      log := log + [entry];
    }

    /** Reloads the in-memory height from the database. */
    method UpdateHeight()
      modifies this`height
      ensures height == lastHeight
    {
      height := lastHeight;
    }

    method UpdateHeight2(h: int)
      modifies this`height
      ensures height == h
    {
      height := h;
    }

    /** Reloads the last block by its hash; an unknown hash changes nothing. */
    method UpdateLastBlock(hash: Hash)
      requires Valid()
      modifies this`lastBlock
      ensures lastBlock == if hash in blocks then hash.block else old(lastBlock)
    {
      var b := LoadBlockByHash(hash);
      if b.Some? {
        lastBlock := b.value;
      }
    }

    method UpdateLastBlock2(b: Block)
      modifies this`lastBlock
      ensures lastBlock == b
    {
      lastBlock := b;
    }

    /** The startup check of the sequence log against the tip height. */
    method CheckSequenceStatus(recordSequence: bool) returns (status: SeqStatus)
      ensures status == if recordSequence
                        then if (lastSeq == -1 && height != -1) || height > lastSeq then SeqNeedCreate else SeqOk
                        else if lastSeq != -1 then SeqPanic else SeqOk
      ensures Valid() && Current() && recordSequence == saveSequence ==> status == SeqOk
    {
      if recordSequence {
        if lastSeq == -1 && height != -1 {
          status := SeqNeedCreate;
        } else if height > lastSeq {
          status := SeqNeedCreate;
        } else {
          status := SeqOk;
        }
      } else if lastSeq != -1 {
        status := SeqPanic;
      } else {
        status := SeqOk;
      }
      if saveSequence && Valid() {
        LengthLaw(log);
        assert |Hashes(chain)| == |chain|;
      }
    }
  }

  function TxHashes(b: Block): set<Tx> {
    set tx | tx in b.txs
  }
}
