/** The cache of recent tx-height transactions, and why it keeps the chain free of duplicates. */
module TxCaches {
  import opened Wrappers
  import opened Blocks
  import opened BlockStores

  const TX_HEIGHT_FLAG: int := 0x4000_0000_0000_0000

  /** The tx height an expiry field denotes at a block height; -1 when it denotes none. */
  function TxHeightOf(expire: int, height: int, fork: int): int {
    if height >= fork && expire > TX_HEIGHT_FLAG then expire - TX_HEIGHT_FLAG else -1
  }

  type Key = (int, Tx)

  /** What a block's transactions contribute to the cache when read at a height. */
  function Keys(txs: seq<Tx>, height: int, fork: int): set<Key> {
    set tx | tx in txs && TxHeightOf(tx.expire, height, fork) >= 0 :: (TxHeightOf(tx.expire, height, fork), tx)
  }

  lemma KeysMember(txs: seq<Tx>, height: int, fork: int, key: Key)
    ensures key in Keys(txs, height, fork) <==>
            key.1 in txs && key.0 == TxHeightOf(key.1.expire, height, fork) && key.0 >= 0
  {
  }

  /** Contribution of the blocks from height low up. */
  ghost function WindowKeys(chain: seq<Block>, low: nat, fork: int): set<Key>
    decreases |chain| - low
  {
    if low >= |chain| then {} else Keys(chain[low].txs, low, fork) + WindowKeys(chain, low + 1, fork)
  }

  predicate Distinct(txs: seq<Tx>) {
    forall i, j | 0 <= i < j < |txs| :: txs[i] != txs[j]
  }

  /** No transaction has a tx height. */
  predicate PlainTxs(txs: seq<Tx>) {
    forall tx | tx in txs :: tx.expire <= TX_HEIGHT_FLAG
  }

  /** Distinct transactions without a tx height, as in the genesis block. */
  predicate Plain(txs: seq<Tx>) {
    Distinct(txs) && PlainTxs(txs)
  }

  /** No transaction occurs twice in the chain. */
  ghost predicate Unique(chain: seq<Block>) {
    && (forall i | 0 <= i < |chain| :: Distinct(chain[i].txs))
    && (forall i, j | 0 <= i < j < |chain| :: TxHashes(chain[i]) !! TxHashes(chain[j]))
  }

  lemma {:induction false} WindowMember(chain: seq<Block>, low: nat, fork: int, key: Key)
    ensures key in WindowKeys(chain, low, fork) <==>
            exists i :: low <= i < |chain| && key in Keys(chain[i].txs, i, fork)
    decreases |chain| - low
  {
    if low < |chain| { WindowMember(chain, low + 1, fork, key); }
  }

  lemma {:induction false} WindowAppend(chain: seq<Block>, b: Block, low: nat, fork: int)
    requires low <= |chain|
    ensures WindowKeys(chain + [b], low, fork) == WindowKeys(chain, low, fork) + Keys(b.txs, |chain|, fork)
    decreases |chain| - low
  {
    if low < |chain| {
      WindowAppend(chain, b, low + 1, fork);
    } else {
      assert WindowKeys(chain + [b], low + 1, fork) == {};
    }
  }

  lemma WindowApart(chain: seq<Block>, i: nat, low: nat, fork: int, height: int)
    requires Unique(chain) && i < low && i < |chain|
    ensures Keys(chain[i].txs, height, fork) !! WindowKeys(chain, low, fork)
  {
    forall key | key in Keys(chain[i].txs, height, fork) ensures key !in WindowKeys(chain, low, fork) {
      WindowMember(chain, low, fork, key);
      forall j | low <= j < |chain| ensures key !in Keys(chain[j].txs, j, fork) {
        KeysApart(chain, i, j, fork, height, j);
      }
    }
  }

  function Low(n: nat, w: nat): nat {
    if n < w then 0 else n - w
  }

  /** The cache contents after the window moves forward over b. */
  ghost function AddKeys(s: set<Key>, chain: seq<Block>, b: Block, w: nat, fork: int): set<Key> {
    var n := |chain|;
    (s + Keys(b.txs, n, fork)) - if 0 < w <= n then Keys(chain[n - w].txs, n, fork) else {}
  }

  /** The keys after the block at a height, if there is one, came back, read at height n. */
  ghost function Readmitted(s: set<Key>, chain: seq<Block>, addHeight: int, n: int, fork: int): set<Key>
    requires addHeight < |chain|
  {
    s + if addHeight >= 0 then Keys(chain[addHeight].txs, n, fork) else {}
  }

  /** The cache contents after the window moves back over the tip. */
  ghost function DelKeys(s: set<Key>, chain: seq<Block>, w: nat, fork: int): set<Key>
    requires chain != [] && w > 0
  {
    var n := |chain| - 1;
    Readmitted(s, chain, n - w, n - 1, fork) - Keys(chain[n].txs, n - 1, fork)
  }

  /** Moving forward keeps the cache equal to the window of the last w blocks. */
  lemma AddIsExact(chain: seq<Block>, b: Block, w: nat, fork: int)
    requires w > 0 && Unique(chain + [b])
    ensures AddKeys(WindowKeys(chain, Low(|chain|, w), fork), chain, b, w, fork)
            == WindowKeys(chain + [b], Low(|chain| + 1, w), fork)
  {
    var n, longer := |chain|, chain + [b];
    WindowAppend(chain, b, Low(n, w), fork);
    if w <= n {
      assert longer[n - w] == chain[n - w];
      WindowApart(longer, n - w, n - w + 1, fork, n);
      WindowApart(longer, n - w, n - w + 1, fork, n - w);
      if n - w < fork {
        assert Keys(chain[n - w].txs, n - w, fork) == {};
      }
    }
  }

  /** The fork height separates neither the tip nor the returning block from the height they are read at. */
  predicate Steady(chain: seq<Block>, w: nat, fork: int)
    requires chain != []
  {
    var n := |chain| - 1;
    && (n == fork ==> PlainTxs(chain[n].txs))
    && (0 < w <= n && n - w < fork <= n - 1 ==> PlainTxs(chain[n - w].txs))
  }

  lemma BackAlgebra(rest: set<Key>, was: set<Key>, back: set<Key>, tip: set<Key>, read: set<Key>)
    requires read <= tip && was <= back
    requires tip !! rest && tip !! back && back !! rest
    ensures ((rest + tip) + back) - read == was + rest <==> tip == read && back == was
  {
    var after := ((rest + tip) + back) - read;
    assert after == rest + back + (tip - read);
    if after == was + rest {
      forall key | key in tip ensures key in read { assert key !in was + rest; }
      forall key | key in back ensures key in was { assert key in after; }
    }
  }

  /** The windows before and after a step back, cut into parts. */
  lemma WindowParts(chain: seq<Block>, w: nat, fork: int)
    requires chain != [] && w > 0
    ensures var n := |chain| - 1;
            var rest := WindowKeys(chain[..n], Low(n + 1, w), fork);
            && WindowKeys(chain, Low(n + 1, w), fork) == rest + Keys(chain[n].txs, n, fork)
            && WindowKeys(chain[..n], Low(n, w), fork) ==
                  (if w <= n then Keys(chain[n - w].txs, n - w, fork) else {}) + rest
  {
    var n := |chain| - 1;
    var shorter := chain[..n];
    assert chain == shorter + [chain[n]];
    WindowAppend(shorter, chain[n], Low(n + 1, w), fork);
    if w <= n { assert shorter[n - w] == chain[n - w]; }
  }

  /** Moving back restores the window exactly when the step is steady. */
  lemma DelIsExactIff(chain: seq<Block>, w: nat, fork: int)
    requires chain != [] && w > 0 && Unique(chain)
    ensures DelKeys(WindowKeys(chain, Low(|chain|, w), fork), chain, w, fork)
            == WindowKeys(chain[..|chain| - 1], Low(|chain| - 1, w), fork)
            <==> Steady(chain, w, fork)
  {
    var n := |chain| - 1;
    var rest := WindowKeys(chain[..n], Low(n + 1, w), fork);
    var back := if w <= n then Keys(chain[n - w].txs, n - 1, fork) else {};
    var was := if w <= n then Keys(chain[n - w].txs, n - w, fork) else {};
    var tip, read := Keys(chain[n].txs, n, fork), Keys(chain[n].txs, n - 1, fork);
    WindowParts(chain, w, fork);
    PartsApart(chain, w, fork);
    LaterReadsMore(chain[n].txs, n - 1, n, fork);
    if w <= n { LaterReadsMore(chain[n - w].txs, n - w, n - 1, fork); }
    BackAlgebra(rest, was, back, tip, read);
    SteadyMeans(chain, w, fork);
  }

  lemma SteadyMeans(chain: seq<Block>, w: nat, fork: int)
    requires chain != [] && w > 0
    ensures var n := |chain| - 1;
            Steady(chain, w, fork) <==>
              Keys(chain[n].txs, n, fork) == Keys(chain[n].txs, n - 1, fork) &&
              (w <= n ==> Keys(chain[n - w].txs, n - 1, fork) == Keys(chain[n - w].txs, n - w, fork))
  {
    var n := |chain| - 1;
    LaterReadsMore(chain[n].txs, n - 1, n, fork);
    if w <= n { LaterReadsMore(chain[n - w].txs, n - w, n - 1, fork); }
  }

  /** The three parts of the window around a step back share no key. */
  lemma PartsApart(chain: seq<Block>, w: nat, fork: int)
    requires chain != [] && w > 0 && Unique(chain)
    ensures var n := |chain| - 1;
            var rest := WindowKeys(chain[..n], Low(n + 1, w), fork);
            var back := if w <= n then Keys(chain[n - w].txs, n - 1, fork) else {};
            Keys(chain[n].txs, n, fork) !! rest && Keys(chain[n].txs, n, fork) !! back && back !! rest
  {
    var n := |chain| - 1;
    TipApart(chain, Low(n + 1, w), fork, n);
    if w <= n {
      KeysApart(chain, n - w, n, fork, n - 1, n);
      UniquePop(chain);
      assert chain[..n][n - w] == chain[n - w] && Low(n + 1, w) == n - w + 1;
      WindowApart(chain[..n], n - w, n - w + 1, fork, n - 1);
    }
  }

  lemma TipApart(chain: seq<Block>, low: nat, fork: int, height: int)
    requires chain != [] && Unique(chain)
    ensures Keys(chain[|chain| - 1].txs, height, fork) !! WindowKeys(chain[..|chain| - 1], low, fork)
  {
    var n := |chain| - 1;
    forall key | key in Keys(chain[n].txs, height, fork) ensures key !in WindowKeys(chain[..n], low, fork) {
      WindowMember(chain[..n], low, fork, key);
      forall j | low <= j < n ensures key !in Keys(chain[..n][j].txs, j, fork) {
        KeysApart(chain, j, n, fork, j, height);
      }
    }
  }

  lemma KeysApart(chain: seq<Block>, i: nat, j: nat, fork: int, h: int, k: int)
    requires Unique(chain) && i < j < |chain|
    ensures Keys(chain[i].txs, h, fork) !! Keys(chain[j].txs, k, fork)
  {
    forall key | key in Keys(chain[i].txs, h, fork) ensures key !in Keys(chain[j].txs, k, fork) {
      assert key.1 in TxHashes(chain[i]) && TxHashes(chain[i]) !! TxHashes(chain[j]);
    }
  }

  lemma LaterReadsMore(txs: seq<Tx>, h: int, k: int, fork: int)
    requires h <= k
    ensures Keys(txs, h, fork) <= Keys(txs, k, fork)
    ensures Keys(txs, h, fork) == Keys(txs, k, fork) <==>
            (h < fork <= k ==> PlainTxs(txs))
  {
    forall tx | tx in txs && tx.expire > TX_HEIGHT_FLAG && h < fork <= k
      ensures (tx.expire - TX_HEIGHT_FLAG, tx) in Keys(txs, k, fork)
                && (tx.expire - TX_HEIGHT_FLAG, tx) !in Keys(txs, h, fork)
    {
      KeysMember(txs, k, fork, (tx.expire - TX_HEIGHT_FLAG, tx));
      KeysMember(txs, h, fork, (tx.expire - TX_HEIGHT_FLAG, tx));
    }
    forall key ensures key in Keys(txs, h, fork) ==> key in Keys(txs, k, fork) {
      KeysMember(txs, h, fork, key);
      KeysMember(txs, k, fork, key);
    }
    if !(h < fork <= k) {
      forall key ensures key in Keys(txs, h, fork) <==> key in Keys(txs, k, fork) {
        KeysMember(txs, h, fork, key);
        KeysMember(txs, k, fork, key);
      }
    }
    if PlainTxs(txs) {
      assert Keys(txs, h, fork) == {} == Keys(txs, k, fork);
    }
  }

  // ----- what the duplicate check buys -----

  /** A tx-height transaction may only be packed this close to its tx height. */
  predicate InRange(tx: Tx, height: int, low: nat, high: nat, fork: int) {
    var h := TxHeightOf(tx.expire, height, fork);
    h > 0 ==> h - low <= height <= h + high
  }

  /** From the fork on, a transaction with a tx height may be packed in the blocks from that many before its height to
      that many after; any other may be packed anywhere. */
  lemma InRangeIff(tx: Tx, height: int, low: nat, high: nat, fork: int)
    ensures InRange(tx, height, low, high, fork) <==>
            (height >= fork && tx.expire > TX_HEIGHT_FLAG ==>
              var h := tx.expire - TX_HEIGHT_FLAG;
              (height < h ==> h - height <= low) && (height > h ==> height - h <= high))
  {
  }

  ghost predicate Packed(chain: seq<Block>, low: nat, high: nat, fork: int) {
    forall i, tx | 0 <= i < |chain| && tx in chain[i].txs :: InRange(tx, i, low, high, fork)
  }

  /** The answer of the duplicate query at the next height: the cache for tx-height transactions, the transaction index
      for all others. */
  ghost predicate Known(chain: seq<Block>, tx: Tx, w: nat, fork: int) {
    var n := |chain|;
    var h := TxHeightOf(tx.expire, n, fork);
    if h > 0 then (h, tx) in WindowKeys(chain, Low(n, w), fork)
    else exists i :: 0 <= i < n && tx in chain[i].txs
  }

  /** The next block: a child of the chain's last one whose transactions execution lets pass. */
  ghost predicate Passes(chain: seq<Block>, b: Block, low: nat, high: nat, fork: int)
    requires chain != []
  {
    && b.parent == HashOf(chain[|chain| - 1]) && b.height == |chain|
    && Distinct(b.txs)
    && forall tx | tx in b.txs :: InRange(tx, |chain|, low, high, fork) && !Known(chain, tx, low + high, fork)
  }

  /** A tx-height transaction packed below the fork that may still be packed at the next height. */
  predicate StaleEarly(chain: seq<Block>, i: int, tx: Tx, low: nat, high: nat, fork: int) {
    && 0 <= i < |chain| && i < fork <= |chain|
    && tx in chain[i].txs && tx.expire > TX_HEIGHT_FLAG && InRange(tx, |chain|, low, high, fork)
  }

  lemma PassingIsNew(chain: seq<Block>, b: Block, i: int, tx: Tx, low: nat, high: nat, fork: int)
    requires chain != [] && Packed(chain, low, high, fork) && Passes(chain, b, low, high, fork)
    requires 0 <= i < |chain| && tx in chain[i].txs && tx in b.txs
    ensures StaleEarly(chain, i, tx, low, high, fork)
  {
    var n, h := |chain|, TxHeightOf(tx.expire, |chain|, fork);
    if h <= 0 {
      assert Known(chain, tx, low + high, fork);
    } else if i >= fork {
      assert InRange(tx, i, low, high, fork) && InRange(tx, n, low, high, fork);
      assert (h, tx) in Keys(chain[i].txs, i, fork);
      WindowMember(chain, Low(n, low + high), fork, (h, tx));
      assert Known(chain, tx, low + high, fork);
    }
  }

  lemma UniqueAppend(chain: seq<Block>, b: Block)
    requires Unique(chain) && Distinct(b.txs) && forall i | 0 <= i < |chain| :: TxHashes(chain[i]) !! TxHashes(b)
    ensures Unique(chain + [b])
  {
  }

  lemma UniquePop(chain: seq<Block>)
    requires Unique(chain) && chain != []
    ensures Unique(chain[..|chain| - 1])
  {
  }

  /** The duplicate check keeps every extension duplicate-free exactly when no tx-height transaction packed below the
      fork can still be packed at the next height. */
  lemma CheckIsSoundIff(chain: seq<Block>, low: nat, high: nat, fork: int)
    requires chain != [] && Unique(chain) && Packed(chain, low, high, fork)
    ensures (forall b | Passes(chain, b, low, high, fork) :: Unique(chain + [b]))
            <==> (forall i, tx :: !StaleEarly(chain, i, tx, low, high, fork))
  {
    if forall i, tx :: !StaleEarly(chain, i, tx, low, high, fork) {
      forall b | Passes(chain, b, low, high, fork) ensures Unique(chain + [b]) {
        forall i | 0 <= i < |chain| ensures TxHashes(chain[i]) !! TxHashes(b) {
          forall tx | tx in chain[i].txs ensures tx !in b.txs {
            if tx in b.txs { PassingIsNew(chain, b, i, tx, low, high, fork); }
          }
        }
        UniqueAppend(chain, b);
      }
    } else {
      var i, tx :| StaleEarly(chain, i, tx, low, high, fork);
      var b := Block(HashOf(chain[|chain| - 1]), |chain|, 0, [tx], 0);
      var h := TxHeightOf(tx.expire, |chain|, fork);
      assert !Known(chain, tx, low + high, fork) by {
        WindowMember(chain, Low(|chain|, low + high), fork, (h, tx));
        forall j | Low(|chain|, low + high) <= j < |chain| ensures (h, tx) !in Keys(chain[j].txs, j, fork) {
          KeysMember(chain[j].txs, j, fork, (h, tx));
          assert tx in TxHashes(chain[i]);
          assert i < j ==> TxHashes(chain[i]) !! TxHashes(chain[j]);
          assert j < i ==> TxHashes(chain[j]) !! TxHashes(chain[i]);
        }
      }
      assert Passes(chain, b, low, high, fork);
      var longer := chain + [b];
      assert tx in TxHashes(longer[i]) && tx in TxHashes(longer[|chain|]);
      assert !Unique(longer);
    }
  }

  /** Every transaction was packed in its range, and the index holds exactly the chain's transactions. */
  ghost predicate TxsKnown(txIndex: set<Tx>, chain: seq<Block>, low: nat, high: nat, fork: int) {
    Packed(chain, low, high, fork) && forall tx :: tx in txIndex <==> exists i :: 0 <= i < |chain| && tx in chain[i].txs
  }

  lemma TxsKnownPush(txIndex: set<Tx>, chain: seq<Block>, b: Block, low: nat, high: nat, fork: int)
    requires TxsKnown(txIndex, chain, low, high, fork) && forall tx | tx in b.txs ::
               InRange(tx, |chain|, low, high, fork)
    ensures TxsKnown(txIndex + TxHashes(b), chain + [b], low, high, fork)
  {
    var more := chain + [b];
    assert more[|chain|] == b;
    forall tx | tx in txIndex ensures exists i :: 0 <= i < |more| && tx in more[i].txs {
      var i :| 0 <= i < |chain| && tx in chain[i].txs;
      assert tx in more[i].txs;
    }
  }

  lemma TxsKnownPop(txIndex: set<Tx>, chain: seq<Block>, low: nat, high: nat, fork: int)
    requires TxsKnown(txIndex, chain, low, high, fork) && Unique(chain) && chain != []
    ensures TxsKnown(txIndex - TxHashes(chain[|chain| - 1]), chain[..|chain| - 1], low, high, fork)
  {
    var n := |chain| - 1;
    forall tx ensures tx in txIndex - TxHashes(chain[n]) <==> exists i :: 0 <= i < n && tx in chain[..n][i].txs {
      if tx in txIndex && tx !in TxHashes(chain[n]) {
        var i :| 0 <= i <= n && tx in chain[i].txs;
        assert tx in chain[..n][i].txs;
      }
      if i :| 0 <= i < n && tx in chain[..n][i].txs {
        assert tx in TxHashes(chain[i]) && TxHashes(chain[i]) !! TxHashes(chain[n]);
      }
    }
  }

  /** None of these blocks up to the fork height carries a transaction with a tx height. */
  ghost predicate PlainUpTo(blocks: set<Hash>, fork: int) {
    forall h {:trigger h in blocks} | h in blocks && h.HashOf? && h.block.height <= fork :: PlainTxs(h.block.txs)
  }

  /** The chain's blocks, in order of height, are among these. */
  ghost predicate Among(chain: seq<Block>, blocks: set<Hash>) {
    forall i {:trigger chain[i]} | 0 <= i < |chain| :: chain[i].height == i && HashOf(chain[i]) in blocks
  }

  /** Among plain blocks every step back is steady and the duplicate check is sound. */
  lemma PlainIsHarmless(chain: seq<Block>, blocks: set<Hash>, low: nat, high: nat, fork: int)
    requires chain != [] && Among(chain, blocks) && PlainUpTo(blocks, fork)
    ensures Steady(chain, low + high, fork)
    ensures forall i, tx :: !StaleEarly(chain, i, tx, low, high, fork)
  {
    forall i | 0 <= i < |chain| && i <= fork ensures PlainTxs(chain[i].txs) {
      assert HashOf(chain[i]) in blocks;
    }
  }

  /** A chain over a plain genesis whose second block carries one transaction with a tx height. */
  function EarlyPacked(): seq<Block> {
    var g := Block(ZeroHash, 0, 0, [], 0);
    [g, Block(HashOf(g), 1, 0, [Tx(TX_HEIGHT_FLAG + 1, 0)], 1)]
  }

  lemma EarlyKeys(fork: int)
    ensures var key := (1, Tx(TX_HEIGHT_FLAG + 1, 0));
            && WindowKeys(EarlyPacked(), 0, fork) == (if fork <= 1 then {key} else {})
            && WindowKeys(EarlyPacked()[..1], 0, fork) == {} && Unique(EarlyPacked())
  {
    var chain, key := EarlyPacked(), (1, Tx(TX_HEIGHT_FLAG + 1, 0));
    assert WindowKeys(chain, 2, fork) == {};
    assert Keys(chain[1].txs, 1, fork) == if fork <= 1 then {key} else {};
    assert Keys(chain[0].txs, 0, fork) == {};
    assert WindowKeys(chain, 1, fork) == Keys(chain[1].txs, 1, fork);
    assert chain[..1] == [chain[0]] && WindowKeys(chain[..1], 1, fork) == {};
  }

  /** The failing family is inhabited by chains a node can build: with the fork at height 2, a transaction packed at
      height 1 passes every check again at height 2. */
  lemma DuplicateAcrossFork()
    ensures var chain := EarlyPacked();
            var b := Block(HashOf(chain[1]), 2, 0, [Tx(TX_HEIGHT_FLAG + 1, 0)], 2);
            && Genesis(chain[0]) && Plain(chain[0].txs) && Path(b) == chain + [b]
            && Unique(chain) && Packed(chain, 200, 600, 2) && Passes(chain, b, 200, 600, 2) && !Unique(chain + [b])
  {
    var chain, tx := EarlyPacked(), Tx(TX_HEIGHT_FLAG + 1, 0);
    var b := Block(HashOf(chain[1]), 2, 0, [tx], 2);
    EarlyKeys(2);
    assert Path(chain[0]) == [chain[0]] && Path(chain[1]) == chain;
    assert !Known(chain, tx, 800, 2);
    assert tx in TxHashes((chain + [b])[1]) && tx in TxHashes((chain + [b])[2]);
  }

  /** A rollback that is not steady: with the fork at height 1, taking the block at height 1 back leaves its transaction
      in the cache. */
  lemma RollbackLeavesKey()
    ensures var chain := EarlyPacked();
            && Genesis(chain[0]) && Plain(chain[0].txs) && Path(chain[1]) == chain && Unique(chain)
            && !Steady(chain, 800, 1)
            && DelKeys(WindowKeys(chain, Low(2, 800), 1), chain, 800, 1) == {(1, Tx(TX_HEIGHT_FLAG + 1, 0))}
            && WindowKeys(chain[..1], Low(1, 800), 1) == {}
  {
    var chain := EarlyPacked();
    EarlyKeys(1);
    assert Path(chain[0]) == [chain[0]];
    assert Keys(chain[1].txs, 0, 1) == {};
    assert chain[1].txs[0] in chain[1].txs;
  }

  // ----- the cache -----

  predicate Filed(m: map<int, set<Tx>>, h: int, tx: Tx) {
    h in m && tx in m[h]
  }

  /** The nested maps hold exactly these keys. */
  ghost predicate Describes(m: map<int, set<Tx>>, s: set<Key>) {
    forall h, tx {:trigger Filed(m, h, tx)} {:trigger (h, tx) in s} :: Filed(m, h, tx) <==> (h, tx) in s
  }

  /** No negative tx height and no empty inner map. */
  ghost predicate WellFiled(m: map<int, set<Tx>>) {
    forall h {:trigger h in m} | h in m :: h >= 0 && m[h] != {}
  }

  /** The chain has no duplicates and the maps are the window of its last w blocks. */
  ghost predicate Kept(m: map<int, set<Tx>>, chain: seq<Block>, w: nat, fork: int) {
    Unique(chain) && Describes(m, WindowKeys(chain, Low(|chain|, w), fork))
  }

  lemma AllDescribed(m: map<int, set<Tx>>) returns (s: set<Key>)
    ensures Describes(m, s)
  {
    s := set h, tx | h in m && tx in m[h] :: (h, tx);
  }

  class TxHashCache {
    const lowerTxHeightRange: nat
    const upperTxHeightRange: nat
    const fork: int
    const store: BlockStore
    var currBlockHeight: int
    var txHashes: map<int, set<Tx>>
    ghost var chain: seq<Block>
    ghost var faithful: bool

    predicate Contains(tx: Tx, txHeight: int)
      reads this`txHashes
    {
      Filed(txHashes, txHeight, tx)
    }

    /** The nested maps hold exactly these keys, and no inner map is empty. */
    ghost predicate Holds(s: set<Key>)
      reads this`txHashes
    {
      && Describes(txHashes, s)
      && WellFiled(txHashes)
    }

    function Width(): nat {
      lowerTxHeightRange + upperTxHeightRange
    }

    /** While faithful, the chain has no duplicates and the cache is the window of its last blocks. */
    ghost predicate Valid()
      reads this
    {
      && Width() > 0 && chain != [] && WellFiled(txHashes)
      && (faithful ==> Kept(txHashes, chain, Width(), fork))
    }

    ghost predicate StoreReady()
      reads this`chain, store, store.blockCache
    {
      store.Valid() && store.blockCache.Valid() && store.chain == chain && store.blockCache.chain == chain
    }

    /** A cache warmed with the first block. */
    constructor (g: Block, lower: nat, upper: nat, fork: int, store: BlockStore)
      requires lower + upper > 0 && Plain(g.txs)
      ensures Valid() && chain == [g] && faithful && this.store == store && this.fork == fork
      ensures lowerTxHeightRange == lower && upperTxHeightRange == upper
    {
      lowerTxHeightRange, upperTxHeightRange := lower, upper;
      this.fork, this.store := fork, store;
      currBlockHeight, txHashes := 0, map[];
      chain, faithful := [g], true;
      new;
      assert WindowKeys([g], 1, fork) == {} && Keys(g.txs, 0, fork) == {};
      assert Unique([g]);
    }

    method FileTx(tx: Tx, txHeight: int, ghost s: set<Key>)
      requires Holds(s) && txHeight >= 0
      modifies this`txHashes
      ensures Holds(s + {(txHeight, tx)})
    {
      var inner := if txHeight in txHashes then txHashes[txHeight] else {};
      ghost var was := txHashes;
      txHashes := txHashes[txHeight := inner + {tx}];
      forall h, t ensures Filed(txHashes, h, t) <==> (h, t) in s + {(txHeight, tx)} {
        assert Filed(was, h, t) <==> (h, t) in s;
      }
      assert tx in txHashes[txHeight];
    }

    method UnfileTx(tx: Tx, txHeight: int, ghost s: set<Key>)
      requires Holds(s)
      modifies this`txHashes
      ensures Holds(s - {(txHeight, tx)})
    {
      ghost var was := txHashes;
      if txHeight in txHashes {
        var inner := txHashes[txHeight] - {tx};
        assert forall t :: t in inner <==> t in was[txHeight] && t != tx;
        txHashes := if inner == {} then txHashes - {txHeight} else txHashes[txHeight := inner];
      }
      forall h, t ensures Filed(txHashes, h, t) <==> (h, t) in s - {(txHeight, tx)} {
        assert Filed(was, h, t) <==> (h, t) in s;
      }
    }

    /** Files each tx-height transaction under its tx height. */
    method AddTxList(txs: seq<Tx>, ghost s: set<Key>)
      requires Holds(s)
      modifies this`txHashes
      ensures Holds(s + Keys(txs, currBlockHeight, fork))
    {
      assert s + Keys(txs[..0], currBlockHeight, fork) == s;
      for i := 0 to |txs|
        invariant Holds(s + Keys(txs[..i], currBlockHeight, fork))
      {
        var txHeight := TxHeightOf(txs[i].expire, currBlockHeight, fork);
        ghost var now := s + Keys(txs[..i], currBlockHeight, fork);
        KeysOneMore(txs, i, currBlockHeight, fork);
        if txHeight >= 0 {
          FileTx(txs[i], txHeight, now);
          assert now + {(txHeight, txs[i])} == s + Keys(txs[..i + 1], currBlockHeight, fork);
        }
      }
      assert txs[..|txs|] == txs;
    }

    /** Takes each transaction out again, dropping inner maps that become empty. */
    method DelTxList(txs: seq<Tx>, ghost s: set<Key>)
      requires Holds(s)
      modifies this`txHashes
      ensures Holds(s - Keys(txs, currBlockHeight, fork))
    {
      assert s - Keys(txs[..0], currBlockHeight, fork) == s;
      forall t: Tx ensures (-1, t) !in s { NoNegative(s, t); }
      for i := 0 to |txs|
        invariant Holds(s - Keys(txs[..i], currBlockHeight, fork))
      {
        var txHeight := TxHeightOf(txs[i].expire, currBlockHeight, fork);
        ghost var now := s - Keys(txs[..i], currBlockHeight, fork);
        KeysOneMore(txs, i, currBlockHeight, fork);
        UnfileTx(txs[i], txHeight, now);
        assert now - {(txHeight, txs[i])} == s - Keys(txs[..i + 1], currBlockHeight, fork);
      }
      assert txs[..|txs|] == txs;
    }

    /** The best chain grew: the window moves forward one height. */
    method Add(block: Block)
      requires Valid() && StoreReady() && block.height == |chain|
      modifies this
      ensures Valid() && chain == old(chain) + [block] && currBlockHeight == block.height
      ensures faithful == (old(faithful) && Unique(chain))
    {
      ghost var before := txHashes;
      ghost var s := AllDescribed(before);
      MoveForward(block, s);
      ghost var still := faithful && Unique(chain + [block]);
      if still {
        StepForward(before, txHashes, s, chain, block, Width(), fork);
      }
      chain, faithful := chain + [block], still;
    }

    method MoveForward(block: Block, ghost s: set<Key>)
      requires Holds(s) && StoreReady() && block.height == |chain| && Width() > 0
      modifies this`currBlockHeight, this`txHashes
      ensures Holds(AddKeys(s, chain, block, Width(), fork)) && currBlockHeight == block.height
    {
      currBlockHeight := block.height;
      AddTxList(block.txs, s);
      var delHeight := currBlockHeight - upperTxHeightRange - lowerTxHeightRange;
      ghost var t := s + Keys(block.txs, currBlockHeight, fork);
      if delHeight >= 0 {
        var delBlock := store.GetBlock(delHeight);
        if delBlock.Some? {
          DelTxList(delBlock.value.txs, t);
        }
      } else {
        assert t == t - {};
      }
    }

    /** The tip is rolled back: the window moves back one height. */
    method Del(height: int)
      requires Valid() && StoreReady() && height == |chain| - 1 && |chain| > 1
      modifies this
      ensures Valid() && chain == old(chain)[..|old(chain)| - 1] && currBlockHeight == height - 1
      ensures faithful == (old(faithful) && Steady(old(chain), Width(), fork))
    {
      ghost var before := txHashes;
      ghost var s := AllDescribed(before);
      MoveBack(height, s);
      ghost var still := faithful && Steady(chain, Width(), fork);
      if still {
        StepBack(before, txHashes, s, chain, Width(), fork);
      }
      chain, faithful := chain[..|chain| - 1], still;
    }

    method MoveBack(height: int, ghost s: set<Key>)
      requires Holds(s) && StoreReady() && height == |chain| - 1 && |chain| > 1 && Width() > 0
      modifies this`currBlockHeight, this`txHashes
      ensures Holds(DelKeys(s, chain, Width(), fork)) && currBlockHeight == height - 1
    {
      currBlockHeight := height - 1;
      var addHeight := height - upperTxHeightRange - lowerTxHeightRange;
      ghost var t := Readmitted(s, chain, addHeight, currBlockHeight, fork);
      assert t - Keys(chain[height].txs, currBlockHeight, fork) == DelKeys(s, chain, Width(), fork);
      Readmit(addHeight, s);
      var delBlock := store.GetBlock(height);
      if delBlock.None? {
        return;
      }
      DelTxList(delBlock.value.txs, t);
    }

    /** Files the transactions of the block that comes back into the window. */
    method Readmit(addHeight: int, ghost s: set<Key>)
      requires Holds(s) && StoreReady() && addHeight < |chain|
      modifies this`txHashes
      ensures Holds(Readmitted(s, chain, addHeight, currBlockHeight, fork)) && StoreReady()
    {
      if addHeight >= 0 {
        var addBlock := store.GetBlock(addHeight);
        if addBlock.None? {
          return;
        }
        AddTxList(addBlock.value.txs, s);
      } else {
        assert s == s + {};
      }
    }

    lemma NoNegative(s: set<Key>, t: Tx)
      requires Holds(s)
      ensures (-1, t) !in s
    {
      assert -1 in txHashes ==> -1 >= 0;
      assert Filed(txHashes, -1, t) <==> (-1, t) in s;
    }

    // ----- the duplicate query -----

    /** Whether a transaction has been seen. While the cache is faithful and the index is the chain's, the answer for
        the next block is the chain's: a tx-height transaction is looked for in the window, any other on the whole
        chain. */
    method HasTx(tx: Tx, txHeight: int) returns (has: bool)
      ensures has == if txHeight > 0 then Contains(tx, txHeight) else tx in store.txIndex
      ensures Valid() && faithful && txHeight == TxHeightOf(tx.expire, |chain|, fork)
              && TxsKnown(store.txIndex, chain, upperTxHeightRange, lowerTxHeightRange, fork) ==>
                    has == Known(chain, tx, Width(), fork)
    {
      assert faithful && Valid() ==>
          (Contains(tx, txHeight) <==> (txHeight, tx) in WindowKeys(chain, Low(|chain|, Width()), fork));
      if txHeight > 0 {
        return Contains(tx, txHeight);
      }
      has := store.HasTx(tx);
    }

    /** A transaction the node has already seen, as the query at a height reports it. */
    predicate Seen(tx: Tx, expire: int, height: int)
      reads this, store
    {
      var h := TxHeightOf(expire, height, fork);
      if h > 0 then Contains(tx, h) else tx in store.txIndex
    }

    /** The transaction listed at an index has been seen. */
    predicate SeenAt(hashes: seq<Tx>, expires: Option<seq<int>>, count: int, i: nat)
      requires i < |hashes| && (expires.Some? ==> |expires.value| == |hashes|)
      reads this, store
    {
      Seen(hashes[i], if expires.None? then 0 else expires.value[i], count)
    }

    /** The seen ones among the listed transactions, in order and as often as listed: at is where they stand in the
        list. None when the lists do not match. */
    method GetDuplicateTxHashList(hashes: seq<Tx>, expires: Option<seq<int>>, count: int)
      returns (r: Option<seq<Tx>>, ghost at: seq<nat>)
      ensures r.None? <==> expires.Some? && |expires.value| != |hashes|
      ensures r.Some? ==>
                |at| == |r.value| && forall j | 0 <= j < |at| :: at[j] < |hashes| && r.value[j] == hashes[at[j]]
      ensures forall j, k | 0 <= j < k < |at| :: at[j] < at[k]
      ensures r.Some? ==> forall i: nat | i < |hashes| :: i in at <==> SeenAt(hashes, expires, count, i)
    {
      at := [];
      if expires.Some? && |expires.value| != |hashes| {
        return None, [];
      }
      var dup: seq<Tx> := [];
      for i := 0 to |hashes|
        invariant |at| == |dup| && forall j | 0 <= j < |at| :: at[j] < i && dup[j] == hashes[at[j]]
        invariant forall j, k | 0 <= j < k < |at| :: at[j] < at[k]
        invariant forall j: nat | j < i :: j in at <==> SeenAt(hashes, expires, count, j)
      {
        var expire := if expires.Some? then expires.value[i] else 0;
        var has := HasTx(hashes[i], TxHeightOf(expire, count, fork));
        if has {
          dup, at := dup + [hashes[i]], at + [i];
        }
      }
      r := Some(dup);
    }
  }

  lemma DescribesOneSet(m: map<int, set<Tx>>, s: set<Key>, t: set<Key>)
    requires Describes(m, s) && Describes(m, t)
    ensures s == t
  {
    forall key ensures key in s <==> key in t {
      var (h, tx) := key;
      assert Filed(m, h, tx) <==> (h, tx) in s;
      assert Filed(m, h, tx) <==> (h, tx) in t;
    }
  }

  lemma StepForward(before: map<int, set<Tx>>, after: map<int, set<Tx>>, s: set<Key>, chain: seq<Block>, b: Block,
      w: nat, fork: int)
    requires w > 0 && Unique(chain + [b])
    requires Describes(before, s) && Kept(before, chain, w, fork)
    requires Describes(after, AddKeys(s, chain, b, w, fork))
    ensures Kept(after, chain + [b], w, fork)
  {
    DescribesOneSet(before, s, WindowKeys(chain, Low(|chain|, w), fork));
    AddIsExact(chain, b, w, fork);
  }

  lemma StepBack(before: map<int, set<Tx>>, after: map<int, set<Tx>>, s: set<Key>, chain: seq<Block>, w: nat, fork: int)
    requires w > 0 && chain != [] && Steady(chain, w, fork)
    requires Describes(before, s) && Kept(before, chain, w, fork)
    requires Describes(after, DelKeys(s, chain, w, fork))
    ensures Kept(after, chain[..|chain| - 1], w, fork)
  {
    DescribesOneSet(before, s, WindowKeys(chain, Low(|chain|, w), fork));
    DelIsExactIff(chain, w, fork);
    UniquePop(chain);
  }

  lemma KeysOneMore(txs: seq<Tx>, i: nat, height: int, fork: int)
    requires i < |txs|
    ensures var h := TxHeightOf(txs[i].expire, height, fork);
            Keys(txs[..i + 1], height, fork) == Keys(txs[..i], height, fork) + if h >= 0 then {(h, txs[i])} else {}
  {
    assert txs[..i + 1] == txs[..i] + [txs[i]];
  }
}
