/** Block nodes, the index of all of them, and the view of the best chain's newest part. */
module ChainViews {
  import opened Blocks

  const BLOCK_NODE_CACHE_LIMIT := 10240

  /** A block known to the node, linked to its parent. Nodes are compared by identity. */
  class BlockNode {
    const hash: Hash
    const parent: BlockNode?
    const height: int
    const difficulty: nat

    constructor (block: Block, parent: BlockNode?)
      ensures hash == HashOf(block) && this.parent == parent
      ensures height == block.height && difficulty == block.work
    {
      this.hash, this.parent := HashOf(block), parent;
      this.height, this.difficulty := block.height, block.work;
    }
  }

  type Index = map<Hash, BlockNode>

  /** n is the one node of block b. */
  ghost predicate IsNode(index: Index, n: BlockNode?, b: Block) {
    HashOf(b) in index && index[HashOf(b)] == n
  }

  ghost predicate NodeOk(g: Block, index: Index, b: Block)
    requires HashOf(b) in index
  {
    var n := index[HashOf(b)];
    && n.hash == HashOf(b) && n.height == b.height && n.difficulty == b.work
    && Descends(g, b)
    && if b == g then n.parent == null else IsNode(index, n.parent, b.parent.block)
  }

  /** Every node descends from genesis through nodes of the index, one node per hash. */
  ghost predicate IndexOk(g: Block, index: Index) {
    && Genesis(g) && HashOf(g) in index
    && (forall h | h in index :: h.HashOf?)
    && (forall b {:trigger NodeOk(g, index, b)} | HashOf(b) in index :: NodeOk(g, index, b))
  }

  lemma {:induction false} AncestorsIndexed(g: Block, index: Index, b: Block)
    requires IndexOk(g, index) && HashOf(b) in index
    ensures Path(b)[0] == g && |Path(b)| == b.height + 1
    ensures forall i | 0 <= i < |Path(b)| :: HashOf(Path(b)[i]) in index && Path(b)[i].height == i
  {
    assert NodeOk(g, index, b);
    PathShape(g, b);
    if b != g { AncestorsIndexed(g, index, b.parent.block); }
  }

  lemma IndexGrows(g: Block, index: Index, n: BlockNode, b: Block)
    requires IndexOk(g, index) && HashOf(b) !in index && HeightOk(b) && IsNode(index, n.parent, b.parent.block)
    requires n.hash == HashOf(b) && n.height == b.height && n.difficulty == b.work
    ensures IndexOk(g, index[HashOf(b) := n])
  {
    var more := index[HashOf(b) := n];
    assert NodeOk(g, index, b.parent.block);
    forall c | HashOf(c) in more ensures NodeOk(g, more, c) {
      if c != b { assert NodeOk(g, index, c); }
    }
  }

  /** Identity of nodes is identity of blocks. */
  lemma NodesFollowPath(g: Block, index: Index, n: BlockNode, b: Block)
    requires IndexOk(g, index) && IsNode(index, n, b)
    ensures n.hash == HashOf(b) && n.height == b.height >= 0 && n.difficulty == b.work
    ensures n.parent == null <==> b == g
    ensures n.parent != null ==> n.parent.hash == b.parent
    ensures n.parent != null ==>
              HeightOk(b) && IsNode(index, n.parent, b.parent.block) && Path(b) == Path(b.parent.block) + [b]
  {
    assert NodeOk(g, index, b);
    PathShape(g, b);
    if b != g {
      assert NodeOk(g, index, b.parent.block);
    }
  }

  /** queue and nodes hold the nodes of the newest |queue| blocks of chain. */
  ghost predicate Window(index: Index, nodes: map<int, BlockNode>, queue: seq<BlockNode>, chain: seq<Block>) {
    && |queue| <= |chain|
    && (forall i | 0 <= i < |queue| :: IsNode(index, queue[i], chain[|chain| - 1 - i]))
    && (forall h :: h in nodes <==> |chain| - |queue| <= h < |chain|)
    && (forall h | h in nodes :: IsNode(index, nodes[h], chain[h]))
  }

  lemma WindowPush(index: Index, nodes: map<int, BlockNode>, queue: seq<BlockNode>, chain: seq<Block>, n: BlockNode,
      b: Block)
    requires Window(index, nodes, queue, chain) && IsNode(index, n, b)
    ensures Window(index, nodes[|chain| := n], [n] + queue, chain + [b])
  {
  }

  lemma WindowForget(index: Index, nodes: map<int, BlockNode>, queue: seq<BlockNode>, chain: seq<Block>)
    requires Window(index, nodes, queue, chain) && queue != []
    ensures Window(index, nodes - {|chain| - |queue|}, queue[..|queue| - 1], chain)
  {
  }

  lemma WindowPop(index: Index, nodes: map<int, BlockNode>, queue: seq<BlockNode>, chain: seq<Block>)
    requires Window(index, nodes, queue, chain) && queue != []
    ensures Window(index, nodes - {|chain| - 1}, queue[1..], chain[..|chain| - 1])
  {
  }

  lemma WindowInGrownIndex(index: Index, h: Hash, n: BlockNode, nodes: map<int, BlockNode>, queue: seq<BlockNode>,
      chain: seq<Block>)
    requires Window(index, nodes, queue, chain) && h !in index
    ensures Window(index[h := n], nodes, queue, chain)
  {
  }

  /** chain is the ancestry of an indexed block. */
  ghost predicate BestPath(index: Index, chain: seq<Block>) {
    chain != [] && chain == Path(chain[|chain| - 1]) && HashOf(chain[|chain| - 1]) in index
  }

  lemma NodeAtHeight(g: Block, index: Index, n: BlockNode, chain: seq<Block>, h: nat)
    requires IndexOk(g, index) && BestPath(index, chain) && h < |chain| && IsNode(index, n, chain[h])
    ensures n.height == h
  {
    NodesFollowPath(g, index, n, chain[h]);
    AncestorsIndexed(g, index, chain[|chain| - 1]);
  }

  lemma BestPathPush(g: Block, index: Index, chain: seq<Block>, b: Block)
    requires IndexOk(g, index) && BestPath(index, chain) && HashOf(b) in index
    requires b.parent == HashOf(chain[|chain| - 1])
    ensures BestPath(index, chain + [b]) && b.height == |chain|
  {
    AncestorsIndexed(g, index, b);
  }

  lemma BestPathPop(g: Block, index: Index, chain: seq<Block>)
    requires IndexOk(g, index) && BestPath(index, chain) && |chain| > 1
    ensures BestPath(index, chain[..|chain| - 1])
  {
    AncestorsIndexed(g, index, chain[|chain| - 1]);
    PathPrefix(chain[|chain| - 1], |chain| - 2);
  }

  /** Putting a child of the tip on the view. */
  lemma ViewPushes(g: Block, index: Index, nodes: map<int, BlockNode>, queue: seq<BlockNode>, chain: seq<Block>,
      n: BlockNode, b: Block)
    requires IndexOk(g, index) && BestPath(index, chain) && Window(index, nodes, queue, chain) && IsNode(index, n, b)
    requires b.parent == HashOf(chain[|chain| - 1])
    ensures BestPath(index, chain + [b]) && Window(index, nodes[n.height := n], [n] + queue, chain + [b])
  {
    NodesFollowPath(g, index, n, b);
    BestPathPush(g, index, chain, b);
    WindowPush(index, nodes, queue, chain, n, b);
  }

  /** nodes and queue are a view of the chain, tip first and not too long. */
  ghost predicate ViewOk(g: Block, index: Index, nodes: map<int, BlockNode>, queue: seq<BlockNode>, chain: seq<Block>) {
    && IndexOk(g, index)
    && BestPath(index, chain) && Window(index, nodes, queue, chain)
    && 1 <= |queue| <= BLOCK_NODE_CACHE_LIMIT
  }

  /** Taking the tip off the view. */
  lemma ViewPops(g: Block, index: Index, nodes: map<int, BlockNode>, queue: seq<BlockNode>, chain: seq<Block>)
    requires ViewOk(g, index, nodes, queue, chain) && |queue| > 1
    ensures queue[0].height in nodes && Dropped(queue, nodes[queue[0].height]) == queue[1..] && |chain| > 0
    ensures ViewOk(g, index, nodes - {queue[0].height}, Dropped(queue, nodes[queue[0].height]), chain[..|chain| - 1])
  {
    BestPathPop(g, index, chain);
    WindowPop(index, nodes, queue, chain);
    NodeAtHeight(g, index, queue[0], chain, |chain| - 1);
  }

  /** The ancestor at a height: follows parents until the height matches. */
  method Ancestor(node: BlockNode, height: int, ghost g: Block, ghost index: Index, ghost b: Block)
      returns (n: BlockNode?)
    requires IndexOk(g, index) && IsNode(index, node, b)
    ensures |Path(b)| == node.height + 1
    ensures if 0 <= height <= node.height then n != null && IsNode(index, n, Path(b)[height]) else n == null
  {
    NodesFollowPath(g, index, node, b);
    AncestorsIndexed(g, index, b);
    if height < 0 || height > node.height {
      return null;
    }
    n := node;
    ghost var a := b;
    while n != null && n.height != height
      invariant n != null && IsNode(index, n, a) && height <= a.height < |Path(b)| && Path(b)[a.height] == a
      decreases a.height
    {
      NodesFollowPath(g, index, n, a);
      PathPrefix(b, a.height);
      AncestorsIndexed(g, index, a);
      n, a := n.parent, a.parent.block;
    }
    NodesFollowPath(g, index, n, a);
  }

  lemma {:induction false} SharedTake(x: seq<Block>, y: seq<Block>, n: nat)
    requires n <= |x|
    ensures Shared(x[..n], y) == if n <= Shared(x, y) then n else Shared(x, y)
    decreases |x|
  {
    if n > 0 && y != [] && x[0] == y[0] {
      assert x[..n][1..] == x[1..][..n - 1];
      SharedTake(x[1..], y[1..], n - 1);
    }
  }

  /** a is an ancestor of b, or b. */
  ghost predicate OnPath(b: Block, a: Block) {
    0 <= a.height < |Path(b)| && Path(b)[a.height] == a
  }

  lemma SharedOfAncestor(b: Block, a: Block, chain: seq<Block>)
    requires OnPath(b, a)
    ensures Shared(Path(a), chain) == if a.height + 1 <= Shared(Path(b), chain) then a.height + 1
              else Shared(Path(b), chain)
    ensures a.height < Shared(Path(b), chain) ==> chain[a.height] == a
  {
    PathPrefix(b, a.height);
    SharedTake(Path(b), chain, a.height + 1);
    SharedAgrees(Path(b), chain);
    var k := Shared(Path(b), chain);
    if a.height < k {
      assert Path(b)[a.height] == Path(b)[..k][a.height] == chain[..k][a.height];
    }
  }

  lemma ParentOnPath(g: Block, index: Index, n: BlockNode, b: Block, a: Block)
    requires IndexOk(g, index) && IsNode(index, n, a) && OnPath(b, a)
    ensures n.parent == null <==> a.height == 0
    ensures n.parent != null ==>
              a.parent.HashOf? && IsNode(index, n.parent, a.parent.block) && OnPath(b, a.parent.block)
              && a.parent.block.height == a.height - 1
  {
    NodesFollowPath(g, index, n, a);
    AncestorsIndexed(g, index, a);
    PathPrefix(b, a.height);
    if n.parent != null {
      assert Path(b)[..a.height + 1][a.height - 1] == Path(a)[a.height - 1] == a.parent.block;
      NodesFollowPath(g, index, n.parent, a.parent.block);
    }
  }

  /** nodes are those of path from height k up, ascending. */
  ghost predicate NodesUp(index: Index, nodes: seq<BlockNode>, path: seq<Block>, k: nat) {
    k + |nodes| == |path| && forall i | 0 <= i < |nodes| :: IsNode(index, nodes[i], path[k + i])
  }

  /** nodes are those of path down to height k, tip first. */
  ghost predicate NodesDown(index: Index, nodes: seq<BlockNode>, path: seq<Block>, k: nat) {
    k + |nodes| == |path| && forall i | 0 <= i < |nodes| :: IsNode(index, nodes[i], path[|path| - 1 - i])
  }

  /** Where a walk down from b stands: at an ancestor with the fork still below or at it, or past genesis. */
  ghost predicate WalkAt(index: Index, b: Block, n: BlockNode?, a: Block, k: nat) {
    if n == null then k == 0 else IsNode(index, n, a) && OnPath(b, a) && k <= a.height + 1
  }

  ghost function Up(a: Block): Block {
    if a.parent.HashOf? then a.parent.block else a
  }

  /** Number of blocks of b's path not yet walked over. */
  ghost function Ahead(n: BlockNode?, a: Block): int {
    if n == null then 0 else a.height + 1
  }

  lemma WalkDown(g: Block, index: Index, b: Block, n: BlockNode, a: Block, k: nat, fork: BlockNode?)
    requires IndexOk(g, index) && WalkAt(index, b, n, a, k) && n != fork
    requires if fork == null then k == 0 else 0 < k <= |Path(b)| && IsNode(index, fork, Path(b)[k - 1])
    ensures k <= a.height && WalkAt(index, b, n.parent, Up(a), k)
    ensures Ahead(n.parent, Up(a)) == a.height
  {
    ParentOnPath(g, index, n, b, a);
  }

  /** Walks from a node down to the fork, putting each node in front. */
  method PathUp(node: BlockNode, fork: BlockNode?, ghost g: Block, ghost index: Index, ghost b: Block, ghost k: nat)
    returns (attach: seq<BlockNode>)
    requires IndexOk(g, index) && IsNode(index, node, b)
    requires if fork == null then k == 0 else 0 < k <= |Path(b)| && IsNode(index, fork, Path(b)[k - 1])
    ensures NodesUp(index, attach, Path(b), k)
  {
    AncestorsIndexed(g, index, b);
    attach := [];
    var n: BlockNode? := node;
    ghost var a := b;
    while n != null && n != fork
      invariant WalkAt(index, b, n, a, k) && 0 <= Ahead(n, a) <= |Path(b)|
      invariant NodesUp(index, attach, Path(b), Ahead(n, a))
      decreases Ahead(n, a)
    {
      WalkDown(g, index, b, n, a, k, fork);
      attach := [n] + attach;
      n, a := n.parent, Up(a);
    }
    if n != null {
      NodesFollowPath(g, index, n, a);
      NodesFollowPath(g, index, n, Path(b)[k - 1]);
    }
  }

  /** Walks from a node down to the fork, putting each node at the back. */
  method PathDown(node: BlockNode, fork: BlockNode?, ghost g: Block, ghost index: Index, ghost b: Block, ghost k: nat)
    returns (detach: seq<BlockNode>)
    requires IndexOk(g, index) && IsNode(index, node, b)
    requires if fork == null then k == 0 else 0 < k <= |Path(b)| && IsNode(index, fork, Path(b)[k - 1])
    ensures NodesDown(index, detach, Path(b), k)
  {
    AncestorsIndexed(g, index, b);
    detach := [];
    var n: BlockNode? := node;
    ghost var a := b;
    while n != null && n != fork
      invariant WalkAt(index, b, n, a, k) && 0 <= Ahead(n, a) <= |Path(b)|
      invariant NodesDown(index, detach, Path(b), Ahead(n, a))
      decreases Ahead(n, a)
    {
      WalkDown(g, index, b, n, a, k, fork);
      detach := detach + [n];
      n, a := n.parent, Up(a);
    }
    if n != null {
      NodesFollowPath(g, index, n, a);
      NodesFollowPath(g, index, n, Path(b)[k - 1]);
    }
  }

  /** The queue without the first occurrence of a node. */
  function Dropped(queue: seq<BlockNode>, n: BlockNode): seq<BlockNode> {
    if queue == [] then [] else if queue[0] == n then queue[1..] else [queue[0]] + Dropped(queue[1..], n)
  }

  /** Up to the first occurrence nothing changes; that one place goes, and what follows moves up. */
  lemma {:induction false} DroppedAt(queue: seq<BlockNode>, n: BlockNode, i: nat)
    requires i <= |queue| && n !in queue[..i] && (i < |queue| ==> queue[i] == n)
    ensures Dropped(queue, n) == queue[..i] + if i < |queue| then queue[i + 1..] else []
  {
    if i > 0 {
      assert queue[0] in queue[..i] && queue[1..][..i - 1] == queue[..i][1..];
      DroppedAt(queue[1..], n, i - 1);
      assert queue[..i] == [queue[0]] + queue[1..][..i - 1];
    }
  }

  class BlockIndex {
    var index: Index
    var cacheQueue: seq<BlockNode>

    constructor (node: BlockNode)
      ensures index == map[node.hash := node] && cacheQueue == [node]
    {
      index, cacheQueue := map[node.hash := node], [node];
    }

    predicate HaveBlock(h: Hash)
      reads this`index
    {
      h in index
    }

    function LookupNode(h: Hash): BlockNode?
      reads this`index
    {
      if h in index then index[h] else null
    }

    method AddNode(node: BlockNode)
      modifies this
      ensures index == old(index)[node.hash := node] && cacheQueue == old(cacheQueue) + [node]
    {
      cacheQueue := cacheQueue + [node];
      index := index[node.hash := node];
    }
  }

  class ChainView {
    var nodes: map<int, BlockNode>
    var cacheQueue: seq<BlockNode>
    ghost var chain: seq<Block>

    /** The view holds the nodes of the newest blocks of the chain, tip first. */
    ghost predicate Valid(g: Block, index: Index)
      reads this
    {
      ViewOk(g, index, nodes, cacheQueue, chain)
    }

    /** Lowest height still in the view. */
    ghost function Base(): int
      reads this
    {
      |chain| - |cacheQueue|
    }

    constructor (ghost g: Block, ghost index: Index, tip: BlockNode)
      requires IndexOk(g, index) && IsNode(index, tip, g)
      ensures Valid(g, index) && chain == [g]
    {
      nodes := map[tip.height := tip];
      cacheQueue := [tip];
      chain := [g];
      new;
      NodesFollowPath(g, index, tip, g);
    }

    function Tip(): BlockNode?
      reads this
    {
      if |cacheQueue| == 0 then null else cacheQueue[0]
    }

    function Height(): int
      reads this
    {
      if Tip() != null then Tip().height else -1
    }

    /** The view does not depend on nodes added later. */
    lemma ValidInGrownIndex(g: Block, index: Index, n: BlockNode, b: Block)
      requires Valid(g, index) && IndexOk(g, index[HashOf(b) := n]) && HashOf(b) !in index
      ensures Valid(g, index[HashOf(b) := n])
    {
      WindowInGrownIndex(index, HashOf(b), n, nodes, cacheQueue, chain);
    }

    lemma TipFacts(g: Block, index: Index)
      requires Valid(g, index)
      ensures IsNode(index, Tip(), chain[|chain| - 1]) && Tip() != null
      ensures Tip().hash == HashOf(chain[|chain| - 1])
      ensures Height() == |chain| - 1
    {
      NodesFollowPath(g, index, cacheQueue[0], chain[|chain| - 1]);
      AncestorsIndexed(g, index, chain[|chain| - 1]);
    }

    /** A node hangs below the tip exactly when its block's parent is the newest block. */
    lemma TipIsParent(g: Block, index: Index, node: BlockNode, b: Block)
      requires Valid(g, index) && IsNode(index, node, b)
      ensures node.parent == Tip() <==> b.parent == HashOf(chain[|chain| - 1])
    {
      TipFacts(g, index);
      NodesFollowPath(g, index, node, b);
    }

    /** Appends a node whose parent is the tip and forgets the oldest one past the limit; any other node is refused. */
    method SetTip(node: BlockNode, ghost g: Block, ghost index: Index, ghost b: Block)
      requires Valid(g, index) && IsNode(index, node, b)
      modifies this
      ensures Valid(g, index)
      ensures if b.parent == HashOf(old(chain)[|old(chain)| - 1])
              then chain == old(chain) + [b] && Base() == if |old(cacheQueue)| == BLOCK_NODE_CACHE_LIMIT
                  then old(Base()) + 1 else old(Base())
              else chain == old(chain) && cacheQueue == old(cacheQueue)
    {
      TipIsParent(g, index, node, b);
      if |cacheQueue| != 0 {
        if node.parent != Tip() {
          return;
        }
      }
      ViewPushes(g, index, nodes, cacheQueue, chain, node, b);
      cacheQueue := [node] + cacheQueue;
      nodes := nodes[node.height := node];
      chain := chain + [b];
      Expire(g, index);
    }

    /** Forgets the oldest node when the limit is exceeded. */
    method Expire(ghost g: Block, ghost index: Index)
      requires IndexOk(g, index) && BestPath(index, chain) && Window(index, nodes, cacheQueue, chain)
      requires 1 <= |cacheQueue| <= BLOCK_NODE_CACHE_LIMIT + 1
      modifies this`nodes, this`cacheQueue
      ensures Valid(g, index)
      ensures Base() == if |old(cacheQueue)| > BLOCK_NODE_CACHE_LIMIT then old(Base()) + 1 else old(Base())
    {
      if |cacheQueue| > BLOCK_NODE_CACHE_LIMIT {
        var oldest := cacheQueue[|cacheQueue| - 1];
        NodeAtHeight(g, index, oldest, chain, |chain| - |cacheQueue|);
        WindowForget(index, nodes, cacheQueue, chain);
        cacheQueue := cacheQueue[..|cacheQueue| - 1];
        nodes := nodes - {oldest.height};
      }
    }

    /** Removes the node at a height, whichever it is. When it is the tip of a longer view, its parent becomes the tip
        and the view stays valid. */
    method DelTip(node: BlockNode, ghost g: Block, ghost index: Index)
      modifies this
      ensures nodes == old(nodes) - {node.height}
      ensures cacheQueue == if node.height in old(nodes) then Dropped(old(cacheQueue), old(nodes)[node.height])
                else old(cacheQueue)
      ensures old(Valid(g, index) && node == Tip() && |cacheQueue| > 1) ==>
                Valid(g, index) && chain == old(chain)[..|old(chain)| - 1] && Base() == old(Base())
    {
      ghost var pops := Valid(g, index) && node == Tip() && |cacheQueue| > 1;
      if pops {
        ViewPops(g, index, nodes, cacheQueue, chain);
        chain := chain[..|chain| - 1];
      }
      DropNode(node.height);
    }

    method DropNode(height: int)
      modifies this`nodes, this`cacheQueue
      ensures nodes == old(nodes) - {height}
      ensures cacheQueue == if height in old(nodes) then Dropped(old(cacheQueue), old(nodes)[height])
                else old(cacheQueue)
    {
      if height in nodes {
        cacheQueue := Dropped(cacheQueue, nodes[height]);
        nodes := nodes - {height};
      }
    }

    function NodeByHeight(height: int): BlockNode?
      reads this
    {
      if height < 0 || height > Height() then null
      else if height in nodes then nodes[height]
      else null
    }

    predicate HaveBlock(hash: Hash, height: int)
      reads this
    {
      NodeByHeight(height) != null && NodeByHeight(height).hash == hash
    }

    lemma HaveBlockIff(g: Block, index: Index, hash: Hash, height: int)
      requires Valid(g, index)
      ensures HaveBlock(hash, height) <==> Base() <= height < |chain| && hash == HashOf(chain[height])
    {
      TipFacts(g, index);
      if Base() <= height < |chain| {
        NodesFollowPath(g, index, nodes[height], chain[height]);
      }
    }

    predicate Contains(node: BlockNode)
      reads this
    {
      NodeByHeight(node.height) == node
    }

    lemma ContainsIff(g: Block, index: Index, node: BlockNode, b: Block)
      requires Valid(g, index) && IsNode(index, node, b)
      ensures Contains(node) <==> Base() <= b.height < Shared(Path(b), chain)
    {
      TipFacts(g, index);
      NodesFollowPath(g, index, node, b);
      AncestorsIndexed(g, index, b);
      var h := b.height;
      if Base() <= h < |chain| {
        AgreeExactlyOnShared(b, chain[|chain| - 1], h);
        assert Contains(node) <==> nodes[h] == node;
        assert nodes[h] == node ==> chain[h] == b by {
          NodesFollowPath(g, index, nodes[h], chain[h]);
        }
      }
    }

    /** The highest block the node's ancestry shares with the best chain, when the view still holds it; null when it
        lies below the view. */
    method FindFork(node: BlockNode, ghost g: Block, ghost index: Index, ghost b: Block) returns (fork: BlockNode?)
      requires Valid(g, index) && IsNode(index, node, b)
      ensures var k := Shared(Path(b), chain);
              k >= 1 && if k - 1 < Base() then fork == null else IsNode(index, fork, chain[k - 1]) && fork != null
    {
      TipFacts(g, index);
      ghost var k, a := Shared(Path(b), chain), b;
      SharesGenesis(g, index, b);
      var n: BlockNode? := node;
      if n.height > Height() {
        n := Ancestor(n, Height(), g, index, b);
        a := Path(b)[|chain| - 1];
      }
      while n != null && !Contains(n)
        invariant n == null ==> k - 1 < Base()
        invariant n != null ==> IsNode(index, n, a) && OnPath(b, a) && (k - 1 <= a.height || k - 1 < Base())
        decreases if n == null then 0 else 1 + a.height
      {
        ContainsOnPath(g, index, n, b, a);
        ParentOnPath(g, index, n, b, a);
        n, a := n.parent, if n.parent == null then a else a.parent.block;
      }
      if n != null {
        ContainsOnPath(g, index, n, b, a);
      }
      fork := n;
    }

    /** The nodes to leave, tip first, and the nodes to reach b, ascending: everything above the highest common block,
        or everything when the view no longer holds it. */
    method GetReorganizeNodes(node: BlockNode, ghost g: Block, ghost index: Index, ghost b: Block)
      returns (detach: seq<BlockNode>, attach: seq<BlockNode>, fork: BlockNode?)
      requires Valid(g, index) && IsNode(index, node, b)
      ensures var k := Shared(Path(b), chain);
              && (fork == null <==> k - 1 < Base())
              && NodesUp(index, attach, Path(b), if fork == null then 0 else k)
              && NodesDown(index, detach, chain, if fork == null then 0 else k)
    {
      fork := FindFork(node, g, index, b);
      ghost var k: nat := if fork == null then 0 else Shared(Path(b), chain);
      SharesGenesis(g, index, b);
      SharedAgrees(Path(b), chain);
      if fork != null {
        assert Path(b)[k - 1] == Path(b)[..k][k - 1] == chain[..k][k - 1] == chain[k - 1];
      }
      attach := PathUp(node, fork, g, index, b, k);
      TipFacts(g, index);
      detach := PathDown(Tip(), fork, g, index, chain[|chain| - 1], k);
    }

    lemma SharesGenesis(g: Block, index: Index, b: Block)
      requires Valid(g, index) && HashOf(b) in index
      ensures Shared(Path(b), chain) >= 1 && OnPath(b, b) && |Path(b)| == b.height + 1
      ensures |chain| <= |Path(b)| ==>
                Path(b)[|chain| - 1].height == |chain| - 1 && HashOf(Path(b)[|chain| - 1]) in index
    {
      AncestorsIndexed(g, index, b);
      AncestorsIndexed(g, index, chain[|chain| - 1]);
      AgreeExactlyOnShared(b, chain[|chain| - 1], 0);
    }

    lemma ContainsOnPath(g: Block, index: Index, n: BlockNode, b: Block, a: Block)
      requires Valid(g, index) && IsNode(index, n, a) && OnPath(b, a)
      ensures Contains(n) <==> Base() <= a.height < Shared(Path(b), chain)
      ensures a.height < Shared(Path(b), chain) ==> chain[a.height] == a
    {
      ContainsIff(g, index, n, a);
      SharedOfAncestor(b, a, chain);
    }
  }
}
