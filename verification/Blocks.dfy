/** Blocks, their hashes and the chains they determine. */
module Blocks {

  /** A transaction stands for its own hash; content is everything but the expiry. */
  datatype Tx = Tx(expire: int, content: nat)

  /** A collision-free block hash: it remembers the block. The zero hash is genesis's parent. */
  datatype Hash = ZeroHash | HashOf(block: Block)

  /** work is the block's own difficulty as a work value; content stands for all other header fields. */
  datatype Block = Block(parent: Hash, height: int, work: nat, txs: seq<Tx>, content: nat)

  /** Total difficulty: the work along the block's ancestry. */
  function Td(b: Block): nat {
    b.work + match b.parent
             case ZeroHash => 0
             case HashOf(p) => Td(p)
  }

  /** The chain a block closes, oldest first. */
  function Path(b: Block): (path: seq<Block>)
    ensures path != [] && path[|path| - 1] == b
  {
    match b.parent
    case ZeroHash => [b]
    case HashOf(p) => Path(p) + [b]
  }

  /** The work of a sequence of blocks: their own difficulties added up. */
  function WorkOf(blocks: seq<Block>): nat {
    if blocks == [] then 0 else WorkOf(blocks[..|blocks| - 1]) + blocks[|blocks| - 1].work
  }

  /** Work is additive, and a single block's is its own. */
  lemma {:induction false} WorkAdds(a: seq<Block>, b: seq<Block>)
    ensures WorkOf(a + b) == WorkOf(a) + WorkOf(b)
    ensures forall x: Block {:trigger WorkOf([x])} :: WorkOf([x]) == x.work
  {
    if b == [] {
      assert a + b == a;
    } else {
      assert (a + b)[..|a + b| - 1] == a + b[..|b| - 1];
      WorkAdds(a, b[..|b| - 1]);
    }
  }

  /** Total difficulty, which is stored as a running total, is the work of the blocks on the path. */
  lemma {:induction false} TdIsWork(b: Block)
    ensures Td(b) == WorkOf(Path(b))
  {
    if b.parent.HashOf? {
      TdIsWork(b.parent.block);
      assert Path(b)[..|Path(b)| - 1] == Path(b.parent.block);
    } else {
      assert Path(b)[..0] == [];
    }
  }

  /** The height follows the parent's. */
  predicate HeightOk(b: Block) {
    b.parent.HashOf? && b.height == b.parent.block.height + 1
  }

  predicate Genesis(g: Block) {
    g.parent == ZeroHash && g.height == 0
  }

  /** b descends from g with consecutive heights. */
  predicate Descends(g: Block, b: Block) {
    b == g || (HeightOk(b) && Descends(g, b.parent.block))
  }

  lemma {:induction false} PathShape(g: Block, b: Block)
    requires Genesis(g) && Descends(g, b)
    ensures b.height >= 0 && |Path(b)| == b.height + 1 && Path(b)[0] == g
    ensures forall i | 0 <= i < |Path(b)| :: Descends(g, Path(b)[i]) && Path(b)[i].height == i
  {
    if b != g { PathShape(g, b.parent.block); }
  }

  lemma {:induction false} PathPrefix(b: Block, i: nat)
    requires i < |Path(b)|
    ensures Path(Path(b)[i]) == Path(b)[..i + 1]
  {
    if i < |Path(b)| - 1 {
      PathPrefix(b.parent.block, i);
    }
  }

  lemma PathLinks(b: Block, i: nat)
    requires 0 < i < |Path(b)|
    ensures Path(b)[i].parent == HashOf(Path(b)[i - 1])
  {
    PathPrefix(b, i);
    var c := Path(b)[i];
    assert Path(c) == Path(b)[..i + 1];
    assert |Path(c)| > 1;
    assert c.parent.HashOf?;
    assert Path(c)[i - 1] == c.parent.block;
  }

  // ----- common ancestry -----

  /** Number of blocks the two chains share from the bottom. */
  function Shared(a: seq<Block>, b: seq<Block>): (n: nat)
    ensures n <= |a| && n <= |b|
  {
    if a == [] || b == [] || a[0] != b[0] then 0 else 1 + Shared(a[1..], b[1..])
  }

  lemma {:induction false} SharedAgrees(a: seq<Block>, b: seq<Block>)
    ensures a[..Shared(a, b)] == b[..Shared(a, b)]
    ensures Shared(a, b) < |a| && Shared(a, b) < |b| ==> a[Shared(a, b)] != b[Shared(a, b)]
  {
    if !(a == [] || b == [] || a[0] != b[0]) {
      SharedAgrees(a[1..], b[1..]);
      var n := Shared(a[1..], b[1..]);
      assert a[..n + 1] == [a[0]] + a[1..][..n];
      assert b[..n + 1] == [b[0]] + b[1..][..n];
    }
  }

  /** Total difficulty does not fall along a path. */
  lemma {:induction false} TdGrows(b: Block, i: nat)
    requires i < |Path(b)|
    ensures Td(Path(b)[i]) <= Td(b)
  {
    if i < |Path(b)| - 1 { TdGrows(b.parent.block, i); }
  }

  /** The best chain when a reorganisation to b stops at height n. */
  function StoppedAt(b: Block, n: nat): Block
    requires 0 < n <= |Path(b)|
  {
    Path(b)[n - 1]
  }

  lemma StopsAreOrdered(b: Block, m: nat, n: nat)
    requires 0 < m <= n <= |Path(b)|
    ensures Td(StoppedAt(b, m)) <= Td(StoppedAt(b, n))
  {
    PathPrefix(b, n - 1);
    assert Path(StoppedAt(b, n))[m - 1] == Path(b)[..n][m - 1];
    TdGrows(StoppedAt(b, n), m - 1);
  }

  /** The highest common block is on both paths. */
  lemma ForkIsShared(b: Block, tip: Block)
    requires 0 < Shared(Path(b), Path(tip))
    ensures var k := Shared(Path(b), Path(tip));
            StoppedAt(b, k) == StoppedAt(tip, k) && Td(StoppedAt(b, k)) <= Td(tip)
  {
    var k := Shared(Path(b), Path(tip));
    SharedAgrees(Path(b), Path(tip));
    assert Path(b)[k - 1] == Path(b)[..k][k - 1] == Path(tip)[..k][k - 1] == Path(tip)[k - 1];
    TdGrows(tip, k - 1);
  }

  /** A reorganisation that stops half way can leave no lighter tip, wherever it stops, exactly when the blocks it
      detached carried no work: when the fork is as heavy as the old tip. */
  lemma StopsNoLighterIff(b: Block, tip: Block)
    requires 0 < Shared(Path(b), Path(tip)) < |Path(b)|
    ensures var k := Shared(Path(b), Path(tip));
            (forall n: nat | k <= n < |Path(b)| :: Td(StoppedAt(b, n)) >= Td(tip)) <==> Td(StoppedAt(b, k)) == Td(tip)
  {
    var k := Shared(Path(b), Path(tip));
    ForkIsShared(b, tip);
    forall n: nat | k <= n < |Path(b)| ensures Td(StoppedAt(b, n)) >= Td(StoppedAt(b, k)) {
      StopsAreOrdered(b, k, n);
    }
  }

  /** Two branches of one genesis: reorganising from the tip of work 5 to the heavier branch of works 1 and 10 leaves a
      lighter chain when it stops before the second block. */
  lemma FailureLightens()
    ensures var g := Block(ZeroHash, 0, 1, [], 0);
            var tip, first := Block(HashOf(g), 1, 5, [], 1), Block(HashOf(g), 1, 1, [], 2);
            var b := Block(HashOf(first), 2, 10, [], 3);
            && Descends(g, tip) && Descends(g, b) && Td(b) > Td(tip)
            && Shared(Path(b), Path(tip)) == 1
            && StoppedAt(b, 1) == g && StoppedAt(b, 2) == first && Td(g) < Td(tip) && Td(first) < Td(tip)
  {
    var g := Block(ZeroHash, 0, 1, [], 0);
    var tip, first := Block(HashOf(g), 1, 5, [], 1), Block(HashOf(g), 1, 1, [], 2);
    var b := Block(HashOf(first), 2, 10, [], 3);
    assert Path(g) == [g] && Path(tip) == [g, tip] && Path(first) == [g, first];
    assert Path(b) == [g, first, b];
    assert Shared([first, b], [tip]) == 0;
    assert Path(b)[1..] == [first, b] && Path(tip)[1..] == [tip];
  }

  /** Two chains agree at a height exactly when it lies in their shared part. */
  lemma AgreeExactlyOnShared(x: Block, y: Block, i: nat)
    requires i < |Path(x)| && i < |Path(y)|
    ensures Path(x)[i] == Path(y)[i] <==> i < Shared(Path(x), Path(y))
  {
    var a, b, n := Path(x), Path(y), Shared(Path(x), Path(y));
    SharedAgrees(a, b);
    if i < n {
      assert a[i] == a[..n][i] == b[..n][i];
    } else {
      PathPrefix(x, i);
      PathPrefix(y, i);
      assert a[n] == a[..i + 1][n];
      assert b[n] == b[..i + 1][n];
    }
  }
}
