/** The baseline's binary Merkle tree: odd layers pair their last node with itself. */
module BinaryMerkle {

  /** A byte, or a digest written out: a collision-free digest remembers the message it was taken of. */
  datatype Symbol = Byte(value: nat) | Digest(message: seq<Symbol>)

  type Message = seq<Symbol>

  datatype Side = Left | Right

  /** One step of a proof: on which side the other message is joined. */
  datatype Item = Item(side: Side, other: Message)

  function Sha256(m: Message): Symbol {
    Digest(m)
  }

  function LeafDigests(leaves: seq<Message>): seq<Symbol> {
    seq(|leaves|, i requires 0 <= i < |leaves| => Sha256(leaves[i]))
  }

  /** The node above a pair; a missing right node is the left one again. */
  function Above(level: seq<Symbol>, j: nat): Symbol
    requires 2 * j < |level|
  {
    Sha256([level[2 * j], if 2 * j + 1 < |level| then level[2 * j + 1] else level[2 * j]])
  }

  /** next is the level above. */
  ghost predicate IsAbove(level: seq<Symbol>, next: seq<Symbol>) {
    && |next| == (|level| + 1) / 2
    && forall j: nat | j < |next| :: next[j] == Above(level, j)
  }

  /** The levels of a tree over these leaves, from the leaves up to the only root. */
  ghost predicate IsTree(leaves: seq<Message>, levels: seq<seq<Symbol>>) {
    && levels != [] && levels[0] == LeafDigests(leaves)
    && (forall k | 0 <= k < |levels| - 1 :: |levels[k]| > 1 && IsAbove(levels[k], levels[k + 1]))
    && |levels[|levels| - 1]| == 1
  }

  function Root(levels: seq<seq<Symbol>>): Symbol
    requires levels != [] && levels[|levels| - 1] != []
  {
    levels[|levels| - 1][0]
  }

  /** Hashes pairs level by level until one node is left. */
  method MerkleTree(leaves: seq<Message>) returns (levels: seq<seq<Symbol>>)
    requires leaves != []
    ensures IsTree(leaves, levels)
  {
    var level := LeafDigests(leaves);
    levels := [level];
    while |level| > 1
      invariant levels != [] && levels[0] == LeafDigests(leaves) && level == levels[|levels| - 1] && level != []
      invariant forall k | 0 <= k < |levels| - 1 :: |levels[k]| > 1 && IsAbove(levels[k], levels[k + 1])
      decreases |level|
    {
      var next := NextLevel(level);
      level := next;
      levels := levels + [level];
    }
  }

  method NextLevel(level: seq<Symbol>) returns (next: seq<Symbol>)
    ensures IsAbove(level, next)
  {
    next := [];
    var i := 0;
    while i < |level|
      invariant 0 <= i <= |level| + 1 && i == 2 * |next| && |next| <= (|level| + 1) / 2
      invariant forall j: nat | j < |next| :: next[j] == Above(level, j)
    {
      var left := level[i];
      var right := if i + 1 < |level| then level[i + 1] else left;
      next := next + [Sha256([left, right])];
      i := i + 2;
    }
  }

  /** The index of the other node of the pair. */
  function Sibling(i: nat): nat {
    if i % 2 == 0 then i + 1 else i - 1
  }

  /** The step that leads from a node to the one above it. */
  function StepFor(level: seq<Symbol>, i: nat): Item
    requires i < |level|
  {
    Item(if i % 2 == 0 then Right else Left, [if Sibling(i) < |level| then level[Sibling(i)] else level[i]])
  }

  function Halved(i: nat, k: nat): nat {
    if k == 0 then i else Halved(i, k - 1) / 2
  }

  ghost predicate StepAt(levels: seq<seq<Symbol>>, index: nat, proof: seq<Item>, k: nat)
    requires k < |proof| && k < |levels|
  {
    Halved(index, k) < |levels[k]| && proof[k] == StepFor(levels[k], Halved(index, k))
  }

  /** One item per level, each from the node the path has reached. */
  ghost predicate IsProof(levels: seq<seq<Symbol>>, index: nat, proof: seq<Item>) {
    && |proof| == |levels| - 1
    && forall k: nat {:trigger StepAt(levels, index, proof, k)} | k < |proof| :: StepAt(levels, index, proof, k)
  }

  lemma {:induction false} PathInRange(leaves: seq<Message>, levels: seq<seq<Symbol>>, index: nat, k: nat)
    requires IsTree(leaves, levels) && index < |leaves| && k < |levels|
    ensures Halved(index, k) < |levels[k]|
  {
    if k > 0 {
      PathInRange(leaves, levels, index, k - 1);
      assert IsAbove(levels[k - 1], levels[k]);
    }
  }

  method MerkleProof(leaves: seq<Message>, levels: seq<seq<Symbol>>, index: nat) returns (proof: seq<Item>)
    requires IsTree(leaves, levels) && index < |leaves|
    ensures IsProof(levels, index, proof)
  {
    proof := [];
    var idx := index;
    for level := 0 to |levels| - 1
      invariant |proof| == level && idx == Halved(index, level)
      invariant forall k: nat {:trigger StepAt(levels, index, proof, k)} | k < level :: StepAt(levels, index, proof, k)
    {
      PathInRange(leaves, levels, index, level);
      var layer := levels[level];
      var pairIndex := Sibling(idx);
      var item := Item(if idx % 2 == 0 then Right
          else Left, [if pairIndex < |layer| then layer[pairIndex] else layer[idx]]);
      ghost var was := proof;
      proof := proof + [item];
      forall k: nat | k <= level ensures StepAt(levels, index, proof, k) {
        if k < level { assert StepAt(levels, index, was, k); }
      }
      idx := idx / 2;
    }
  }

  /** Joins a digest with the other message on its side. */
  function Join(digest: Symbol, item: Item): Symbol {
    if item.side == Right then Sha256([digest] + item.other) else Sha256(item.other + [digest])
  }

  function Fold(digest: Symbol, proof: seq<Item>): Symbol
    decreases |proof|
  {
    if proof == [] then digest else Fold(Join(digest, proof[0]), proof[1..])
  }

  predicate Accepts(leaf: Message, proof: seq<Item>, root: Symbol) {
    Fold(Sha256(leaf), proof) == root
  }

  method VerifyMerkleProof(leaf: Message, proof: seq<Item>, root: Symbol) returns (ok: bool)
    ensures ok == Accepts(leaf, proof, root)
  {
    var digest := Sha256(leaf);
    for i := 0 to |proof|
      invariant Fold(Sha256(leaf), proof) == Fold(digest, proof[i..])
    {
      digest := Join(digest, proof[i]);
      assert proof[i..][1..] == proof[i + 1..];
    }
    ok := digest == root;
  }

  // ----- round trip -----

  /** A node joined with its step is the node above it. */
  lemma StepLeadsUp(level: seq<Symbol>, next: seq<Symbol>, i: nat)
    requires IsAbove(level, next) && i < |level|
    ensures i / 2 < |next| && Join(level[i], StepFor(level, i)) == next[i / 2]
  {
    var j := i / 2;
    assert next[j] == Above(level, j);
    var other := StepFor(level, i).other;
    if i % 2 == 0 {
      assert [level[i]] + other == [level[2 * j], other[0]];
    } else {
      assert other + [level[i]] == [other[0], level[2 * j + 1]];
    }
  }

  lemma {:induction false} FoldLeadsToRoot(leaves: seq<Message>, levels: seq<seq<Symbol>>, index: nat,
      proof: seq<Item>, k: nat)
    requires IsTree(leaves, levels) && index < |leaves| && IsProof(levels, index, proof) && k <= |proof|
    ensures Halved(index, k) < |levels[k]| && Fold(levels[k][Halved(index, k)], proof[k..]) == Root(levels)
    decreases |proof| - k
  {
    PathInRange(leaves, levels, index, k);
    if k < |proof| {
      assert StepAt(levels, index, proof, k);
      StepLeadsUp(levels[k], levels[k + 1], Halved(index, k));
      FoldLeadsToRoot(leaves, levels, index, proof, k + 1);
      assert proof[k..][1..] == proof[k + 1..];
    }
  }

  /** Every leaf's proof is as long as the tree is deep and verifies against the root. */
  lemma ProofVerifies(leaves: seq<Message>, levels: seq<seq<Symbol>>, index: nat, proof: seq<Item>)
    requires IsTree(leaves, levels) && index < |leaves| && IsProof(levels, index, proof)
    ensures |proof| == |levels| - 1 && Accepts(leaves[index], proof, Root(levels))
  {
    FoldLeadsToRoot(leaves, levels, index, proof, 0);
    assert proof[0..] == proof;
  }

  /** What a tree hashes: the leaves at the bottom, and above each pair its left node followed by its right one, or by
      the left one again when it is the last of an odd level. */
  lemma TreeHashes(leaves: seq<Message>, levels: seq<seq<Symbol>>, k: nat, j: nat)
    requires IsTree(leaves, levels) && k < |levels| && j < |levels[k]|
    ensures |levels[0]| == |leaves| && (k > 0 ==> |levels[k - 1]| in {2 * |levels[k]| - 1, 2 * |levels[k]|})
    ensures k == 0 ==> levels[0][j] == Digest(leaves[j])
    ensures k > 0 ==>
              && 2 * j < |levels[k - 1]|
              && levels[k][j].Digest? && |levels[k][j].message| == 2 && levels[k][j].message[0] == levels[k - 1][2 * j]
              && levels[k][j].message[1] == levels[k - 1][if 2 * j + 1 < |levels[k - 1]| then 2 * j + 1 else 2 * j]
  {
    if k > 0 {
      assert IsAbove(levels[k - 1], levels[k]);
      assert levels[k][j] == Above(levels[k - 1], j);
    }
  }

  // ----- soundness -----

  /** Where a proof of full length, read from the root down, says the leaf is. */
  function Position(levels: seq<seq<Symbol>>, proof: seq<Item>, k: nat): (p: nat)
    requires k + |proof| == |levels| - 1
    decreases |proof|
  {
    if proof == [] then 0 else
    var p := 2 * Position(levels, proof[1..], k + 1) + if proof[0].side == Right then 0 else 1;
    if p < |levels[k]| || p == 0 then p else p - 1
  }

  /** Joining to a node of the next level means having been one of its pair. */
  lemma JoinedFromPair(level: seq<Symbol>, next: seq<Symbol>, j: nat, digest: Symbol, item: Item)
    requires IsAbove(level, next) && j < |next| && Join(digest, item) == next[j]
    ensures var p := 2 * j + if item.side == Right then 0 else 1;
            digest == level[if p < |level| then p else 2 * j]
  {
    var pair := [level[2 * j], if 2 * j + 1 < |level| then level[2 * j + 1] else level[2 * j]];
    assert next[j] == Above(level, j) == Sha256(pair);
    if item.side == Right {
      assert ([digest] + item.other)[0] == pair[0];
    } else {
      assert item.other + [digest] == pair;
      assert (item.other + [digest])[|item.other|] == pair[1];
    }
  }

  lemma {:induction false} FoldedFromLevel(leaves: seq<Message>, levels: seq<seq<Symbol>>, digest: Symbol,
      proof: seq<Item>, k: nat)
    requires IsTree(leaves, levels) && k + |proof| == |levels| - 1 && Fold(digest, proof) == Root(levels)
    ensures Position(levels, proof, k) < |levels[k]| && digest == levels[k][Position(levels, proof, k)]
    decreases |proof|
  {
    if proof != [] {
      FoldedFromLevel(leaves, levels, Join(digest, proof[0]), proof[1..], k + 1);
      var j := Position(levels, proof[1..], k + 1);
      assert IsAbove(levels[k], levels[k + 1]);
      JoinedFromPair(levels[k], levels[k + 1], j, digest, proof[0]);
    }
  }

  /** Soundness: whoever made it, an accepted proof as long as the tree is deep shows that the leaf is in the list, at
      the position the proof's sides spell out. */
  lemma AcceptedIsLeaf(leaves: seq<Message>, levels: seq<seq<Symbol>>, leaf: Message, proof: seq<Item>)
    requires IsTree(leaves, levels) && |proof| == |levels| - 1 && Accepts(leaf, proof, Root(levels))
    ensures Position(levels, proof, 0) < |leaves| && leaf == leaves[Position(levels, proof, 0)]
  {
    FoldedFromLevel(leaves, levels, Sha256(leaf), proof, 0);
  }

  /** An honest proof spells out its own index. */
  lemma {:induction false} HonestPosition(leaves: seq<Message>, levels: seq<seq<Symbol>>, index: nat, proof: seq<Item>,
      k: nat)
    requires IsTree(leaves, levels) && index < |leaves| && IsProof(levels, index, proof) && k <= |proof|
    ensures Position(levels, proof[k..], k) == Halved(index, k)
    decreases |proof| - k
  {
    PathInRange(leaves, levels, index, k);
    if k < |proof| {
      assert proof[k..][1..] == proof[k + 1..] && StepAt(levels, index, proof, k);
      HonestPosition(leaves, levels, index, proof, k + 1);
    }
  }

  // ----- why the length matters -----

  function Size(s: Symbol): nat
    decreases s, 0
  {
    match s
    case Byte(_) => 1
    case Digest(m) => 1 + MessageSize(m)
  }

  function MessageSize(m: Message): nat
    decreases m, 1
  {
    if m == [] then 0 else Size(m[0]) + MessageSize(m[1..])
  }

  lemma PairSize(x: Symbol, y: Symbol)
    ensures MessageSize([x, y]) == Size(x) + Size(y)
  {
    assert [y][1..] == [];
    assert MessageSize([y]) == Size(y) + MessageSize([]);
    assert [x, y][1..] == [y];
  }

  lemma {:induction false} NodesGrow(leaves: seq<Message>, levels: seq<seq<Symbol>>, index: nat, k: nat)
    requires IsTree(leaves, levels) && index < |leaves| && k < |levels|
    ensures Halved(index, k) < |levels[k]| && Size(levels[k][Halved(index, k)]) > MessageSize(leaves[index])
  {
    PathInRange(leaves, levels, index, k);
    if k > 0 {
      NodesGrow(leaves, levels, index, k - 1);
      var i, below := Halved(index, k - 1), levels[k - 1];
      assert IsAbove(below, levels[k]) && levels[k][i / 2] == Above(below, i / 2);
      var l := below[i / 2 * 2];
      PairSize(l, if i / 2 * 2 + 1 < |below| then below[i / 2 * 2 + 1] else l);
    }
  }

  /** Every node of the tree has a proof from its level up. */
  lemma {:induction false} NodeVerifies(leaves: seq<Message>, levels: seq<seq<Symbol>>, k: nat, i: nat)
      returns (proof: seq<Item>)
    requires IsTree(leaves, levels) && k < |levels| && i < |levels[k]|
    ensures |proof| == |levels| - 1 - k && Fold(levels[k][i], proof) == Root(levels)
    decreases |levels| - k
  {
    if k == |levels| - 1 {
      proof := [];
    } else {
      assert IsAbove(levels[k], levels[k + 1]);
      StepLeadsUp(levels[k], levels[k + 1], i);
      var rest := NodeVerifies(leaves, levels, k + 1, i / 2);
      proof := [StepFor(levels[k], i)] + rest;
      assert proof[1..] == rest;
    }
  }

  lemma {:induction false} LargestLeaf(leaves: seq<Message>) returns (m: nat)
    requires leaves != []
    ensures m < |leaves| && forall i | 0 <= i < |leaves| :: MessageSize(leaves[i]) <= MessageSize(leaves[m])
  {
    var n := |leaves| - 1;
    m := n;
    if n > 0 {
      var l := LargestLeaf(leaves[..n]);
      m := if MessageSize(leaves[l]) >= MessageSize(leaves[n]) then l else n;
    }
  }

  /** A proof shorter than the tree is deep shows nothing, whatever its length: a pair of nodes, written out as a leaf,
      is accepted with the proof of the node above it, and is no leaf. */
  lemma ShortProofForges(leaves: seq<Message>, levels: seq<seq<Symbol>>, length: nat)
      returns (leaf: Message, proof: seq<Item>)
    requires IsTree(leaves, levels) && leaves != [] && length < |levels| - 1
    ensures |proof| == length && Accepts(leaf, proof, Root(levels)) && leaf !in leaves
  {
    var k := |levels| - 2 - length;
    var m := LargestLeaf(leaves);
    NodesGrow(leaves, levels, m, k);
    var below, j := levels[k], Halved(m, k) / 2;
    assert IsAbove(below, levels[k + 1]) && levels[k + 1][j] == Above(below, j);
    var l := below[2 * j];
    var r := if 2 * j + 1 < |below| then below[2 * j + 1] else l;
    PairSize(l, r);
    leaf := [l, r];
    proof := NodeVerifies(leaves, levels, k + 1, j);
    assert MessageSize(leaf) > MessageSize(leaves[m]);
  }

  /** Leaves that contain no digest, as files and certificates do. */
  predicate PlainLeaves(leaves: seq<Message>) {
    forall i, j | 0 <= i < |leaves| && 0 <= j < |leaves[i]| :: leaves[i][j].Byte?
  }

  lemma {:induction false} FoldInTwo(digest: Symbol, a: seq<Item>, b: seq<Item>)
    ensures Fold(digest, a + b) == Fold(Fold(digest, a), b)
    decreases |a|
  {
    if a == [] {
      assert a + b == b;
    } else {
      assert (a + b)[1..] == a[1..] + b;
      FoldInTwo(Join(digest, a[0]), a[1..], b);
    }
  }

  /** What a proof leads to is the digest of a message that contains a digest. */
  lemma {:induction false} FoldHasDigest(digest: Symbol, proof: seq<Item>)
    requires digest.Digest? && proof != []
    ensures var r := Fold(digest, proof); r.Digest? && exists j :: 0 <= j < |r.message| && r.message[j].Digest?
    decreases |proof|
  {
    var next := Join(digest, proof[0]);
    if |proof| == 1 {
      assert Fold(next, proof[1..]) == next;
      var m, other := next.message, proof[0].other;
      assert m[if proof[0].side == Right then 0 else |other|] == digest;
    } else {
      FoldHasDigest(next, proof[1..]);
    }
  }

  /** Over plain leaves no proof longer than the tree is deep is accepted, whatever it shows. */
  lemma LongProofRejected(leaves: seq<Message>, levels: seq<seq<Symbol>>, leaf: Message, proof: seq<Item>)
    requires IsTree(leaves, levels) && PlainLeaves(leaves) && |proof| > |levels| - 1
    ensures !Accepts(leaf, proof, Root(levels))
  {
    var n := |proof| - (|levels| - 1);
    assert proof == proof[..n] + proof[n..];
    FoldInTwo(Sha256(leaf), proof[..n], proof[n..]);
    FoldHasDigest(Sha256(leaf), proof[..n]);
    if Accepts(leaf, proof, Root(levels)) {
      FoldedFromLevel(leaves, levels, Fold(Sha256(leaf), proof[..n]), proof[n..], 0);
    }
  }

  /** Among proofs no longer than the tree is deep, acceptance shows membership exactly at full length; over plain
      leaves it does so exactly at full length and beyond. */
  lemma SoundFromDepthOn(leaves: seq<Message>, levels: seq<seq<Symbol>>, length: nat)
    requires IsTree(leaves, levels) && leaves != [] && (length <= |levels| - 1 || PlainLeaves(leaves))
    ensures (forall leaf, proof | |proof| == length && Accepts(leaf, proof, Root(levels)) :: leaf in leaves)
            <==> length >= |levels| - 1
  {
    if length < |levels| - 1 {
      var leaf, proof := ShortProofForges(leaves, levels, length);
    } else {
      forall leaf, proof | |proof| == length && Accepts(leaf, proof, Root(levels)) ensures leaf in leaves {
        if length == |levels| - 1 {
          AcceptedIsLeaf(leaves, levels, leaf, proof);
        } else {
          LongProofRejected(leaves, levels, leaf, proof);
        }
      }
    }
  }
}
