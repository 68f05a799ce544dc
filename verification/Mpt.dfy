/** The certificate trie as the program keeps it: nodes updated in place, proved equal to Trie. */
module Mpt {
  import opened Wrappers
  import opened Trie

  // ----- paths from the root, longest last -----

  datatype Path = Top | Step(prev: Path, nibble: char)

  /** p is q or one of q's ancestors. */
  ghost predicate Under(p: Path, q: Path) {
    p == q || (q.Step? && Under(p, q.prev))
  }

  ghost function Append(p: Path, rest: string): Path
    decreases |rest|
  {
    if rest == "" then p else Append(Step(p, rest[0]), rest[1..])
  }

  ghost function Depth(p: Path): nat {
    if p.Top? then 0 else 1 + Depth(p.prev)
  }

  lemma {:induction false} UnderDepth(p: Path, q: Path)
    requires Under(p, q)
    ensures Depth(p) <= Depth(q) && (Depth(p) == Depth(q) ==> p == q)
  {
    if p != q { UnderDepth(p, q.prev); }
  }

  lemma {:induction false} UnderStep(p: Path, c: char, q: Path)
    requires Under(Step(p, c), q)
    ensures Under(p, q) && q != p
  {
    UnderDepth(Step(p, c), q);
    if q != Step(p, c) {
      if q.prev == p {
        UnderDepth(Step(p, c), p);
      }
      UnderStep(p, c, q.prev);
    }
  }

  lemma {:induction false} SiblingsApart(p: Path, c: char, d: char, q: Path)
    requires Under(Step(p, c), q) && Under(Step(p, d), q)
    ensures c == d
  {
    if q == Step(p, c) { UnderDepth(Step(p, d), q); }
    else if q == Step(p, d) { UnderDepth(Step(p, c), q); }
    else { SiblingsApart(p, c, d, q.prev); }
  }

  lemma {:induction false} UnderSplit(p: Path, q: Path)
    requires Under(p, q) && p != q
    ensures exists c :: Under(Step(p, c), q)
  {
    if q.prev == p { assert Under(Step(p, q.nibble), q); }
    else {
      UnderSplit(p, q.prev);
      var c :| Under(Step(p, c), q.prev);
      assert Under(Step(p, c), q);
    }
  }

  lemma {:induction false} UnderTrans(p: Path, q: Path, r: Path)
    requires Under(p, q) && Under(q, r)
    ensures Under(p, r)
  {
    if q != r { UnderTrans(p, q, r.prev); }
  }

  lemma {:induction false} UnderAppend(p: Path, rest: string)
    ensures Under(p, Append(p, rest))
    decreases |rest|
  {
    if rest != "" {
      UnderAppend(Step(p, rest[0]), rest[1..]);
      UnderStep(p, rest[0], Append(p, rest));
    }
  }

  // ----- the trie value of a family of path-named nodes -----

  type Shape = map<Path, Option<Digest>>

  ghost function Below(vals: Shape, p: Path): set<Path> {
    set q | q in vals && Under(p, q)
  }

  ghost predicate Branch(vals: Shape, p: Path, c: char)
    ensures Branch(vals, p, c) && p in vals ==> Below(vals, Step(p, c)) < Below(vals, p)
  {
    if Step(p, c) in vals && p in vals then
      assert forall q | q in Below(vals, Step(p, c)) :: q in Below(vals, p) && q != p by {
        forall q | q in Below(vals, Step(p, c)) ensures Under(p, q) && q != p { UnderStep(p, c, q); }
      }
      assert p in Below(vals, p);
      true
    else false
  }

  /** The trie value found at path p. */
  ghost function TrieOf(vals: Shape, p: Path): Trie
    requires p in vals
    decreases Below(vals, p)
  {
    Node(vals[p], map c: char | Branch(vals, p, c) :: TrieOf(vals, Step(p, c)))
  }

  ghost predicate SameBelow(v: Shape, w: Shape, p: Path) {
    forall q | Under(p, q) :: (q in v <==> q in w) && (q in v ==> v[q] == w[q])
  }

  lemma {:induction false} TrieOfDependsOnBelow(v: Shape, w: Shape, p: Path)
    requires p in v && p in w && SameBelow(v, w, p)
    ensures TrieOf(v, p) == TrieOf(w, p)
    decreases Below(v, p)
  {
    forall c: char ensures Branch(v, p, c) <==> Branch(w, p, c) {
      assert Under(p, Step(p, c));
    }
    forall c: char | Branch(v, p, c) ensures TrieOf(v, Step(p, c)) == TrieOf(w, Step(p, c)) {
      forall q | Under(Step(p, c), q) ensures Under(p, q) { UnderStep(p, c, q); }
      assert Branch(w, p, c);
      TrieOfDependsOnBelow(v, w, Step(p, c));
    }
    assert TrieOf(v, p).children == TrieOf(w, p).children;
  }

  ghost predicate PrefixClosed(paths: set<Path>) {
    forall q, c | Step(q, c) in paths :: q in paths
  }

  lemma {:induction false} AncestorsPresent(paths: set<Path>, p: Path, q: Path)
    requires PrefixClosed(paths) && q in paths && Under(p, q)
    ensures p in paths
  {
    if p != q {
      assert q == Step(q.prev, q.nibble);
      AncestorsPresent(paths, p, q.prev);
    }
  }

  /** w is v after the path key has been opened and given the value x. */
  ghost predicate Grown(v: Shape, w: Shape, key: Path, x: Option<Digest>) {
    && (forall q :: q in w <==> q in v || Under(q, key))
    && (forall q | q in w :: w[q] == if q == key then x else if q in v then v[q] else None)
  }

  /** now is before with every prefix of path opened, and no value changed. */
  ghost predicate OpenedTo(before: Shape, now: Shape, path: Path) {
    && (forall q :: q in now <==> q in before || Under(q, path))
    && (forall q | q in now :: now[q] == if q in before then before[q] else None)
  }

  ghost function WithPath(now: Shape, path: Path): Shape {
    if path in now then now else now[path := None]
  }

  lemma OpenedOneMore(before: Shape, now: Shape, p: Path, c: char)
    requires OpenedTo(before, now, p)
    ensures OpenedTo(before, WithPath(now, Step(p, c)), Step(p, c))
  {
  }

  lemma SiblingsKept(v: Shape, w: Shape, key: Path, x: Option<Digest>, p: Path, c: char)
    requires PrefixClosed(v.Keys) && Grown(v, w, key, x) && Under(p, key)
    requires !Under(Step(p, c), key)
    ensures Branch(w, p, c) <==> p in v && Branch(v, p, c)
    ensures Branch(w, p, c) ==> TrieOf(w, Step(p, c)) == TrieOf(v, Step(p, c))
  {
    if Branch(w, p, c) {
      forall q | Under(Step(p, c), q)
        ensures (q in v <==> q in w) && (q in v ==> v[q] == w[q])
      {
        if Under(q, key) { UnderTrans(Step(p, c), q, key); }
      }
      TrieOfDependsOnBelow(v, w, Step(p, c));
    }
  }

  lemma ChildrenAre(w: Shape, p: Path, children: map<char, Trie>)
    requires p in w
    requires forall c :: Branch(w, p, c) <==> c in children
    requires forall c | c in children :: Branch(w, p, c) && TrieOf(w, Step(p, c)) == children[c]
    ensures TrieOf(w, p).children == children
  {
  }

  lemma {:induction false} GrownIsPut(v: Shape, w: Shape, p: Path, rest: string, x: Digest)
    requires PrefixClosed(v.Keys) && Grown(v, w, Append(p, rest), Some(x))
    ensures p in w
    ensures TrieOf(w, p) == Put(if p in v then TrieOf(v, p) else EMPTY_TRIE, rest, x)
    decreases |rest|
  {
    var key := Append(p, rest);
    UnderAppend(p, rest);
    var t := if p in v then TrieOf(v, p) else EMPTY_TRIE;
    var put := Put(t, rest, x);
    forall c: char | !Under(Step(p, c), key)
      ensures Branch(w, p, c) <==> c in t.children
      ensures Branch(w, p, c) ==> TrieOf(w, Step(p, c)) == t.children[c]
    {
      SiblingsKept(v, w, key, Some(x), p, c);
    }
    if rest == "" {
      forall c: char ensures !Under(Step(p, c), p) {
        if Under(Step(p, c), p) { UnderStep(p, c, p); }
      }
    } else {
      var d := rest[0];
      GrownIsPut(v, w, Step(p, d), rest[1..], x);
      UnderAppend(Step(p, d), rest[1..]);
      forall c: char | c != d ensures !Under(Step(p, c), key) {
        if Under(Step(p, c), key) { SiblingsApart(p, c, d, key); }
      }
      UnderDepth(p, key);
      UnderDepth(Step(p, d), key);
      assert Branch(w, p, d);
      assert TrieOf(w, Step(p, d)) == put.children[d];
    }
    ChildrenAre(w, p, put.children);
  }

  // ----- nodes -----

  class MptNode {
    var valueHash: Option<Digest>
    var children: map<char, MptNode>
    var hash: Option<Digest>
    ghost const path: Path

    constructor (ghost path: Path)
      ensures valueHash == None && children == map[] && hash == None && this.path == path
    {
      valueHash, children, hash := None, map[], None;
      this.path := path;
    }
  }

  /** A tree in memory: its nodes named by their paths, and the set that owns them. */
  datatype Tree = Tree(root: MptNode, nodes: map<Path, MptNode>, repr: set<MptNode>) {
    ghost predicate Owned() {
      forall p | p in nodes :: nodes[p] in repr
    }

    /** The child links follow the paths, and no node is shared between two paths. */
    ghost predicate Layout()
      reads repr`children
    {
      && Owned()
      && Top in nodes && nodes[Top] == root
      && (forall p | p in nodes :: nodes[p].path == p)
      && PrefixClosed(nodes.Keys)
      && (forall p | p in nodes :: ChildrenFollow(p))
    }

    ghost predicate ChildrenFollow(p: Path)
      requires p in nodes && nodes[p] in repr
      reads repr`children
    {
      forall c: char ::
        && (c in nodes[p].children <==> Step(p, c) in nodes)
        && (c in nodes[p].children ==> nodes[p].children[c] == nodes[Step(p, c)])
    }

    ghost function Values(): Shape
      requires Owned()
      reads repr`valueHash
    {
      map p | p in nodes :: nodes[p].valueHash
    }

    ghost predicate Shows(vals: Shape)
      requires Owned()
      reads repr`valueHash
    {
      vals == Values()
    }

    ghost function Hashes(): Shape
      requires Owned()
      reads repr`hash
    {
      map p | p in nodes :: nodes[p].hash
    }

    /** The tree with one more node. */
    ghost function Grown(p: Path, nibble: char, child: MptNode): Tree {
      Tree(root, nodes[Step(p, nibble) := child], repr + {child})
    }

    ghost predicate Has(node: MptNode, p: Path) {
      p in nodes && nodes[p] == node && node in repr
    }
  }

  /** Writing one node's value changes the value at its path only. */
  method SetValue(node: MptNode, v: Digest, ghost t: Tree, ghost p: Path)
    requires t.Layout() && t.Has(node, p)
    modifies node`valueHash
    ensures t.Values() == old(t.Values())[p := Some(v)]
  {
    node.valueHash := Some(v);
  }

  /** Writing one node's digest changes the digest at its path only. */
  method SetHash(node: MptNode, h: Digest, ghost t: Tree, ghost p: Path)
    requires t.Layout() && t.Has(node, p)
    modifies node`hash
    ensures t.Hashes() == old(t.Hashes())[p := Some(h)]
  {
    node.hash := Some(h);
  }

  // ----- insertion -----

  /** Gives the node at p a fresh child. */
  method OpenChild(node: MptNode, nibble: char, ghost t: Tree, ghost p: Path)
    returns (ghost u: Tree)
    requires t.Layout() && t.Has(node, p) && nibble !in node.children
    modifies node`children
    ensures u.Layout() && u.root == t.root && t.repr <= u.repr && fresh(u.repr - t.repr)
    ensures Step(p, nibble) in u.nodes
    ensures u.Values() == old(t.Values())[Step(p, nibble) := None]
    ensures u.Has(node, p)
  {
    var child := new MptNode(Step(p, nibble));
    assert t.ChildrenFollow(p);
    u := t.Grown(p, nibble, child);
    Link(node, nibble, child, t, p);
  }

  /** Hangs a childless node below the node at p. */
  method Link(node: MptNode, nibble: char, child: MptNode, ghost t: Tree, ghost p: Path)
    requires t.Layout() && t.Has(node, p) && Step(p, nibble) !in t.nodes
    requires child !in t.repr && child.children == map[] && child.path == Step(p, nibble)
    modifies node`children
    ensures t.Grown(p, nibble, child).Layout()
  {
    ghost var u := t.Grown(p, nibble, child);
    assert t.ChildrenFollow(p);
    node.children := node.children[nibble := child];
    forall q | q in u.nodes ensures u.ChildrenFollow(q) {
      if q != Step(p, nibble) {
        assert old(t.ChildrenFollow(q));
      }
    }
  }

  /** One turn of the insertion loop: opens the child when it is missing and moves to it. */
  method StepInto(node: MptNode, nibble: char, ghost t: Tree, ghost p: Path)
    returns (next: MptNode, ghost u: Tree)
    requires t.Layout() && t.Has(node, p)
    modifies node`children
    ensures u.Layout() && u.root == t.root && t.repr <= u.repr && fresh(u.repr - t.repr)
    ensures u.Has(next, Step(p, nibble))
    ensures u.Values() == WithPath(old(t.Values()), Step(p, nibble))
  {
    assert t.ChildrenFollow(p);
    u := t;
    if nibble !in node.children {
      u := OpenChild(node, nibble, t, p);
      assert u.ChildrenFollow(p);
    }
    next := node.children[nibble];
  }

  /** Inserting along the path updates exactly that key of the trie. */
  method InsertMpt(root: MptNode, key: string, valueHash: Digest, ghost t: Tree)
    returns (ghost u: Tree)
    requires t.Layout() && t.root == root
    modifies t.repr`valueHash, t.repr`children
    ensures u.Layout() && u.root == root && t.repr <= u.repr && fresh(u.repr - t.repr)
    ensures TrieOf(u.Values(), Top) == Put(old(TrieOf(t.Values(), Top)), Normalize(key), valueHash)
  {
    var path := Normalize(key);
    ghost var before := t.Values();
    var node := root;
    u := t;
    ghost var p, goal := Top, Append(Top, path);
    var i := 0;
    while i < |path|
      invariant 0 <= i <= |path| && goal == Append(p, path[i..])
      invariant u.Layout() && u.root == root && t.repr <= u.repr && fresh(u.repr - t.repr)
      invariant u.Has(node, p)
      invariant OpenedTo(before, u.Values(), p)
    {
      assert path[i..][1..] == path[i + 1..];
      OpenedOneMore(before, u.Values(), p, path[i]);
      node, u := StepInto(node, path[i], u, p);
      p := Step(p, path[i]);
      i := i + 1;
    }
    SetValue(node, valueHash, u, p);
    GrownIsPut(before, u.Values(), Top, path, valueHash);
  }

  // ----- digests -----

  /** Every node from p down carries the digest of its own subtrie. */
  ghost predicate Finalized(hashes: Shape, vals: Shape, p: Path)
  {
    forall q | q in vals && Under(p, q) :: q in hashes && hashes[q] == Some(Root(TrieOf(vals, q)))
  }

  ghost predicate SameOutside(a: Shape, b: Shape, p: Path) {
    a.Keys == b.Keys && forall q | q in a && !Under(p, q) :: a[q] == b[q]
  }

  /** The children of p named in done are finalized. */
  ghost predicate FinalizedChildren(hashes: Shape, vals: Shape, p: Path, done: set<char>) {
    forall c | c in done :: Finalized(hashes, vals, Step(p, c))
  }

  lemma OneMoreChild(start: Shape, a: Shape, b: Shape, vals: Shape, p: Path, done: set<char>, c: char)
    requires SameOutside(start, a, p) && SameOutside(a, b, Step(p, c))
    requires FinalizedChildren(a, vals, p, done) && Finalized(b, vals, Step(p, c)) && c !in done
    ensures FinalizedChildren(b, vals, p, done + {c}) && SameOutside(start, b, p)
  {
    forall d, q | d in done && q in vals && Under(Step(p, d), q)
      ensures q in b && b[q] == Some(Root(TrieOf(vals, q)))
    {
      if Under(Step(p, c), q) { SiblingsApart(p, c, d, q); }
    }
    forall q | q in start && !Under(p, q) ensures start[q] == b[q] {
      if Under(Step(p, c), q) { UnderStep(p, c, q); }
    }
  }

  lemma SelfAfterChildren(hashes: Shape, vals: Shape, p: Path, h: Digest)
    requires PrefixClosed(vals.Keys)
    requires p in vals && p in hashes && h == Root(TrieOf(vals, p))
    requires FinalizedChildren(hashes, vals, p, TrieOf(vals, p).children.Keys)
    ensures Finalized(hashes[p := Some(h)], vals, p)
  {
    forall q | q in vals && Under(p, q) && q != p
      ensures q in hashes && hashes[q] == Some(Root(TrieOf(vals, q)))
    {
      UnderSplit(p, q);
      var c :| Under(Step(p, c), q);
      AncestorsPresent(vals.Keys, Step(p, c), q);
      assert Branch(vals, p, c);
      assert c in TrieOf(vals, p).children.Keys;
    }
  }

  ghost predicate SameEntries(a: map<char, Digest>, b: map<char, Digest>) {
    forall c :: (c in a <==> c in b) && (c in a ==> a[c] == b[c])
  }

  lemma RootFromChildren(t: Trie, digests: map<char, Digest>)
    requires SameEntries(digests, ChildDigests(t))
    ensures NodeHash(t.value, SortedEntries(digests)) == Root(t)
  {
    assert digests == ChildDigests(t);
  }

  lemma ChildrenOf(t: Tree, vals: Shape, p: Path)
    requires t.Layout() && vals == t.Values() && p in t.nodes
    ensures TrieOf(vals, p).value == t.nodes[p].valueHash
    ensures TrieOf(vals, p).children.Keys == t.nodes[p].children.Keys
    ensures forall c | c in t.nodes[p].children ::
              t.Has(t.nodes[p].children[c], Step(p, c)) &&
              TrieOf(vals, p).children[c] == TrieOf(vals, Step(p, c))
  {
    assert t.ChildrenFollow(p);
    forall c: char ensures Branch(vals, p, c) <==> c in t.nodes[p].children {
    }
  }

  /** Recomputes the digests of a subtree, children first. */
  method FinalizeMpt(node: MptNode, ghost t: Tree, ghost vals: Shape, ghost p: Path)
    returns (h: Digest)
    requires t.Layout() && t.Shows(vals) && t.Has(node, p)
    modifies t.repr`hash
    ensures h == Root(TrieOf(vals, p))
    ensures Finalized(t.Hashes(), vals, p)
    ensures SameOutside(old(t.Hashes()), t.Hashes(), p)
    decreases Below(vals, p)
  {
    ChildrenOf(t, vals, p);
    ghost var trie, start := TrieOf(vals, p), t.Hashes();
    var childHashes: map<char, Digest> := map[];
    var children := node.children;
    var rest := children.Keys;
    while rest != {}
      invariant rest <= children.Keys
      invariant forall c :: c in childHashes <==> c in children && c !in rest
      invariant forall c | c in childHashes :: childHashes[c] == Root(trie.children[c])
      invariant FinalizedChildren(t.Hashes(), vals, p, childHashes.Keys)
      invariant SameOutside(start, t.Hashes(), p)
      invariant t.Shows(vals)
      decreases rest
    {
      var c :| c in rest;
      ghost var hashes := t.Hashes();
      assert Branch(vals, p, c);
      var child := FinalizeMpt(children[c], t, vals, Step(p, c));
      OneMoreChild(start, hashes, t.Hashes(), vals, p, childHashes.Keys, c);
      childHashes := childHashes[c := child];
      rest := rest - {c};
    }
    h := Seal(node, childHashes, t, vals, p);
  }

  /** The last step of FinalizeMpt: a node's digest from its children's. */
  method Seal(node: MptNode, childHashes: map<char, Digest>, ghost t: Tree, ghost vals: Shape, ghost p: Path)
    returns (h: Digest)
    requires t.Layout() && t.Shows(vals) && t.Has(node, p)
    requires SameEntries(childHashes, ChildDigests(TrieOf(vals, p)))
    requires FinalizedChildren(t.Hashes(), vals, p, TrieOf(vals, p).children.Keys)
    modifies node`hash
    ensures h == Root(TrieOf(vals, p))
    ensures Finalized(t.Hashes(), vals, p)
    ensures SameOutside(old(t.Hashes()), t.Hashes(), p)
  {
    ChildrenOf(t, vals, p);
    RootFromChildren(TrieOf(vals, p), childHashes);
    h := NodeHash(node.valueHash, SortedEntries(childHashes));
    SelfAfterChildren(t.Hashes(), vals, p, h);
    SetHash(node, h, t, p);
  }

  lemma BuildOneMore(records: seq<Record>, i: nat)
    requires i < |records|
    ensures Build(records[..i + 1]) == Put(Build(records[..i]), Normalize(records[i].key), ValueHash(records[i]))
  {
    assert records[..i + 1][..i] == records[..i];
  }

  method NewMpt() returns (rootNode: MptNode, ghost t: Tree)
    ensures t.Layout() && t.root == rootNode && fresh(t.repr)
    ensures TrieOf(t.Values(), Top) == EMPTY_TRIE
  {
    rootNode := new MptNode(Top);
    t := Tree(rootNode, map[Top := rootNode], {rootNode});
    assert TrieOf(t.Values(), Top).children == map[];
  }

  /** The tree holds the trie of a repository. */
  ghost predicate HoldsTrie(t: Tree, records: seq<Record>)
    reads t.repr
  {
    t.Owned() && Top in t.nodes && TrieOf(t.Values(), Top) == Build(records)
  }

  /** Inserts every record in order. */
  method InsertAll(records: seq<Record>) returns (rootNode: MptNode, ghost t: Tree)
    ensures t.Layout() && t.root == rootNode && fresh(t.repr)
    ensures TrieOf(t.Values(), Top) == Build(records)
  {
    rootNode, t := NewMpt();
    for i := 0 to |records|
      invariant t.Layout() && t.root == rootNode && fresh(t.repr)
      invariant HoldsTrie(t, records[..i])
    {
      BuildOneMore(records, i);
      t := InsertMpt(rootNode, records[i].key, ValueHash(records[i]), t);
    }
    assert records[..|records|] == records;
  }

  /** Builds the tree of a repository: its root digest is the one of the trie value. */
  method BuildMpt(records: seq<Record>) returns (root: Digest, rootNode: MptNode, ghost t: Tree)
    ensures t.Layout() && t.root == rootNode && fresh(t.repr)
    ensures root == Root(Build(records))
    ensures TrieOf(t.Values(), Top) == Build(records)
    ensures Finalized(t.Hashes(), t.Values(), Top)
  {
    rootNode, t := InsertAll(records);
    root := FinalizeMpt(rootNode, t, t.Values(), Top);
  }

  // ----- proofs -----

  /** A child carries the digest of its subtrie. */
  lemma ChildDigest(node: MptNode, t: Tree, vals: Shape, p: Path, c: char)
    requires t.Layout() && t.Shows(vals) && t.Has(node, p) && Finalized(t.Hashes(), vals, p)
    requires c in node.children
    ensures Step(p, c) in vals && node.children[c].hash == Some(Root(TrieOf(vals, Step(p, c))))
  {
    assert t.ChildrenFollow(p);
    assert Under(p, Step(p, c));
  }

  lemma DigestsAgree(node: MptNode, t: Tree, vals: Shape, p: Path)
    requires t.Layout() && t.Shows(vals) && t.Has(node, p) && Finalized(t.Hashes(), vals, p)
    ensures node.valueHash == TrieOf(vals, p).value
    ensures node.children.Keys == TrieOf(vals, p).children.Keys
    ensures forall c | c in node.children :: node.children[c].hash == Some(Root(TrieOf(vals, p).children[c]))
  {
    ChildrenOf(t, vals, p);
    forall c | c in node.children
      ensures node.children[c].hash == Some(Root(TrieOf(vals, p).children[c]))
    {
      ChildDigest(node, t, vals, p, c);
    }
  }

  lemma ItemOfDigests(t: Trie, digests: map<char, Digest>)
    requires digests.Keys == t.children.Keys
    requires forall c | c in digests :: digests[c] == Root(t.children[c])
    ensures ProofItem(t.value, SortedEntries(digests)) == ItemOf(t)
  {
    assert digests == ChildDigests(t);
  }

  /** A node's value and its children's stored digests, by nibble. */
  method ProofNode(node: MptNode, ghost t: Tree, ghost vals: Shape, ghost p: Path) returns (item: ProofItem)
    requires t.Layout() && t.Shows(vals) && t.Has(node, p) && Finalized(t.Hashes(), vals, p)
    ensures item == ItemOf(TrieOf(vals, p))
  {
    DigestsAgree(node, t, vals, p);
    var digests := map c | c in node.children :: node.children[c].hash.value;
    ItemOfDigests(TrieOf(vals, p), digests);
    item := ProofItem(node.valueHash, SortedEntries(digests));
  }

  /** An honest proof whose first items are already collected. */
  ghost function Prefixed(done: seq<ProofItem>, rest: Option<seq<ProofItem>>): Option<seq<ProofItem>> {
    match rest
    case None => None
    case Some(items) => Some(done + items)
  }

  lemma PrefixedNothing(rest: Option<seq<ProofItem>>)
    ensures Prefixed([], rest) == rest
  {
    if rest.Some? { assert [] + rest.value == rest.value; }
  }

  lemma ProveMissing(t: Trie, path: string, done: seq<ProofItem>)
    requires path != "" && path[0] !in t.children
    ensures Prefixed(done, Prove(t, path)) == None
  {
  }

  lemma ProveDone(t: Trie, done: seq<ProofItem>)
    ensures Prefixed(done, Prove(t, "")) == Some(done + [ItemOf(t)])
  {
  }

  lemma ProveOneStep(t: Trie, path: string, done: seq<ProofItem>)
    requires path != "" && path[0] in t.children
    ensures Prefixed(done, Prove(t, path)) == Prefixed(done + [ItemOf(t)], Prove(t.children[path[0]], path[1..]))
  {
    var rest := Prove(t.children[path[0]], path[1..]);
    if rest.Some? {
      assert done + ([ItemOf(t)] + rest.value) == done + [ItemOf(t)] + rest.value;
    }
  }

  /** Walks the key's path and collects one item per node; None where the program throws. */
  method MptProof(rootNode: MptNode, key: string, ghost t: Tree, ghost vals: Shape)
    returns (r: Option<seq<ProofItem>>)
    requires t.Layout() && t.root == rootNode && t.Shows(vals) && Finalized(t.Hashes(), vals, Top)
    ensures r == Prove(TrieOf(vals, Top), Normalize(key))
  {
    var path := Normalize(key);
    ghost var p, done := Top, [];
    var node := rootNode;
    var item := ProofNode(node, t, vals, p);
    var proof := [item];
    var i := 0;
    assert path[0..] == path;
    ghost var honest := Prove(TrieOf(vals, Top), path);
    PrefixedNothing(honest);
    while i < |path|
      invariant 0 <= i <= |path| && t.Has(node, p) && Finalized(t.Hashes(), vals, p)
      invariant proof == done + [item] && item == ItemOf(TrieOf(vals, p))
      invariant honest == Prefixed(done, Prove(TrieOf(vals, p), path[i..]))
    {
      assert path[i..][0] == path[i] && path[i..][1..] == path[i + 1..];
      ChildrenOf(t, vals, p);
      if path[i] !in node.children {
        ProveMissing(TrieOf(vals, p), path[i..], done);
        return None;
      }
      ProveOneStep(TrieOf(vals, p), path[i..], done);
      forall r | Under(Step(p, path[i]), r) ensures Under(p, r) { UnderStep(p, path[i], r); }
      done, p := proof, Step(p, path[i]);
      node := node.children[path[i]];
      item := ProofNode(node, t, vals, p);
      proof, i := proof + [item], i + 1;
    }
    assert path[i..] == "";
    ProveDone(TrieOf(vals, p), done);
    r := Some(proof);
  }

  /** Replays a proof against a root; decides exactly Accepts. */
  method VerifyMpt(key: string, expected: Option<Digest>, proof: seq<ProofItem>, root: Digest) returns (ok: bool)
    ensures ok == Accepts(Normalize(key), expected, proof, root)
  {
    var path := Normalize(key);
    var expectedNodeHash := root;
    assert path[0..] == path && proof[0..] == proof;
    for depth := 0 to |proof|
      invariant depth <= |path|
      invariant Accepts(path, expected, proof, root) ==
                Accepts(path[depth..], expected, proof[depth..], expectedNodeHash)
    {
      assert proof[depth..][0] == proof[depth] && proof[depth..][1..] == proof[depth + 1..];
      var node := proof[depth];
      if NodeHash(node.value, node.children) != expectedNodeHash {
        return false;
      }
      if depth == |path| {
        return node.value == expected;
      }
      assert path[depth..][0] == path[depth] && path[depth..][1..] == path[depth + 1..];
      var child := FindChild(node.children, path[depth]);
      if child.None? {
        return false;
      }
      expectedNodeHash := child.value;
    }
    ok := false;
  }
}
