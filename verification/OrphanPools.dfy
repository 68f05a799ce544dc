/** Blocks whose parent is unknown, indexed by their own hash and by their parent's. */
module OrphanPools {
  import opened Wrappers
  import opened Blocks

  const MAX_ORPHAN_BLOCKS := 10240
  const ORPHAN_EXPIRATION_TIME := 600

  datatype Orphan = Orphan(block: Block, expiration: int, broadcast: bool, pid: string, sequence: int)

  type Children = map<Hash, seq<Orphan>>

  function ChildrenOf(prev: Children, h: Hash): seq<Orphan> {
    if h in prev then prev[h] else []
  }

  /** Order-preserving removal by block hash. */
  function Without(list: seq<Orphan>, h: Hash): (r: seq<Orphan>)
    ensures forall o :: o in r <==> o in list && HashOf(o.block) != h
  {
    if list == [] then []
    else if HashOf(list[0].block) == h then Without(list[1..], h)
    else [list[0]] + Without(list[1..], h)
  }

  ghost predicate DistinctBlocks(list: seq<Orphan>) {
    forall i, j | 0 <= i < j < |list| :: list[i].block != list[j].block
  }

  /** An orphan is filed under its own hash and listed under its parent's. */
  ghost predicate Filed(orphans: map<Hash, Orphan>, prev: Children, h: Hash)
    requires h in orphans
  {
    var o := orphans[h];
    h == HashOf(o.block) && o.block.parent in prev && o in prev[o.block.parent]
  }

  /** A list is non-empty, without repetition, and names pooled children of its key. */
  ghost predicate ListOk(orphans: map<Hash, Orphan>, prev: Children, p: Hash)
    requires p in prev
  {
    && prev[p] != [] && DistinctBlocks(prev[p])
    && forall o | o in prev[p] :: o.block.parent == p && HashOf(o.block) in orphans && orphans[HashOf(o.block)] == o
  }

  /** Both indexes describe the same orphans. */
  ghost predicate PoolOk(orphans: map<Hash, Orphan>, prev: Children) {
    && (forall h {:trigger Filed(orphans, prev, h)} | h in orphans :: Filed(orphans, prev, h))
    && (forall p {:trigger ListOk(orphans, prev, p)} | p in prev :: ListOk(orphans, prev, p))
  }

  lemma {:induction false} WithoutKeepsDistinct(list: seq<Orphan>, h: Hash)
    requires DistinctBlocks(list)
    ensures DistinctBlocks(Without(list, h))
  {
    if list != [] {
      WithoutKeepsDistinct(list[1..], h);
      var r := Without(list[1..], h);
      forall j | 0 <= j < |r| ensures list[0].block != r[j].block {
        assert r[j] in r;
      }
    }
  }

  lemma {:induction false} WithoutSplit(a: seq<Orphan>, b: seq<Orphan>, h: Hash)
    ensures Without(a + b, h) == Without(a, h) + Without(b, h)
  {
    if a == [] {
      assert a + b == b;
    } else {
      assert (a + b)[1..] == a[1..] + b;
      WithoutSplit(a[1..], b, h);
    }
  }

  /** Both indexes after removing a block by hash. */
  ghost function PrevWithout(prev: Children, parent: Hash, h: Hash): Children {
    var rest := Without(ChildrenOf(prev, parent), h);
    if rest == [] then prev - {parent} else prev[parent := rest]
  }

  lemma RemovalKeepsPool(orphans: map<Hash, Orphan>, prev: Children, b: Block)
    requires PoolOk(orphans, prev)
    ensures PoolOk(orphans - {HashOf(b)}, PrevWithout(prev, b.parent, HashOf(b)))
  {
    var h, after, rest := HashOf(b), PrevWithout(prev, b.parent, HashOf(b)), orphans - {HashOf(b)};
    assert b.parent in prev ==> ListOk(orphans, prev, b.parent);
    WithoutKeepsDistinct(ChildrenOf(prev, b.parent), h);
    forall k | k in rest ensures Filed(rest, after, k) {
      assert Filed(orphans, prev, k);
    }
    forall p | p in after ensures ListOk(rest, after, p) {
      assert ListOk(orphans, prev, p);
    }
  }

  lemma AdditionKeepsPool(orphans: map<Hash, Orphan>, prev: Children, o: Orphan)
    requires PoolOk(orphans, prev) && HashOf(o.block) !in orphans
    ensures PoolOk(orphans[HashOf(o.block) := o], prev[o.block.parent := ChildrenOf(prev, o.block.parent) + [o]])
  {
    var h, p := HashOf(o.block), o.block.parent;
    var list := ChildrenOf(prev, p);
    var more, after := orphans[h := o], prev[p := list + [o]];
    assert p in prev ==> ListOk(orphans, prev, p);
    forall i | 0 <= i < |list| ensures list[i].block != o.block {
      assert list[i] in prev[p];
    }
    forall k | k in more ensures Filed(more, after, k) {
      assert k in orphans ==> Filed(orphans, prev, k);
    }
    forall q | q in after ensures ListOk(more, after, q) {
      assert q in prev ==> ListOk(orphans, prev, q);
    }
  }

  /** After a scan of the seen hashes: the first one is still remembered, or a seen fresh orphan that expires before it,
      and no seen fresh orphan expires before the one remembered. */
  ghost predicate Remembers(start: map<Hash, Orphan>, seen: set<Hash>, now: int, first: Option<Orphan>,
      oldest: Option<Orphan>) {
    && (oldest == first || exists h :: Earlier(start, seen, now, first, h) && oldest == Some(start[h]))
    && (forall h {:trigger NotLater(start, seen, now, oldest, h)} :: NotLater(start, seen, now, oldest, h))
  }

  /** A seen fresh orphan that expires before the first one remembered. */
  ghost predicate Earlier(start: map<Hash, Orphan>, seen: set<Hash>, now: int, first: Option<Orphan>, h: Hash) {
    && h in seen && h in start && now <= start[h].expiration
    && (first.None? || start[h].expiration < first.value.expiration)
  }

  /** If the hash is a seen fresh orphan's, the remembered one expires no later. */
  ghost predicate NotLater(start: map<Hash, Orphan>, seen: set<Hash>, now: int, oldest: Option<Orphan>, h: Hash) {
    h in seen && h in start && now <= start[h].expiration ==>
      oldest.Some? && oldest.value.expiration <= start[h].expiration
  }

  lemma RemembersNext(start: map<Hash, Orphan>, seen: set<Hash>, now: int, first: Option<Orphan>,
                      oldest: Option<Orphan>, h: Hash)
    requires Remembers(start, seen, now, first, oldest) && h in start
    ensures var later := now <= start[h].expiration && (oldest.None? || start[h].expiration < oldest.value.expiration);
            Remembers(start, seen + {h}, now, first, if later then Some(start[h]) else oldest)
  {
    var more := seen + {h};
    var later := now <= start[h].expiration && (oldest.None? || start[h].expiration < oldest.value.expiration);
    var next := if later then Some(start[h]) else oldest;
    forall k ensures NotLater(start, more, now, next, k) {
      assert NotLater(start, seen, now, oldest, k);
    }
    if later {
      assert Earlier(start, more, now, first, h);
    } else if oldest != first {
      var w :| Earlier(start, seen, now, first, w) && oldest == Some(start[w]);
      assert Earlier(start, more, now, first, w);
    }
  }

  /** What a full scan remembers is as Evictable says, and no fresh orphan expires before it. */
  lemma RemembersAll(start: map<Hash, Orphan>, now: int, first: Option<Orphan>, oldest: Option<Orphan>)
    requires Remembers(start, start.Keys, now, first, oldest)
    ensures forall h | h in start && now <= start[h].expiration ::
              oldest.Some? && oldest.value.expiration <= start[h].expiration
    ensures oldest == first <==>
            (forall h | h in start && now <= start[h].expiration ::
              first.Some? && first.value.expiration <= start[h].expiration)
    ensures oldest != first ==> exists h :: h in start && now <= start[h].expiration && oldest == Some(start[h])
  {
    forall h | h in start && now <= start[h].expiration
      ensures oldest.Some? && oldest.value.expiration <= start[h].expiration
    {
      assert NotLater(start, start.Keys, now, oldest, h);
    }
    if oldest != first {
      var w :| Earlier(start, start.Keys, now, first, w) && oldest == Some(start[w]);
      assert w in start;
    }
  }

  class OrphanPool {
    var orphans: map<Hash, Orphan>
    var prevOrphans: Children
    var oldestOrphan: Option<Orphan>

    ghost predicate Valid()
      reads this
    {
      PoolOk(orphans, prevOrphans)
    }

    constructor ()
      ensures Valid() && orphans == map[] && prevOrphans == map[] && oldestOrphan == None
    {
      orphans, prevOrphans, oldestOrphan := map[], map[], None;
    }

    predicate IsKnownOrphan(h: Hash)
      reads this
    {
      h in orphans
    }

    /** Walks up while the parent is itself an orphan. */
    method GetOrphanRoot(h: Hash) returns (root: Hash)
      requires Valid()
      ensures h !in orphans ==> root == h
      ensures h in orphans ==>
                && root in orphans && orphans[root].block.parent !in orphans
                && orphans[root].block in Path(orphans[h].block)
                && PooledBelow(orphans.Keys, orphans[root].block.parent, orphans[h].block)
    {
      root := h;
      var prev := h;
      while prev in orphans
        invariant h !in orphans ==> root == h && prev == h
        invariant h in orphans ==> root in orphans && orphans[root].block in Path(orphans[h].block)
        invariant h in orphans ==> prev == h || prev == orphans[root].block.parent
        invariant h in orphans && prev != h ==> PooledBelow(orphans.Keys, prev, orphans[h].block)
        decreases prev
      {
        assert Filed(orphans, prevOrphans, prev) && Filed(orphans, prevOrphans, root);
        if prev != h {
          ParentOnPath(orphans[h].block, orphans[root].block);
          PooledFurtherBelow(orphans.Keys, orphans[prev].block, orphans[h].block);
        }
        root := prev;
        prev := orphans[prev].block.parent;
      }
    }

    /** Removes an orphan from both indexes; its siblings keep their order. */
    method RemoveOrphanBlock(orphan: Orphan)
      requires Valid()
      modifies this`orphans, this`prevOrphans
      ensures Valid()
      ensures orphans == old(orphans) - {HashOf(orphan.block)}
      ensures prevOrphans == PrevWithout(old(prevOrphans), orphan.block.parent, HashOf(orphan.block))
    {
      var h, p := HashOf(orphan.block), orphan.block.parent;
      RemovalKeepsPool(orphans, prevOrphans, orphan.block);
      orphans := orphans - {h};
      var list := Compact(ChildrenOf(prevOrphans, p), h);
      prevOrphans := prevOrphans[p := list];
      if |prevOrphans[p]| == 0 {
        prevOrphans := prevOrphans - {p};
      }
      assert prevOrphans == PrevWithout(old(prevOrphans), p, h);
    }

    /** Removes the orphan with a hash, if it is pooled. */
    method RemoveOrphanBlockByHash(h: Hash)
      requires Valid()
      modifies this`orphans, this`prevOrphans
      ensures Valid() && orphans == old(orphans) - {h}
      ensures prevOrphans == if h in old(orphans) then PrevWithout(old(prevOrphans), old(orphans)[h].block.parent, h)
                else old(prevOrphans)
      ensures orphans.Keys == old(orphans.Keys) - {h}
      ensures forall now :: old(DropsNone(now)) ==> DropsNone(now)
    {
      ghost var rest := orphans.Keys - {h};
      SubsetSize(rest, orphans.Keys);
      assert |orphans| == |orphans.Keys| && (orphans - {h}).Keys == rest && |orphans - {h}| == |(orphans - {h}).Keys|;
      if h in orphans {
        assert Filed(orphans, prevOrphans, h);
        RemoveOrphanBlock(orphans[h]);
      }
    }

    ghost predicate Fresh(h: Hash, now: int)
      reads this`orphans
    {
      h in orphans && now <= orphans[h].expiration
    }

    /** The orphans that have not expired. */
    ghost function Unexpired(now: int): (s: set<Hash>)
      reads this`orphans
      ensures forall h :: h in s <==> Fresh(h, now)
    {
      set h | h in orphans && now <= orphans[h].expiration
    }

    /** The scan will end with a pooled orphan to evict: none was remembered, or the remembered one is still pooled and
        fresh, or a fresh one expires before it. */
    ghost predicate Evictable(now: int)
      reads this`orphans, this`oldestOrphan
    {
      || oldestOrphan.None?
      || Fresh(HashOf(oldestOrphan.value.block), now)
      || exists h :: Fresh(h, now) && orphans[h].expiration < oldestOrphan.value.expiration
    }

    /** The remembered orphan is an earlier stay of a block that is pooled again. */
    ghost predicate StaleRecord(h: Hash)
      reads this`orphans, this`oldestOrphan
    {
      && oldestOrphan.Some? && HashOf(oldestOrphan.value.block) == h
      && h in orphans && orphans[h] != oldestOrphan.value
    }

    /** No pooled orphan expires before the remembered one. */
    ghost predicate NoneEarlier()
      reads this`orphans, this`oldestOrphan
    {
      oldestOrphan.Some? && forall h | h in orphans :: oldestOrphan.value.expiration <= orphans[h].expiration
    }

    /** Drops the expired orphans and remembers one that expires first, unless the one remembered before does. */
    method ExpireOrphans(now: int)
      requires Valid()
      modifies this
      ensures Valid() && orphans.Keys == old(Unexpired(now))
      ensures forall h | h in orphans :: orphans[h] == old(orphans)[h]
      ensures orphans != map[] ==>
                oldestOrphan.Some? && (HashOf(oldestOrphan.value.block) in orphans <==> old(Evictable(now)))
      ensures
        || oldestOrphan == old(oldestOrphan)
        || (oldestOrphan.Some? && HashOf(oldestOrphan.value.block) in orphans &&
            orphans[HashOf(oldestOrphan.value.block)] == oldestOrphan.value)
      ensures orphans != map[] ==> NoneEarlier()
      ensures old(NoneEarlier()) ==> oldestOrphan == old(oldestOrphan)
      ensures old(forall h | h in orphans :: now <= orphans[h].expiration) ==> prevOrphans == old(prevOrphans)
    {
      ghost var start, first := orphans, oldestOrphan;
      var keys := orphans.Keys;
      while keys != {}
        invariant Valid() && keys <= orphans.Keys
        invariant forall h | h in orphans :: h in start && orphans[h] == start[h]
        invariant forall h | h in start && h !in keys :: h in orphans <==> now <= start[h].expiration
        invariant Remembers(start, start.Keys - keys, now, first, oldestOrphan)
        invariant (forall h | h in start :: now <= start[h].expiration) ==> prevOrphans == old(prevOrphans)
        decreases keys
      {
        var h :| h in keys;
        var o := orphans[h];
        RemembersNext(start, start.Keys - keys, now, first, oldestOrphan, h);
        assert start.Keys - (keys - {h}) == start.Keys - keys + {h};
        keys := keys - {h};
        assert Filed(orphans, prevOrphans, h);
        if now > o.expiration {
          RemoveOrphanBlock(o);
        } else if oldestOrphan.None? || o.expiration < oldestOrphan.value.expiration {
          oldestOrphan := Some(o);
        }
      }
      assert start.Keys - keys == start.Keys;
      RemembersAll(start, now, first, oldestOrphan);
      forall h | h in orphans ensures h == HashOf(start[h].block) {
        assert Filed(orphans, prevOrphans, h);
      }
    }

    /** Adding a block now drops no other: none has expired and there is room. */
    ghost predicate DropsNone(now: int)
      reads this
    {
      |orphans| < MAX_ORPHAN_BLOCKS && forall h | h in orphans :: now <= orphans[h].expiration
    }

    /** Adds a block not yet in the pool: expired orphans go first, then one more when the pool is full. The limit on
        the pool then holds exactly when there was room or an orphan could be evicted. */
    method AddOrphanBlock(broadcast: bool, block: Block, pid: string, sequence: int, now: int)
      requires Valid() && HashOf(block) !in orphans
      modifies this
      ensures Valid() && HashOf(block) in orphans
      ensures orphans[HashOf(block)] == Orphan(block, now + ORPHAN_EXPIRATION_TIME, broadcast, pid, sequence)
      ensures forall h | h in orphans && h != HashOf(block) ::
                h in old(orphans) && orphans[h] == old(orphans)[h] && now <= orphans[h].expiration
      ensures |old(orphans)| < MAX_ORPHAN_BLOCKS ==>
                forall h | h in old(orphans) && now <= old(orphans)[h].expiration :: h in orphans
      ensures orphans.Keys <= old(orphans.Keys) + {HashOf(block)}
      ensures old(DropsNone(now)) ==> old(orphans.Keys) <= orphans.Keys
      ensures old(DropsNone(now)) ==>
                prevOrphans == old(prevOrphans)[block.parent :=
                    ChildrenOf(old(prevOrphans), block.parent) + [orphans[HashOf(block)]]]
      ensures |old(orphans)| <= MAX_ORPHAN_BLOCKS ==>
                (|orphans| <= MAX_ORPHAN_BLOCKS <==> |old(Unexpired(now))| < MAX_ORPHAN_BLOCKS || old(Evictable(now)))
      ensures |orphans| == |old(Unexpired(now))| + 1 -
                  if |old(Unexpired(now))| >= MAX_ORPHAN_BLOCKS && old(Evictable(now)) then 1 else 0
      ensures forall h, k | old(Fresh(h, now)) && h !in orphans && old(Fresh(k, now)) ::
                old(orphans)[h].expiration <= old(orphans)[k].expiration || old(StaleRecord(h))
      ensures |old(Unexpired(now))| >= MAX_ORPHAN_BLOCKS && old(NoneEarlier()) ==>
                HashOf(old(oldestOrphan).value.block) !in orphans || old(oldestOrphan).value.block == block
      ensures |old(Unexpired(now))| == 0 ==> oldestOrphan == old(oldestOrphan)
      ensures 0 < |old(Unexpired(now))| < MAX_ORPHAN_BLOCKS ==> Remembered(old(oldestOrphan))
      ensures |old(Unexpired(now))| < MAX_ORPHAN_BLOCKS && old(NoneEarlier()) ==> oldestOrphan == old(oldestOrphan)
    {
      Clear(now);
      AddOrphan(Orphan(block, now + ORPHAN_EXPIRATION_TIME, broadcast, pid, sequence));
    }

    /** Drops the expired orphans, and one more when the pool is still full. */
    method Clear(now: int)
      requires Valid()
      modifies this
      ensures Valid() && orphans.Keys <= old(Unexpired(now))
      ensures forall h | h in orphans :: orphans[h] == old(orphans)[h]
      ensures |old(orphans)| < MAX_ORPHAN_BLOCKS || |old(Unexpired(now))| < MAX_ORPHAN_BLOCKS ==>
                orphans.Keys == old(Unexpired(now))
      ensures |old(Unexpired(now))| <= |old(orphans)|
      ensures |orphans| == |old(Unexpired(now))| -
                  if |old(Unexpired(now))| >= MAX_ORPHAN_BLOCKS && old(Evictable(now)) then 1 else 0
      ensures old(DropsNone(now)) ==> prevOrphans == old(prevOrphans)
      ensures forall h, k | old(Fresh(h, now)) && h !in orphans && old(Fresh(k, now)) ::
                old(orphans)[h].expiration <= old(orphans)[k].expiration || old(StaleRecord(h))
      ensures |old(Unexpired(now))| >= MAX_ORPHAN_BLOCKS && old(NoneEarlier()) ==>
                HashOf(old(oldestOrphan).value.block) !in orphans
      ensures |old(Unexpired(now))| == 0 ==> oldestOrphan == old(oldestOrphan)
      ensures 0 < |old(Unexpired(now))| < MAX_ORPHAN_BLOCKS ==> Remembered(old(oldestOrphan))
      ensures |old(Unexpired(now))| < MAX_ORPHAN_BLOCKS && old(NoneEarlier()) ==> oldestOrphan == old(oldestOrphan)
    {
      ExpireOrphans(now);
      SubsetSize(orphans.Keys, old(orphans).Keys);
      assert |orphans| == |orphans.Keys|;
      MakeRoom();
      assert |orphans| == |orphans.Keys|;
    }

    /** Evicts the remembered orphan when the pool is full; it may no longer be there. */
    method MakeRoom()
      requires Valid() && (orphans != map[] ==> oldestOrphan.Some?)
      modifies this
      ensures Valid()
      ensures |old(orphans)| < MAX_ORPHAN_BLOCKS ==> unchanged(this)
      ensures |old(orphans)| >= MAX_ORPHAN_BLOCKS ==>
                oldestOrphan == None && orphans == old(orphans) - {HashOf(old(oldestOrphan).value.block)}
      ensures |old(orphans)| >= MAX_ORPHAN_BLOCKS ==>
                |orphans| == |old(orphans)| - if HashOf(old(oldestOrphan).value.block) in old(orphans) then 1 else 0
    {
      if |orphans| + 1 > MAX_ORPHAN_BLOCKS {
        assert orphans != map[];
        ghost var h := HashOf(oldestOrphan.value.block);
        assert |orphans| == |orphans.Keys|;
        assert orphans.Keys - {h} == (if h in orphans then orphans.Keys - {h} else orphans.Keys);
        RemoveOrphanBlock(oldestOrphan.value);
        assert |orphans| == |orphans.Keys|;
        oldestOrphan := None;
      }
    }

    /** The remembered orphan is the given one or a pooled one. */
    ghost predicate Remembered(first: Option<Orphan>)
      reads this
    {
      oldestOrphan.Some? && (oldestOrphan == first || oldestOrphan.value in orphans.Values)
    }

    /** Files an orphan in both indexes. */
    method AddOrphan(o: Orphan)
      requires Valid() && HashOf(o.block) !in orphans
      modifies this`orphans, this`prevOrphans
      ensures Valid() && orphans == old(orphans)[HashOf(o.block) := o] && |orphans| == |old(orphans)| + 1
      ensures prevOrphans == old(prevOrphans)[o.block.parent := ChildrenOf(old(prevOrphans), o.block.parent) + [o]]
    {
      AdditionKeepsPool(orphans, prevOrphans, o);
      assert orphans[HashOf(o.block) := o].Keys == orphans.Keys + {HashOf(o.block)};
      orphans := orphans[HashOf(o.block) := o];
      assert |orphans| == |orphans.Keys|;
      prevOrphans := prevOrphans[o.block.parent := ChildrenOf(prevOrphans, o.block.parent) + [o]];
    }

    function GetChildOrphanCount(h: Hash): nat
      reads this
    {
      |ChildrenOf(prevOrphans, h)|
    }

    function GetChildOrphan(h: Hash, index: int): Option<Orphan>
      requires index >= 0
      reads this
    {
      if index >= |ChildrenOf(prevOrphans, h)| then None else Some(prevOrphans[h][index])
    }

    /** A listed child is pooled; an unlisted hash has no pooled child. */
    lemma ChildFacts(h: Hash, index: nat)
      requires Valid()
      ensures GetChildOrphanCount(h) == 0 <==> h !in prevOrphans
      ensures h !in prevOrphans ==> forall c {:trigger HashOf(c) in orphans} | HashOf(c) in orphans :: c.parent != h
      ensures var o := GetChildOrphan(h, index);
              o.Some? ==>
                && o.value.block.parent == h && HashOf(o.value.block) in orphans
                && orphans[HashOf(o.value.block)] == o.value
    {
      assert h in prevOrphans ==> ListOk(orphans, prevOrphans, h);
      if index < GetChildOrphanCount(h) { assert prevOrphans[h][index] in prevOrphans[h]; }
      forall c | HashOf(c) in orphans ensures c.parent == h ==> h in prevOrphans {
        assert Filed(orphans, prevOrphans, HashOf(c));
      }
    }
  }

  // ----- the limit -----

  function Filler(n: nat): Block {
    Block(ZeroHash, 1, 0, [], n)
  }

  /** The pool holds n of the first m fillers, all added at time 0. */
  ghost predicate Filled(orphans: map<Hash, Orphan>, n: nat, m: nat) {
    && |orphans| == n
    && forall h | h in orphans ::
         h.HashOf? && orphans[h].block == h.block && orphans[h].expiration == ORPHAN_EXPIRATION_TIME
         && h.block.content < m && h.block == Filler(h.block.content)
  }

  /** Adds the next filler at time 0. */
  method Fill(pool: OrphanPool, ghost n: nat, m: nat)
    requires pool.Valid() && Filled(pool.orphans, n, m)
    modifies pool
    ensures pool.Valid() && (n < MAX_ORPHAN_BLOCKS ==>
              Filled(pool.orphans, n + 1, m + 1) && old(pool.orphans).Keys <= pool.orphans.Keys)
    ensures forall h | h in pool.orphans && h in old(pool.orphans) :: pool.orphans[h] == old(pool.orphans)[h]
    ensures HashOf(Filler(m)) !in old(pool.orphans)
    ensures pool.orphans.Keys <= old(pool.orphans).Keys + {HashOf(Filler(m))}
    ensures n == 0 ==> pool.oldestOrphan == old(pool.oldestOrphan)
    ensures 0 < n < MAX_ORPHAN_BLOCKS ==> pool.Remembered(old(pool.oldestOrphan))
    ensures n < MAX_ORPHAN_BLOCKS
              && old(pool.oldestOrphan.Some? && pool.oldestOrphan.value.expiration == ORPHAN_EXPIRATION_TIME) ==>
              pool.oldestOrphan == old(pool.oldestOrphan)
    ensures n == MAX_ORPHAN_BLOCKS && !old(pool.Evictable(0)) ==> |pool.orphans| == n + 1
  {
    assert pool.Unexpired(0) == pool.orphans.Keys && |pool.orphans.Keys| == |pool.orphans|;
    pool.AddOrphanBlock(false, Filler(m), "", 0, 0);
  }

  ghost predicate Primed(pool: OrphanPool, n: nat)
    reads pool
  {
    if n <= 1 then pool.oldestOrphan.None?
        else pool.oldestOrphan.Some? && pool.oldestOrphan.value in pool.orphans.Values
  }

  /** A pool filled at time 0. */
  method FullPool() returns (pool: OrphanPool)
    ensures fresh(pool) && pool.Valid() && Filled(pool.orphans, MAX_ORPHAN_BLOCKS, MAX_ORPHAN_BLOCKS)
              && Primed(pool, MAX_ORPHAN_BLOCKS)
  {
    pool := new OrphanPool();
    for n := 0 to MAX_ORPHAN_BLOCKS
      invariant pool.Valid() && Filled(pool.orphans, n, n) && fresh(pool) && Primed(pool, n)
    {
      ghost var was, first := pool.orphans, pool.oldestOrphan;
      Fill(pool, n, n);
      if n > 1 {
        ghost var h :| h in was && was[h] == first.value;
        assert pool.orphans[h] == was[h];
      }
    }
  }

  /** Takes the remembered orphan out of a full pool, as when its parent arrives. */
  method TakeRemembered(pool: OrphanPool)
    requires pool.Valid() && Filled(pool.orphans, MAX_ORPHAN_BLOCKS, MAX_ORPHAN_BLOCKS)
               && Primed(pool, MAX_ORPHAN_BLOCKS)
    modifies pool
    ensures pool.Valid() && Filled(pool.orphans, MAX_ORPHAN_BLOCKS - 1, MAX_ORPHAN_BLOCKS) && pool.oldestOrphan.Some?
    ensures Stale(pool, MAX_ORPHAN_BLOCKS)
  {
    var stale := pool.oldestOrphan.value;
    ghost var h :| h in pool.orphans && pool.orphans[h] == stale;
    assert pool.orphans.Keys - {h} + {h} == pool.orphans.Keys;
    assert |pool.orphans.Keys - {h}| == |pool.orphans.Keys| - 1;
    pool.RemoveOrphanBlock(stale);
    assert |pool.orphans| == |pool.orphans.Keys|;
  }

  /** The remembered orphan is one of the first m fillers, and not in the pool. */
  ghost predicate Stale(pool: OrphanPool, m: nat)
    reads pool
  {
    && pool.oldestOrphan.Some? && pool.oldestOrphan.value.expiration == ORPHAN_EXPIRATION_TIME
    && HashOf(pool.oldestOrphan.value.block) !in pool.orphans && pool.oldestOrphan.value.block.content < m
  }

  /** The limit the pool documents fails: fill it, take the remembered orphan out, and two more blocks overflow it. */
  method StaleOldestOverflows() returns (pool: OrphanPool)
    ensures pool.Valid() && |pool.orphans| == MAX_ORPHAN_BLOCKS + 1
  {
    pool := FullPool();
    TakeRemembered(pool);
    Fill(pool, MAX_ORPHAN_BLOCKS - 1, MAX_ORPHAN_BLOCKS);
    assert Stale(pool, MAX_ORPHAN_BLOCKS);
    Fill(pool, MAX_ORPHAN_BLOCKS, MAX_ORPHAN_BLOCKS + 1);
  }

  /** The pool is full at time 1: one orphan came back at that time and is remembered from its earlier stay, and all
      others came at time 0. */
  ghost predicate CameBack(pool: OrphanPool, h: Hash)
    reads pool
  {
    && pool.Valid() && |pool.orphans| == MAX_ORPHAN_BLOCKS && pool.StaleRecord(h) && pool.NoneEarlier()
    && pool.orphans[h].expiration == ORPHAN_EXPIRATION_TIME + 1
    && (forall k | k in pool.orphans && k != h :: pool.orphans[k].expiration == ORPHAN_EXPIRATION_TIME)
    && HashOf(Filler(MAX_ORPHAN_BLOCKS)) !in pool.orphans
  }

  /** Fills a pool at time 0, takes the remembered orphan out, and pools its block again at time 1. */
  method ReturnRemembered() returns (pool: OrphanPool, h: Hash)
    ensures fresh(pool) && CameBack(pool, h)
  {
    pool := FullPool();
    TakeRemembered(pool);
    var stale := pool.oldestOrphan.value;
    h := HashOf(stale.block);
    assert pool.Unexpired(1) == pool.orphans.Keys && |pool.orphans.Keys| == |pool.orphans|;
    pool.AddOrphanBlock(false, stale.block, "", 0, 1);
  }

  /** A full pool need not evict an orphan that expires first: it evicts the block that came back, which expires
      last. */
  method ReturnedIsEvicted() returns (pool: OrphanPool, ghost was: map<Hash, Orphan>, h: Hash)
    ensures pool.Valid() && h in was && h !in pool.orphans && |was| == |pool.orphans| == MAX_ORPHAN_BLOCKS
    ensures forall k | k in was && k != h :: 1 <= was[k].expiration < was[h].expiration
  {
    pool, h := ReturnRemembered();
    was := pool.orphans;
    assert pool.Unexpired(1) == pool.orphans.Keys && |pool.orphans.Keys| == |pool.orphans|;
    pool.AddOrphanBlock(false, Filler(MAX_ORPHAN_BLOCKS), "", 0, 1);
  }

  // ----- draining -----

  /** b is pooled and reaches the root through pooled blocks. */
  predicate PooledBelow(pool: set<Hash>, root: Hash, b: Block) {
    HashOf(b) in pool && (b.parent == root || (b.parent.HashOf? && PooledBelow(pool, root, b.parent.block)))
  }

  /** Below a pooled block is below its parent. */
  lemma {:induction false} PooledFurtherBelow(pool: set<Hash>, p: Block, b: Block)
    requires PooledBelow(pool, HashOf(p), b) && HashOf(p) in pool
    ensures PooledBelow(pool, p.parent, b)
    decreases b
  {
    if b.parent != HashOf(p) { PooledFurtherBelow(pool, p, b.parent.block); }
  }

  ghost predicate FromHanded(root: Hash, handed: seq<Block>, p: Hash) {
    p == root || (p.HashOf? && p.block in handed)
  }

  /** A pooled child of the root or of a block already handed over waits for its parent's turn. */
  ghost predicate Waits(left: set<Hash>, root: Hash, handed: seq<Block>, queue: set<Hash>, c: Block) {
    HashOf(c) in left && FromHanded(root, handed, c.parent) ==> c.parent in queue
  }

  /** Blocks handed over so far: pooled, each once, each after its parent, and gone from the pool. */
  ghost predicate HandedSoFar(pool: set<Hash>, left: set<Hash>, root: Hash, handed: seq<Block>) {
    && (forall k :: k in left <==> k in pool && !(k.HashOf? && k.block in handed))
    && (forall i | 0 <= i < |handed| :: HashOf(handed[i]) in pool)
    && (forall i, j | 0 <= i < j < |handed| :: handed[i] != handed[j])
    && (forall i | 0 <= i < |handed| :: FromHanded(root, handed[..i], handed[i].parent))
  }

  /** As HandedSoFar; queue names the hashes whose children may remain. */
  ghost predicate Handing(pool: set<Hash>, left: set<Hash>, root: Hash, handed: seq<Block>, queue: set<Hash>) {
    && HandedSoFar(pool, left, root, handed)
    && (forall c {:trigger Waits(left, root, handed, queue, c)} :: Waits(left, root, handed, queue, c))
  }

  lemma StartHanding(pool: set<Hash>, root: Hash)
    ensures Handing(pool, pool, root, [], {root})
  {
    forall c ensures Waits(pool, root, [], {root}, c) {
    }
  }

  lemma HandOne(pool: set<Hash>, left: set<Hash>, root: Hash, handed: seq<Block>, queue: set<Hash>, b: Block)
    requires Handing(pool, left, root, handed, queue) && HashOf(b) in left && FromHanded(root, handed, b.parent)
    ensures Handing(pool, left - {HashOf(b)}, root, handed + [b], queue + {HashOf(b)})
  {
    var more, rest := handed + [b], left - {HashOf(b)};
    forall i | 0 <= i < |more| ensures FromHanded(root, more[..i], more[i].parent) {
      if i < |handed| { assert more[..i] == handed[..i]; } else { assert more[..i] == handed; }
    }
    forall c ensures Waits(rest, root, more, queue + {HashOf(b)}, c) {
      assert Waits(left, root, handed, queue, c);
    }
  }

  /** Every block handed over is a pooled descendant of the root. */
  lemma {:induction false} HandedIsBelow(pool: set<Hash>, left: set<Hash>, root: Hash, handed: seq<Block>, i: nat)
    requires HandedSoFar(pool, left, root, handed) && i < |handed|
    ensures PooledBelow(pool, root, handed[i])
    decreases i
  {
    assert FromHanded(root, handed[..i], handed[i].parent);
    if handed[i].parent != root {
      var j: nat :| j < i && handed[j] == handed[i].parent.block;
      HandedIsBelow(pool, left, root, handed, j);
    }
  }

  /** A hash whose children may be accepted: it is indexed, and it is the root or was handed over. */
  ghost predicate Ready(indexed: set<Hash>, root: Hash, handed: seq<Block>, h: Hash) {
    h in indexed && FromHanded(root, handed, h)
  }

  /** Progress of draining: the blocks handed over, and a queue of ready hashes that covers the pending ones. */
  ghost predicate Progress(pool: set<Hash>, left: set<Hash>, indexed: set<Hash>, root: Hash, handed: seq<Block>,
      pending: set<Hash>, queue: seq<Hash>) {
    && Handing(pool, left, root, handed, pending)
    && (forall h {:trigger Ready(indexed, root, handed, h)} | h in queue :: Ready(indexed, root, handed, h))
    && (forall h {:trigger h in pending} | h in pending :: h in queue)
  }

  lemma ProgressOne(pool: set<Hash>, left: set<Hash>, indexed: set<Hash>, root: Hash, handed: seq<Block>,
      pending: set<Hash>, queue: seq<Hash>, b: Block)
    requires Progress(pool, left, indexed, root, handed, pending, queue)
    requires HashOf(b) in left && b.parent in queue
    ensures b.parent in indexed
    ensures Progress(pool, left - {HashOf(b)}, indexed + {HashOf(b)}, root, handed + [b], pending + {HashOf(b)},
              queue + [HashOf(b)])
  {
    assert Ready(indexed, root, handed, b.parent);
    HandOne(pool, left, root, handed, pending, b);
    forall h | h in queue + [HashOf(b)] ensures Ready(indexed + {HashOf(b)}, root, handed + [b], h) {
      assert h in queue ==> Ready(indexed, root, handed, h);
    }
  }

  lemma ChildrenHanded(pool: set<Hash>, left: set<Hash>, root: Hash, handed: seq<Block>, queue: set<Hash>, h: Hash)
    requires Handing(pool, left, root, handed, queue)
    requires forall c {:trigger HashOf(c) in left} | HashOf(c) in left :: c.parent != h
    ensures Handing(pool, left, root, handed, queue - {h})
  {
    forall c ensures Waits(left, root, handed, queue - {h}, c) {
      assert Waits(left, root, handed, queue, c);
    }
  }

  /** When the queue is empty, exactly the pooled descendants of the root were handed over. */
  lemma {:induction false} HandedAreDescendants(pool: set<Hash>, left: set<Hash>, root: Hash, handed: seq<Block>,
      b: Block)
    requires Handing(pool, left, root, handed, {})
    ensures b in handed <==> PooledBelow(pool, root, b)
    decreases b
  {
    assert Waits(left, root, handed, {}, b);
    if b.parent.HashOf? { HandedAreDescendants(pool, left, root, handed, b.parent.block); }
    if b in handed {
      var i :| 0 <= i < |handed| && handed[i] == b;
      assert FromHanded(root, handed[..i], b.parent);
    }
  }

  lemma {:induction false} SubsetSize(a: set<Hash>, b: set<Hash>)
    requires a <= b
    ensures |a| <= |b|
    decreases a
  {
    if a != {} {
      var x :| x in a;
      SubsetSize(a - {x}, b - {x});
    }
  }

  /** Removes the matching entries one by one, shifting the rest down. */
  method Compact(entries: seq<Orphan>, h: Hash) returns (list: seq<Orphan>)
    ensures list == Without(entries, h)
  {
    list := entries;
    var i := 0;
    while i < |list|
      invariant 0 <= i <= |list|
      invariant Without(list[..i], h) == list[..i]
      invariant Without(list, h) == Without(entries, h)
      decreases |list| - i
    {
      if HashOf(list[i].block) == h {
        CompactDrop(list, i, h);
        list := list[..i] + list[i + 1..];
      } else {
        CompactKeep(list, i, h);
        i := i + 1;
      }
    }
    assert list[..i] == list;
  }

  lemma CompactDrop(list: seq<Orphan>, i: nat, h: Hash)
    requires i < |list| && Without(list[..i], h) == list[..i] && HashOf(list[i].block) == h
    ensures (list[..i] + list[i + 1..])[..i] == list[..i]
    ensures Without(list[..i] + list[i + 1..], h) == Without(list, h)
  {
    WithoutSplit(list[..i], list[i..], h);
    assert list[..i] + list[i..] == list;
    WithoutSplit(list[..i], list[i + 1..], h);
    assert list[i..][1..] == list[i + 1..];
  }

  lemma CompactKeep(list: seq<Orphan>, i: nat, h: Hash)
    requires i < |list| && Without(list[..i], h) == list[..i] && HashOf(list[i].block) != h
    ensures Without(list[..i + 1], h) == list[..i + 1]
  {
    WithoutSplit(list[..i], [list[i]], h);
    assert list[..i + 1] == list[..i] + [list[i]];
    assert Without([list[i]], h) == [list[i]];
  }

  lemma ParentOnPath(b: Block, a: Block)
    requires a in Path(b) && a.parent.HashOf?
    ensures a.parent.block in Path(b)
  {
    var i :| 0 <= i < |Path(b)| && Path(b)[i] == a;
    PathPrefix(b, i);
    assert Path(a) == Path(b)[..i + 1];
    assert |Path(a)| >= 2;
    assert Path(a)[i - 1] == a.parent.block;
  }
}
