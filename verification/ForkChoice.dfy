/** Which received blocks a node must hold, and which tip it must choose, whatever the arrival order. */
module ForkChoice {
  import opened Blocks

  /** b descends from genesis through received blocks with consecutive heights. */
  predicate LinkedIn(g: Block, received: set<Block>, b: Block) {
    b == g || (b in received && HeightOk(b) && LinkedIn(g, received, b.parent.block))
  }

  /** A block is linked exactly when it descends from genesis with consecutive heights and every block on its path but
      genesis was received. */
  lemma {:induction false} LinkedIff(g: Block, received: set<Block>, b: Block)
    requires Genesis(g)
    ensures LinkedIn(g, received, b) <==>
            Descends(g, b) && forall x {:trigger x in Path(b)} | x in Path(b) :: x == g || x in received
    decreases b
  {
    if b != g && HeightOk(b) {
      LinkedIff(g, received, b.parent.block);
      var p := b.parent.block;
      assert Path(b) == Path(p) + [b];
      assert forall x {:trigger x in Path(b)} :: x in Path(b) <==> x in Path(p) || x == b;
      assert forall x {:trigger x in Path(p)} :: x in Path(p) ==> x in Path(b);
      assert b in Path(b);
    } else if b == g {
      assert Path(g) == [g];
    }
  }

  /** An accepted block was received and its parent was accepted before it. */
  ghost predicate RootedAt(g: Block, received: set<Block>, accepted: set<Hash>, b: Block) {
    b == g || (b in received && HeightOk(b) && b.parent in accepted)
  }

  ghost predicate Rooted(g: Block, received: set<Block>, accepted: set<Hash>) {
    && HashOf(g) in accepted
    && (forall h | h in accepted :: h.HashOf?)
    && (forall b {:trigger RootedAt(g, received, accepted, b)} | HashOf(b) in accepted ::
          RootedAt(g, received, accepted, b))
  }

  /** A received child of an accepted block is accepted, unless its parent is still to be processed. */
  ghost predicate DrainedAt(accepted: set<Hash>, pending: set<Hash>, b: Block) {
    HeightOk(b) && b.parent in accepted && b.parent !in pending ==> HashOf(b) in accepted
  }

  ghost predicate Drained(received: set<Block>, accepted: set<Hash>, pending: set<Hash>) {
    forall b {:trigger DrainedAt(accepted, pending, b)} | b in received :: DrainedAt(accepted, pending, b)
  }

  /** A received block that may still be accepted is accepted or pooled. */
  ghost predicate RetainedAt(accepted: set<Hash>, pool: set<Hash>, b: Block) {
    HeightOk(b) ==> HashOf(b) in accepted || HashOf(b) in pool
  }

  ghost predicate Retained(received: set<Block>, accepted: set<Hash>, pool: set<Hash>) {
    forall b {:trigger RetainedAt(accepted, pool, b)} | b in received :: RetainedAt(accepted, pool, b)
  }

  ghost predicate TipIsMax(accepted: set<Hash>, tip: Block) {
    && HashOf(tip) in accepted
    && (forall b {:trigger HashOf(b) in accepted} | HashOf(b) in accepted :: Td(b) <= Td(tip))
  }

  /** The state of a node while the children of the pending hashes are still to be drained. */
  ghost predicate Draining(g: Block, received: set<Block>, accepted: set<Hash>, pool: set<Hash>, tip: Block,
      pending: set<Hash>) {
    && Rooted(g, received, accepted) && Drained(received, accepted, pending)
    && Retained(received, accepted, pool) && TipIsMax(accepted, tip)
  }

  /** The state of a node between two blocks, when nothing failed: nothing left to drain, best tip chosen. */
  ghost predicate Settled(g: Block, received: set<Block>, accepted: set<Hash>, pool: set<Hash>, tip: Block) {
    Draining(g, received, accepted, pool, tip, {})
  }

  /** The accepted set is exactly the received blocks linked to genesis through received blocks. */
  lemma {:induction false} AcceptedIsLinked(g: Block, received: set<Block>, accepted: set<Hash>, pool: set<Hash>,
      tip: Block, b: Block)
    requires Settled(g, received, accepted, pool, tip)
    ensures HashOf(b) in accepted <==> LinkedIn(g, received, b)
    decreases b
  {
    if HashOf(b) in accepted { assert RootedAt(g, received, accepted, b); }
    if b != g && b in received && HeightOk(b) {
      AcceptedIsLinked(g, received, accepted, pool, tip, b.parent.block);
      assert DrainedAt(accepted, {}, b);
    }
  }

  /** Two nodes that received the same blocks hold the same blocks and agree on the tip's total difficulty. */
  lemma ForkChoiceAgrees(g: Block, received: set<Block>, accepted: set<Hash>, pool: set<Hash>, tip: Block,
                         accepted': set<Hash>, pool': set<Hash>, tip': Block)
    requires Settled(g, received, accepted, pool, tip) && Settled(g, received, accepted', pool', tip')
    ensures accepted == accepted' && Td(tip) == Td(tip')
  {
    forall h ensures h in accepted <==> h in accepted' {
      if h.HashOf? {
        AcceptedIsLinked(g, received, accepted, pool, tip, h.block);
        AcceptedIsLinked(g, received, accepted', pool', tip', h.block);
      }
    }
  }

  /** The chosen tip has the greatest total difficulty of all received linked blocks. */
  lemma TipIsBest(g: Block, received: set<Block>, accepted: set<Hash>, pool: set<Hash>, tip: Block, b: Block)
    requires Settled(g, received, accepted, pool, tip) && LinkedIn(g, received, b)
    ensures LinkedIn(g, received, tip) && Td(b) <= Td(tip)
  {
    AcceptedIsLinked(g, received, accepted, pool, tip, b);
    AcceptedIsLinked(g, received, accepted, pool, tip, tip);
  }

  // ----- steps -----

  /** As Draining, but nothing is known of b, which is being handed over. */
  ghost predicate Awaiting(g: Block, received: set<Block>, accepted: set<Hash>, pool: set<Hash>, tip: Block,
      pending: set<Hash>, b: Block) {
    && Rooted(g, received, accepted) && Drained(received - {b}, accepted, pending)
    && Retained(received - {b}, accepted, pool) && TipIsMax(accepted, tip)
  }

  /** A received block is taken out of the pool and handed over. */
  lemma HandOver(g: Block, received: set<Block>, accepted: set<Hash>, pool: set<Hash>, tip: Block, pending: set<Hash>,
      b: Block)
    requires Draining(g, received, accepted, pool, tip, pending)
    ensures Awaiting(g, received + {b}, accepted, pool - {HashOf(b)}, tip, pending, b)
  {
    forall c | HashOf(c) in accepted ensures RootedAt(g, received + {b}, accepted, c) {
      assert RootedAt(g, received, accepted, c);
    }
    forall c | c in received + {b} - {b} ensures DrainedAt(accepted, pending, c)
        && RetainedAt(accepted, pool - {HashOf(b)}, c) {
      assert DrainedAt(accepted, pending, c) && RetainedAt(accepted, pool, c);
    }
  }

  /** b is accepted and becomes the tip, or stays on a side chain no heavier than the tip: only its own children remain
      to be drained. */
  lemma Accepted(g: Block, received: set<Block>, accepted: set<Hash>, pool: set<Hash>, tip: Block, pending: set<Hash>,
      b: Block, tip': Block)
    requires Awaiting(g, received, accepted, pool, tip, pending, b)
    requires b in received && HeightOk(b) && b.parent in accepted
    requires (tip' == b && Td(tip) <= Td(b)) || (tip' == tip && Td(b) <= Td(tip))
    ensures Draining(g, received, accepted + {HashOf(b)}, pool, tip', pending + {HashOf(b)})
  {
    var more := accepted + {HashOf(b)};
    forall c | HashOf(c) in more ensures RootedAt(g, received, more, c) {
      assert c == b || RootedAt(g, received, accepted, c);
    }
    forall c | c in received ensures DrainedAt(more, pending + {HashOf(b)}, c) && RetainedAt(more, pool, c) {
      if c != b { assert c in received - {b} && DrainedAt(accepted, pending, c) && RetainedAt(accepted, pool, c); }
    }
    forall c | HashOf(c) in more ensures Td(c) <= Td(tip') {
      assert c == b || HashOf(c) in accepted;
    }
  }

  /** b is set aside: it was there already, or it is pooled and its parent is unknown, or its height is wrong. */
  lemma SetAside(g: Block, received: set<Block>, accepted: set<Hash>, pool: set<Hash>, pool': set<Hash>, tip: Block,
      b: Block)
    requires Awaiting(g, received, accepted, pool, tip, {}, b) && pool <= pool'
    requires HeightOk(b) ==> HashOf(b) in accepted || (HashOf(b) in pool' && b.parent !in accepted)
    ensures Settled(g, received, accepted, pool', tip)
  {
    forall c | c in received ensures DrainedAt(accepted, {}, c) && RetainedAt(accepted, pool', c) {
      if c != b { assert c in received - {b} && DrainedAt(accepted, {}, c) && RetainedAt(accepted, pool, c); }
    }
  }

  /** A hash with no pooled child left needs no more processing. */
  lemma ChildrenDone(g: Block, received: set<Block>, accepted: set<Hash>, pool: set<Hash>, tip: Block,
      pending: set<Hash>, h: Hash)
    requires Draining(g, received, accepted, pool, tip, pending)
    requires forall c | HashOf(c) in pool :: c.parent != h
    ensures Draining(g, received, accepted, pool, tip, pending - {h})
  {
    forall c | c in received ensures DrainedAt(accepted, pending - {h}, c) {
      assert DrainedAt(accepted, pending, c) && RetainedAt(accepted, pool, c);
    }
  }
}
