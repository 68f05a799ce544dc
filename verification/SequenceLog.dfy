/** The log of best-chain pushes and pops, and what replaying it yields. */
module SequenceLog {
  import opened Wrappers
  import opened Blocks

  datatype Entry = Entry(hash: Hash, isAdd: bool)

  function Hashes(chain: seq<Block>): seq<Hash> {
    seq(|chain|, i requires 0 <= i < |chain| => HashOf(chain[i]))
  }

  /** Replays the log: an add pushes, a delete pops that same hash; None when a pop does not match. */
  function Replay(log: seq<Entry>): Option<seq<Hash>> {
    if log == [] then Some([]) else
    var n := |log| - 1;
    match Replay(log[..n])
    case None => None
    case Some(chain) =>
      if log[n].isAdd then Some(chain + [log[n].hash])
      else if chain != [] && chain[|chain| - 1] == log[n].hash then Some(chain[..|chain| - 1])
      else None
  }

  function Deletes(log: seq<Entry>): nat {
    if log == [] then 0 else
    Deletes(log[..|log| - 1]) + if log[|log| - 1].isAdd then 0 else 1
  }

  /** The last sequence number is the tip height plus twice the number of deletes. */
  lemma {:induction false} LengthLaw(log: seq<Entry>)
    requires Replay(log).Some?
    ensures |log| == |Replay(log).value| + 2 * Deletes(log)
  {
    if log != [] { LengthLaw(log[..|log| - 1]); }
  }

  /** seq is the latest add of hash. */
  ghost predicate LatestAdd(log: seq<Entry>, hash: Hash, s: int) {
    && 0 <= s < |log| && log[s] == Entry(hash, true)
    && forall i | s < i < |log| :: log[i] != Entry(hash, true)
  }

  /** The stored tables are the log. */
  ghost predicate Tables(log: seq<Entry>, seqToEntry: map<int, Entry>, hashToSeq: map<Hash, int>, lastSeq: int) {
    && lastSeq == |log| - 1
    && (forall s :: s in seqToEntry <==> 0 <= s < |log|)
    && (forall s | s in seqToEntry :: seqToEntry[s] == log[s])
    && (forall h | h in hashToSeq :: LatestAdd(log, h, hashToSeq[h]))
    && (forall s | 0 <= s < |log| && log[s].isAdd :: log[s].hash in hashToSeq)
  }

  lemma TablesAppend(log: seq<Entry>, e: Entry, seqToEntry: map<int, Entry>, hashToSeq: map<Hash, int>)
    requires Tables(log, seqToEntry, hashToSeq, |log| - 1)
    ensures Tables(log + [e], seqToEntry[|log| := e], if e.isAdd then hashToSeq[e.hash := |log|] else hashToSeq, |log|)
  {
    var longer := log + [e];
    var table := if e.isAdd then hashToSeq[e.hash := |log|] else hashToSeq;
    forall h | h in table ensures LatestAdd(longer, h, table[h]) {
      if h in hashToSeq { assert LatestAdd(log, h, hashToSeq[h]); }
    }
  }

  lemma ReplayPush(log: seq<Entry>, chain: seq<Block>, b: Block)
    requires Replay(log) == Some(Hashes(chain))
    ensures Replay(log + [Entry(HashOf(b), true)]) == Some(Hashes(chain + [b]))
  {
    assert (log + [Entry(HashOf(b), true)])[..|log|] == log;
    assert Hashes(chain + [b]) == Hashes(chain) + [HashOf(b)];
  }

  lemma ReplayPop(log: seq<Entry>, chain: seq<Block>)
    requires Replay(log) == Some(Hashes(chain)) && chain != []
    ensures Replay(log + [Entry(HashOf(chain[|chain| - 1]), false)]) == Some(Hashes(chain[..|chain| - 1]))
  {
    var e := Entry(HashOf(chain[|chain| - 1]), false);
    assert (log + [e])[..|log|] == log;
    assert Hashes(chain[..|chain| - 1]) == Hashes(chain)[..|chain| - 1];
  }

  /** Equal hash sequences are equal chains, so the log determines the best chain. */
  lemma HashesDetermine(a: seq<Block>, b: seq<Block>)
    requires Hashes(a) == Hashes(b)
    ensures a == b
  {
    assert |a| == |Hashes(a)| == |Hashes(b)| == |b|;
    forall i | 0 <= i < |a| ensures a[i] == b[i] {
      assert Hashes(a)[i] == Hashes(b)[i];
    }
  }
}
