/** Chunk archiving: which heights may be archived, which archived bodies may be deleted, and why the bodies a node must
    hold are never among them. */
module Chunks {
  import opened Arithmetic

  const MAX_ROLL_BLOCK_NUM := 10000
  const DEL_ROLLBACK_CHUNK_NUM := 10
  const ONCE_MAX_CHUNK_NUM := 30
  const ONCE_DEL_CHUNK_NUM := 100

  datatype ChunkInfo = ChunkInfo(chunkNum: int, start: int, end: int)

  /** Division truncating toward zero. */
  function Quotient(a: int, b: int): int
    requires b > 0
  {
    if a >= 0 then a / b else -(-a / b)
  }

  function CalcChunkInfo(size: int, height: int): ChunkInfo
    requires size > 0
  {
    var chunkNum := Quotient(height, size);
    ChunkInfo(chunkNum, chunkNum * size, chunkNum * size + size - 1)
  }

  predicate Holds(c: ChunkInfo, height: int) {
    c.start <= height <= c.end
  }

  lemma DivisionBounds(a: int, b: int)
    requires a >= 0 && b > 0
    ensures a / b * b <= a < a / b * b + b && a / b >= 0
  {
    assert a == a / b * b + a % b;
  }

  lemma NegatedBounds(q: int, a: int, b: int)
    requires q * b <= a < q * b + b
    ensures -q * b - b < -a <= -q * b
  {
    NegatedProduct(q, b);
  }

  lemma QuotientFacts(a: int, b: int)
    requires b > 0
    ensures a >= 0 ==> Quotient(a, b) * b <= a < Quotient(a, b) * b + b && Quotient(a, b) >= 0
    ensures a < 0 ==> Quotient(a, b) * b - b < a <= Quotient(a, b) * b && Quotient(a, b) <= 0
  {
    if a >= 0 {
      DivisionBounds(a, b);
    } else {
      DivisionBounds(-a, b);
      NegatedBounds(-a / b, -a, b);
    }
  }

  lemma Below(m: int, n: int, b: int)
    requires m < n && b > 0
    ensures m * b + b <= n * b
  {
    MulMonotone(m + 1, n, b);
    MulLeft(m, 1, b);
  }

  /** A height's chunk holds it exactly when the height is not negative or is a chunk boundary. */
  lemma ChunkHoldsHeightIff(size: int, height: int)
    requires size > 0
    ensures Holds(CalcChunkInfo(size, height), height) <==> height >= 0 || height == CalcChunkInfo(size, height).start
  {
    QuotientFacts(height, size);
  }

  /** Chunks tile the heights: a height is held by its own chunk and by no other. */
  lemma ChunksTile(size: int, height: int, n: int)
    requires size > 0 && height >= 0
    ensures n * size <= height <= n * size + size - 1 <==> n == CalcChunkInfo(size, height).chunkNum
    ensures CalcChunkInfo(size, height).end + 1 == (CalcChunkInfo(size, height).chunkNum + 1) * size
  {
    QuotientFacts(height, size);
    var m := Quotient(height, size);
    if n < m { Below(n, m, size); }
    if m < n { Below(m, n, size); }
    assert (m + 1) * size == m * size + size;
  }

  function CalcSafetyChunkHeight(size: int, reserved: int, height: int): int {
    height - MAX_ROLL_BLOCK_NUM - size - reserved
  }

  /** The newest chunk safe to archive; -1 when there is none. */
  function CalcSafetyChunkInfo(size: int, reserved: int, height: int): ChunkInfo
    requires size > 0
  {
    var safe := CalcSafetyChunkHeight(size, reserved, height);
    if safe < 0 then ChunkInfo(-1, 0, 0) else CalcChunkInfo(size, safe)
  }

  /** Every height of a chunk up to the safe one lies deeper than the rollback limit and the reserve. */
  lemma SafeChunkIsDeep(size: int, reserved: int, height: int, n: int)
    requires size > 0 && 0 <= n <= CalcSafetyChunkInfo(size, reserved, height).chunkNum
    ensures n * size + size - 1 < height - MAX_ROLL_BLOCK_NUM - reserved
    ensures n * size <= CalcSafetyChunkHeight(size, reserved, height)
    ensures forall peak | height <= peak :: SafeAt(size, reserved, peak, n)
  {
    var safe := CalcSafetyChunkHeight(size, reserved, height);
    var m := CalcSafetyChunkInfo(size, reserved, height).chunkNum;
    QuotientFacts(safe, size);
    if n < m { Below(n, m, size); }
  }

  lemma SafeChunksAreDeep(size: int, reserved: int, height: int, m: int, n: int)
    requires size > 0 && -1 <= m <= n && (m < n ==> n <= CalcSafetyChunkInfo(size, reserved, height).chunkNum)
    ensures forall k | m < k <= n :: k * size + size - 1 < height - MAX_ROLL_BLOCK_NUM - reserved
  {
    forall k | m < k <= n ensures k * size + size - 1 < height - MAX_ROLL_BLOCK_NUM - reserved {
      SafeChunkIsDeep(size, reserved, height, k);
    }
  }

  /** Chunks are safe exactly up to the newest one whose last height lies deeper than that. */
  lemma SafeIff(size: int, reserved: int, height: int, n: int)
    requires size > 0 && n >= 0
    ensures n <= CalcSafetyChunkInfo(size, reserved, height).chunkNum <==>
            n * size + size - 1 < height - MAX_ROLL_BLOCK_NUM - reserved
    ensures CalcSafetyChunkInfo(size, reserved, height).chunkNum >= -1
  {
    var safe := CalcSafetyChunkHeight(size, reserved, height);
    var m := CalcSafetyChunkInfo(size, reserved, height).chunkNum;
    QuotientFacts(safe, size);
    if n <= m {
      SafeChunkIsDeep(size, reserved, height, n);
    } else if safe >= 0 {
      Below(m, n, size);
    } else {
      MulMonotone(0, n, size);
    }
  }

  /** The heights whose bodies must be stored locally. */
  predicate MustBeLocal(size: int, tip: int, height: int) {
    height > tip - MAX_ROLL_BLOCK_NUM - size * DEL_ROLLBACK_CHUNK_NUM
  }

  /** A chunk more than the rollback margin behind an archived one is out of the local range while the tip stays within
      a chunk and the reserve of its peak. */
  lemma DeletedIsNotLocal(size: int, reserved: int, peak: int, tip: int, archived: int, n: int, height: int)
    requires size > 0 && n + DEL_ROLLBACK_CHUNK_NUM < archived && height <= n * size + size - 1
    requires archived * size <= CalcSafetyChunkHeight(size, reserved, peak)
    requires tip >= peak - size - reserved - 1
    ensures !MustBeLocal(size, tip, height)
  {
    Below(n + DEL_ROLLBACK_CHUNK_NUM, archived, size);
    assert (n + DEL_ROLLBACK_CHUNK_NUM) * size == n * size + DEL_ROLLBACK_CHUNK_NUM * size;
    assert DEL_ROLLBACK_CHUNK_NUM * size == size * DEL_ROLLBACK_CHUNK_NUM;
  }

  /** A height of a chunk that may be deleted, when the tip was never above the peak. */
  ghost predicate Deletable(size: int, reserved: int, peak: int, archived: int, n: int, height: int) {
    && 0 <= n && n + DEL_ROLLBACK_CHUNK_NUM < archived && n * size <= height <= n * size + size - 1
    && archived * size <= CalcSafetyChunkHeight(size, reserved, peak)
  }

  /** However far the tip drops below its peak: no deletable height is in the local range exactly when the drop is no
      more than a chunk, the reserve and one block. */
  lemma DropIsSafeIff(size: int, reserved: int, drop: int)
    requires size > 0
    ensures (forall peak, archived, n, height | Deletable(size, reserved, peak, archived, n, height) ::
              !MustBeLocal(size, peak - drop, height)) <==> drop <= size + reserved + 1
  {
    if drop <= size + reserved + 1 {
      forall peak, archived, n, height | Deletable(size, reserved, peak, archived, n, height)
        ensures !MustBeLocal(size, peak - drop, height)
      {
        DeletedIsNotLocal(size, reserved, peak, peak - drop, archived, n, height);
      }
    } else {
      var archived := DEL_ROLLBACK_CHUNK_NUM + 1;
      var peak := archived * size + MAX_ROLL_BLOCK_NUM + size + reserved;
      assert Deletable(size, reserved, peak, archived, 0, size - 1);
      assert MustBeLocal(size, peak - drop, size - 1);
    }
  }

  /** The records are those of chunks 0 to n, and perhaps of the next one, whose archiving did not finish. */
  ghost predicate RecordsOk(records: map<int, ChunkInfo>, size: int, n: int) {
    && (forall k | 0 <= k <= n :: k in records)
    && (forall k | k in records :: 0 <= k <= n + 1 && records[k] == ChunkInfo(k, k * size, k * size + size - 1))
  }

  /** after is before without the heights from first up to next that are on the best chain. */
  ghost predicate DeletedBetween(before: set<int>, after: set<int>, first: int, next: int, height: int) {
    forall h :: h in after <==> h in before && !(first <= h < next && 0 <= h <= height)
  }

  /** A chunk starts no higher than the safe height; chunk -1 stands for none. */
  ghost predicate SafeAt(size: int, reserved: int, peak: int, n: int) {
    n >= 0 ==> n * size <= CalcSafetyChunkHeight(size, reserved, peak)
  }

  class Archive {
    const size: int      // blocks of a chunk
    const reserved: int  // blocks kept back beside the rollback limit
    var height: int
    var maxSerialChunkNum: int
    var maxDeletedChunkNum: int
    var deleteChunkCount: int
    var records: map<int, ChunkInfo>
    var bodies: set<int>
    ghost var peak: int

    ghost predicate Valid()
      reads this
    {
      && size > 0 && reserved >= 0 && height <= peak
      && maxSerialChunkNum >= -1 && RecordsOk(records, size, maxSerialChunkNum)
      && SafeAt(size, reserved, peak, maxSerialChunkNum)
      && (maxDeletedChunkNum == -1
            || (maxDeletedChunkNum >= 0 && maxDeletedChunkNum + DEL_ROLLBACK_CHUNK_NUM < maxSerialChunkNum))
      && (forall h | (maxDeletedChunkNum + 1) * size <= h <= peak :: h in bodies)
    }

    constructor (size: int, reserved: int)
      requires size > 0 && reserved >= 0
      ensures Valid() && maxSerialChunkNum == maxDeletedChunkNum == -1 && height == 0
    {
      this.size, this.reserved := size, reserved;
      height, peak, maxSerialChunkNum, maxDeletedChunkNum, deleteChunkCount := 0, 0, -1, -1, 0;
      records, bodies := map[], {0};
    }

    /** The tip moves: one block connected, or some disconnected. */
    method MoveTip(newHeight: int)
      requires Valid() && newHeight <= height + 1
      modifies this`height, this`peak, this`bodies
      ensures Valid() && height == newHeight && peak == if newHeight > old(peak) then newHeight else old(peak)
    {
      if newHeight == height + 1 {
        bodies := bodies + {newHeight};
      }
      height := newHeight;
      peak := if height > peak then height else peak;
    }

    /** Archives the next chunk; it may fail before or after its record was saved. */
    method ChunkShardHandle(chunkNum: int) returns (ok: bool)
      requires size > 0 && RecordsOk(records, size, chunkNum - 1) && chunkNum >= 0
      modifies this`records
      ensures RecordsOk(records, size, chunkNum - 1) && (ok ==> chunkNum in records)
    {
      var start := chunkNum * size;
      var end := start + size - 1;
      var loaded: bool := *;
      if !loaded {
        return false;
      }
      records := records[chunkNum := ChunkInfo(chunkNum, start, end)];
      ok := *;
    }

    /** Archives chunks one after the other, until a batch is done, the next one is not safe, or one failed. */
    method CheckGenChunkNum() returns (ghost failed: bool)
      requires Valid()
      modifies this`maxSerialChunkNum, this`records
      ensures Valid() && maxSerialChunkNum >= old(maxSerialChunkNum)
      ensures maxSerialChunkNum <= old(maxSerialChunkNum) + ONCE_MAX_CHUNK_NUM
      ensures forall n | old(maxSerialChunkNum) < n <= maxSerialChunkNum ::
                n * size + size - 1 < height - MAX_ROLL_BLOCK_NUM - reserved
      ensures failed || maxSerialChunkNum == old(maxSerialChunkNum) + ONCE_MAX_CHUNK_NUM
                || (maxSerialChunkNum + 1) * size + size - 1 >= height - MAX_ROLL_BLOCK_NUM - reserved
    {
      failed := false;
      var safetyChunkNum := CalcSafetyChunkInfo(size, reserved, height).chunkNum;
      var i := 0;
      while i < ONCE_MAX_CHUNK_NUM
        invariant 0 <= i <= ONCE_MAX_CHUNK_NUM
        invariant Valid() && maxSerialChunkNum == old(maxSerialChunkNum) + i && !failed
        invariant maxSerialChunkNum > old(maxSerialChunkNum) ==> maxSerialChunkNum <= safetyChunkNum
      {
        var chunkNum := maxSerialChunkNum + 1;
        if chunkNum > safetyChunkNum {
          SafeIff(size, reserved, height, chunkNum);
          break;
        }
        var ok := ChunkShardHandle(chunkNum);
        if !ok {
          failed := true;
          break;
        }
        SafeChunkIsDeep(size, reserved, height, chunkNum);
        maxSerialChunkNum := chunkNum;
        i := i + 1;
      }
      SafeChunksAreDeep(size, reserved, height, old(maxSerialChunkNum), maxSerialChunkNum);
    }

    /** Deletes the bodies of a chunk's heights that are on the best chain. */
    method DeleteBlockBody(chunkNum: int)
      requires chunkNum in records
      modifies this`bodies
      ensures forall h :: h in bodies <==> h in old(bodies) && !(Holds(records[chunkNum], h) && 0 <= h <= height)
    {
      var chunk := records[chunkNum];
      var i := chunk.start;
      while i <= chunk.end
        invariant chunk.start <= i && (i <= chunk.end + 1 || i == chunk.start)
        invariant forall h :: h in bodies <==> h in old(bodies) && !(chunk.start <= h < i && 0 <= h <= height)
        decreases chunk.end - i
      {
        if 0 <= i <= height {
          bodies := bodies - {i};
        }
        i := i + 1;
      }
    }

    /** Deletes the bodies of archived chunks that lie more than the rollback margin behind the newest one. */
    method CheckDeleteBlockBody()
      requires Valid()
      modifies this`bodies, this`maxDeletedChunkNum, this`deleteChunkCount
      ensures Valid()
      ensures old(maxDeletedChunkNum) <= maxDeletedChunkNum <= old(maxDeletedChunkNum) + ONCE_DEL_CHUNK_NUM
      ensures maxDeletedChunkNum == old(maxDeletedChunkNum) + ONCE_DEL_CHUNK_NUM
                || maxDeletedChunkNum + 1 + DEL_ROLLBACK_CHUNK_NUM >= maxSerialChunkNum
      ensures DeletedBetween(old(bodies), bodies, (old(maxDeletedChunkNum) + 1) * size,
                (maxDeletedChunkNum + 1) * size, height)
      ensures deleteChunkCount ==
              var sum := old(deleteChunkCount) + maxDeletedChunkNum - old(maxDeletedChunkNum);
              if sum >= ONCE_DEL_CHUNK_NUM then 0 else sum
    {
      var count := 0;
      var toDelete := maxDeletedChunkNum + 1;
      ghost var first, next := toDelete * size, toDelete * size;
      while toDelete + DEL_ROLLBACK_CHUNK_NUM < maxSerialChunkNum && count < ONCE_DEL_CHUNK_NUM
        invariant maxDeletedChunkNum == old(maxDeletedChunkNum) && deleteChunkCount == old(deleteChunkCount)
        invariant 0 <= count <= ONCE_DEL_CHUNK_NUM && toDelete == maxDeletedChunkNum + 1 + count
                  && next == toDelete * size
        invariant count > 0 ==> toDelete - 1 + DEL_ROLLBACK_CHUNK_NUM < maxSerialChunkNum
        invariant DeletedBetween(old(bodies), bodies, first, next, height) && first <= next
        decreases ONCE_DEL_CHUNK_NUM - count
      {
        MulLeft(toDelete, 1, size);
        DeleteBlockBody(toDelete);
        toDelete := toDelete + 1;
        count := count + 1;
        next := next + size;
      }
      deleteChunkCount := deleteChunkCount + count;
      if count != 0 {
        maxDeletedChunkNum := toDelete - 1;
      }
      if deleteChunkCount >= ONCE_DEL_CHUNK_NUM {
        deleteChunkCount := 0;
      }
    }

    /** Every body that must be local is, while the tip stays within a chunk and the reserve of its peak. */
    lemma LocalBodiesAreHeld(h: int)
      requires Valid() && height >= peak - size - reserved - 1
      requires 0 <= h <= height && MustBeLocal(size, height, h)
      ensures h in bodies
    {
      if maxDeletedChunkNum >= 0 && h < (maxDeletedChunkNum + 1) * size {
        DeletedIsNotLocal(size, reserved, peak, height, maxSerialChunkNum, maxDeletedChunkNum, h);
      }
    }

    /** Archived heights lie deeper than the rollback limit below the peak. */
    lemma ArchivedIsDeep(n: int, h: int)
      requires Valid() && 0 <= n <= maxSerialChunkNum && Holds(records[n], h)
      ensures h < peak - MAX_ROLL_BLOCK_NUM
    {
      if n < maxSerialChunkNum { Below(n, maxSerialChunkNum, size); }
    }
  }
}
