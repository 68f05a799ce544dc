/** The largest-remainder allocator that turns request weights into counts, and the plan built from them. */
module Apportionment {
  import opened Arithmetic
  import opened Sorting
  import opened Interleaving

  datatype Spec = Spec(kind: string, weight: real)

  /** A kind's exact share of the total. */
  function Raw(total: nat, spec: Spec): real {
    (if spec.weight > 0.0 then spec.weight else 0.0) * total as real
  }

  function Remainder(raw: real): real {
    raw - raw.Floor as real
  }

  function Raws(total: nat, specs: seq<Spec>): seq<real> {
    seq(|specs|, i requires 0 <= i < |specs| => Raw(total, specs[i]))
  }

  function Floors(raws: seq<real>): seq<int> {
    seq(|raws|, i requires 0 <= i < |raws| => raws[i].Floor)
  }

  function RealSum(s: seq<real>): real {
    if s == [] then 0.0 else RealSum(s[..|s| - 1]) + s[|s| - 1]
  }

  // ----- orders of rows -----

  /** a comes before b: larger remainder, lower index on ties. Indices out of range come last. */
  predicate LargerFirst(raws: seq<real>, a: nat, b: nat) {
    if a < |raws| && b < |raws|
    then Remainder(raws[a]) > Remainder(raws[b]) || (Remainder(raws[a]) == Remainder(raws[b]) && a <= b)
    else b >= |raws|
  }

  function ByRemainder(raws: seq<real>): (nat, nat) -> bool {
    (a: nat, b: nat) => LargerFirst(raws, a, b)
  }

  function ByRemainderReversed(raws: seq<real>): (nat, nat) -> bool {
    (a: nat, b: nat) => LargerFirst(raws, b, a)
  }

  function Indices(n: nat): seq<nat> {
    seq(n, i requires 0 <= i < n => i)
  }

  /** order lists 0 to n - 1, each once. */
  ghost predicate Permutes(order: seq<nat>, n: nat) {
    && |order| == n
    && (forall p | 0 <= p < n :: order[p] < n)
    && (forall p, q | 0 <= p < q < n :: order[p] != order[q])
    && (forall i: nat | i < n :: i in order)
  }

  lemma TwiceInMultiset(s: seq<nat>, p: nat, q: nat)
    requires p < q < |s| && s[p] == s[q]
    ensures multiset(s)[s[p]] >= 2
  {
    assert s == s[..q] + [s[q]] + s[q + 1..];
    assert s[p] in s[..q];
  }

  lemma OnceInMultiset(t: seq<nat>, x: nat)
    requires forall p, q | 0 <= p < q < |t| :: t[p] != t[q]
    ensures multiset(t)[x] <= 1
  {
    if x in t {
      var k :| 0 <= k < |t| && t[k] == x;
      assert t == t[..k] + [x] + t[k + 1..];
      assert x !in t[..k] && x !in t[k + 1..];
    }
  }

  /** A rearrangement of distinct elements is distinct. */
  lemma MultisetDistinct(s: seq<nat>, t: seq<nat>)
    requires multiset(s) == multiset(t) && forall p, q | 0 <= p < q < |t| :: t[p] != t[q]
    ensures forall p, q | 0 <= p < q < |s| :: s[p] != s[q]
  {
    forall p, q | 0 <= p < q < |s| ensures s[p] != s[q] {
      if s[p] == s[q] {
        TwiceInMultiset(s, p, q);
        OnceInMultiset(t, s[p]);
      }
    }
  }

  /** Sorting the indices yields a permutation in remainder order. */
  lemma OrderIsPermutation(raws: seq<real>, n: nat)
    requires n == |raws|
    ensures var order := Sort(Indices(n), ByRemainder(raws));
            Ranks(raws, order)
  {
    var indices, order := Indices(n), Sort(Indices(n), ByRemainder(raws));
    SortIsPermutation(indices, ByRemainder(raws));
    SortIsSorted(indices, ByRemainder(raws));
    MultisetDistinct(order, indices);
    forall p | 0 <= p < n ensures order[p] < n {
      assert order[p] in multiset(order);
      assert order[p] in indices;
    }
    forall i: nat | i < n ensures i in order {
      assert indices[i] == i;
      assert i in multiset(indices);
      assert i in multiset(order);
    }
    forall p, q | 0 <= p < q < n ensures LargerFirst(raws, order[p], order[q]) {
      assert ByRemainder(raws)(order[p], order[q]);
    }
  }

  // ----- sums -----

  lemma {:induction false} SumUpdate(c: seq<int>, j: nat, v: int)
    requires j < |c|
    ensures Sum(c[j := v]) == Sum(c) - c[j] + v
  {
    var n := |c| - 1;
    if j == n {
      assert c[j := v][..n] == c[..n];
    } else {
      assert c[j := v][..n] == c[..n][j := v];
      SumUpdate(c[..n], j, v);
    }
  }

  lemma {:induction false} SumAtMost(c: seq<int>)
    requires forall i | 0 <= i < |c| :: c[i] <= 0
    ensures Sum(c) <= 0
  {
    if c != [] { SumAtMost(c[..|c| - 1]); }
  }

  function Remainders(raws: seq<real>): seq<real> {
    seq(|raws|, i requires 0 <= i < |raws| => Remainder(raws[i]))
  }

  /** Shares are floors plus remainders, in sum too. */
  lemma {:induction false} SharesSplit(raws: seq<real>)
    ensures RealSum(raws) == Sum(Floors(raws)) as real + RealSum(Remainders(raws))
  {
    if raws != [] {
      var n := |raws| - 1;
      SharesSplit(raws[..n]);
      assert Floors(raws)[..n] == Floors(raws[..n]);
      assert Remainders(raws)[..n] == Remainders(raws[..n]);
    }
  }

  /** Remainders below one that vanish outside a set sum to at most its size. */
  lemma {:induction false} FewPositive(rems: seq<real>, s: set<nat>)
    requires forall i | 0 <= i < |rems| :: 0.0 <= rems[i] < 1.0 && (i !in s ==> rems[i] == 0.0)
    ensures RealSum(rems) <= |s| as real
  {
    if rems != [] {
      var n: nat := |rems| - 1;
      FewPositive(rems[..n], s - {n});
      assert n in s ==> |s - {n}| == |s| - 1;
      assert n !in s ==> s - {n} == s;
    }
  }

  lemma {:induction false} SumOfFractions(rems: seq<real>)
    requires rems != [] && forall i | 0 <= i < |rems| :: 0.0 <= rems[i] < 1.0
    ensures 0.0 <= RealSum(rems) < |rems| as real
  {
    var n := |rems| - 1;
    if n > 0 { SumOfFractions(rems[..n]); } else { assert rems[..n] == []; }
  }

  /** The first p places of an order as a set. */
  function Places(order: seq<nat>, p: nat): (s: set<nat>)
    requires p <= |order|
    ensures |s| <= p && forall i :: i in s <==> i in order[..p]
  {
    if p == 0 then {} else
    assert order[..p] == order[..p - 1] + [order[p - 1]];
    Places(order, p - 1) + {order[p - 1]}
  }

  // ----- allocation -----

  /** What the row at place p of the order gets from a surplus: whole rounds, and one more in the last round. */
  ghost predicate DealtAt(raws: seq<real>, order: seq<nat>, counts: seq<int>, surplus: nat, p: nat)
    requires p < |order| && order[p] < |raws| && |counts| == |raws|
  {
    counts[order[p]] == raws[order[p]].Floor + surplus / |raws| + if p < surplus % |raws| then 1 else 0
  }

  /** The order sorts the rows by remainder. */
  ghost predicate Ranks(raws: seq<real>, order: seq<nat>) {
    && Permutes(order, |raws|)
    && (forall p, q {:trigger LargerFirst(raws, order[p], order[q])} | 0 <= p < q < |raws| ::
          LargerFirst(raws, order[p], order[q]))
  }

  /** How the surplus of an under-full floor allocation is dealt out: round after round in remainder order. */
  ghost predicate Dealt(raws: seq<real>, order: seq<nat>, counts: seq<int>, surplus: nat) {
    && raws != [] && Ranks(raws, order) && |counts| == |raws|
    && (forall p: nat {:trigger DealtAt(raws, order, counts, surplus, p)} | p < |raws| ::
          DealtAt(raws, order, counts, surplus, p))
  }

  /** How the excess of an over-full floor allocation is taken back: the row with the least remainder is emptied before
      the next one is touched. */
  ghost predicate TakenBack(raws: seq<real>, counts: seq<int>) {
    && |counts| == |raws|
    && (forall i: nat | i < |raws| :: 0 <= counts[i] <= raws[i].Floor)
    && (forall i: nat, j: nat | i < |raws| && j < |raws| && i != j && LargerFirst(raws, i, j)
          && counts[i] < raws[i].Floor :: counts[j] == 0)
  }

  /** Adds the missing units in remainder order, as often round as needed. */
  method DealOut(raws: seq<real>, count: array<int>, remaining: int)
    returns (ghost order: seq<nat>)
    requires raws != [] && count.Length == |raws| && count[..] == Floors(raws)
    modifies count
    ensures remaining <= 0 ==> count[..] == Floors(raws)
    ensures remaining >= 0 ==>
              Dealt(raws, order, count[..], remaining) && Sum(count[..]) == Sum(Floors(raws)) + remaining
  {
    var n := |raws|;
    var byRemainder := Sort(Indices(n), ByRemainder(raws));
    order := byRemainder;
    OrderIsPermutation(raws, n);
    NoneDealt(raws, order);
    var i := 0;
    while i < remaining
      invariant 0 <= i && (i <= remaining || i == 0)
      invariant i == 0 ==> count[..] == Floors(raws)
      invariant Dealt(raws, order, count[..], i) && Sum(count[..]) == Sum(Floors(raws)) + i
      decreases remaining - i
    {
      DealOne(raws, count, byRemainder, i);
      i := i + 1;
    }
  }

  /** Gives one unit to the next row of the round. */
  method DealOne(raws: seq<real>, count: array<int>, byRemainder: seq<nat>, i: nat)
    requires count.Length == |raws| && Dealt(raws, byRemainder, count[..], i)
    modifies count
    ensures Dealt(raws, byRemainder, count[..], i + 1) && Sum(count[..]) == old(Sum(count[..])) + 1
  {
    var row := byRemainder[i % |raws|];
    ghost var was := count[..];
    DealtMore(raws, byRemainder, was, i);
    SumUpdate(was, row, was[row] + 1);
    count[row] := count[row] + 1;
    assert count[..] == was[row := was[row] + 1];
  }

  lemma NoneDealt(raws: seq<real>, order: seq<nat>)
    requires raws != [] && Ranks(raws, order)
    ensures Dealt(raws, order, Floors(raws), 0)
  {
    DivMod(0, 0, |raws|);
  }

  lemma DealtMore(raws: seq<real>, order: seq<nat>, counts: seq<int>, i: nat)
    requires Dealt(raws, order, counts, i)
    ensures var row := order[i % |raws|];
            row < |counts| && Dealt(raws, order, counts[row := counts[row] + 1], i + 1)
  {
    var n := |raws|;
    var row := order[i % n];
    var more := counts[row := counts[row] + 1];
    NextInRound(i, n);
    var k := i + 1;
    forall p: nat | p < n ensures DealtAt(raws, order, more, k, p) {
      assert DealtAt(raws, order, counts, i, p);
      assert p != i % n ==> order[p] != row;
    }
  }

  lemma NextInRound(i: nat, n: nat)
    requires n > 0
    ensures if i % n == n - 1 then (i + 1) % n == 0 && (i + 1) / n == i / n + 1
              else (i + 1) % n == i % n + 1 && (i + 1) / n == i / n
  {
    var q, r := i / n, i % n;
    assert i == q * n + r;
    if r == n - 1 {
      assert i + 1 == (q + 1) * n;
      DivMod(q + 1, 0, n);
    } else {
      assert i + 1 == q * n + (r + 1);
      DivMod(q, r + 1, n);
    }
  }

  lemma DivMod(q: nat, r: nat, n: nat)
    requires r < n
    ensures (q * n + r) / n == q && (q * n + r) % n == r
  {
    var x := q * n + r;
    assert x == (x / n) * n + x % n;
    if x / n < q { MulMonotone(x / n + 1, q, n); MulLeft(x / n, 1, n); }
    if x / n > q { MulMonotone(q + 1, x / n, n); MulLeft(q, 1, n); }
  }

  /** Rows that still have units, least remainder first, then highest index. */
  method Candidates(raws: seq<real>, count: array<int>) returns (candidates: seq<nat>)
    requires count.Length == |raws|
    ensures forall j: nat :: j in candidates <==> j < |raws| && count[j] > 0
  {
    candidates := [];
    for i := 0 to |raws|
      invariant forall j: nat :: j in candidates <==> j < i && count[j] > 0
    {
      if count[i] > 0 {
        candidates := candidates + [i];
      }
    }
  }

  lemma FirstIsLeast(candidates: seq<nat>, raws: seq<real>)
    requires candidates != [] && forall j | j in candidates :: j < |raws|
    ensures var sorted := Sort(candidates, ByRemainderReversed(raws));
            sorted != [] && sorted[0] in candidates && forall j | j in candidates :: LargerFirst(raws, j, sorted[0])
  {
    var le := ByRemainderReversed(raws);
    var sorted := Sort(candidates, le);
    SortIsPermutation(candidates, le);
    SortIsSorted(candidates, le);
    assert sorted[0] in multiset(sorted);
    forall j | j in candidates ensures LargerFirst(raws, j, sorted[0]) {
      assert j in multiset(candidates);
      var k :| 0 <= k < |sorted| && sorted[k] == j;
      assert k > 0 ==> le(sorted[0], sorted[k]);
    }
  }

  lemma TakenOneMore(raws: seq<real>, counts: seq<int>, row: nat)
    requires TakenBack(raws, counts) && row < |raws| && counts[row] > 0
    requires forall j: nat | j < |raws| && counts[j] > 0 :: LargerFirst(raws, j, row)
    ensures TakenBack(raws, counts[row := counts[row] - 1])
  {
    var after := counts[row := counts[row] - 1];
    forall i: nat, j: nat | i < |raws| && j < |raws| && i != j && LargerFirst(raws, i, j) && after[i] < raws[i].Floor
      ensures after[j] == 0
    {
      assert counts[j] > 0 ==> LargerFirst(raws, j, row);
    }
  }

  /** Takes the excess units back, one at a time. */
  method TakeBack(raws: seq<real>, count: array<int>, total: nat)
    requires count.Length == |raws| && (Sum(count[..]) > total ==> TakenBack(raws, count[..]))
    modifies count
    ensures if Sum(old(count[..])) <= total then count[..] == old(count[..])
            else TakenBack(raws, count[..]) && Sum(count[..]) == total
  {
    var sum := SumOf(count);
    while sum > total
      invariant sum == Sum(count[..])
      invariant if Sum(old(count[..])) <= total then count[..] == old(count[..])
                else TakenBack(raws, count[..]) && sum >= total
      decreases sum
    {
      TakeOne(raws, count);
      sum := SumOf(count);
    }
  }

  /** Takes one unit from the candidate with the least remainder. */
  method TakeOne(raws: seq<real>, count: array<int>)
    requires count.Length == |raws| && TakenBack(raws, count[..]) && Sum(count[..]) > 0
    modifies count
    ensures TakenBack(raws, count[..]) && Sum(count[..]) == old(Sum(count[..])) - 1
  {
    var candidates := Candidates(raws, count);
    if candidates == [] {
      SumAtMost(count[..]);
    }
    FirstIsLeast(candidates, raws);
    var row := Sort(candidates, ByRemainderReversed(raws))[0];
    ghost var was := count[..];
    TakenOneMore(raws, was, row);
    SumUpdate(was, row, was[row] - 1);
    count[row] := count[row] - 1;
    assert count[..] == was[row := was[row] - 1];
  }

  method SumOf(count: array<int>) returns (sum: int)
    ensures sum == Sum(count[..])
  {
    sum := 0;
    for i := 0 to count.Length
      invariant sum == Sum(count[..i])
    {
      assert count[..i + 1][..i] == count[..i];
      sum := sum + count[i];
    }
    assert count[..count.Length] == count[..];
  }

  /** Splits the total over the kinds: floors first, then the surplus dealt out or the excess taken back. */
  method AllocateFixedCounts(total: nat, specs: seq<Spec>) returns (result: seq<KindCount>, ghost order: seq<nat>)
    requires specs != []
    ensures |result| == |specs| && forall i | 0 <= i < |specs| ::
              result[i].kind == specs[i].kind && result[i].count >= 0
    ensures Sum(CountsOf(result)) == total
    ensures var raws := Raws(total, specs);
            var floors := Sum(Floors(raws));
            if floors <= total then Dealt(raws, order, CountsOf(result), total - floors)
                else TakenBack(raws, CountsOf(result))
  {
    var raws := Raws(total, specs);
    var count := new int[|specs|](i requires 0 <= i < |specs| => raws[i].Floor);
    assert count[..] == Floors(raws);
    NonNegativeFloors(total, specs);
    var sum := SumOf(count);
    order := DealOut(raws, count, total - sum);
    if sum <= total {
      DealtIsAboveFloor(raws, order, count[..], total - sum);
    }
    TakeBack(raws, count, total);
    result := seq(|specs|, i requires 0 <= i < |specs| reads count => KindCount(specs[i].kind, count[i]));
    assert CountsOf(result) == count[..];
  }

  lemma NonNegativeFloors(total: nat, specs: seq<Spec>)
    ensures forall i | 0 <= i < |specs| :: Raws(total, specs)[i] >= 0.0 && Floors(Raws(total, specs))[i] >= 0
    ensures TakenBack(Raws(total, specs), Floors(Raws(total, specs)))
  {
    forall i | 0 <= i < |specs| ensures Raws(total, specs)[i] >= 0.0 {
      if specs[i].weight > 0.0 { RealProductNonNegative(specs[i].weight, total as real); }
    }
  }

  lemma RealProductNonNegative(x: real, y: real)
    requires x >= 0.0 && y >= 0.0
    ensures x * y >= 0.0
  {
  }

  lemma QuotientNonNegative(x: nat, n: nat)
    requires n > 0
    ensures x / n >= 0
  {
  }

  lemma DealtIsAboveFloor(raws: seq<real>, order: seq<nat>, counts: seq<int>, surplus: nat)
    requires Dealt(raws, order, counts, surplus)
    ensures forall i | 0 <= i < |raws| :: counts[i] >= raws[i].Floor
  {
    QuotientNonNegative(surplus, |raws|);
    forall i: nat | i < |raws| ensures counts[i] >= raws[i].Floor {
      assert i in order;
      var p :| 0 <= p < |order| && order[p] == i;
      assert DealtAt(raws, order, counts, surplus, p);
    }
  }

  // ----- quota -----

  /** A count is its exact share rounded down or up. */
  ghost predicate WithinQuota(raw: real, count: int) {
    raw - 1.0 < count as real < raw + 1.0
  }

  /** When the shares add up to the total, every count is the floor or the ceiling of its share, and the extra units go
      to the largest remainders. */
  lemma QuotaHolds(raws: seq<real>, order: seq<nat>, counts: seq<int>, total: nat)
    requires raws != [] && RealSum(raws) == total as real
    requires Sum(Floors(raws)) <= total ==> Dealt(raws, order, counts, total - Sum(Floors(raws)))
    ensures 0 <= total - Sum(Floors(raws)) < |raws| && Permutes(order, |raws|) && |counts| == |raws|
    ensures forall i | 0 <= i < |raws| :: WithinQuota(raws[i], counts[i])
    ensures forall p | 0 <= p < |raws| :: counts[order[p]] == raws[order[p]].Floor + if p < total - Sum(Floors(raws))
              then 1 else 0
  {
    SharesSplit(raws);
    SumOfFractions(Remainders(raws));
    var surplus := total - Sum(Floors(raws));
    assert 0 <= surplus < |raws|;
    forall p: nat | p < |raws| ensures counts[order[p]] == raws[order[p]].Floor + if p < surplus then 1 else 0 {
      UnitOf(raws, order, counts, surplus, p);
    }
    forall i: nat | i < |raws| ensures WithinQuota(raws[i], counts[i]) {
      assert i in order;
      var p :| 0 <= p < |order| && order[p] == i;
      UnitOf(raws, order, counts, surplus, p);
    }
  }

  /** A surplus that is not a whole round: the rows it reaches get one unit, which takes none past its ceiling. */
  lemma UnitOf(raws: seq<real>, order: seq<nat>, counts: seq<int>, surplus: nat, p: nat)
    requires Dealt(raws, order, counts, surplus) && surplus < |raws| && p < |raws|
    requires RealSum(Remainders(raws)) == surplus as real
    ensures order[p] < |raws| && counts[order[p]] == raws[order[p]].Floor + if p < surplus then 1 else 0
    ensures WithinQuota(raws[order[p]], counts[order[p]])
  {
    DivMod(0, surplus, |raws|);
    assert DealtAt(raws, order, counts, surplus, p);
    if p < surplus { ExtraHasRemainder(raws, order, p, surplus); }
  }

  lemma InPrefix(order: seq<nat>, p: nat, q: nat)
    requires q < p <= |order|
    ensures order[q] in order[..p]
  {
    assert order[..p][q] == order[q];
  }

  lemma NoLargerRemainder(raws: seq<real>, order: seq<nat>, p: nat, q: nat)
    requires Ranks(raws, order) && p <= q < |raws|
    ensures Remainder(raws[order[q]]) <= Remainder(raws[order[p]])
  {
    assert q > p ==> LargerFirst(raws, order[p], order[q]);
  }

  /** From a row without a remainder on, no row has one. */
  lemma RestHasNone(raws: seq<real>, order: seq<nat>, p: nat)
    requires Ranks(raws, order) && p < |raws| && Remainder(raws[order[p]]) <= 0.0
    ensures forall i: nat | i < |raws| && i !in Places(order, p) :: Remainder(raws[i]) == 0.0
  {
    forall i: nat | i < |raws| && i !in Places(order, p) ensures Remainder(raws[i]) == 0.0 {
      assert i in order;
      var q: nat :| q < |order| && order[q] == i;
      if q < p {
        InPrefix(order, p, q);
        assert false;
      }
      NoLargerRemainder(raws, order, p, q);
    }
  }

  /** A row within the surplus has a positive remainder: otherwise fewer rows than the surplus had one. */
  lemma ExtraHasRemainder(raws: seq<real>, order: seq<nat>, p: nat, surplus: nat)
    requires Ranks(raws, order) && p < surplus < |raws|
    requires RealSum(Remainders(raws)) == surplus as real
    ensures Remainder(raws[order[p]]) > 0.0
  {
    if Remainder(raws[order[p]]) <= 0.0 {
      RestHasNone(raws, order, p);
      FewPositive(Remainders(raws), Places(order, p));
    }
  }

  /** Of two rows of which only one gets an extra unit, that one has the larger fractional part, or the same one and the
      lower index. */
  lemma ExtraGoesToLargest(raws: seq<real>, order: seq<nat>, counts: seq<int>, surplus: nat, i: nat, j: nat)
    requires Dealt(raws, order, counts, surplus) && i < |raws| && j < |raws|
    requires counts[i] - raws[i].Floor > counts[j] - raws[j].Floor
    ensures var a, b := raws[i] - raws[i].Floor as real, raws[j] - raws[j].Floor as real;
            a > b || (a == b && i < j)
  {
    assert i in order && j in order;
    var p: nat :| p < |order| && order[p] == i;
    var q: nat :| q < |order| && order[q] == j;
    assert DealtAt(raws, order, counts, surplus, p) && DealtAt(raws, order, counts, surplus, q);
    assert LargerFirst(raws, order[p], order[q]);
  }

  /** Of two rows of which one lost units and the other has units left, the first has the smaller fractional part, or
      the same one and the higher index. */
  lemma LeastIsTakenFirst(raws: seq<real>, counts: seq<int>, i: nat, j: nat)
    requires TakenBack(raws, counts) && i < |raws| && j < |raws| && i != j
    requires counts[i] < raws[i].Floor && counts[j] > 0
    ensures var a, b := raws[i] - raws[i].Floor as real, raws[j] - raws[j].Floor as real;
            a < b || (a == b && i > j)
  {
    assert !LargerFirst(raws, i, j);
  }

  // ----- the plan of a run -----

  /** The fixed-mode weights of the four request kinds. */
  function KindSpecs(pManage: real, epsilon: real, gammaOnChain: real): seq<Spec> {
    [ Spec("management", pManage),
      Spec("cross-domain", (1.0 - pManage) * epsilon),
      Spec("intra-on-chain", (1.0 - pManage) * (1.0 - epsilon) * gammaOnChain),
      Spec("intra-off-chain", (1.0 - pManage) * (1.0 - epsilon) * (1.0 - gammaOnChain)) ]
  }

  ghost predicate Fraction(x: real) {
    0.0 <= x <= 1.0
  }

  function Weights(specs: seq<Spec>): seq<real> {
    seq(|specs|, i requires 0 <= i < |specs| => specs[i].weight)
  }

  /** Shares of non-negative weights add up in proportion. */
  lemma {:induction false} SharesAddUp(total: nat, specs: seq<Spec>)
    requires forall i | 0 <= i < |specs| :: specs[i].weight >= 0.0
    ensures RealSum(Raws(total, specs)) == RealSum(Weights(specs)) * total as real
  {
    if specs != [] {
      var n := |specs| - 1;
      SharesAddUp(total, specs[..n]);
      assert Raws(total, specs)[..n] == Raws(total, specs[..n]);
      assert Weights(specs)[..n] == Weights(specs[..n]);
      RealMulLeft(RealSum(Weights(specs[..n])), specs[n].weight, total as real);
    }
  }

  lemma RealMulLeft(x: real, y: real, t: real)
    ensures (x + y) * t == x * t + y * t
  {
  }

  lemma Distributes(x: real, y: real, z: real)
    requires y + z == 1.0
    ensures x * y + x * z == x
  {
    assert x * y + x * z == x * (y + z);
  }

  /** The four weights are non-negative and add up to one. */
  lemma KindWeightsAddUp(pManage: real, epsilon: real, gammaOnChain: real)
    requires Fraction(pManage) && Fraction(epsilon) && Fraction(gammaOnChain)
    ensures var specs := KindSpecs(pManage, epsilon, gammaOnChain);
            (forall i | 0 <= i < 4 :: specs[i].weight >= 0.0) && RealSum(Weights(specs)) == 1.0
  {
    var a, b, g := 1.0 - pManage, 1.0 - epsilon, 1.0 - gammaOnChain;
    var ab := a * b;
    RealProductNonNegative(a, epsilon);
    RealProductNonNegative(a, b);
    RealProductNonNegative(ab, gammaOnChain);
    RealProductNonNegative(ab, g);
    Distributes(a, epsilon, b);
    Distributes(ab, gammaOnChain, g);
    var w := Weights(KindSpecs(pManage, epsilon, gammaOnChain));
    assert w[0] == pManage && w[1] == a * epsilon && w[2] == ab * gammaOnChain && w[3] == ab * g;
    assert w == [w[0], w[1], w[2], w[3]];
    SumOfFour(w[0], w[1], w[2], w[3]);
  }

  /** The kinds and their shares: management's of all requests, cross-domain's of the rest, and on-chain's of the
      requests inside a domain. */
  lemma KindShares(pManage: real, epsilon: real, gammaOnChain: real)
    ensures var specs := KindSpecs(pManage, epsilon, gammaOnChain);
            var w := Weights(specs);
            && specs[0].kind == "management" && w[0] == pManage * (w[0] + w[1] + w[2] + w[3])
            && specs[1].kind == "cross-domain" && w[1] == epsilon * (w[1] + w[2] + w[3])
            && specs[2].kind == "intra-on-chain" && w[2] == gammaOnChain * (w[2] + w[3])
            && specs[3].kind == "intra-off-chain" && w[0] + w[1] + w[2] + w[3] == 1.0
  {
    var a, b, g := 1.0 - pManage, 1.0 - epsilon, 1.0 - gammaOnChain;
    Distributes(a, epsilon, b);
    Distributes(a * b, gammaOnChain, g);
  }

  /** The count is the kind's weight times the total, rounded down or up. */
  ghost predicate NearShare(total: nat, spec: Spec, count: int) {
    spec.weight * total as real - 1.0 < count as real < spec.weight * total as real + 1.0
  }

  lemma RawIsShare(total: nat, spec: Spec, count: int)
    requires spec.weight >= 0.0
    ensures WithinQuota(Raw(total, spec), count) <==> NearShare(total, spec, count)
  {
  }

  lemma SumOfFour(a: real, b: real, c: real, d: real)
    ensures RealSum([a, b, c, d]) == a + b + c + d
  {
    assert [a, b, c, d][..3] == [a, b, c] && [a, b, c][..2] == [a, b] && [a, b][..1] == [a];
    assert RealSum([a]) == a;
    assert RealSum([a, b]) == a + b;
    assert RealSum([a, b, c]) == a + b + c;
  }

  /** Fixed mode: the counts are allocated and interleaved. Every slot is filled, and each kind is planned as often as
      its share rounded down or up. */
  method BuildKindPlan(total: nat, pManage: real, epsilon: real, gammaOnChain: real)
    returns (plan: seq<string>, ghost counts: seq<KindCount>)
    requires Fraction(pManage) && Fraction(epsilon) && Fraction(gammaOnChain)
    ensures |plan| == total && |counts| == 4
    ensures forall i | 0 <= i < 4 ::
              var spec := KindSpecs(pManage, epsilon, gammaOnChain)[i];
              counts[i].kind == spec.kind && Occurrences(plan, spec.kind) == counts[i].count
                  && NearShare(total, spec, counts[i].count)
  {
    var specs := KindSpecs(pManage, epsilon, gammaOnChain);
    var allotted, order := AllocateFixedCounts(total, specs);
    KindWeightsAddUp(pManage, epsilon, gammaOnChain);
    SharesAddUp(total, specs);
    QuotaHolds(Raws(total, specs), order, CountsOf(allotted), total);
    ghost var picks;
    plan, picks := InterleaveFixedPlan(allotted);
    counts := allotted;
    assert DistinctKinds(allotted);
    forall i: nat | i < 4
      ensures |plan| == total && counts[i].kind == specs[i].kind
      ensures Occurrences(plan, specs[i].kind) == counts[i].count
      ensures NearShare(total, specs[i], counts[i].count)
    {
      PlanMatchesRequest(allotted, plan, picks, i);
      RawIsShare(total, specs[i], counts[i].count);
      assert WithinQuota(Raws(total, specs)[i], CountsOf(allotted)[i]);
    }
    assert |plan| == total by { PlanMatchesRequest(allotted, plan, picks, 0); }
  }
}
