/** The smooth weighted interleaver: spreads kinds evenly over a fixed plan. */
module Interleaving {
  import opened Arithmetic
  import opened Sorting

  datatype KindCount = KindCount(kind: string, count: int)

  function Sum(c: seq<int>): int {
    if c == [] then 0 else Sum(c[..|c| - 1]) + c[|c| - 1]
  }

  /** How often i was picked. */
  function Used(picks: seq<nat>, i: nat): nat {
    if picks == [] then 0 else
    Used(picks[..|picks| - 1], i) + if picks[|picks| - 1] == i then 1 else 0
  }

  predicate Positive(c: seq<int>) {
    forall i | 0 <= i < |c| :: c[i] > 0
  }

  /** i's score before the next pick: what it has earned less what its picks cost. An exhausted kind goes on earning
      here, unlike in the program; it is never compared. */
  function Score(c: seq<int>, picks: seq<nat>, i: nat): int
    requires i < |c|
  {
    |picks| * c[i] - Sum(c) * Used(picks, i)
  }

  predicate Available(c: seq<int>, picks: seq<nat>, i: nat)
    requires i < |c|
  {
    Used(picks, i) < c[i]
  }

  /** a beats b: higher score after earning, lower index on ties. */
  predicate Beats(c: seq<int>, picks: seq<nat>, a: nat, b: nat)
    requires a < |c| && b < |c|
  {
    var x, y := Score(c, picks, a) + c[a], Score(c, picks, b) + c[b];
    x > y || (x == y && a <= b)
  }

  /** i is what the interleaver picks next. */
  ghost predicate IsChoice(c: seq<int>, picks: seq<nat>, i: nat) {
    && i < |c| && Available(c, picks, i)
    && forall j: nat | j < |c| && Available(c, picks, j) :: Beats(c, picks, i, j)
  }

  /** Every pick was the choice after the picks before it. */
  ghost predicate IsPlan(c: seq<int>, picks: seq<nat>) {
    forall k {:trigger picks[k]} | 0 <= k < |picks| :: IsChoice(c, picks[..k], picks[k])
  }

  lemma {:induction false} UsedCounts(picks: seq<nat>, i: nat)
    ensures Used(picks, i) == multiset(picks)[i]
  {
    if picks != [] {
      var n := |picks| - 1;
      UsedCounts(picks[..n], i);
      assert picks == picks[..n] + [picks[n]];
    }
  }

  /** At every slot k + 1 of T the kind picked is not exhausted, and of all kinds that are not it is furthest behind:
      (k + 1) times its count less T times its uses is greatest, and among equals its index is lowest. */
  lemma PickIsFurthestBehind(c: seq<int>, picks: seq<nat>, k: nat, j: nat)
    requires IsPlan(c, picks) && k < |picks| && j < |c|
    ensures var i, used, total := picks[k], multiset(picks[..k]), Sum(c);
            && i < |c| && used[i] < c[i]
            && (used[j] < c[j] ==>
                  && (k + 1) * c[i] - total * used[i] >= (k + 1) * c[j] - total * used[j]
                  && (j < i ==> (k + 1) * c[i] - total * used[i] > (k + 1) * c[j] - total * used[j]))
  {
    var i := picks[k];
    assert IsChoice(c, picks[..k], i);
    NextScore(c, picks[..k], i);
    NextScore(c, picks[..k], j);
    assert Available(c, picks[..k], j) ==> Beats(c, picks[..k], i, j);
  }

  /** A kind's score after earning for the next slot. */
  lemma NextScore(c: seq<int>, picks: seq<nat>, i: nat)
    requires i < |c|
    ensures Used(picks, i) == multiset(picks)[i]
    ensures Score(c, picks, i) + c[i] == (|picks| + 1) * c[i] - Sum(c) * multiset(picks)[i]
  {
    UsedCounts(picks, i);
    MulLeft(|picks|, 1, c[i]);
  }

  lemma PlanPrefix(c: seq<int>, picks: seq<nat>, k: nat)
    requires IsPlan(c, picks) && k <= |picks|
    ensures IsPlan(c, picks[..k])
  {
    forall j | 0 <= j < k ensures IsChoice(c, picks[..k][..j], picks[..k][j]) {
      assert picks[..k][..j] == picks[..j] && picks[..k][j] == picks[j];
    }
  }

  lemma PlanGrows(c: seq<int>, picks: seq<nat>, i: nat)
    requires IsPlan(c, picks) && IsChoice(c, picks, i)
    ensures IsPlan(c, picks + [i])
  {
    var more := picks + [i];
    forall j | 0 <= j < |more| ensures IsChoice(c, more[..j], more[j]) {
      if j < |picks| {
        assert more[..j] == picks[..j] && more[j] == picks[j];
      } else {
        assert more[..j] == picks;
      }
    }
  }

  lemma ChoiceIsUnique(c: seq<int>, picks: seq<nat>, a: nat, b: nat)
    requires IsChoice(c, picks, a) && IsChoice(c, picks, b)
    ensures a == b
  {
    assert Beats(c, picks, a, b) && Beats(c, picks, b, a);
  }

  /** The counts determine the plan. */
  lemma {:induction false} PlanIsUnique(c: seq<int>, a: seq<nat>, b: seq<nat>)
    requires IsPlan(c, a) && IsPlan(c, b) && |a| == |b|
    ensures a == b
  {
    if a != [] {
      var n := |a| - 1;
      PlanPrefix(c, a, n);
      PlanPrefix(c, b, n);
      PlanIsUnique(c, a[..n], b[..n]);
      assert IsChoice(c, a[..n], a[n]) && IsChoice(c, b[..n], b[n]);
      ChoiceIsUnique(c, a[..n], a[n], b[n]);
      assert a == a[..n] + [a[n]] && b == b[..n] + [b[n]];
    }
  }

  /** A pick costs the picked kind the total, and everyone earns its count. */
  lemma ScorePush(c: seq<int>, picks: seq<nat>, p: nat, i: nat)
    requires i < |c|
    ensures Score(c, picks + [p], i) == Score(c, picks, i) + c[i] - if p == i then Sum(c) else 0
  {
    assert (picks + [p])[..|picks|] == picks;
    MulLeft(|picks|, 1, c[i]);
    MulRight(Sum(c), Used(picks, i), 1);
  }

  // ----- sums -----

  /** Uses of the first m kinds. */
  function UsedSum(picks: seq<nat>, m: nat): nat {
    if m == 0 then 0 else UsedSum(picks, m - 1) + Used(picks, m - 1)
  }

  function ScoreSum(c: seq<int>, picks: seq<nat>, m: nat): int
    requires m <= |c|
  {
    if m == 0 then 0 else ScoreSum(c, picks, m - 1) + Score(c, picks, m - 1)
  }

  lemma {:induction false} UsedSumPush(picks: seq<nat>, i: nat, m: nat)
    ensures UsedSum(picks + [i], m) == UsedSum(picks, m) + if i < m then 1 else 0
  {
    if m > 0 {
      UsedSumPush(picks, i, m - 1);
      assert (picks + [i])[..|picks|] == picks;
    }
  }

  lemma {:induction false} NothingUsed(m: nat)
    ensures UsedSum([], m) == 0
  {
    if m > 0 { NothingUsed(m - 1); }
  }

  /** Each slot is one use. */
  lemma {:induction false} UsesAreSlots(c: seq<int>, picks: seq<nat>)
    requires forall k | 0 <= k < |picks| :: picks[k] < |c|
    ensures UsedSum(picks, |c|) == |picks|
  {
    if picks == [] {
      NothingUsed(|c|);
    } else {
      var n := |picks| - 1;
      UsesAreSlots(c, picks[..n]);
      assert picks == picks[..n] + [picks[n]];
      UsedSumPush(picks[..n], picks[n], |c|);
    }
  }

  lemma {:induction false} ScoreSumIs(c: seq<int>, picks: seq<nat>, m: nat)
    requires m <= |c|
    ensures ScoreSum(c, picks, m) == |picks| * Sum(c[..m]) - Sum(c) * UsedSum(picks, m)
  {
    if m > 0 {
      ScoreSumIs(c, picks, m - 1);
      assert c[..m][..m - 1] == c[..m - 1];
      SplitBoth(|picks|, Sum(c[..m]), Sum(c[..m - 1]), c[m - 1], Sum(c), UsedSum(picks, m), UsedSum(picks, m - 1),
          Used(picks, m - 1));
    }
  }

  lemma SplitBoth(n: int, x: int, s: int, e: int, t: int, y: int, u: int, w: int)
    requires x == s + e && y == u + w
    ensures n * x - t * y == (n * s - t * u) + (n * e - t * w)
  {
    MulRight(n, s, e);
    MulRight(t, u, w);
  }

  /** Scores always sum to zero. */
  lemma ScoresBalance(c: seq<int>, picks: seq<nat>)
    requires forall k | 0 <= k < |picks| :: picks[k] < |c|
    ensures ScoreSum(c, picks, |c|) == 0
  {
    UsesAreSlots(c, picks);
    ScoreSumIs(c, picks, |c|);
    assert c[..|c|] == c;
    MulCommutes(|picks|, Sum(c));
  }

  lemma {:induction false} SumPositive(c: seq<int>)
    requires Positive(c)
    ensures Sum(c) >= |c| && (c != [] ==> Sum(c) > 0)
  {
    if c != [] { SumPositive(c[..|c| - 1]); }
  }

  /** If no score after earning is positive, their sum is not. */
  lemma {:induction false} SomeScorePositive(c: seq<int>, picks: seq<nat>, m: nat)
    requires m <= |c| && ScoreSum(c, picks, m) + Sum(c[..m]) > 0
    ensures exists i: nat :: i < m && Score(c, picks, i) + c[i] > 0
  {
    if m > 0 && Score(c, picks, m - 1) + c[m - 1] <= 0 {
      assert c[..m][..m - 1] == c[..m - 1];
      SomeScorePositive(c, picks, m - 1);
    }
  }

  /** A kind with a positive score is not exhausted while slots remain. */
  lemma PositiveIsAvailable(c: seq<int>, picks: seq<nat>, i: nat)
    requires Positive(c) && i < |c| && |picks| < Sum(c) && Used(picks, i) <= c[i]
    requires Score(c, picks, i) + c[i] > 0
    ensures Available(c, picks, i)
  {
    MulMonotone(|picks| + 1, Sum(c), c[i]);
    MulLeft(|picks|, 1, c[i]);
  }

  // ----- fairness -----

  /** After k of total slots with n kinds, a kind of this count was used fewer than k * count / total + 1 times, and at
      least k * count / total - (n - 1) times. */
  ghost predicate WithinShare(used: int, k: int, count: int, total: int, n: int) {
    total * used < k * count + total && total * used >= k * count - total * (n - 1)
  }

  /** Kind i has been used no more than its count, and has its share of the slots so far. */
  ghost predicate Fair(c: seq<int>, picks: seq<nat>, i: nat)
    requires i < |c|
  {
    && Used(picks, i) <= c[i]
    && WithinShare(Used(picks, i), |picks|, c[i], Sum(c), |c|)
  }

  /** The choice has a positive score: some available kind has, and the choice beats it. */
  lemma ChoiceIsPositive(c: seq<int>, picks: seq<nat>, i: nat)
    requires Positive(c) && |picks| < Sum(c) && IsChoice(c, picks, i)
    requires forall k | 0 <= k < |picks| :: picks[k] < |c|
    requires forall j: nat | j < |c| :: Used(picks, j) <= c[j]
    ensures Score(c, picks, i) + c[i] > 0
  {
    ScoresBalance(c, picks);
    assert c[..|c|] == c;
    SomeScorePositive(c, picks, |c|);
    var j: nat :| j < |c| && Score(c, picks, j) + c[j] > 0;
    PositiveIsAvailable(c, picks, j);
    assert Beats(c, picks, i, j);
  }

  lemma {:induction false} PicksInRange(c: seq<int>, picks: seq<nat>)
    requires IsPlan(c, picks)
    ensures forall k | 0 <= k < |picks| :: picks[k] < |c|
    ensures forall j: nat | j < |c| :: Used(picks, j) <= c[j] || c[j] < 0
  {
    forall k | 0 <= k < |picks| ensures picks[k] < |c| {
      assert IsChoice(c, picks[..k], picks[k]);
    }
    if picks != [] {
      var n := |picks| - 1;
      PlanPrefix(c, picks, n);
      PicksInRange(c, picks[..n]);
      assert IsChoice(c, picks[..n], picks[n]);
    }
  }

  /** No kind runs ahead of its share by a whole slot. */
  lemma {:induction false} NoneAhead(c: seq<int>, picks: seq<nat>, i: nat)
    requires Positive(c) && IsPlan(c, picks) && |picks| <= Sum(c) && i < |c|
    ensures Score(c, picks, i) > -Sum(c)
    decreases |picks|
  {
    SumPositive(c);
    if picks == [] {
    } else {
      var n := |picks| - 1;
      var before := picks[..n];
      PlanPrefix(c, picks, n);
      NoneAhead(c, before, i);
      assert IsChoice(c, before, picks[n]);
      PicksInRange(c, before);
      assert picks == before + [picks[n]];
      ScorePush(c, before, picks[n], i);
      if picks[n] == i {
        ChoiceIsPositive(c, before, i);
      }
    }
  }

  /** Scores of the first m kinds, leaving one out. */
  lemma {:induction false} OthersBound(c: seq<int>, picks: seq<nat>, i: nat, m: nat)
    requires m <= |c| && i < |c|
    requires forall j: nat | j < |c| :: Score(c, picks, j) >= -Sum(c)
    ensures ScoreSum(c, picks, m) - (if i < m then Score(c, picks, i) else 0) +
              Sum(c) * (if i < m then m - 1 else m) >= 0
  {
    if m > 0 {
      OthersBound(c, picks, i, m - 1);
      MulRight(Sum(c), if i < m - 1 then m - 2 else m - 1, 1);
    }
  }

  /** Fairness of every prefix of the plan. */
  lemma EveryPrefixIsFair(c: seq<int>, picks: seq<nat>, k: nat, i: nat)
    requires Positive(c) && IsPlan(c, picks) && |picks| <= Sum(c) && k <= |picks| && i < |c|
    ensures Fair(c, picks[..k], i)
  {
    var p := picks[..k];
    PlanPrefix(c, picks, k);
    PicksInRange(c, p);
    forall j: nat | j < |c| ensures Score(c, p, j) > -Sum(c) {
      NoneAhead(c, p, j);
    }
    ScoresBalance(c, p);
    OthersBound(c, p, i, |c|);
  }

  /** A slot can always be filled until the total is reached. */
  lemma SlotAvailable(c: seq<int>, picks: seq<nat>)
    requires Positive(c) && IsPlan(c, picks) && |picks| < Sum(c)
    ensures exists i: nat :: i < |c| && Available(c, picks, i)
  {
    PicksInRange(c, picks);
    ScoresBalance(c, picks);
    assert c[..|c|] == c;
    SomeScorePositive(c, picks, |c|);
    var j: nat :| j < |c| && Score(c, picks, j) + c[j] > 0;
    PositiveIsAvailable(c, picks, j);
  }

  /** A full plan uses every kind exactly as often as its count. */
  lemma FullPlanIsExact(c: seq<int>, picks: seq<nat>, i: nat)
    requires Positive(c) && IsPlan(c, picks) && |picks| == Sum(c) && i < |c|
    ensures Used(picks, i) == c[i]
  {
    PicksInRange(c, picks);
    UsesAreSlots(c, picks);
    assert c[..|c|] == c;
    ShortfallShows(c, picks, i, |c|);
  }

  lemma {:induction false} ShortfallShows(c: seq<int>, picks: seq<nat>, i: nat, m: nat)
    requires m <= |c| && forall j: nat | j < |c| :: Used(picks, j) <= c[j]
    ensures UsedSum(picks, m) <= Sum(c[..m])
    ensures i < m && Used(picks, i) < c[i] ==> UsedSum(picks, m) < Sum(c[..m])
  {
    if m > 0 {
      ShortfallShows(c, picks, i, m - 1);
      assert c[..m][..m - 1] == c[..m - 1];
    }
  }

  // ----- the algorithm -----

  /** The kinds with a positive count, in order. */
  function Entries(counts: seq<KindCount>): (r: seq<KindCount>)
    ensures forall i | 0 <= i < |r| :: r[i].count > 0
  {
    if counts == [] then [] else
    var n := |counts| - 1;
    Entries(counts[..n]) + if counts[n].count > 0 then [counts[n]] else []
  }

  function CountsOf(entries: seq<KindCount>): seq<int> {
    seq(|entries|, i requires 0 <= i < |entries| => entries[i].count)
  }

  predicate HigherFirst(score: seq<int>, a: nat, b: nat) {
    if a < |score| && b < |score| then score[a] > score[b] || (score[a] == score[b] && a <= b) else b >= |score|
  }

  function ByScore(score: seq<int>): (nat, nat) -> bool {
    (a: nat, b: nat) => HigherFirst(score, a, b)
  }

  lemma FirstIsHighest(available: seq<nat>, score: seq<int>)
    requires available != []
    ensures var sorted := Sort(available, ByScore(score));
            sorted != [] && sorted[0] in available && forall j | j in available :: HigherFirst(score, sorted[0], j)
  {
    var sorted := Sort(available, ByScore(score));
    SortIsPermutation(available, ByScore(score));
    SortIsSorted(available, ByScore(score));
    assert sorted[0] in multiset(sorted);
    forall j | j in available ensures HigherFirst(score, sorted[0], j) {
      assert j in multiset(available);
      var k :| 0 <= k < |sorted| && sorted[k] == j;
      assert k > 0 ==> ByScore(score)(sorted[0], sorted[k]);
    }
  }

  /** Fills every slot with the available kind of highest score. */
  method InterleaveFixedPlan(counts: seq<KindCount>) returns (plan: seq<string>, ghost picks: seq<nat>)
    ensures var entries := Entries(counts);
            && IsPlan(CountsOf(entries), picks) && |plan| == |picks| == Sum(CountsOf(entries))
            && forall k | 0 <= k < |plan| :: picks[k] < |entries| && plan[k] == entries[picks[k]].kind
    ensures |plan| == Sum(CountsOf(Entries(counts)))
    ensures DistinctKinds(Entries(counts)) ==> PlanIsRight(Entries(counts), plan)
  {
    var entries := Entries(counts);
    ghost var c := CountsOf(entries);
    var used, score := new nat[|entries|](_ => 0), new int[|entries|](_ => 0);
    var total := Total(entries);
    plan, picks := [], [];
    SumPositive(c);
    var slot := 0;
    while slot < total
      invariant IsPlan(c, picks) && |plan| == |picks| == slot <= total
      invariant forall k | 0 <= k < |plan| :: picks[k] < |entries| && plan[k] == entries[picks[k]].kind
      invariant AllTrack(c, picks, used, score)
      decreases total - slot
    {
      var chosen := FillSlot(entries, used, score, total, picks);
      PlanGrows(c, picks, chosen);
      plan, picks := plan + [entries[chosen].kind], picks + [chosen];
      slot := slot + 1;
    }
    if DistinctKinds(entries) { EmittedPlanIsRight(entries, plan, picks); }
  }

  ghost predicate AllTrack(c: seq<int>, picks: seq<nat>, used: array<nat>, score: array<int>)
    reads used, score
  {
    used.Length == score.Length == |c| && forall i: nat | i < |c| :: Tracks(c, picks, i, used[i], score[i])
  }

  /** One slot: everyone available earns, the best is chosen and pays the total. */
  method FillSlot(entries: seq<KindCount>, used: array<nat>, score: array<int>, total: int, ghost picks: seq<nat>)
      returns (chosen: nat)
    requires AllTrack(CountsOf(entries), picks, used, score) && score as object != used as object
    requires total == Sum(CountsOf(entries)) && Positive(CountsOf(entries)) && |picks| < total
               && IsPlan(CountsOf(entries), picks)
    modifies used, score
    ensures IsChoice(CountsOf(entries), picks, chosen) && AllTrack(CountsOf(entries), picks + [chosen], used, score)
  {
    ghost var c := CountsOf(entries);
    Earn(entries, used, score, picks);
    var available := AvailableKinds(entries, used, picks);
    SlotAvailable(c, picks);
    assert available != [];
    FirstIsHighest(available, score[..]);
    chosen := Sort(available, ByScore(score[..]))[0];
    ChosenIsChoice(c, picks, available, score[..], chosen);
    forall i: nat | i < |entries| ensures Picked(c, picks, chosen, i, used[i], score[i]) {
      TracksPick(c, picks, chosen, i, used[i], score[i]);
    }
    used[chosen] := used[chosen] + 1;
    score[chosen] := score[chosen] - total;
  }

  /** An entry's fields: its uses, and its score while it is not exhausted. */
  ghost predicate Tracks(c: seq<int>, picks: seq<nat>, i: nat, used: int, score: int)
    requires i < |c|
  {
    used == Used(picks, i) && (used < c[i] ==> score == Score(c, picks, i))
  }

  /** What the fields become when a kind is chosen. */
  ghost predicate Picked(c: seq<int>, picks: seq<nat>, chosen: nat, i: nat, used: int, score: int)
    requires i < |c|
  {
    if i == chosen then Tracks(c, picks + [chosen], i, used + 1, score - Sum(c))
        else Tracks(c, picks + [chosen], i, used, score)
  }

  lemma TracksPick(c: seq<int>, picks: seq<nat>, chosen: nat, i: nat, used: int, score: int)
    requires i < |c| && used == Used(picks, i) && (used < c[i] ==> score == Score(c, picks, i) + c[i])
    requires chosen == i ==> used < c[i]
    ensures Picked(c, picks, chosen, i, used, score)
  {
    ScorePush(c, picks, chosen, i);
    assert (picks + [chosen])[..|picks|] == picks;
  }

  method Total(entries: seq<KindCount>) returns (total: int)
    ensures total == Sum(CountsOf(entries))
  {
    total := 0;
    for i := 0 to |entries|
      invariant total == Sum(CountsOf(entries)[..i])
    {
      assert CountsOf(entries)[..i + 1][..i] == CountsOf(entries)[..i];
      total := total + entries[i].count;
    }
    assert CountsOf(entries)[..|entries|] == CountsOf(entries);
  }

  /** Every entry that is not exhausted earns its count. */
  method Earn(entries: seq<KindCount>, used: array<nat>, score: array<int>, ghost picks: seq<nat>)
    requires used.Length == score.Length == |entries| && score as object != used as object
    requires forall i: nat | i < |entries| :: Tracks(CountsOf(entries), picks, i, used[i], score[i])
    modifies score
    ensures forall i: nat | i < |entries| ::
              && used[i] == Used(picks, i)
              && (used[i] < entries[i].count ==> score[i] == Score(CountsOf(entries), picks, i) + entries[i].count)
              && (used[i] >= entries[i].count ==> score[i] == old(score[i]))
  {
    ghost var c := CountsOf(entries);
    for i := 0 to |entries|
      invariant forall j: nat | i <= j < |entries| ::
                Tracks(c, picks, j, used[j], score[j]) && score[j] == old(score[j])
      invariant forall j: nat | j < i ::
                  && used[j] == Used(picks, j)
                  && (used[j] < entries[j].count ==> score[j] == Score(c, picks, j) + entries[j].count)
                  && (used[j] >= entries[j].count ==> score[j] == old(score[j]))
    {
      assert Tracks(c, picks, i, used[i], score[i]);
      if used[i] < entries[i].count {
        score[i] := score[i] + entries[i].count;
      }
    }
  }

  method AvailableKinds(entries: seq<KindCount>, used: array<nat>, ghost picks: seq<nat>) returns (available: seq<nat>)
    requires used.Length == |entries| && forall i: nat | i < |entries| :: used[i] == Used(picks, i)
    ensures forall j: nat :: j in available <==> j < |entries| && Available(CountsOf(entries), picks, j)
  {
    available := [];
    for i := 0 to |entries|
      invariant forall j: nat :: j in available <==> j < i && Available(CountsOf(entries), picks, j)
    {
      if used[i] < entries[i].count {
        available := available + [i];
      }
    }
  }

  lemma ChosenIsChoice(c: seq<int>, picks: seq<nat>, available: seq<nat>, score: seq<int>, chosen: nat)
    requires |score| == |c| && forall j: nat :: j in available <==> j < |c| && Available(c, picks, j)
    requires forall j: nat | j in available :: score[j] == Score(c, picks, j) + c[j]
    requires chosen in available && forall j | j in available :: HigherFirst(score, chosen, j)
    ensures IsChoice(c, picks, chosen)
  {
    forall j: nat | j < |c| && Available(c, picks, j) ensures Beats(c, picks, chosen, j) {
      assert HigherFirst(score, chosen, j);
    }
  }

  // ----- the plan in terms of kinds -----

  function Occurrences(plan: seq<string>, kind: string): nat {
    if plan == [] then 0 else
    Occurrences(plan[..|plan| - 1], kind) + if plan[|plan| - 1] == kind then 1 else 0
  }

  lemma {:induction false} KindsFollowPicks(entries: seq<KindCount>, plan: seq<string>, picks: seq<nat>, i: nat)
    requires |plan| == |picks| && i < |entries|
    requires forall k | 0 <= k < |plan| :: picks[k] < |entries| && plan[k] == entries[picks[k]].kind
    requires forall j | 0 <= j < |entries| && j != i :: entries[j].kind != entries[i].kind
    ensures Occurrences(plan, entries[i].kind) == Used(picks, i)
  {
    if plan != [] {
      KindsFollowPicks(entries, plan[..|plan| - 1], picks[..|picks| - 1], i);
    }
  }

  lemma {:induction false} OccurrencesCount(plan: seq<string>, kind: string)
    ensures Occurrences(plan, kind) == multiset(plan)[kind]
  {
    if plan != [] {
      var n := |plan| - 1;
      OccurrencesCount(plan[..n], kind);
      assert plan == plan[..n] + [plan[n]];
    }
  }

  ghost predicate DistinctKinds(counts: seq<KindCount>) {
    forall i, j | 0 <= i < j < |counts| :: counts[i].kind != counts[j].kind
  }

  /** Fairness read off the emitted plan: of its first k slots, kind i has its share, less than one above and at most n
      - 1 below. */
  ghost predicate FairAt(entries: seq<KindCount>, plan: seq<string>, k: nat, i: nat)
    requires k <= |plan| && i < |entries|
  {
    WithinShare(Occurrences(plan[..k], entries[i].kind), k, entries[i].count, Sum(CountsOf(entries)), |entries|)
  }

  /** Every kind has its share of every prefix, and exactly its count of the whole plan. */
  ghost predicate PlanIsRight(entries: seq<KindCount>, plan: seq<string>) {
    && (forall k: nat, i: nat {:trigger FairAt(entries, plan, k, i)} | k <= |plan| && i < |entries| ::
          FairAt(entries, plan, k, i))
    && (forall i: nat | i < |entries| :: Occurrences(plan, entries[i].kind) == entries[i].count)
  }

  lemma EmittedPrefixIsFair(entries: seq<KindCount>, plan: seq<string>, picks: seq<nat>, k: nat, i: nat)
    requires DistinctKinds(entries) && Positive(CountsOf(entries)) && k <= |plan| && i < |entries|
    requires IsPlan(CountsOf(entries), picks) && |plan| == |picks| == Sum(CountsOf(entries))
    requires forall j | 0 <= j < |plan| :: picks[j] < |entries| && plan[j] == entries[picks[j]].kind
    ensures FairAt(entries, plan, k, i)
  {
    EveryPrefixIsFair(CountsOf(entries), picks, k, i);
    KindsFollowPicks(entries, plan[..k], picks[..k], i);
  }

  lemma EmittedPlanIsRight(entries: seq<KindCount>, plan: seq<string>, picks: seq<nat>)
    requires DistinctKinds(entries) && Positive(CountsOf(entries))
    requires IsPlan(CountsOf(entries), picks) && |plan| == |picks| == Sum(CountsOf(entries))
    requires forall k | 0 <= k < |plan| :: picks[k] < |entries| && plan[k] == entries[picks[k]].kind
    ensures PlanIsRight(entries, plan)
  {
    forall k: nat, i: nat | k <= |plan| && i < |entries| ensures FairAt(entries, plan, k, i) {
      EmittedPrefixIsFair(entries, plan, picks, k, i);
    }
    forall i: nat | i < |entries| ensures Occurrences(plan, entries[i].kind) == entries[i].count {
      FullPlanIsExact(CountsOf(entries), picks, i);
      KindsFollowPicks(entries, plan, picks, i);
    }
  }

  lemma {:induction false} EntriesMembers(counts: seq<KindCount>)
    ensures forall e :: e in Entries(counts) <==> e in counts && e.count > 0
  {
    if counts != [] {
      EntriesMembers(counts[..|counts| - 1]);
    }
  }

  lemma {:induction false} EntriesDistinct(counts: seq<KindCount>)
    requires DistinctKinds(counts)
    ensures DistinctKinds(Entries(counts))
  {
    if counts != [] {
      var n := |counts| - 1;
      var before := Entries(counts[..n]);
      EntriesDistinct(counts[..n]);
      EntriesMembers(counts[..n]);
      forall i | 0 <= i < |before| ensures before[i].kind != counts[n].kind {
        assert before[i] in counts[..n];
      }
    }
  }

  lemma {:induction false} EntriesSum(counts: seq<KindCount>)
    requires forall i | 0 <= i < |counts| :: counts[i].count >= 0
    ensures Sum(CountsOf(Entries(counts))) == Sum(CountsOf(counts))
  {
    if counts != [] {
      var n := |counts| - 1;
      EntriesSum(counts[..n]);
      assert CountsOf(counts)[..n] == CountsOf(counts[..n]);
      var before, after := Entries(counts[..n]), Entries(counts);
      if counts[n].count > 0 {
        assert CountsOf(after)[..|before|] == CountsOf(before);
      } else {
        assert after == before;
      }
    }
  }

  lemma {:induction false} AbsentKind(plan: seq<string>, kind: string)
    requires forall k | 0 <= k < |plan| :: plan[k] != kind
    ensures Occurrences(plan, kind) == 0
  {
    if plan != [] { AbsentKind(plan[..|plan| - 1], kind); }
  }

  /** Every kind of the request is planned exactly as often as its count, and nothing else is planned. */
  lemma PlanMatchesRequest(counts: seq<KindCount>, plan: seq<string>, picks: seq<nat>, i: nat)
    requires DistinctKinds(counts) && (forall j | 0 <= j < |counts| :: counts[j].count >= 0) && i < |counts|
    requires IsPlan(CountsOf(Entries(counts)), picks) && |plan| == |picks| == Sum(CountsOf(Entries(counts)))
    requires forall k | 0 <= k < |plan| :: picks[k] < |Entries(counts)| && plan[k] == Entries(counts)[picks[k]].kind
    ensures |plan| == Sum(CountsOf(counts)) && Occurrences(plan, counts[i].kind) == counts[i].count
  {
    var entries := Entries(counts);
    EntriesMembers(counts);
    EntriesDistinct(counts);
    EntriesSum(counts);
    if counts[i].count > 0 {
      assert counts[i] in entries;
      var j :| 0 <= j < |entries| && entries[j] == counts[i];
      EmittedPlanIsRight(entries, plan, picks);
    } else {
      forall k | 0 <= k < |plan| ensures plan[k] != counts[i].kind {
        var e := entries[picks[k]];
        assert e in counts && e.count > 0;
        var j :| 0 <= j < |counts| && counts[j] == e;
        assert j != i;
      }
      AbsentKind(plan, counts[i].kind);
    }
  }
}
