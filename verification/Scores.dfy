/** Reputation scores and what a series of clamped updates does to them (src/reputation/score.go). */
module Scores {
  import opened Integers

  const MIN_SCORE: int := 1
  const MAX_SCORE: int := 1000

  /** A score as every operation leaves it. */
  predicate InRange(score: int) {
    MIN_SCORE <= score <= MAX_SCORE
  }

  /** Two's complement: the 64-bit integer congruent to `x`, for anything one conversion, sum or
      negation of 64-bit integers can give. */
  function ToInt64(x: int): (r: int)
    requires MIN_INT64 - TWO64 <= x <= MAX_INT64 + TWO64
    ensures MIN_INT64 <= r <= MAX_INT64
  {
    if x > MAX_INT64 then x - TWO64 else if x < MIN_INT64 then x + TWO64 else x
  }

  function Clamp(x: int): (c: int)
    ensures InRange(c)
  {
    if x < MIN_SCORE then MIN_SCORE else if x > MAX_SCORE then MAX_SCORE else x
  }

  /** `NodeReputation.UpdateScore`: a 64-bit sum, then the clamp. */
  function AddScore(score: Uint64, delta: Int64): (s: Uint64)
    ensures InRange(s)
  {
    Clamp(ToInt64(ToInt64(score) + delta))
  }

  /** The update is the clamped sum exactly as long as the 64-bit sum does not overflow; an overflowing
      reward throws the score down to 1. */
  lemma {:induction false} AddScoreClampsExactlyWhen(score: Uint64, delta: Int64)
    requires InRange(score)
    ensures var sum, after := score + delta, AddScore(score, delta);
            after == (if sum < 1 then 1 else if sum > 1000 then 1000 else sum) <==> sum <= MAX_INT64
    ensures score + delta > MAX_INT64 ==> AddScore(score, delta) == 1
  {
  }

  /** A series of updates, oldest first. */
  function AddAll(score: Uint64, deltas: seq<Int64>): Uint64 {
    if deltas == [] then score
    else AddScore(AddAll(score, deltas[..|deltas| - 1]), deltas[|deltas| - 1])
  }

  function Sum(deltas: seq<Int64>): int {
    if deltas == [] then 0 else Sum(deltas[..|deltas| - 1]) + deltas[|deltas| - 1]
  }

  /** No sum on the way leaves the 64-bit range. */
  predicate NoOverflow(score: Uint64, deltas: seq<Int64>) {
    deltas == [] ||
    (var n := |deltas| - 1;
     NoOverflow(score, deltas[..n]) && AddAll(score, deltas[..n]) + deltas[n] <= MAX_INT64)
  }

  /** The least and the greatest score a series of updates can lead to; they do not depend on where it starts. */
  function Bounds(deltas: seq<Int64>): (b: (int, int))
    ensures InRange(b.0) && InRange(b.1) && b.0 <= b.1
  {
    if deltas == [] then (MIN_SCORE, MAX_SCORE)
    else
      var (lo, hi) := Bounds(deltas[..|deltas| - 1]);
      var d := deltas[|deltas| - 1];
      (Clamp(lo + d), Clamp(hi + d))
  }

  function Within(x: int, lo: int, hi: int): int {
    if x < lo then lo else if x > hi then hi else x
  }

  /** Any series of clamped updates is one clamped update: by the sum of the deltas, between the bounds
      of the series. */
  lemma {:induction false} SeriesIsOneUpdate(score: Uint64, deltas: seq<Int64>)
    requires InRange(score) && NoOverflow(score, deltas)
    ensures var (lo, hi) := Bounds(deltas);
            InRange(AddAll(score, deltas)) && AddAll(score, deltas) == Within(score + Sum(deltas), lo, hi)
  {
    if deltas != [] {
      var n := |deltas| - 1;
      SeriesIsOneUpdate(score, deltas[..n]);
      AddScoreClampsExactlyWhen(AddAll(score, deltas[..n]), deltas[n]);
    }
  }

  /** Hence a series keeps the order of two scores and never widens the gap between them. */
  lemma {:induction false} SeriesIsMonotoneContraction(low: Uint64, high: Uint64, deltas: seq<Int64>)
    requires InRange(low) && InRange(high) && low <= high
    requires NoOverflow(low, deltas) && NoOverflow(high, deltas)
    ensures 0 <= AddAll(high, deltas) - AddAll(low, deltas) <= high - low
  {
    SeriesIsOneUpdate(low, deltas);
    SeriesIsOneUpdate(high, deltas);
  }

  predicate Rewards(deltas: seq<Int64>) {
    forall i :: 0 <= i < |deltas| ==> deltas[i] >= 0
  }

  predicate Penalties(deltas: seq<Int64>) {
    forall i :: 0 <= i < |deltas| ==> deltas[i] <= 0
  }

  predicate OneSign(deltas: seq<Int64>) {
    Rewards(deltas) || Penalties(deltas)
  }

  lemma {:induction false} RewardsAddUp(score: Uint64, deltas: seq<Int64>)
    requires InRange(score) && NoOverflow(score, deltas) && Rewards(deltas)
    ensures AddAll(score, deltas) == Clamp(score + Sum(deltas)) && Sum(deltas) >= 0
  {
    if deltas != [] {
      var n := |deltas| - 1;
      RewardsAddUp(score, deltas[..n]);
      AddScoreClampsExactlyWhen(AddAll(score, deltas[..n]), deltas[n]);
    }
  }

  lemma {:induction false} PenaltiesAddUp(score: Uint64, deltas: seq<Int64>)
    requires InRange(score) && NoOverflow(score, deltas) && Penalties(deltas)
    ensures AddAll(score, deltas) == Clamp(score + Sum(deltas)) && Sum(deltas) <= 0
  {
    if deltas != [] {
      var n := |deltas| - 1;
      PenaltiesAddUp(score, deltas[..n]);
      AddScoreClampsExactlyWhen(AddAll(score, deltas[..n]), deltas[n]);
    }
  }

  /** Rewards only, or penalties only, add up before the clamp. */
  lemma OneSignAddsUp(score: Uint64, deltas: seq<Int64>)
    requires InRange(score) && NoOverflow(score, deltas) && OneSign(deltas)
    ensures AddAll(score, deltas) == Clamp(score + Sum(deltas))
  {
    if Rewards(deltas) {
      RewardsAddUp(score, deltas);
    } else {
      PenaltiesAddUp(score, deltas);
    }
  }

  lemma {:induction false} SumWithout(deltas: seq<Int64>, i: nat)
    requires i < |deltas|
    ensures Sum(deltas) == Sum(deltas[..i] + deltas[i + 1..]) + deltas[i]
  {
    var n := |deltas| - 1;
    var rest := deltas[..i] + deltas[i + 1..];
    if i == n {
      assert rest == deltas[..n];
    } else {
      assert rest[..|rest| - 1] == deltas[..n][..i] + deltas[..n][i + 1..];
      SumWithout(deltas[..n], i);
    }
  }

  lemma SplitLast(deltas: seq<Int64>)
    requires deltas != []
    ensures multiset(deltas) == multiset(deltas[..|deltas| - 1]) + multiset{deltas[|deltas| - 1]}
  {
    assert deltas == deltas[..|deltas| - 1] + [deltas[|deltas| - 1]];
  }

  /** Taking one element out of a sequence takes it out of the multiset. */
  lemma SplitAt<T>(s: seq<T>, i: nat)
    requires i < |s|
    ensures multiset(s) == multiset(s[..i] + s[i + 1..]) + multiset{s[i]}
  {
    assert s == s[..i] + [s[i]] + s[i + 1..];
  }

  lemma {:induction false} SumOfPermutation(deltas: seq<Int64>, others: seq<Int64>)
    requires multiset(deltas) == multiset(others)
    ensures Sum(deltas) == Sum(others)
  {
    if deltas == [] {
      assert |multiset(others)| == 0;
    } else {
      var n := |deltas| - 1;
      SplitLast(deltas);
      assert deltas[n] in multiset(others);
      var i :| 0 <= i < |others| && others[i] == deltas[n];
      SplitAt(others, i);
      assert multiset(deltas[..n]) == multiset(deltas) - multiset{deltas[n]} == multiset(others[..i] + others[i + 1..]);
      SumOfPermutation(deltas[..n], others[..i] + others[i + 1..]);
      SumWithout(others, i);
    }
  }

  lemma PermutationKeepsSign(deltas: seq<Int64>, others: seq<Int64>)
    requires multiset(deltas) == multiset(others) && OneSign(deltas)
    ensures OneSign(others)
  {
    forall i | 0 <= i < |others|
      ensures exists j :: 0 <= j < |deltas| && deltas[j] == others[i]
    {
      assert others[i] in multiset(deltas);
    }
  }

  /** So their order does not matter. */
  lemma {:induction false} OneSignOrderIrrelevant(score: Uint64, deltas: seq<Int64>, others: seq<Int64>)
    requires InRange(score) && NoOverflow(score, deltas) && NoOverflow(score, others)
    requires multiset(deltas) == multiset(others) && OneSign(deltas)
    ensures AddAll(score, deltas) == AddAll(score, others)
  {
    PermutationKeepsSign(deltas, others);
    OneSignAddsUp(score, deltas);
    OneSignAddsUp(score, others);
    SumOfPermutation(deltas, others);
  }

  lemma TwoUpdates(score: Uint64, first: Int64, second: Int64)
    ensures AddAll(score, [first, second]) == AddScore(AddScore(score, first), second)
  {
    assert [first, second][..1] == [first];
    assert AddAll(score, [first]) == AddScore(AddAll(score, []), first) by {
      assert [first][..0] == [];
    }
  }

  /** A reward and a penalty commute if and only if neither hits a bound when it comes first; otherwise the
      score is better off with the penalty first.  (A reward so large that its sum overflows leaves the
      least score; that is no loss only if it also overflows after the penalty.) */
  lemma {:induction false} MixedOrderMattersExactlyWhen(score: Uint64, reward: Int64, penalty: Int64)
    requires InRange(score) && reward > 0 && penalty < 0
    ensures AddAll(score, [reward, penalty]) <= AddAll(score, [penalty, reward])
    ensures AddAll(score, [reward, penalty]) == AddAll(score, [penalty, reward]) <==>
              if score + reward <= MAX_INT64 then score + reward <= MAX_SCORE && score + penalty >= MIN_SCORE
              else Clamp(score + penalty) + reward > MAX_INT64
  {
    TwoUpdates(score, reward, penalty);
    TwoUpdates(score, penalty, reward);
    AddScoreClampsExactlyWhen(score, reward);
    AddScoreClampsExactlyWhen(AddScore(score, reward), penalty);
    AddScoreClampsExactlyWhen(score, penalty);
    AddScoreClampsExactlyWhen(AddScore(score, penalty), reward);
  }

  /** Two rewards commute if and only if overflow strikes both orders alike.  An overflow leaves the score 1 and so
      undoes what came before, but not what comes after.  If neither reward overflows when it comes
      first, both must overflow when they come second, or neither.  If only one does, the orders differ.  If both
      do, each order ends at the top, unless the other reward overflows from 1 as well. */
  lemma {:induction false} RewardsCommuteExactlyWhen(score: Uint64, a: Int64, b: Int64)
    requires InRange(score) && a > 0 && b > 0
    ensures AddAll(score, [a, b]) == AddAll(score, [b, a]) <==>
              if score + a <= MAX_INT64 && score + b <= MAX_INT64
              then (Clamp(score + a) + b <= MAX_INT64 <==> Clamp(score + b) + a <= MAX_INT64)
              else score + a > MAX_INT64 && score + b > MAX_INT64 && (a == MAX_INT64 <==> b == MAX_INT64)
  {
    TwoUpdates(score, a, b);
    TwoUpdates(score, b, a);
    AddScoreClampsExactlyWhen(score, a);
    AddScoreClampsExactlyWhen(score, b);
    AddScoreClampsExactlyWhen(AddScore(score, a), b);
    AddScoreClampsExactlyWhen(AddScore(score, b), a);
  }

  /** A pair of rewards whose order does matter. */
  lemma RewardsThatDoNotCommute()
    ensures AddAll(MIN_SCORE, [MAX_INT64, 1]) != AddAll(MIN_SCORE, [1, MAX_INT64])
  {
    RewardsCommuteExactlyWhen(MIN_SCORE, MAX_INT64, 1);
  }

  lemma {:induction false} PenaltiesNeverOverflow(score: Uint64, deltas: seq<Int64>)
    requires InRange(score) && Penalties(deltas)
    ensures NoOverflow(score, deltas) && InRange(AddAll(score, deltas))
  {
    if deltas != [] {
      PenaltiesNeverOverflow(score, deltas[..|deltas| - 1]);
    }
  }

  /** Penalties alone commute without any bound. */
  lemma {:induction false} PenaltyOrderIrrelevant(score: Uint64, deltas: seq<Int64>, others: seq<Int64>)
    requires InRange(score) && multiset(deltas) == multiset(others) && Penalties(deltas)
    ensures AddAll(score, deltas) == AddAll(score, others)
  {
    forall i | 0 <= i < |others|
      ensures others[i] <= 0
    {
      assert others[i] in multiset(deltas);
    }
    PenaltiesNeverOverflow(score, deltas);
    PenaltiesNeverOverflow(score, others);
    OneSignOrderIrrelevant(score, deltas, others);
  }

  /** `ReputationSystem.Penalize`: the points are converted to a signed number and negated. */
  function PenaltyDelta(points: Uint64): Int64 {
    ToInt64(-ToInt64(points))
  }

  /** A penalty takes the points off, down to 1, exactly unless there are more than 2^63 of them and the
      reward they turn into does not overflow; then, and only below the ceiling, it raises the score. */
  lemma {:induction false} PenaltyLowersExactlyWhen(score: Uint64, points: Uint64)
    requires InRange(score)
    ensures var after := AddScore(score, PenaltyDelta(points));
            var reversed := points > 1 + MAX_INT64 && score + (TWO64 - points) <= MAX_INT64;
            && (after == (if score - points < 1 then 1 else score - points) <==> !reversed)
            && (after > score <==> reversed && score < MAX_SCORE)
  {
    AddScoreClampsExactlyWhen(score, PenaltyDelta(points));
  }
}
