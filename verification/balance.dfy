/** Rating statistics of teams (lib/shuffle.ts, `calculateTeamStats`,
    `calculateVariance` and `calculateBalance`). JavaScript numbers are modelled
    exactly: integer sums as `int`, the mean and the variance as `real`, and
    `Math.round` as rounding half up. */
module Balance {
  import opened Players

  /** `Math.round(x)`: the integer nearest to `x`, halves rounded up. */
  function JsRound(x: real): (r: int)
    ensures r as real - 0.5 <= x < r as real + 0.5
  {
    (x + 0.5).Floor
  }

  /** `Math.round(total / n)` computed on integers. */
  function RoundedQuotient(total: int, n: int): (r: int)
    requires n > 0
    ensures 2 * n * r <= 2 * total + n < 2 * n * (r + 1)
  {
    (2 * total + n) / (2 * n)
  }

  /** The integer formula agrees with `Math.round` applied to the exact quotient. */
  lemma RoundedQuotientIsJsRound(total: int, n: int)
    requires n > 0
    ensures RoundedQuotient(total, n) == JsRound(total as real / n as real)
  {
    var r := RoundedQuotient(total, n);
    var x := total as real / n as real;
    assert x * n as real == total as real;
    HalfUpBounds(total, n, r, x);
    var s := JsRound(x);
    assert s as real - 0.5 <= x < s as real + 0.5;
  }

  lemma HalfUpBounds(t: int, n: int, r: int, x: real)
    requires n > 0
    requires 2 * n * r <= 2 * t + n < 2 * n * (r + 1)
    requires x * n as real == t as real
    ensures r as real - 0.5 <= x < r as real + 0.5
  {
    HalfUpLower(t, n, r, x);
    HalfUpUpper(t, n, r, x);
  }

  lemma HalfUpLower(t: int, n: int, r: int, x: real)
    requires n > 0
    requires 2 * n * r <= 2 * t + n
    requires x * n as real == t as real
    ensures r as real - 0.5 <= x
  {
    var nr, rr := n as real, r as real;
    var p := rr * nr;
    DoubledProductCast(n, r);
    assert 2.0 * p <= 2.0 * t as real + nr;
    Distribute(rr, -0.5, nr);
    var lo := (rr - 0.5) * nr;
    assert lo == p - 0.5 * nr;
    assert lo <= x * nr;
    ScaleLe(rr - 0.5, x, nr);
  }

  lemma HalfUpUpper(t: int, n: int, r: int, x: real)
    requires n > 0
    requires 2 * t + n < 2 * n * (r + 1)
    requires x * n as real == t as real
    ensures x < r as real + 0.5
  {
    var nr, rr := n as real, (r + 1) as real;
    var p := rr * nr;
    DoubledProductCast(n, r + 1);
    assert 2.0 * t as real + nr < 2.0 * p;
    Distribute(rr, -0.5, nr);
    var hi := (rr - 0.5) * nr;
    assert hi == p - 0.5 * nr;
    assert x * nr < hi;
    ScaleLt(x, rr - 0.5, nr);
  }

  lemma DoubledProductCast(n: int, r: int)
    ensures (2 * n * r) as real == 2.0 * (r as real * n as real)
  {
  }

  lemma Distribute(a: real, b: real, k: real)
    ensures (a + b) * k == a * k + b * k
  {
  }

  lemma ScaleLe(a: real, b: real, k: real)
    requires k > 0.0 && a * k <= b * k
    ensures a <= b
  {
  }

  lemma ScaleLt(a: real, b: real, k: real)
    requires k > 0.0 && a * k < b * k
    ensures a < b
  {
  }

  /** One entry of `calculateTeamStats`: number, members, total and rounded
      average (0 for an empty team). */
  function MakeTeam(teamNumber: nat, players: seq<Player>): (t: Team)
    ensures t.teamNumber == teamNumber && t.players == players
    ensures t.totalMmr == TotalMmr(players)
    ensures |players| == 0 ==> t.averageMmr == 0
    ensures |players| > 0 ==>
      2 * |players| * t.averageMmr <= 2 * t.totalMmr + |players| < 2 * |players| * (t.averageMmr + 1)
  {
    var total := TotalMmr(players);
    var average := if |players| > 0 then RoundedQuotient(total, |players|) else 0;
    Team(teamNumber, players, average, total)
  }

  /** `calculateTeamStats(teamPlayers)`: team k is numbered k + 1 and carries the
      total and the rounded average rating of its members. */
  function TeamStats(teamPlayers: seq<seq<Player>>): (r: seq<Team>)
    ensures |r| == |teamPlayers|
    ensures forall k :: 0 <= k < |r| ==>
      && r[k].teamNumber == k + 1
      && r[k].players == teamPlayers[k]
      && r[k].totalMmr == TotalMmr(teamPlayers[k])
      && r[k].averageMmr >= 0
      && (|teamPlayers[k]| == 0 ==> r[k].averageMmr == 0)
      && (|teamPlayers[k]| > 0 ==>
            r[k].averageMmr == JsRound(TotalMmr(teamPlayers[k]) as real / |teamPlayers[k]| as real))
  {
    var r := seq(|teamPlayers|, k requires 0 <= k < |teamPlayers| => MakeTeam(k + 1, teamPlayers[k]));
    assert forall k :: 0 <= k < |r| && |teamPlayers[k]| > 0 ==>
      r[k].averageMmr == JsRound(TotalMmr(teamPlayers[k]) as real / |teamPlayers[k]| as real) by {
      forall k | 0 <= k < |r| && |teamPlayers[k]| > 0 {
        RoundedQuotientIsJsRound(TotalMmr(teamPlayers[k]), |teamPlayers[k]|);
      }
    }
    r
  }

  function Averages(teams: seq<Team>): (r: seq<int>)
    ensures |r| == |teams|
    ensures forall i :: 0 <= i < |r| ==> r[i] == teams[i].averageMmr
  {
    seq(|teams|, i requires 0 <= i < |teams| => teams[i].averageMmr)
  }

  function Sum(xs: seq<int>): int {
    if |xs| == 0 then 0 else xs[0] + Sum(xs[1..])
  }

  function Mean(xs: seq<int>): real
    requires |xs| > 0
  {
    Sum(xs) as real / |xs| as real
  }

  /** `n·x − S` for every `x` of `xs`, where `n = |xs|` and `S = Sum(xs)`: the
      deviation of `x` from the mean `S / n`, scaled by `n`. */
  function ScaledDeviations(xs: seq<int>): (r: seq<int>)
    ensures |r| == |xs|
    ensures forall i :: 0 <= i < |r| ==> r[i] == |xs| * xs[i] - Sum(xs)
  {
    seq(|xs|, i requires 0 <= i < |xs| => |xs| * xs[i] - Sum(xs))
  }

  function SumOfSquares(ys: seq<int>): (s: nat) {
    if |ys| == 0 then 0 else ys[0] * ys[0] + SumOfSquares(ys[1..])
  }

  /** `calculateVariance(teams)`: the population variance of the teams' average
      ratings, 0 for no teams. The source sums `(x − mean)^2` with
      `mean = S / n` and divides by `n`; the same number is
      `Σ (n·x − S)^2 / n^3`, which keeps every step but the last division in
      integer arithmetic. */
  function Variance(teams: seq<Team>): (v: real)
    ensures v >= 0.0
    ensures |teams| == 0 ==> v == 0.0
  {
    if |teams| == 0 then 0.0
    else
      var xs := Averages(teams);
      var n := |xs|;
      QuotientZeroIff(SumOfSquares(ScaledDeviations(xs)), n * n * n);
      SumOfSquares(ScaledDeviations(xs)) as real / (n * n * n) as real
  }

  /** `Math.pow(d, 2)`. */
  function Square(d: real): real {
    d * d
  }

  /** The source's second reduction, literally: `(x - mean)^2` summed over
      `xs`. */
  function SquaredDeviations(xs: seq<int>, mean: real): real {
    if |xs| == 0 then 0.0 else Square(xs[0] as real - mean) + SquaredDeviations(xs[1..], mean)
  }

  /** The population variance as the source computes it: the squared
      deviations from the mean, divided by the count. */
  function PopulationVariance(xs: seq<int>): real
    requires |xs| > 0
  {
    SquaredDeviations(xs, Mean(xs)) / |xs| as real
  }

  /** `Variance` is the source's population variance of the team averages. */
  lemma VarianceIsPopulationVariance(teams: seq<Team>)
    requires |teams| > 0
    ensures Variance(teams) == PopulationVariance(Averages(teams))
  {
    ScaledVariance(Averages(teams));
  }

  /** The scaled form, `Σ (n·x − S)^2 / n^3`, is the population variance. */
  lemma ScaledVariance(xs: seq<int>)
    requires |xs| > 0
    ensures SumOfSquares(ScaledDeviations(xs)) as real / (|xs| * |xs| * |xs|) as real == PopulationVariance(xs)
  {
    MeanTimesCount(Sum(xs), |xs|);
    ScaledSquares(xs, ScaledDeviations(xs), |xs|, Sum(xs), Mean(xs));
  }

  /** With `m = s / n` and `ys` the deviations `n·x − s`, the sum of squares
      of `ys` over `n^3` is the squared deviations from `m` over `n`. */
  lemma ScaledSquares(xs: seq<int>, ys: seq<int>, n: int, s: int, m: real)
    requires n == |xs| == |ys| && n > 0 && m * n as real == s as real
    requires forall i :: 0 <= i < n ==> ys[i] == n * xs[i] - s
    ensures SumOfSquares(ys) as real / (n * n * n) as real == SquaredDeviations(xs, m) / n as real
  {
    ScaledTermsAt(xs, ys, n, s, m, n as real * n as real);
    ScaleSquares(xs, ys, m, n as real * n as real);
    DivideOutCube(SquaredDeviations(xs, m), n, n as real * n as real, SumOfSquares(ys) as real);
  }

  /** Term by term: `(x − m)^2 · n^2 == (n·x − s)^2`. */
  lemma ScaledTermsAt(xs: seq<int>, ys: seq<int>, n: int, s: int, m: real, k: real)
    requires n == |xs| == |ys| && m * n as real == s as real && k == n as real * n as real
    requires forall i :: 0 <= i < n ==> ys[i] == n * xs[i] - s
    ensures forall i :: 0 <= i < n ==> Square(xs[i] as real - m) * k == (ys[i] * ys[i]) as real
  {
    forall i | 0 <= i < n
      ensures Square(xs[i] as real - m) * k == (ys[i] * ys[i]) as real
    {
      ScaledDeviation(xs[i], ys[i], n, s, m, k);
    }
  }

  lemma MeanTimesCount(s: int, n: int)
    requires n > 0
    ensures (s as real / n as real) * n as real == s as real
  {
  }

  /** `a / n^3 == d / n` when `a == d · k` and `k = n^2`. */
  lemma DivideOutCube(d: real, n: int, k: real, a: real)
    requires n > 0 && k == n as real * n as real && d * k == a
    ensures a / (n * n * n) as real == d / n as real
  {
    var nr := n as real;
    assert (n * n * n) as real == nr * nr * nr;
    var q := d / nr;
    assert q * nr == d;
    assert q * (nr * nr * nr) == (q * nr) * (nr * nr);
    assert q * (nr * nr * nr) == a;
  }

  /** Scaling every deviation `x - m` by `n` scales the sum of squares by
      `k = n^2`: when each `(x - m)^2 · k` is the square of the matching `y`,
      the squared deviations of `xs` from `m`, times `k`, are the sum of the
      squares of `ys`. */
  lemma {:induction false} ScaleSquares(xs: seq<int>, ys: seq<int>, m: real, k: real)
    requires |ys| == |xs|
    requires forall i :: 0 <= i < |xs| ==> Square(xs[i] as real - m) * k == (ys[i] * ys[i]) as real
    ensures SquaredDeviations(xs, m) * k == SumOfSquares(ys) as real
    decreases |xs|
  {
    if |xs| > 0 {
      forall i | 0 <= i < |xs| - 1
        ensures Square(xs[1..][i] as real - m) * k == (ys[1..][i] * ys[1..][i]) as real
      {
        assert ys[1..][i] == ys[i + 1] && xs[1..][i] == xs[i + 1];
      }
      ScaleSquares(xs[1..], ys[1..], m, k);
      var head, tail := Square(xs[0] as real - m), SquaredDeviations(xs[1..], m);
      var sq, rest := ys[0] * ys[0], SumOfSquares(ys[1..]);
      assert SquaredDeviations(xs, m) == head + tail;
      assert SumOfSquares(ys) == sq + rest;
      ScaleSum(head, tail, k, sq, rest);
    }
  }

  lemma ScaleSum(head: real, tail: real, k: real, sq: int, rest: int)
    requires head * k == sq as real && tail * k == rest as real
    ensures (head + tail) * k == (sq + rest) as real
  {
    Distribute(head, tail, k);
  }

  /** One term: `(x - m)^2 · n^2 == (n·x − s)^2` when `m · n == s`. */
  lemma ScaledDeviation(x: int, y: int, n: int, s: int, m: real, k: real)
    requires m * n as real == s as real && y == n * x - s && k == n as real * n as real
    ensures Square(x as real - m) * k == (y * y) as real
  {
    var nr, xr := n as real, x as real;
    var e := xr - m;
    assert e * nr == y as real by {
      Distribute(xr, -m, nr);
      assert (n * x) as real == nr * xr;
    }
    assert (e * e) * (nr * nr) == (e * nr) * (e * nr);
    assert (y * y) as real == y as real * y as real;
  }

  lemma {:induction false} SumOfConstant(xs: seq<int>, c: int)
    requires forall i :: 0 <= i < |xs| ==> xs[i] == c
    ensures Sum(xs) == |xs| * c
    decreases |xs|
  {
    if |xs| > 0 {
      SumOfConstant(xs[1..], c);
    }
  }

  lemma {:induction false} SumOfSquaresZeroIff(ys: seq<int>)
    ensures SumOfSquares(ys) == 0 <==> forall i :: 0 <= i < |ys| ==> ys[i] == 0
    decreases |ys|
  {
    if |ys| > 0 {
      var tail := ys[1..];
      SumOfSquaresZeroIff(tail);
      SquareZeroIff(ys[0]);
      if forall i :: 0 <= i < |ys| ==> ys[i] == 0 {
        forall i | 0 <= i < |tail|
          ensures tail[i] == 0
        {
          assert tail[i] == ys[i + 1];
        }
      }
      if SumOfSquares(ys) == 0 {
        forall i | 0 <= i < |ys|
          ensures ys[i] == 0
        {
          if i > 0 {
            assert ys[i] == tail[i - 1];
          }
        }
      }
    }
  }

  lemma SquareZeroIff(d: int)
    ensures d * d >= 0
    ensures d != 0 ==> d * d > 0
  {
  }

  predicate AllEqualAverages(teams: seq<Team>) {
    forall i, j :: 0 <= i < |teams| && 0 <= j < |teams| ==> teams[i].averageMmr == teams[j].averageMmr
  }

  /** The variance is zero exactly when every team has the same average rating. */
  lemma VarianceZeroIffEqualAverages(teams: seq<Team>)
    ensures Variance(teams) == 0.0 <==> AllEqualAverages(teams)
  {
    if |teams| > 0 {
      var xs := Averages(teams);
      var n := |xs|;
      var ys := ScaledDeviations(xs);
      SumOfSquaresZeroIff(ys);
      QuotientZeroIff(SumOfSquares(ys), n * n * n);
      if AllEqualAverages(teams) {
        SumOfConstant(xs, xs[0]);
        assert forall i :: 0 <= i < n ==> ys[i] == 0;
      }
      if Variance(teams) == 0.0 {
        forall i, j | 0 <= i < n && 0 <= j < n
          ensures teams[i].averageMmr == teams[j].averageMmr
        {
          assert ys[i] == 0 && ys[j] == 0;
          MulCancelEq(n, xs[i], xs[j]);
        }
      }
    }
  }

  lemma QuotientZeroIff(a: nat, b: int)
    requires b > 0
    ensures a as real / b as real >= 0.0
    ensures a as real / b as real == 0.0 <==> a == 0
  {
  }

  lemma MulCancelEq(k: int, a: int, b: int)
    requires k > 0 && k * a == k * b
    ensures a == b
  {
    if a < b {
      MulCancel(k, a, b);
    } else if b < a {
      MulCancel(k, b, a);
    }
  }

  function MinOf(xs: seq<int>): (m: int)
    requires |xs| > 0
    ensures m in xs
    ensures forall i :: 0 <= i < |xs| ==> m <= xs[i]
  {
    if |xs| == 1 then xs[0]
    else
      var rest := MinOf(xs[1..]);
      if xs[0] <= rest then xs[0] else rest
  }

  function MaxOf(xs: seq<int>): (m: int)
    requires |xs| > 0
    ensures m in xs
    ensures forall i :: 0 <= i < |xs| ==> xs[i] <= m
  {
    if |xs| == 1 then xs[0]
    else
      var rest := MaxOf(xs[1..]);
      if xs[0] >= rest then xs[0] else rest
  }

  datatype BalanceStats = BalanceStats(
    averageMmr: int,
    variance: int,
    minTeamMmr: int,
    maxTeamMmr: int,
    mmrDifference: int)

  /** `calculateBalance(teams)`: all zeros for no teams; otherwise the rounded
      mean and variance of the team averages, their minimum, maximum and spread. */
  function CalculateBalance(teams: seq<Team>): (b: BalanceStats)
    ensures |teams| == 0 ==> b == BalanceStats(0, 0, 0, 0, 0)
    ensures |teams| > 0 ==>
      && (exists i :: 0 <= i < |teams| && teams[i].averageMmr == b.minTeamMmr)
      && (exists i :: 0 <= i < |teams| && teams[i].averageMmr == b.maxTeamMmr)
      && (forall i :: 0 <= i < |teams| ==> b.minTeamMmr <= teams[i].averageMmr <= b.maxTeamMmr)
      && b.mmrDifference == b.maxTeamMmr - b.minTeamMmr >= 0
      && b.minTeamMmr <= b.averageMmr <= b.maxTeamMmr
      && b.averageMmr as real - 0.5 <= Mean(Averages(teams)) < b.averageMmr as real + 0.5
      && b.variance as real - 0.5 <= Variance(teams) < b.variance as real + 0.5
      && b.variance >= 0
      && (b.mmrDifference == 0 <==> Variance(teams) == 0.0)
  {
    if |teams| == 0 then BalanceStats(0, 0, 0, 0, 0)
    else
      var xs := Averages(teams);
      var lo := MinOf(xs);
      var hi := MaxOf(xs);
      var average := JsRound(Mean(xs));
      assert lo <= average <= hi by {
        MeanWithinBounds(xs, lo, hi);
      }
      assert hi - lo == 0 <==> Variance(teams) == 0.0 by {
        VarianceZeroIffEqualAverages(teams);
        assert hi - lo == 0 <==> AllEqualAverages(teams);
      }
      BalanceStats(average, JsRound(Variance(teams)), lo, hi, hi - lo)
  }

  lemma {:induction false} SumWithinBounds(xs: seq<int>, lo: int, hi: int)
    requires forall i :: 0 <= i < |xs| ==> lo <= xs[i] <= hi
    ensures |xs| * lo <= Sum(xs) <= |xs| * hi
    decreases |xs|
  {
    if |xs| > 0 {
      SumWithinBounds(xs[1..], lo, hi);
    }
  }

  /** The rounded mean of integers between `lo` and `hi` stays between them. */
  lemma MeanWithinBounds(xs: seq<int>, lo: int, hi: int)
    requires |xs| > 0
    requires forall i :: 0 <= i < |xs| ==> lo <= xs[i] <= hi
    ensures lo <= JsRound(Mean(xs)) <= hi
  {
    var n := |xs|;
    SumWithinBounds(xs, lo, hi);
    RoundedQuotientIsJsRound(Sum(xs), n);
    var r := RoundedQuotient(Sum(xs), n);
    var k := 2 * n;
    Doubled(n, lo);
    Doubled(n, hi);
    MulSucc(k, r);
    MulSucc(k, hi);
    assert k * lo < k * (r + 1);
    assert k * r < k * (hi + 1);
    MulCancel(k, lo, r + 1);
    MulCancel(k, r, hi + 1);
  }

  lemma Doubled(n: int, a: int)
    ensures 2 * n * a == 2 * (n * a)
  {
  }

  lemma MulSucc(k: int, a: int)
    ensures k * (a + 1) == k * a + k
  {
  }

  lemma MulCancel(k: int, a: int, b: int)
    requires k > 0 && k * a < k * b
    ensures a < b
  {
  }
}
