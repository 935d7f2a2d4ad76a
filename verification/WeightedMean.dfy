/** The renormalised weighted mean every component scorer computes. */
module WeightedMean {
  import opened Prelude
  import opened Reals

  /** A configured weight and the normalised score it weighs. */
  datatype Factor = Factor(weight: real, score: real)

  predicate Valid(factors: seq<Factor>) {
    forall i | 0 <= i < |factors| :: factors[i].weight >= 0.0
  }

  function TotalWeight(factors: seq<Factor>): real {
    if factors == [] then 0.0 else factors[0].weight + TotalWeight(factors[1..])
  }

  function EffectiveWeight(f: Factor, available: real): real
    requires available > 0.0
  {
    f.weight / available
  }

  function Contribution(f: Factor, available: real): real
    requires available > 0.0
  {
    f.score * EffectiveWeight(f, available)
  }

  function SumContributions(factors: seq<Factor>, available: real): real
    requires available > 0.0
  {
    if factors == [] then 0.0
    else Contribution(factors[0], available) + SumContributions(factors[1..], available)
  }

  function SumEffective(factors: seq<Factor>, available: real): real
    requires available > 0.0
  {
    if factors == [] then 0.0
    else EffectiveWeight(factors[0], available) + SumEffective(factors[1..], available)
  }

  /** No score below the minimum coverage, which the policy validators keep positive. */
  function Score(factors: seq<Factor>, minimum: real): Option<real>
    requires minimum > 0.0
  {
    var available := TotalWeight(factors);
    if available >= minimum then Some(SumContributions(factors, available)) else None
  }

  function WeightedSum(factors: seq<Factor>): real {
    if factors == [] then 0.0 else factors[0].weight * factors[0].score + WeightedSum(factors[1..])
  }

  lemma ScaleStep(score: real, weight: real, available: real, sum: real, scaled: real)
    requires available > 0.0 && sum * available == scaled
    ensures (score * (weight / available) + sum) * available == weight * score + scaled
  {
    var e := weight / available;
    assert e * available == weight;
    assert score * e * available == score * weight;
  }

  lemma {:induction false} ContributionsScale(factors: seq<Factor>, available: real)
    requires available > 0.0
    ensures SumContributions(factors, available) * available == WeightedSum(factors)
    ensures SumEffective(factors, available) * available == TotalWeight(factors)
  {
    if factors != [] {
      var f, rest := factors[0], factors[1..];
      ContributionsScale(rest, available);
      ScaleStep(f.score, f.weight, available, SumContributions(rest, available), WeightedSum(rest));
      ScaleStep(1.0, f.weight, available, SumEffective(rest, available), TotalWeight(rest));
    }
  }

  /** A covered component is the exact weighted mean. */
  lemma ScoreIsMean(factors: seq<Factor>, minimum: real)
    requires minimum > 0.0 && Score(factors, minimum).Some?
    ensures Score(factors, minimum).value * TotalWeight(factors) == WeightedSum(factors)
  {
    ContributionsScale(factors, TotalWeight(factors));
  }

  /** The effective weights of a covered component sum to one. */
  lemma EffectiveWeightsSumToOne(factors: seq<Factor>, minimum: real)
    requires minimum > 0.0 && TotalWeight(factors) >= minimum
    ensures SumEffective(factors, TotalWeight(factors)) == 1.0
  {
    var w := TotalWeight(factors);
    ContributionsScale(factors, w);
    Cancel(SumEffective(factors, w), 1.0, w);
  }

  lemma StepBetween(lo: real, hi: real, weight: real, score: real, total: real, sum: real)
    requires lo * total <= sum <= hi * total && weight >= 0.0
    requires weight > 0.0 ==> lo <= score <= hi
    ensures lo * (weight + total) <= weight * score + sum <= hi * (weight + total)
  {
    if weight > 0.0 {
      ProductMonotone(lo, score, weight);
      ProductMonotone(score, hi, weight);
    }
    assert lo * (weight + total) == lo * weight + lo * total;
    assert hi * (weight + total) == hi * weight + hi * total;
  }

  lemma {:induction false} WeightedSumBetween(factors: seq<Factor>, lo: real, hi: real)
    requires Valid(factors)
    requires forall i | 0 <= i < |factors| && factors[i].weight > 0.0 :: lo <= factors[i].score <= hi
    ensures lo * TotalWeight(factors) <= WeightedSum(factors) <= hi * TotalWeight(factors)
  {
    if factors != [] {
      var f, rest := factors[0], factors[1..];
      WeightedSumBetween(rest, lo, hi);
      StepBetween(lo, hi, f.weight, f.score, TotalWeight(rest), WeightedSum(rest));
    }
  }

  lemma MeanBetween(s: real, total: real, sum: real, lo: real, hi: real)
    requires total > 0.0 && s * total == sum && lo * total <= sum <= hi * total
    ensures lo <= s <= hi
  {
    Cancel(lo, s, total);
    Cancel(s, hi, total);
  }

  /** A score exists exactly on sufficient coverage, and lies between the scores that carry weight. */
  lemma ScoreBetween(factors: seq<Factor>, minimum: real, lo: real, hi: real)
    requires Valid(factors) && minimum > 0.0
    requires forall i | 0 <= i < |factors| && factors[i].weight > 0.0 :: lo <= factors[i].score <= hi
    ensures Score(factors, minimum).Some? <==> TotalWeight(factors) >= minimum
    ensures Score(factors, minimum).Some? ==> lo <= Score(factors, minimum).value <= hi
  {
    if TotalWeight(factors) >= minimum {
      hide SumContributions, TotalWeight, WeightedSum;
      ScoreIsMean(factors, minimum);
      WeightedSumBetween(factors, lo, hi);
      MeanBetween(Score(factors, minimum).value, TotalWeight(factors), WeightedSum(factors), lo, hi);
    }
  }

  /** The same weights, each score at least as high. */
  ghost predicate ScoresAtMost(a: seq<Factor>, b: seq<Factor>) {
    && |a| == |b|
    && forall i | 0 <= i < |a| :: a[i].weight == b[i].weight && a[i].score <= b[i].score
  }

  lemma {:induction false} ContributionsMonotone(a: seq<Factor>, b: seq<Factor>, available: real)
    requires Valid(a) && ScoresAtMost(a, b) && available > 0.0
    ensures SumContributions(a, available) <= SumContributions(b, available)
  {
    if a != [] {
      ContributionsMonotone(a[1..], b[1..], available);
      QuotientOrder(0.0, a[0].weight, available);
      ProductMonotone(a[0].score, b[0].score, EffectiveWeight(a[0], available));
    }
  }

  lemma {:induction false} SameTotal(a: seq<Factor>, b: seq<Factor>)
    requires ScoresAtMost(a, b)
    ensures TotalWeight(a) == TotalWeight(b)
  {
    if a != [] { SameTotal(a[1..], b[1..]); }
  }

  /** At fixed availability, higher scores never lower the mean. */
  lemma ScoreMonotone(a: seq<Factor>, b: seq<Factor>, minimum: real)
    requires Valid(a) && ScoresAtMost(a, b) && minimum > 0.0
    ensures Score(a, minimum).Some? <==> Score(b, minimum).Some?
    ensures Score(a, minimum).Some? ==> Score(a, minimum).value <= Score(b, minimum).value
  {
    SameTotal(a, b);
    if TotalWeight(a) >= minimum {
      ContributionsMonotone(a, b, TotalWeight(a));
    }
  }

  lemma {:induction false} SumsSplit(a: seq<Factor>, b: seq<Factor>)
    ensures TotalWeight(a + b) == TotalWeight(a) + TotalWeight(b)
    ensures WeightedSum(a + b) == WeightedSum(a) + WeightedSum(b)
  {
    if a == [] {
      assert a + b == b;
    } else {
      assert (a + b)[1..] == a[1..] + b;
      SumsSplit(a[1..], b);
    }
  }

  lemma PullArithmetic(s: real, t: real, n: real, w: real, v: real)
    requires w > 0.0 && v >= 0.0
    requires t * (w + v) == s * w + v * n
    ensures s <= n ==> s <= t <= n
    ensures n <= s ==> n <= t <= s
  {
    if s <= n {
      ProductMonotone(s, n, v);
      ProductMonotone(s, n, w);
    } else {
      ProductMonotone(n, s, v);
      ProductMonotone(n, s, w);
    }
    assert s * (w + v) == s * w + s * v;
    assert n * (w + v) == n * w + n * v;
    Cancel(s, t, w + v);
    Cancel(t, n, w + v);
    Cancel(n, t, w + v);
    Cancel(t, s, w + v);
  }

  lemma PullCore(before: seq<Factor>, f: Factor, after: seq<Factor>, s: real, t: real)
    requires f.weight >= 0.0 && TotalWeight(before + after) > 0.0
    requires s * TotalWeight(before + after) == WeightedSum(before + after)
    requires t * TotalWeight(before + [f] + after) == WeightedSum(before + [f] + after)
    ensures s <= f.score ==> s <= t <= f.score
    ensures f.score <= s ==> f.score <= t <= s
  {
    SplitAround(before, f, after);
    PullArithmetic(s, t, f.score, TotalWeight(before + after), f.weight);
  }

  lemma SplitAround(before: seq<Factor>, f: Factor, after: seq<Factor>)
    ensures TotalWeight(before + [f] + after) == TotalWeight(before + after) + f.weight
    ensures WeightedSum(before + [f] + after) == WeightedSum(before + after) + f.weight * f.score
  {
    SumsSplit(before, after);
    SumsSplit(before, [f]);
    SumsSplit(before + [f], after);
    assert WeightedSum([f]) == f.weight * f.score && TotalWeight([f]) == f.weight;
  }

  /** A newly available factor moves a covered score toward its own score, never past it. */
  lemma NewFactorPulls(before: seq<Factor>, f: Factor, after: seq<Factor>, minimum: real)
    requires f.weight >= 0.0 && minimum > 0.0
    requires Score(before + after, minimum).Some?
    ensures Score(before + [f] + after, minimum).Some?
    ensures var s, t := Score(before + after, minimum).value, Score(before + [f] + after, minimum).value;
            (s <= f.score ==> s <= t <= f.score) && (f.score <= s ==> f.score <= t <= s)
  {
    hide SumContributions;
    hide TotalWeight;
    hide WeightedSum;
    assert TotalWeight(before + [f] + after) >= minimum by { SplitAround(before, f, after); }
    ScoreIsMean(before + after, minimum);
    ScoreIsMean(before + [f] + after, minimum);
    PullCore(before, f, after, Score(before + after, minimum).value, Score(before + [f] + after, minimum).value);
  }
}
