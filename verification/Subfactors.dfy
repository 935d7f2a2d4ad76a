/** The scoring template of the components: subfactors, renormalised weights, one mean. */
module Subfactors {
  import opened Prelude
  import opened Reals
  import Curves
  import WeightedMean

  datatype Raw = Raw(code: string, rawValue: real, scoringValue: real, weight: real, availableAt: Instant,
                     curve: Curves.Curve)

  datatype Unavailable = Unavailable(code: string, configuredWeight: real, warnings: seq<string>)

  datatype SubfactorScore = SubfactorScore(
    code: string, rawValue: real, scoringValue: real, normalized: real,
    configuredWeight: real, effectiveWeight: real, contribution: real, availableAt: Instant)

  datatype ComponentScore = ComponentScore(
    score: Option<real>, availableWeight: real, subfactors: seq<SubfactorScore>,
    unavailable: seq<Unavailable>, missing: seq<string>, warnings: seq<string>)

  predicate ValidRaw(raw: Raw) {
    raw.weight >= 0.0 && Curves.Valid(raw.curve)
  }

  function FactorOf(raw: Raw): WeightedMean.Factor
    requires ValidRaw(raw)
  {
    WeightedMean.Factor(raw.weight, Curves.Score(raw.scoringValue, raw.curve))
  }

  function Factors(raw: seq<Raw>): (r: seq<WeightedMean.Factor>)
    requires forall i | 0 <= i < |raw| :: ValidRaw(raw[i])
    ensures |r| == |raw| && forall i | 0 <= i < |raw| :: r[i] == FactorOf(raw[i])
  {
    seq(|raw|, i requires 0 <= i < |raw| => FactorOf(raw[i]))
  }

  function ScoreSubfactor(raw: Raw, available: real, sufficient: bool): SubfactorScore
    requires ValidRaw(raw) && (sufficient ==> available > 0.0)
  {
    var f := FactorOf(raw);
    SubfactorScore(
      raw.code, raw.rawValue, raw.scoringValue, f.score, f.weight,
      if sufficient then WeightedMean.EffectiveWeight(f, available) else 0.0,
      if sufficient then WeightedMean.Contribution(f, available) else 0.0,
      raw.availableAt)
  }

  /** The result assembled from the kept and the dropped subfactors. */
  function Assemble(raw: seq<Raw>, unavailable: seq<Unavailable>, minimum: real): ComponentScore
    requires minimum > 0.0 && forall i | 0 <= i < |raw| :: ValidRaw(raw[i])
  {
    var available := WeightedMean.TotalWeight(Factors(raw));
    var sufficient := available >= minimum;
    ComponentScore(
      WeightedMean.Score(Factors(raw), minimum),
      available,
      seq(|raw|, i requires 0 <= i < |raw| => ScoreSubfactor(raw[i], available, sufficient)),
      unavailable,
      seq(|unavailable|, i requires 0 <= i < |unavailable| => unavailable[i].code),
      if sufficient then [] else ["insufficient_subfactor_coverage"])
  }

  function RawWeight(raw: seq<Raw>): real {
    if raw == [] then 0.0 else RawWeight(raw[..|raw| - 1]) + raw[|raw| - 1].weight
  }

  lemma {:induction false} FactorsWeigh(raw: seq<Raw>)
    requires forall i | 0 <= i < |raw| :: ValidRaw(raw[i])
    ensures WeightedMean.TotalWeight(Factors(raw)) == RawWeight(raw)
  {
    if raw != [] {
      var front, last := raw[..|raw| - 1], raw[|raw| - 1];
      FactorsWeigh(front);
      assert Factors(raw) == Factors(front) + [FactorOf(last)];
      WeightedMean.SumsSplit(Factors(front), [FactorOf(last)]);
      assert WeightedMean.TotalWeight([FactorOf(last)]) == last.weight;
    }
  }

  lemma {:induction false} RawWeightSplit(a: seq<Raw>, b: seq<Raw>)
    ensures RawWeight(a + b) == RawWeight(a) + RawWeight(b)
    decreases |b|
  {
    if b == [] {
      assert a + b == a;
    } else {
      var front := b[..|b| - 1];
      assert (a + b)[..|a + b| - 1] == a + front;
      RawWeightSplit(a, front);
    }
  }

  function UnavailableWeight(unavailable: seq<Unavailable>): real {
    if unavailable == [] then 0.0
    else UnavailableWeight(unavailable[..|unavailable| - 1]) + unavailable[|unavailable| - 1].configuredWeight
  }

  lemma {:induction false} UnavailableWeightSplit(a: seq<Unavailable>, b: seq<Unavailable>)
    ensures UnavailableWeight(a + b) == UnavailableWeight(a) + UnavailableWeight(b)
    decreases |b|
  {
    if b == [] {
      assert a + b == a;
    } else {
      var front := b[..|b| - 1];
      assert (a + b)[..|a + b| - 1] == a + front;
      UnavailableWeightSplit(a, front);
    }
  }

  /** The component is a weighted mean of curve scores: the range assertion after the sum cannot fire. */
  lemma ScoreInRange(raw: seq<Raw>, unavailable: seq<Unavailable>, minimum: real)
    requires minimum > 0.0 && forall i | 0 <= i < |raw| :: ValidRaw(raw[i])
    ensures var c := Assemble(raw, unavailable, minimum);
            && (c.score.Some? <==> c.availableWeight >= minimum)
            && (c.score.Some? ==> 0.0 <= c.score.value <= 100.0)
  {
    forall i | 0 <= i < |raw| ensures 0.0 <= Factors(raw)[i].score <= 100.0 {
      Curves.ScoreBounds(raw[i].scoringValue, raw[i].curve);
    }
    WeightedMean.ScoreBetween(Factors(raw), minimum, 0.0, 100.0);
  }

  /** The same subfactors, each signal at least as strong in `y`. */
  ghost predicate SignalsAtMost(x: seq<Raw>, y: seq<Raw>) {
    && |x| == |y|
    && forall i | 0 <= i < |x| :: && x[i].weight == y[i].weight && x[i].curve == y[i].curve
                                  && x[i].scoringValue <= y[i].scoringValue
  }

  /** Stronger signals on the same subfactors never lower the component. */
  lemma StrongerSignals(x: seq<Raw>, y: seq<Raw>, minimum: real)
    requires minimum > 0.0 && SignalsAtMost(x, y)
    requires forall i | 0 <= i < |x| :: ValidRaw(x[i])
    requires forall i | 0 <= i < |y| :: ValidRaw(y[i])
    ensures var s, t := WeightedMean.Score(Factors(x), minimum), WeightedMean.Score(Factors(y), minimum);
            (s.Some? <==> t.Some?) && (s.Some? ==> s.value <= t.value)
  {
    forall i | 0 <= i < |x| ensures Factors(x)[i].score <= Factors(y)[i].score {
      Curves.ScoreMonotone(x[i].scoringValue, y[i].scoringValue, x[i].curve);
    }
    WeightedMean.ScoreMonotone(Factors(x), Factors(y), minimum);
  }

  // --- What an assembled component says ---

  /** The subfactor is its input scored on its own curve, with its share of the available weight. */
  ghost predicate Weighs(raw: Raw, f: SubfactorScore, available: real, sufficient: bool)
    requires |raw.curve| >= 2
  {
    && f.code == raw.code && f.rawValue == raw.rawValue && f.scoringValue == raw.scoringValue
    && f.configuredWeight == raw.weight && f.availableAt == raw.availableAt
    && Curves.OnCurve(raw.curve, raw.scoringValue, f.normalized)
    && (sufficient ==> f.effectiveWeight * available == raw.weight && f.contribution == f.normalized * f.effectiveWeight)
    && (!sufficient ==> f.effectiveWeight == 0.0 && f.contribution == 0.0)
  }

  ghost function ConfiguredTotal(subfactors: seq<SubfactorScore>): real {
    if subfactors == [] then 0.0 else subfactors[0].configuredWeight + ConfiguredTotal(subfactors[1..])
  }

  ghost function ContributionTotal(subfactors: seq<SubfactorScore>): real {
    if subfactors == [] then 0.0 else subfactors[0].contribution + ContributionTotal(subfactors[1..])
  }

  lemma SubfactorWeighs(raw: Raw, available: real, sufficient: bool)
    requires ValidRaw(raw) && (sufficient ==> available > 0.0)
    ensures Weighs(raw, ScoreSubfactor(raw, available, sufficient), available, sufficient)
  {
    Curves.ScoreOnCurve(raw.curve, raw.scoringValue, Curves.Score(raw.scoringValue, raw.curve));
    hide Curves.Score, Curves.OnCurve;
    if sufficient { QuotientTimes(raw.weight, available); }
  }

  /** The subfactors of a list of inputs. */
  ghost function Scores(raw: seq<Raw>, available: real, sufficient: bool): (r: seq<SubfactorScore>)
    requires (forall i | 0 <= i < |raw| :: ValidRaw(raw[i])) && (sufficient ==> available > 0.0)
    ensures |r| == |raw| && forall i | 0 <= i < |raw| :: r[i] == ScoreSubfactor(raw[i], available, sufficient)
  {
    seq(|raw|, i requires 0 <= i < |raw| => ScoreSubfactor(raw[i], available, sufficient))
  }

  lemma {:induction false} TotalsOf(raw: seq<Raw>, available: real)
    requires (forall i | 0 <= i < |raw| :: ValidRaw(raw[i])) && available > 0.0
    ensures ContributionTotal(Scores(raw, available, true)) == WeightedMean.SumContributions(Factors(raw), available)
  {
    hide Curves.Score, Curves.Valid;
    if raw != [] {
      TotalsOf(raw[1..], available);
      assert Scores(raw, available, true)[1..] == Scores(raw[1..], available, true);
      assert Factors(raw)[1..] == Factors(raw[1..]);
    }
  }

  lemma {:induction false} ConfiguredOf(raw: seq<Raw>, available: real, sufficient: bool)
    requires (forall i | 0 <= i < |raw| :: ValidRaw(raw[i])) && (sufficient ==> available > 0.0)
    ensures ConfiguredTotal(Scores(raw, available, sufficient)) == WeightedMean.TotalWeight(Factors(raw))
  {
    hide Curves.Score, Curves.Valid;
    if raw != [] {
      ConfiguredOf(raw[1..], available, sufficient);
      assert Scores(raw, available, sufficient)[1..] == Scores(raw[1..], available, sufficient);
      assert Factors(raw)[1..] == Factors(raw[1..]);
    }
  }

  /**
   * An assembled component: each input scored on its own curve, in order; the available weight is what they weigh,
   * the score is the sum of the contributions and exists exactly when that weight reaches the minimum.
   */
  ghost predicate Assembled(c: ComponentScore, raw: seq<Raw>, unavailable: seq<Unavailable>, minimum: real)
    requires forall i | 0 <= i < |raw| :: |raw[i].curve| >= 2
  {
    && |c.subfactors| == |raw|
    && (forall i | 0 <= i < |raw| :: Weighs(raw[i], c.subfactors[i], c.availableWeight, c.score.Some?))
    && c.availableWeight == ConfiguredTotal(c.subfactors)
    && (c.score.Some? <==> c.availableWeight >= minimum)
    && (c.score.Some? ==> c.score.value == ContributionTotal(c.subfactors))
    && c.unavailable == unavailable && |c.missing| == |unavailable|
    && (forall i | 0 <= i < |unavailable| :: c.missing[i] == unavailable[i].code)
    && c.warnings == (if c.score.Some? then [] else ["insufficient_subfactor_coverage"])
  }

  lemma AssembleLaw(raw: seq<Raw>, unavailable: seq<Unavailable>, minimum: real)
    requires minimum > 0.0 && forall i | 0 <= i < |raw| :: ValidRaw(raw[i])
    ensures forall i | 0 <= i < |raw| :: |raw[i].curve| >= 2
    ensures Assembled(Assemble(raw, unavailable, minimum), raw, unavailable, minimum)
  {
    var available := WeightedMean.TotalWeight(Factors(raw));
    var sufficient := available >= minimum;
    var c := Assemble(raw, unavailable, minimum);
    assert c.subfactors == Scores(raw, available, sufficient);
    ConfiguredOf(raw, available, sufficient);
    if sufficient { TotalsOf(raw, available); }
    assert forall i | 0 <= i < |raw| :: |raw[i].curve| >= 2;
    forall i | 0 <= i < |raw| ensures Weighs(raw[i], c.subfactors[i], available, sufficient) {
      SubfactorWeighs(raw[i], available, sufficient);
    }
    hide Curves.Score, Curves.Valid, Weighs, WeightedMean.SumContributions, ScoreSubfactor, FactorOf;
  }
}
