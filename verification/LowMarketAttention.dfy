/** The low-market-attention component: bundle re-validation, gates, and the two-factor mean. */
module LowMarketAttention {
  import opened Prelude
  import opened Text
  import opened Reals
  import opened Decimals
  import opened CapacityGrowth
  import opened Subfactors
  import AttentionPit
  import opened AttentionFeatures
  import Curves
  import WeightedMean

  datatype EvidenceLevel = CompanyLevel | SecurityLevel

  datatype Policy = Policy(
    newsSeries: SeriesIdentity, analystSeries: SeriesIdentity, evidenceLevel: EvidenceLevel,
    newsWeight: real, analystWeight: real, minimum: real,
    requiredDuration: real, maximumNewsAge: real, maximumAnalystAge: int,
    newsCurve: Curves.Curve, analystCurve: Curves.Curve)

  datatype Error =
    | UnsupportedVersion | BoundNotAllowed | NewsSeriesMismatch | AnalystSeriesMismatch | LevelMismatch
    | WindowMisaligned | IncoherentFeature(code: string) | IncoherentNewsEvidence | IncoherentAnalystEvidence

  predicate IsWhole(x: real) {
    x.Floor as real == x
  }

  /** The product as the decimal context rounds it. */
  function Microseconds(days: real): real {
    SignedRound(InMicroseconds(days))
  }

  function InMicroseconds(days: real): real {
    days * MICROSECONDS_PER_DAY as real
  }

  /** What the policy validators accept. */
  predicate ValidPolicy(p: Policy) {
    && ValidIdentity(p.newsSeries) && ValidIdentity(p.analystSeries)
    && p.newsWeight >= 0.0 && p.analystWeight >= 0.0 && p.newsWeight + p.analystWeight == 1.0
    && 0.0 < p.minimum <= 1.0
    && p.requiredDuration > 0.0 && IsWhole(Microseconds(p.requiredDuration))
    && p.maximumNewsAge >= 0.0 && p.maximumAnalystAge >= 0
    && Curves.Valid(p.newsCurve) && Curves.Valid(p.analystCurve)
  }

  /** The UTC midnight at or before the cutoff. */
  function DayStart(t: Instant): Instant {
    DateOf(t) * MICROSECONDS_PER_DAY
  }

  predicate WindowAligned(request: Request, p: Policy) {
    && request.windowEnd == DayStart(request.asOf)
    && request.windowStart == DayStart(request.asOf) - Microseconds(p.requiredDuration).Floor
  }

  predicate LevelMatches(request: Request, p: Policy) {
    match p.evidenceLevel
    case CompanyLevel => request.companyLevelOnly && request.securityId.None?
    case SecurityLevel => !request.companyLevelOnly && request.securityId.Some?
  }

  predicate SeriesMatches(actual: SeriesIdentity, expected: SeriesIdentity) {
    && actual.datasetId == expected.datasetId
    && actual.scope == expected.scope
    && actual.methodology == expected.methodology
    && Lower(actual.definition) == expected.definition
  }

  predicate IsCount(code: string) {
    code in {AttentionPit.NEWS, AttentionPit.ANALYST}
  }

  /** `_validate_feature_identity`. */
  predicate FeatureIdentityHolds(f: Feature, code: string, version: string, unit: string, cutoff: Instant) {
    && f.code == code && f.version == version && f.unit == unit
    && (f.availableAt.Some? ==> f.availableAt.value <= cutoff)
    && (f.value.Some? ==>
          if IsCount(code) then f.value.value >= 0.0 && IsWhole(f.value.value)
          else if code == "news_window_duration_days" then f.value.value > 0.0
          else f.value.value >= 0.0)
  }

  function FeatureObjection(b: Bundle, cutoff: Instant): Option<string> {
    if !FeatureIdentityHolds(b.newsCount, AttentionPit.NEWS, NEWS_COUNT_VERSION, "count", cutoff)
    then Some(AttentionPit.NEWS)
    else if !FeatureIdentityHolds(b.newsDuration, "news_window_duration_days", NEWS_DURATION_VERSION, "days", cutoff)
    then Some("news_window_duration_days")
    else if !FeatureIdentityHolds(b.newsAge, "news_window_age_days", NEWS_AGE_VERSION, "days", cutoff)
    then Some("news_window_age_days")
    else if !FeatureIdentityHolds(b.analystCount, AttentionPit.ANALYST, ANALYST_COUNT_VERSION, "count", cutoff)
    then Some(AttentionPit.ANALYST)
    else if !FeatureIdentityHolds(b.analystAge, "analyst_snapshot_age_days", ANALYST_AGE_VERSION, "days", cutoff)
    then Some("analyst_snapshot_age_days")
    else None
  }

  predicate Missing(f: Feature, warning: string) {
    f.value.None? && f.availableAt.None? && f.evidence == [] && f.warnings == [warning]
  }

  predicate RetainsTime(f: Feature, r: Row) {
    f.value.Some? && f.warnings == [] && f.availableAt == Some(r.observation.availableAt) && f.evidence == [r]
  }

  predicate RetainsCount(f: Feature, r: Row, partial: string, unknown: string) {
    var o := r.observation;
    && f.evidence == [r] && f.availableAt == Some(o.availableAt)
    && if o.coverage == "complete" then f.value == Some(o.count as real) && f.warnings == []
       else f.value.None? && f.warnings == [if o.coverage == "partial" then partial else unknown]
  }

  predicate ObservationHolds(r: Row, b: Bundle, series: SeriesIdentity, cutoff: Instant) {
    var o := r.observation;
    && o.companyId == b.request.companyId
    && o.securityId == (if b.request.companyLevelOnly then None else b.request.securityId)
    && o.datasetId == series.datasetId
    && o.scope == series.scope
    && o.methodology == series.methodology
    && Lower(o.definition) == Lower(series.definition)
    && o.coverage in {"complete", "partial", "unknown"}
    && o.count >= 0
    && r.source.validation == "accepted"
    && o.availableAt <= cutoff
  }

  predicate NewsEvidenceHolds(b: Bundle, cutoff: Instant) {
    match b.news
    case None => Missing(b.newsCount, MISSING_NEWS) && Missing(b.newsDuration, MISSING_NEWS) && Missing(b.newsAge, MISSING_NEWS)
    case Some(r) =>
      var o := r.observation;
      && ObservationHolds(r, b, b.request.newsSeries, cutoff)
      && o.metric == AttentionPit.NEWS && o.unit == "count" && o.observationDate.None?
      && o.windowStart == Some(b.request.windowStart) && o.windowEnd == Some(b.request.windowEnd)
      && RetainsTime(b.newsDuration, r) && RetainsTime(b.newsAge, r)
      && RetainsCount(b.newsCount, r, "partial_news_attention_coverage", "unknown_news_attention_coverage")
  }

  predicate AnalystEvidenceHolds(b: Bundle, cutoff: Instant) {
    match b.analyst
    case None => Missing(b.analystCount, MISSING_ANALYST) && Missing(b.analystAge, MISSING_ANALYST)
    case Some(r) =>
      var o := r.observation;
      && ObservationHolds(r, b, b.request.analystSeries, cutoff)
      && o.metric == AttentionPit.ANALYST && o.unit == "count" && o.observationDate.Some?
      && o.windowStart.None? && o.windowEnd.None?
      && RetainsTime(b.analystAge, r)
      && RetainsCount(b.analystCount, r, "partial_analyst_attention_coverage", "unknown_analyst_attention_coverage")
  }

  /** The first objection of the scorer's bundle validation, in the order it checks. */
  function Objection(b: Bundle, p: Policy): Option<Error> {
    var cutoff := b.request.asOf;
    if b.version != BUNDLE_VERSION then Some(UnsupportedVersion)
    else if b.request.bound.Some? then Some(BoundNotAllowed)
    else if !SeriesMatches(b.request.newsSeries, p.newsSeries) then Some(NewsSeriesMismatch)
    else if !SeriesMatches(b.request.analystSeries, p.analystSeries) then Some(AnalystSeriesMismatch)
    else if !LevelMatches(b.request, p) then Some(LevelMismatch)
    else if !WindowAligned(b.request, p) then Some(WindowMisaligned)
    else if FeatureObjection(b, cutoff).Some? then Some(IncoherentFeature(FeatureObjection(b, cutoff).value))
    else if !NewsEvidenceHolds(b, cutoff) then Some(IncoherentNewsEvidence)
    else if !AnalystEvidenceHolds(b, cutoff) then Some(IncoherentAnalystEvidence)
    else None
  }

  // --- Scoring ---

  /** What becomes of one subfactor. */
  datatype Outcome = Skipped | Blocked(unavailable: Unavailable) | Scored(raw: Raw)

  predicate DurationMismatch(b: Bundle, p: Policy) {
    b.newsDuration.value != Some(p.requiredDuration)
  }

  predicate NewsStale(b: Bundle, p: Policy) {
    b.newsAge.value.Some? && b.newsAge.value.value > p.maximumNewsAge
  }

  predicate AnalystStale(b: Bundle, p: Policy) {
    b.analystAge.value.Some? && b.analystAge.value.value > p.maximumAnalystAge as real
  }

  function NewsGates(b: Bundle, p: Policy): seq<string> {
    (if DurationMismatch(b, p) then ["news_window_duration_mismatch"] else [])
    + (if NewsStale(b, p) then ["news_attention_stale"] else [])
  }

  function NewsOutcome(b: Bundle, p: Policy): (o: Outcome)
    requires b.newsCount.value.Some? ==> b.newsCount.availableAt.Some?
  {
    var f, gates := b.newsCount, NewsGates(b, p);
    if p.newsWeight == 0.0 then Skipped
    else if f.value.None? then Blocked(Unavailable(AttentionPit.NEWS, p.newsWeight, f.warnings))
    else if gates != [] then Blocked(Unavailable(AttentionPit.NEWS, p.newsWeight, gates))
    else Scored(Raw(AttentionPit.NEWS, f.value.value, -f.value.value, p.newsWeight, f.availableAt.value, p.newsCurve))
  }

  function AnalystOutcome(b: Bundle, p: Policy): Outcome
    requires b.analystCount.value.Some? ==> b.analystCount.availableAt.Some?
  {
    var f := b.analystCount;
    if p.analystWeight == 0.0 then Skipped
    else if f.value.None? then Blocked(Unavailable(AttentionPit.ANALYST, p.analystWeight, f.warnings))
    else if AnalystStale(b, p) then
      Blocked(Unavailable(AttentionPit.ANALYST, p.analystWeight, ["analyst_attention_stale"]))
    else
      Scored(Raw(AttentionPit.ANALYST, f.value.value, -f.value.value, p.analystWeight, f.availableAt.value,
                 p.analystCurve))
  }

  function RawOf(o: Outcome): seq<Raw> {
    if o.Scored? then [o.raw] else []
  }

  function UnavailableOf(o: Outcome): seq<Unavailable> {
    if o.Blocked? then [o.unavailable] else []
  }

  /** The dictionary and the list that the collectors share and update. */
  class Collection {
    var raw: map<string, Raw>
    var unavailable: seq<Unavailable>

    constructor ()
      ensures raw == map[] && unavailable == []
    {
      raw, unavailable := map[], [];
    }

    method CollectNews(b: Bundle, p: Policy)
      requires b.newsCount.value.Some? ==> b.newsCount.availableAt.Some?
      modifies this
      ensures raw == if NewsOutcome(b, p).Scored? then old(raw)[AttentionPit.NEWS := NewsOutcome(b, p).raw] else old(raw)
      ensures unavailable == old(unavailable) + UnavailableOf(NewsOutcome(b, p))
    {
      if p.newsWeight == 0.0 {
        return;
      }
      var f := b.newsCount;
      if f.value.None? {
        unavailable := unavailable + [Unavailable(AttentionPit.NEWS, p.newsWeight, f.warnings)];
        return;
      }
      var warnings: seq<string> := [];
      if b.newsDuration.value != Some(p.requiredDuration) {
        warnings := warnings + ["news_window_duration_mismatch"];
      }
      if b.newsAge.value.Some? && b.newsAge.value.value > p.maximumNewsAge {
        warnings := warnings + ["news_attention_stale"];
      }
      assert warnings == NewsGates(b, p);
      if warnings != [] {
        unavailable := unavailable + [Unavailable(AttentionPit.NEWS, p.newsWeight, warnings)];
        return;
      }
      raw := raw[AttentionPit.NEWS :=
        Raw(AttentionPit.NEWS, f.value.value, -f.value.value, p.newsWeight, f.availableAt.value, p.newsCurve)];
    }

    method CollectAnalyst(b: Bundle, p: Policy)
      requires b.analystCount.value.Some? ==> b.analystCount.availableAt.Some?
      modifies this
      ensures raw == if AnalystOutcome(b, p).Scored? then old(raw)[AttentionPit.ANALYST := AnalystOutcome(b, p).raw]
                     else old(raw)
      ensures unavailable == old(unavailable) + UnavailableOf(AnalystOutcome(b, p))
    {
      if p.analystWeight == 0.0 {
        return;
      }
      var f := b.analystCount;
      if f.value.None? {
        unavailable := unavailable + [Unavailable(AttentionPit.ANALYST, p.analystWeight, f.warnings)];
        return;
      }
      var age := b.analystAge;
      if age.value.Some? && age.value.value > p.maximumAnalystAge as real {
        unavailable := unavailable
          + [Unavailable(AttentionPit.ANALYST, p.analystWeight, ["analyst_attention_stale"])];
        return;
      }
      raw := raw[AttentionPit.ANALYST :=
        Raw(AttentionPit.ANALYST, f.value.value, -f.value.value, p.analystWeight, f.availableAt.value,
            p.analystCurve)];
    }
  }

  /** An accepted bundle's counts carry their availability, so the collectors' assertions hold. */
  lemma AcceptedCountsAvailable(b: Bundle, p: Policy)
    requires Objection(b, p).None?
    ensures CountsAvailable(b)
  {
    assert NewsEvidenceHolds(b, b.request.asOf) && AnalystEvidenceHolds(b, b.request.asOf);
  }

  predicate CountsAvailable(b: Bundle) {
    && (b.newsCount.value.Some? ==> b.newsCount.availableAt.Some?)
    && (b.analystCount.value.Some? ==> b.analystCount.availableAt.Some?)
  }

  function AcceptedComponent(b: Bundle, p: Policy): ComponentScore
    requires ValidPolicy(p) && CountsAvailable(b)
  {
    var news, analyst := NewsOutcome(b, p), AnalystOutcome(b, p);
    Assemble(RawOf(news) + RawOf(analyst), UnavailableOf(news) + UnavailableOf(analyst), p.minimum)
  }

  function Component(b: Bundle, p: Policy): Result<ComponentScore, Error>
    requires ValidPolicy(p)
  {
    if Objection(b, p).Some? then
      Err(Objection(b, p).value)
    else
      AcceptedCountsAvailable(b, p);
      Ok(AcceptedComponent(b, p))
  }

  method Score(b: Bundle, p: Policy) returns (r: Result<ComponentScore, Error>)
    requires ValidPolicy(p)
    ensures r == Component(b, p)
  {
    var objection := Objection(b, p);
    if objection.Some? {
      return Err(objection.value);
    }
    AcceptedCountsAvailable(b, p);
    hide Objection;
    var collected := new Collection();
    collected.CollectNews(b, p);
    collected.CollectAnalyst(b, p);
    var raw := (if AttentionPit.NEWS in collected.raw then [collected.raw[AttentionPit.NEWS]] else [])
               + (if AttentionPit.ANALYST in collected.raw then [collected.raw[AttentionPit.ANALYST]] else []);
    ghost var news, analyst := NewsOutcome(b, p), AnalystOutcome(b, p);
    assert raw == RawOf(news) + RawOf(analyst);
    assert collected.unavailable == UnavailableOf(news) + UnavailableOf(analyst);
    r := Ok(Assemble(raw, collected.unavailable, p.minimum));
  }

  // --- The contract between assembler and scorer ---

  /** The caller asks for exactly what the policy pins. */
  predicate Aligned(request: Request, p: Policy) {
    && request.newsSeries == p.newsSeries
    && request.analystSeries == p.analystSeries
    && request.bound.None?
    && LevelMatches(request, p)
    && WindowAligned(request, p)
  }

  lemma WholeDuration(days: real)
    requires days > 0.0 && IsWhole(Microseconds(days))
    ensures Microseconds(days).Floor > 0
    ensures DecimalDays(Microseconds(days).Floor) > 0.0
  {
    hide SignedRound;
    ProductPositive(days, MICROSECONDS_PER_DAY as real);
    SignedRoundSign(days * MICROSECONDS_PER_DAY as real);
    var n := Microseconds(days).Floor;
    PositiveDays(n);
    SignedRoundSign(Days(n));
  }

  lemma PositiveDays(n: int)
    requires n > 0
    ensures Days(n) > 0.0
  {
    QuotientTimes(n as real, MICROSECONDS_PER_DAY as real);
    ScaledOrder(0.0, Days(n), MICROSECONDS_PER_DAY as real);
  }

  lemma AgeWithinDay(t: Instant)
    ensures 0 <= t - DayStart(t) < MICROSECONDS_PER_DAY
    ensures 0.0 <= DecimalDays(t - DayStart(t)) < 1.0
  {
    var n := t - DayStart(t);
    assert n == t % MICROSECONDS_PER_DAY;
    WithinDay(n);
    hide SignedRound, Days;
    SignedRoundSign(Days(n));
    LessThanOne(Days(n));
  }

  lemma WithinDay(n: int)
    requires 0 <= n < MICROSECONDS_PER_DAY
    ensures 0.0 <= Days(n) <= 1.0 - 0.000_000_000_001
  {
    var day := MICROSECONDS_PER_DAY as real;
    QuotientTimes(n as real, day);
    ScaledOrder(Days(n), 0.0, day);
    ScaledOrder(1.0 - 0.000_000_000_001, Days(n), day);
    assert n as real <= day - 1.0;
  }

  lemma LessThanOne(x: real)
    requires 0.0 <= x <= 1.0 - 0.000_000_000_001
    ensures SignedRound(x) < 1.0
  {
    assert Power(-13) < 0.000_000_000_001;
    hide Power, Round;
    AtMost(-PRECISION, -13);
    RoundBelowOne(x);
  }

  /** The window an aligned request asks for is well formed. */
  lemma AlignedWindow(request: Request, p: Policy)
    requires ValidPolicy(p) && Aligned(request, p)
    ensures request.windowStart < request.windowEnd <= request.asOf
    ensures request.companyLevelOnly == request.securityId.None?
    ensures request.windowEnd - request.windowStart == Microseconds(p.requiredDuration).Floor
  {
    hide Microseconds;
    WholeDuration(p.requiredDuration);
    AgeWithinDay(request.asOf);
  }

  lemma NewsPartAccepted(table: Table, request: Request, p: Policy)
    requires ValidPolicy(p) && Aligned(request, p) && FeaturesAsOf(table, request).Ok?
    ensures var b := FeaturesAsOf(table, request).value;
            && FeatureIdentityHolds(b.newsCount, AttentionPit.NEWS, NEWS_COUNT_VERSION, "count", request.asOf)
            && FeatureIdentityHolds(
                 b.newsDuration, "news_window_duration_days", NEWS_DURATION_VERSION, "days", request.asOf)
            && FeatureIdentityHolds(b.newsAge, "news_window_age_days", NEWS_AGE_VERSION, "days", request.asOf)
            && NewsEvidenceHolds(b, request.asOf)
  {
    hide ReadNews, ReadAnalyst, DecimalDays, Microseconds;
    AlignedWindow(request, p);
    WholeDuration(p.requiredDuration);
    LowerIdempotent(p.newsSeries.definition);
  }

  lemma AnalystPartAccepted(table: Table, request: Request, p: Policy)
    requires ValidPolicy(p) && Aligned(request, p) && FeaturesAsOf(table, request).Ok?
    ensures var b := FeaturesAsOf(table, request).value;
            && FeatureIdentityHolds(b.analystCount, AttentionPit.ANALYST, ANALYST_COUNT_VERSION, "count", request.asOf)
            && FeatureIdentityHolds(b.analystAge, "analyst_snapshot_age_days", ANALYST_AGE_VERSION, "days", request.asOf)
            && AnalystEvidenceHolds(b, request.asOf)
  {
    hide ReadNews, ReadAnalyst;
    LowerIdempotent(p.analystSeries.definition);
  }

  /** Every bundle the assembler returns for an aligned request passes the scorer's validation. */
  lemma AssembledBundleAccepted(table: Table, request: Request, p: Policy)
    requires ValidPolicy(p) && Aligned(request, p) && FeaturesAsOf(table, request).Ok?
    ensures Objection(FeaturesAsOf(table, request).value, p) == None
  {
    NewsPartAccepted(table, request, p);
    AnalystPartAccepted(table, request, p);
    LowerIdempotent(p.newsSeries.definition);
    LowerIdempotent(p.analystSeries.definition);
    hide FeatureIdentityHolds, NewsEvidenceHolds, AnalystEvidenceHolds;
  }

  /** The policy's duration is what dividing its whole microseconds gives back. */
  predicate DurationKept(p: Policy) {
    DecimalDays(Microseconds(p.requiredDuration).Floor) == p.requiredDuration
  }

  /**
   * For those bundles a present news window is less than a day old, and the duration gate is closed exactly when the
   * policy's own duration survives the conversion to microseconds and back.
   */
  lemma DurationGateDeadIff(table: Table, request: Request, p: Policy)
    requires ValidPolicy(p) && Aligned(request, p) && FeaturesAsOf(table, request).Ok?
    requires FeaturesAsOf(table, request).value.news.Some?
    ensures var b := FeaturesAsOf(table, request).value;
            && b.newsAge.value.Some? && 0.0 <= b.newsAge.value.value < 1.0
            && (!DurationMismatch(b, p) <==> DurationKept(p))
            && (p.maximumNewsAge >= 1.0 ==> !NewsStale(b, p))
  {
    hide ReadNews, ReadAnalyst, DecimalDays, Microseconds;
    AlignedWindow(request, p);
    AgeWithinDay(request.asOf);
  }

  /** It survives whenever it is exactly a whole number of microseconds and has at most 28 digits. */
  lemma ExactDurationKept(days: real)
    requires days > 0.0 && OnGrid(days, Unit(days))
    requires IsWhole(InMicroseconds(days)) && InMicroseconds(days) < Power(PRECISION)
    ensures Microseconds(days) == InMicroseconds(days) && DecimalDays(Microseconds(days).Floor) == days
  {
    var exact := InMicroseconds(days);
    assert exact > 0.0;
    hide Power, Unit, SignedRound, OnGrid;
    GridIsKept(days);
    WholeIsKept(exact);
    var n := exact.Floor;
    DaysOfWhole(n, days);
    hide Days, IsWhole;
  }

  lemma WholeIsKept(exact: real)
    requires IsWhole(exact) && 0.0 < exact < Power(PRECISION)
    ensures SignedRound(exact) == exact
  {
    var n := exact.Floor;
    assert Power(0) == 1.0;
    TenIsPower(PRECISION);
    hide Power, Ten, Round;
    Representable(n, 0);
    assert Times(n, 1.0) == exact;
  }

  lemma GridIsKept(x: real)
    requires x > 0.0 && OnGrid(x, Unit(x))
    ensures SignedRound(x) == x
  {
    hide Round, Unit, OnGrid;
    ExactOnGrid(x);
  }

  lemma DaysOfWhole(n: int, days: real)
    requires n as real == InMicroseconds(days)
    ensures Days(n) == days
  {
    QuotientTimes(n as real, MICROSECONDS_PER_DAY as real);
    Cancel(Days(n), days, MICROSECONDS_PER_DAY as real);
  }

  /** A third of a day, with 29 digits. */
  function LongThird(): real {
    Times(THIRD_28, Power(-28)) + 3.0 * Power(-29)
  }

  /**
   * It does not always: the validators take 0.333...3 with 29 threes for a whole number of microseconds, and the gate
   * then blocks every news window of the required length.
   */
  lemma LongThirdNotKept(p: Policy)
    requires p.requiredDuration == LongThird()
    ensures p.requiredDuration > 0.0 && IsWhole(Microseconds(p.requiredDuration)) && !DurationKept(p)
  {
    OneInLastPlaces();
    PowerStep(-29);
    hide Power;
    var d := p.requiredDuration;
    assert 1.0 == 3.0 * d + Power(-29);
    assert 0.0 < d < 1.0 / 3.0;
    LongThirdMicroseconds(d);
    assert Days(28_800_000_000) == 1.0 / 3.0;
    OneThird();
    PartIs(3.0, 1.0);
  }

  lemma LongThirdMicroseconds(d: real)
    requires 1.0 == 3.0 * d + Power(-29) && d > 0.0
    ensures Microseconds(d) == 28_800_000_000.0
  {
    var x, v := d * MICROSECONDS_PER_DAY as real, Power(-17);
    assert x == 28_800_000_000.0 - 28_800_000_000.0 * Power(-29);
    SmallPowers();
    TenPowers();
    hide Power;
    ExponentIs(x, 10);
    assert Unit(x) == v;
    var n := 2_880_000_000_000_000_000_000_000_000;
    assert Times(n, v) == 28_800_000_000.0;
    hide Unit, Times, Round;
    assert NearestAt(x, n, v);
    RoundIff(x, 28_800_000_000.0);
  }

  lemma SmallPowers()
    ensures Power(-17) == 100_000_000_000_0.0 * Power(-29) && 100_000_000_000_000_000.0 * Power(-17) == 1.0
  {
    assert Ten(12) == 1_000_000_000_000;
    TenPlus(12, 5);
    assert Ten(17) == 100_000_000_000_000_000;
    assert Power(0) == 1.0;
    hide Power, Ten;
    PowerPlus(-29, 12);
    PowerPlus(-17, 17);
  }

  lemma TenPowers()
    ensures Power(10) == 10_000_000_000.0 && Power(11) == 100_000_000_000.0
  {
    assert Ten(10) == 10_000_000_000 && Ten(11) == 100_000_000_000;
    hide Power, Ten;
    TenIsPower(10);
    TenIsPower(11);
  }

  lemma ComponentInRange(b: Bundle, p: Policy)
    requires ValidPolicy(p) && Objection(b, p).None?
    ensures var r := Component(b, p);
            && r.Ok?
            && (r.value.score.Some? <==> r.value.availableWeight >= p.minimum)
            && (r.value.score.Some? ==> 0.0 <= r.value.score.value <= 100.0)
  {
    AcceptedCountsAvailable(b, p);
    hide Objection;
    var news, analyst := NewsOutcome(b, p), AnalystOutcome(b, p);
    ScoreInRange(RawOf(news) + RawOf(analyst), UnavailableOf(news) + UnavailableOf(analyst), p.minimum);
    hide Assemble;
  }

  /**
   * End to end: over any table whose reads succeed, an aligned request is assembled, accepted and scored,
   * and its score, if any, is in range.
   */
  lemma AlignedRequestScores(table: Table, request: Request, p: Policy)
    requires AttentionPit.DistinctIds(table.rows) && ValidPolicy(p) && Aligned(request, p)
    requires AttentionPit.ObservationsAsOf(
               table.rows, QueryFor(request, request.newsSeries, AttentionPit.NEWS), table.securities).Ok?
    requires AttentionPit.ObservationsAsOf(
               table.rows, QueryFor(request, request.analystSeries, AttentionPit.ANALYST), table.securities).Ok?
    ensures FeaturesAsOf(table, request).Ok?
    ensures var r := Component(FeaturesAsOf(table, request).value, p);
            && r.Ok?
            && (r.value.score.Some? <==> r.value.availableWeight >= p.minimum)
            && (r.value.score.Some? ==> 0.0 <= r.value.score.value <= 100.0)
  {
    AlignedWindow(request, p);
    AssemblerFailsOnlyOnReads(table, request);
    AssembledBundleAccepted(table, request, p);
    hide FeaturesAsOf, Objection, Component, ValidPolicy, Aligned;
    ComponentInRange(FeaturesAsOf(table, request).value, p);
  }

  /** Fewer mentions and fewer analysts never score lower, at fixed availability. */
  lemma LessAttentionNeverScoresLower(a: Bundle, b: Bundle, p: Policy)
    requires ValidPolicy(p) && Objection(a, p).None? && Objection(b, p).None?
    requires CountsAvailable(a) && CountsAvailable(b)
    requires NewsOutcome(a, p).Scored? <==> NewsOutcome(b, p).Scored?
    requires AnalystOutcome(a, p).Scored? <==> AnalystOutcome(b, p).Scored?
    requires a.newsCount.value.Some? && b.newsCount.value.Some? ==> b.newsCount.value.value <= a.newsCount.value.value
    requires a.analystCount.value.Some? && b.analystCount.value.Some? ==>
               b.analystCount.value.value <= a.analystCount.value.value
    ensures var s, t := Component(a, p).value.score, Component(b, p).value.score;
            (s.Some? <==> t.Some?) && (s.Some? ==> s.value <= t.value)
  {
    hide Objection;
    var x := RawOf(NewsOutcome(a, p)) + RawOf(AnalystOutcome(a, p));
    var y := RawOf(NewsOutcome(b, p)) + RawOf(AnalystOutcome(b, p));
    StrongerSignals(x, y, p.minimum);
  }
}
