/** What attention features and the low-market-attention component say, in the fields they were computed from. */
module AttentionLaws {
  import opened Prelude
  import opened Decimals
  import opened CapacityGrowth
  import opened Subfactors
  import opened AttentionFeatures
  import opened LowMarketAttention
  import Curves

  // --- Features ---

  /** A count is shown when its coverage is complete, and its coverage is the warning otherwise. */
  ghost predicate CountShown(f: Feature, read: Option<Row>, missing: string, partial: string, unknown: string) {
    && f.unit == "count"
    && (read.None? ==> f.value == None && f.availableAt == None && f.warnings == [missing] && f.evidence == [])
    && (read.Some? ==>
          var o := read.value.observation;
          && f.availableAt == Some(o.availableAt) && f.evidence == [read.value]
          && (o.coverage == "complete" ==> f.value == Some(o.count as real) && f.warnings == [])
          && (o.coverage == "partial" ==> f.value == None && f.warnings == [partial])
          && (o.coverage == "unknown" ==> f.value == None && f.warnings == [unknown]))
  }

  /** A number of days, or the warning that there is no observation. */
  ghost predicate DaysShown(f: Feature, read: Option<Row>, days: real, missing: string) {
    && f.unit == "days"
    && (read.None? ==> f.value == None && f.availableAt == None && f.warnings == [missing] && f.evidence == [])
    && (read.Some? ==>
          f.value == Some(days) && f.availableAt == Some(read.value.observation.availableAt) && f.warnings == []
          && f.evidence == [read.value])
  }

  /** Microseconds in days, as the decimal context rounds the quotient. */
  ghost function RoundedDays(microseconds: int): real {
    SignedRound(microseconds as real / 86_400_000_000.0)
  }

  /**
   * The features of a bundle: the two counts, the length of the news window, its age at the cutoff and the age of the
   * analyst snapshot in calendar days, from the two rows the reads return.
   */
  lemma FeaturesLaw(table: Table, request: Request)
    requires FeaturesAsOf(table, request).Ok?
    ensures var b, news, analyst := FeaturesAsOf(table, request).value, ReadNews(table, request), ReadAnalyst(table, request);
            && news.Ok? && analyst.Ok? && b.request == request && b.news == news.value && b.analyst == analyst.value
            && CountShown(b.newsCount, b.news, "missing_news_mentions_observation", "partial_news_attention_coverage",
                          "unknown_news_attention_coverage")
            && DaysShown(b.newsDuration, b.news, RoundedDays(request.windowEnd - request.windowStart),
                         "missing_news_mentions_observation")
            && DaysShown(b.newsAge, b.news, RoundedDays(request.asOf - request.windowEnd),
                         "missing_news_mentions_observation")
            && CountShown(b.analystCount, b.analyst, "missing_analyst_coverage_observation",
                          "partial_analyst_attention_coverage", "unknown_analyst_attention_coverage")
            && (b.analyst.None? ==> DaysShown(b.analystAge, b.analyst, 0.0, "missing_analyst_coverage_observation"))
            && (b.analyst.Some? ==>
                  && b.analyst.value.observation.observationDate.Some?
                  && DaysShown(b.analystAge, b.analyst,
                               (DateOf(request.asOf) - b.analyst.value.observation.observationDate.value) as real,
                               "missing_analyst_coverage_observation"))
  {
    hide SignedRound, ReadNews, ReadAnalyst;
  }

  // --- The component ---

  /** The news count counts: weighed, known, over a window of the required length, and not stale. */
  ghost predicate NewsCounts(b: Bundle, p: Policy) {
    && p.newsWeight != 0.0 && b.newsCount.value.Some?
    && b.newsDuration.value == Some(p.requiredDuration)
    && (b.newsAge.value.Some? ==> b.newsAge.value.value <= p.maximumNewsAge)
  }

  /** The analyst count counts: weighed, known and not stale. */
  ghost predicate AnalystCounts(b: Bundle, p: Policy) {
    && p.analystWeight != 0.0 && b.analystCount.value.Some?
    && (b.analystAge.value.Some? ==> b.analystAge.value.value <= p.maximumAnalystAge as real)
  }

  /** Why a weighed news count does not count. */
  ghost predicate NewsReport(b: Bundle, p: Policy, warnings: seq<string>) {
    if b.newsCount.value.None? then warnings == b.newsCount.warnings
    else
      var stale := b.newsAge.value.Some? && b.newsAge.value.value > p.maximumNewsAge;
      if b.newsDuration.value == Some(p.requiredDuration) then warnings == ["news_attention_stale"]
      else if stale then warnings == ["news_window_duration_mismatch", "news_attention_stale"]
      else warnings == ["news_window_duration_mismatch"]
  }

  /** Why a weighed analyst count does not count. */
  ghost predicate AnalystReport(b: Bundle, warnings: seq<string>) {
    warnings == if b.analystCount.value.None? then b.analystCount.warnings else ["analyst_attention_stale"]
  }

  /** A count scored on its own curve at minus its value, with its share of the available weight. */
  ghost predicate CountScored(
      f: Feature, code: string, weight: real, curve: Curves.Curve, s: SubfactorScore, available: real, sufficient: bool)
    requires |curve| >= 2
  {
    && f.value.Some? && s.code == code && s.rawValue == f.value.value && s.scoringValue == -f.value.value
    && s.configuredWeight == weight && f.availableAt == Some(s.availableAt)
    && Curves.OnCurve(curve, -f.value.value, s.normalized)
    && (sufficient ==> s.effectiveWeight * available == weight && s.contribution == s.normalized * s.effectiveWeight)
    && (!sufficient ==> s.effectiveWeight == 0.0 && s.contribution == 0.0)
  }

  lemma NewsOutcomeLaw(b: Bundle, p: Policy)
    requires ValidPolicy(p) && CountsAvailable(b)
    ensures var o := NewsOutcome(b, p);
            && (o.Skipped? <==> p.newsWeight == 0.0)
            && (o.Scored? <==> NewsCounts(b, p))
            && (o.Scored? ==> o.raw == Raw("news_mentions_count", b.newsCount.value.value, -b.newsCount.value.value,
                                           p.newsWeight, b.newsCount.availableAt.value, p.newsCurve))
            && (o.Blocked? ==>
                  o.unavailable.code == "news_mentions_count" && o.unavailable.configuredWeight == p.newsWeight
                  && NewsReport(b, p, o.unavailable.warnings))
  {
    hide ValidIdentity, Microseconds, Curves.Valid;
  }

  lemma AnalystOutcomeLaw(b: Bundle, p: Policy)
    requires ValidPolicy(p) && CountsAvailable(b)
    ensures var o := AnalystOutcome(b, p);
            && (o.Skipped? <==> p.analystWeight == 0.0)
            && (o.Scored? <==> AnalystCounts(b, p))
            && (o.Scored? ==> o.raw == Raw("analyst_coverage_count", b.analystCount.value.value,
                                           -b.analystCount.value.value, p.analystWeight,
                                           b.analystCount.availableAt.value, p.analystCurve))
            && (o.Blocked? ==>
                  o.unavailable.code == "analyst_coverage_count" && o.unavailable.configuredWeight == p.analystWeight
                  && AnalystReport(b, o.unavailable.warnings))
  {
    hide ValidIdentity, Microseconds, Curves.Valid;
  }

  /** The scored counts: news first, each on its own curve with its own weight. */
  ghost predicate CountsScored(b: Bundle, p: Policy, c: ComponentScore)
    requires |p.newsCurve| >= 2 && |p.analystCurve| >= 2
  {
    var n := |c.subfactors|;
    && n == (if NewsCounts(b, p) then 1 else 0) + (if AnalystCounts(b, p) then 1 else 0)
    && (NewsCounts(b, p) ==>
          CountScored(b.newsCount, "news_mentions_count", p.newsWeight, p.newsCurve, c.subfactors[0],
                      c.availableWeight, c.score.Some?))
    && (AnalystCounts(b, p) ==>
          CountScored(b.analystCount, "analyst_coverage_count", p.analystWeight, p.analystCurve, c.subfactors[n - 1],
                      c.availableWeight, c.score.Some?))
  }

  /** The reported counts: those weighed that do not count, news first, each with its reason. */
  ghost predicate CountsReported(b: Bundle, p: Policy, c: ComponentScore) {
    var news, analyst := p.newsWeight != 0.0 && !NewsCounts(b, p), p.analystWeight != 0.0 && !AnalystCounts(b, p);
    var n := |c.unavailable|;
    && n == (if news then 1 else 0) + (if analyst then 1 else 0)
    && |c.missing| == n && (forall i | 0 <= i < n :: c.missing[i] == c.unavailable[i].code)
    && (news ==>
          c.unavailable[0].code == "news_mentions_count" && c.unavailable[0].configuredWeight == p.newsWeight
          && NewsReport(b, p, c.unavailable[0].warnings))
    && (analyst ==>
          c.unavailable[n - 1].code == "analyst_coverage_count"
          && c.unavailable[n - 1].configuredWeight == p.analystWeight && AnalystReport(b, c.unavailable[n - 1].warnings))
  }

  lemma WeighedCount(
      raw: Raw, f: Feature, code: string, weight: real, curve: Curves.Curve, s: SubfactorScore, available: real,
      sufficient: bool)
    requires f.value.Some? && f.availableAt.Some? && |curve| >= 2
    requires raw == Raw(code, f.value.value, -f.value.value, weight, f.availableAt.value, curve)
    requires Weighs(raw, s, available, sufficient)
    ensures CountScored(f, code, weight, curve, s, available, sufficient)
  {
    hide Curves.OnCurve;
  }

  lemma Composed(b: Bundle, p: Policy)
    requires ValidPolicy(p) && Objection(b, p).None?
    ensures CountsAvailable(b) && Component(b, p) == Ok(AcceptedComponent(b, p))
    ensures |p.newsCurve| >= 2 && |p.analystCurve| >= 2
    ensures var raw := RawOf(NewsOutcome(b, p)) + RawOf(AnalystOutcome(b, p));
            && (forall i | 0 <= i < |raw| :: |raw[i].curve| >= 2)
            && Assembled(AcceptedComponent(b, p), raw,
                         UnavailableOf(NewsOutcome(b, p)) + UnavailableOf(AnalystOutcome(b, p)), p.minimum)
  {
    AcceptedCountsAvailable(b, p);
    hide Objection, Assembled, Assemble;
    var raw := RawOf(NewsOutcome(b, p)) + RawOf(AnalystOutcome(b, p));
    AssembleLaw(raw, UnavailableOf(NewsOutcome(b, p)) + UnavailableOf(AnalystOutcome(b, p)), p.minimum);
  }

  lemma ScoredLaw(b: Bundle, p: Policy)
    requires ValidPolicy(p) && Objection(b, p).None?
    ensures Component(b, p).Ok? && |p.newsCurve| >= 2 && |p.analystCurve| >= 2
    ensures CountsScored(b, p, Component(b, p).value)
  {
    Composed(b, p);
    NewsOutcomeLaw(b, p);
    AnalystOutcomeLaw(b, p);
    var news, analyst := NewsOutcome(b, p), AnalystOutcome(b, p);
    var raw, c := RawOf(news) + RawOf(analyst), AcceptedComponent(b, p);
    var n := |raw|;
    hide Objection, NewsReport, AnalystReport, NewsCounts, AnalystCounts, NewsOutcome, AnalystOutcome, ConfiguredTotal,
         ContributionTotal, Weighs, CountScored, AcceptedComponent, Component, ValidPolicy;
    assert |c.subfactors| == n;
    if news.Scored? {
      assert Weighs(raw[0], c.subfactors[0], c.availableWeight, c.score.Some?);
      WeighedCount(raw[0], b.newsCount, "news_mentions_count", p.newsWeight, p.newsCurve, c.subfactors[0],
                   c.availableWeight, c.score.Some?);
    }
    if analyst.Scored? {
      assert Weighs(raw[n - 1], c.subfactors[n - 1], c.availableWeight, c.score.Some?);
      WeighedCount(raw[n - 1], b.analystCount, "analyst_coverage_count", p.analystWeight, p.analystCurve,
                   c.subfactors[n - 1], c.availableWeight, c.score.Some?);
    }
  }

  lemma ReportedLaw(b: Bundle, p: Policy)
    requires ValidPolicy(p) && Objection(b, p).None?
    ensures Component(b, p).Ok? && CountsReported(b, p, Component(b, p).value)
  {
    Composed(b, p);
    NewsOutcomeLaw(b, p);
    AnalystOutcomeLaw(b, p);
    hide Objection, NewsReport, AnalystReport, NewsCounts, AnalystCounts, NewsOutcome, AnalystOutcome, ConfiguredTotal,
         ContributionTotal, Weighs, AcceptedComponent, Component, ValidPolicy;
  }

  /**
   * The component of an accepted bundle: the counts that count, scored at minus their value on their own curves; the
   * others reported with their reasons; the score is the sum of the contributions, on enough weight.
   */
  lemma ComponentLaw(b: Bundle, p: Policy)
    requires ValidPolicy(p) && Objection(b, p).None?
    ensures Component(b, p).Ok? && |p.newsCurve| >= 2 && |p.analystCurve| >= 2
    ensures var c := Component(b, p).value;
            && CountsScored(b, p, c) && CountsReported(b, p, c)
            && c.availableWeight == ConfiguredTotal(c.subfactors)
            && (c.score.Some? <==> c.availableWeight >= p.minimum)
            && (c.score.Some? ==> c.score.value == ContributionTotal(c.subfactors))
            && c.warnings == (if c.score.Some? then [] else ["insufficient_subfactor_coverage"])
  {
    Composed(b, p);
    ScoredLaw(b, p);
    ReportedLaw(b, p);
    hide Objection, CountsScored, CountsReported, ConfiguredTotal, ContributionTotal, AcceptedComponent, Component,
         ValidPolicy, NewsOutcome, AnalystOutcome;
  }

  // --- What an accepted bundle is ---

  /** The series of the bundle is the policy's, whose digest is in lower case. */
  ghost predicate SameSeries(actual: SeriesIdentity, expected: SeriesIdentity) {
    && actual.datasetId == expected.datasetId && actual.scope == expected.scope
    && actual.methodology == expected.methodology && |actual.definition| == |expected.definition|
    && forall i | 0 <= i < |actual.definition| ::
         expected.definition[i] ==
         if 'A' <= actual.definition[i] <= 'Z' then (actual.definition[i] as int + 32) as char else actual.definition[i]
  }

  /** The retained row is the request's, accepted and available at the cutoff. */
  ghost predicate RowOfRequest(r: Row, b: Bundle, series: SeriesIdentity) {
    var o := r.observation;
    && o.companyId == b.request.companyId && o.datasetId == series.datasetId && o.scope == series.scope
    && o.methodology == series.methodology && r.source.validation == "accepted" && o.availableAt <= b.request.asOf
    && o.securityId == (if b.request.companyLevelOnly then None else b.request.securityId) && o.count >= 0
    && o.unit == "count"
  }

  /** A count feature agrees with the row it retains. */
  ghost predicate CountRetained(f: Feature, r: Row) {
    && f.evidence == [r] && f.availableAt == Some(r.observation.availableAt)
    && (r.observation.coverage == "complete" <==> f.value.Some?)
    && (f.value.Some? ==> f.value == Some(r.observation.count as real) && f.warnings == [])
  }

  /**
   * A bundle is scored only for the policy's own series and level, over a window that ends at the midnight at or
   * before the cutoff and is as long as the policy asks, with features that retain the rows they state.
   */
  lemma AcceptedBundle(b: Bundle, p: Policy)
    requires ValidPolicy(p) && Component(b, p).Ok?
    ensures b.request.bound == None
    ensures SameSeries(b.request.newsSeries, p.newsSeries) && SameSeries(b.request.analystSeries, p.analystSeries)
    ensures if p.evidenceLevel == CompanyLevel then b.request.companyLevelOnly && b.request.securityId == None
            else !b.request.companyLevelOnly && b.request.securityId.Some?
    ensures b.request.windowEnd % 86_400_000_000 == 0
            && b.request.windowEnd <= b.request.asOf < b.request.windowEnd + 86_400_000_000
    ensures (b.request.windowEnd - b.request.windowStart) as real == SignedRound(p.requiredDuration * 86_400_000_000.0)
    ensures b.news.None? ==> b.newsCount.value == None && b.newsDuration.value == None && b.newsAge.value == None
    ensures b.news.Some? ==>
              && RowOfRequest(b.news.value, b, b.request.newsSeries) && CountRetained(b.newsCount, b.news.value)
              && b.news.value.observation.metric == "news_mentions_count"
              && b.news.value.observation.windowStart == Some(b.request.windowStart)
              && b.news.value.observation.windowEnd == Some(b.request.windowEnd)
              && b.newsDuration.value.Some? && b.newsAge.value.Some?
    ensures b.analyst.None? ==> b.analystCount.value == None && b.analystAge.value == None
    ensures b.analyst.Some? ==>
              && RowOfRequest(b.analyst.value, b, b.request.analystSeries) && CountRetained(b.analystCount, b.analyst.value)
              && b.analyst.value.observation.metric == "analyst_coverage_count"
              && b.analyst.value.observation.observationDate.Some? && b.analystAge.value.Some?
  {
    assert Objection(b, p).None?;
    AcceptedWindow(b, p);
    AcceptedNews(b, p);
    AcceptedAnalyst(b, p);
    hide Component, NewsEvidenceHolds, AnalystEvidenceHolds, FeatureObjection, WindowAligned, RowOfRequest, CountRetained,
         SignedRound, ValidPolicy;
  }

  lemma AcceptedWindow(b: Bundle, p: Policy)
    requires ValidPolicy(p) && Objection(b, p).None?
    ensures b.request.windowEnd % 86_400_000_000 == 0
            && b.request.windowEnd <= b.request.asOf < b.request.windowEnd + 86_400_000_000
    ensures (b.request.windowEnd - b.request.windowStart) as real == SignedRound(p.requiredDuration * 86_400_000_000.0)
  {
    hide SignedRound, FeatureObjection, NewsEvidenceHolds, AnalystEvidenceHolds, Curves.Valid, SeriesMatches;
    assert WindowAligned(b.request, p) && IsWhole(Microseconds(p.requiredDuration));
    assert Microseconds(p.requiredDuration) == SignedRound(p.requiredDuration * 86_400_000_000.0);
  }

  lemma AcceptedNews(b: Bundle, p: Policy)
    requires Objection(b, p).None?
    ensures b.news.None? ==> b.newsCount.value == None && b.newsDuration.value == None && b.newsAge.value == None
    ensures b.news.Some? ==>
              && RowOfRequest(b.news.value, b, b.request.newsSeries) && CountRetained(b.newsCount, b.news.value)
              && b.news.value.observation.metric == "news_mentions_count"
              && b.news.value.observation.windowStart == Some(b.request.windowStart)
              && b.news.value.observation.windowEnd == Some(b.request.windowEnd)
              && b.newsDuration.value.Some? && b.newsAge.value.Some?
  {
    assert NewsEvidenceHolds(b, b.request.asOf) by { hide FeatureObjection, AnalystEvidenceHolds, WindowAligned; }
    hide Objection;
  }

  lemma AcceptedAnalyst(b: Bundle, p: Policy)
    requires Objection(b, p).None?
    ensures b.analyst.None? ==> b.analystCount.value == None && b.analystAge.value == None
    ensures b.analyst.Some? ==>
              && RowOfRequest(b.analyst.value, b, b.request.analystSeries) && CountRetained(b.analystCount, b.analyst.value)
              && b.analyst.value.observation.metric == "analyst_coverage_count"
              && b.analyst.value.observation.observationDate.Some? && b.analystAge.value.Some?
  {
    assert AnalystEvidenceHolds(b, b.request.asOf) by { hide FeatureObjection, NewsEvidenceHolds, WindowAligned; }
    hide Objection;
  }
}
