/** Neutral attention features assembled from the two point-in-time reads. */
module AttentionFeatures {
  import opened Prelude
  import opened Text
  import opened Decimals
  import AttentionPit

  type Row = AttentionPit.Row

  /** A caller-selected measurement series; construction trims-checks the codes and lowers the digest. */
  datatype SeriesIdentity = SeriesIdentity(datasetId: Uuid, scope: string, methodology: string, definition: string)

  predicate ValidIdentity(s: SeriesIdentity) {
    && NonEmptyTrimmed(s.scope)
    && NonEmptyTrimmed(s.methodology)
    && IsDigestText(s.definition)
    && s.definition == Lower(s.definition)
  }

  datatype Feature = Feature(
    code: string, value: Option<real>, unit: string, availableAt: Option<Instant>,
    warnings: seq<string>, evidence: seq<Row>, version: string)

  datatype Request = Request(
    companyId: Uuid, securityId: Option<Uuid>, companyLevelOnly: bool, asOf: Instant,
    newsSeries: SeriesIdentity, windowStart: Instant, windowEnd: Instant,
    analystSeries: SeriesIdentity, bound: Option<Date>)

  datatype Bundle = Bundle(
    request: Request, newsCount: Feature, newsDuration: Feature, newsAge: Feature,
    analystCount: Feature, analystAge: Feature,
    news: Option<Row>, analyst: Option<Row>, version: string)

  /** The stored rows and the securities they may refer to. */
  datatype Table = Table(rows: seq<Row>, securities: map<Uuid, Uuid>)

  datatype Error =
    | ReadFailed(error: AttentionPit.Error)
    | BadSecurityMode | BadWindow | IncoherentNews | IncoherentAnalyst | FutureNews | FutureSnapshot

  const BUNDLE_VERSION := "attention_feature_bundle_v1"
  const NEWS_COUNT_VERSION := "news_mentions_count_feature_v1"
  const NEWS_DURATION_VERSION := "news_window_duration_days_v1"
  const NEWS_AGE_VERSION := "news_window_age_days_v1"
  const ANALYST_COUNT_VERSION := "analyst_coverage_count_feature_v1"
  const ANALYST_AGE_VERSION := "analyst_snapshot_age_days_v1"
  const MISSING_NEWS := "missing_news_mentions_observation"
  const MISSING_ANALYST := "missing_analyst_coverage_observation"

  function QueryFor(request: Request, series: SeriesIdentity, metric: string): AttentionPit.Query {
    AttentionPit.Query(
      series.datasetId, request.companyId, metric, series.scope, series.methodology, series.definition,
      request.asOf, request.securityId, request.companyLevelOnly)
  }

  function CountFeature(
      observation: Option<Row>, code: string, version: string, missing: string, partial: string, unknown: string)
    : Feature
  {
    match observation
    case None => Feature(code, None, "count", None, [missing], [], version)
    case Some(r) =>
      var o := r.observation;
      Feature(
        code,
        if o.coverage == "complete" then Some(o.count as real) else None,
        "count",
        Some(o.availableAt),
        if o.coverage == "partial" then [partial] else if o.coverage == "unknown" then [unknown] else [],
        [r],
        version)
  }

  function MissingTimeFeature(code: string, version: string, warning: string): Feature {
    Feature(code, None, "days", None, [warning], [], version)
  }

  function TimeFeature(r: Row, code: string, value: real, version: string): Feature {
    Feature(code, Some(value), "days", Some(r.observation.availableAt), [], [r], version)
  }

  /** `_decimal_days`: the quotient as the decimal context rounds it. */
  function DecimalDays(microseconds: int): real {
    SignedRound(Days(microseconds))
  }

  function NewsDuration(news: Option<Row>): Feature
    requires news.Some? ==> news.value.observation.windowStart.Some? && news.value.observation.windowEnd.Some?
  {
    match news
    case None => MissingTimeFeature("news_window_duration_days", NEWS_DURATION_VERSION, MISSING_NEWS)
    case Some(r) =>
      TimeFeature(
        r, "news_window_duration_days",
        DecimalDays(r.observation.windowEnd.value - r.observation.windowStart.value), NEWS_DURATION_VERSION)
  }

  function NewsAge(news: Option<Row>, cutoff: Instant): Result<Feature, Error>
    requires news.Some? ==> news.value.observation.windowEnd.Some?
  {
    match news
    case None => Ok(MissingTimeFeature("news_window_age_days", NEWS_AGE_VERSION, MISSING_NEWS))
    case Some(r) =>
      var age := DecimalDays(cutoff - r.observation.windowEnd.value);
      if age < 0.0 then Err(FutureNews)
      else Ok(TimeFeature(r, "news_window_age_days", age, NEWS_AGE_VERSION))
  }

  function AnalystAge(analyst: Option<Row>, cutoff: Instant): Result<Feature, Error>
    requires analyst.Some? ==> analyst.value.observation.observationDate.Some?
  {
    match analyst
    case None => Ok(MissingTimeFeature("analyst_snapshot_age_days", ANALYST_AGE_VERSION, MISSING_ANALYST))
    case Some(r) =>
      var age := DateOf(cutoff) - r.observation.observationDate.value;
      if age < 0 then Err(FutureSnapshot)
      else Ok(TimeFeature(r, "analyst_snapshot_age_days", age as real, ANALYST_AGE_VERSION))
  }

  /** What the assembler re-checks about any observation a reader hands it. */
  predicate CommonlyCoherent(r: Row, request: Request, series: SeriesIdentity) {
    var o := r.observation;
    && o.companyId == request.companyId
    && o.securityId == (if request.companyLevelOnly then None else request.securityId)
    && o.datasetId == series.datasetId
    && o.scope == series.scope
    && o.methodology == series.methodology
    && Lower(o.definition) == series.definition
    && o.availableAt <= request.asOf
    && o.unit == "count"
    && o.coverage in {"complete", "partial", "unknown"}
    && o.count >= 0
    && r.source.validation == "accepted"
  }

  predicate CoherentNews(r: Row, request: Request) {
    var o := r.observation;
    && CommonlyCoherent(r, request, request.newsSeries)
    && o.metric == AttentionPit.NEWS
    && o.observationDate.None?
    && o.windowStart == Some(request.windowStart)
    && o.windowEnd == Some(request.windowEnd)
    && request.windowStart < request.windowEnd
    && request.windowEnd <= o.availableAt
    && request.windowEnd <= request.asOf
  }

  predicate CoherentAnalyst(r: Row, request: Request) {
    var o := r.observation;
    && CommonlyCoherent(r, request, request.analystSeries)
    && o.metric == AttentionPit.ANALYST
    && o.observationDate.Some?
    && o.windowStart.None? && o.windowEnd.None?
    && o.observationDate.value <= DateOf(request.asOf)
    && o.observationDate.value <= DateOf(o.availableAt)
    && (request.bound.Some? ==> o.observationDate.value <= request.bound.value)
  }

  function ReadNews(table: Table, request: Request): Result<Option<Row>, AttentionPit.Error> {
    AttentionPit.NewsForExactWindow(
      table.rows, QueryFor(request, request.newsSeries, AttentionPit.NEWS),
      request.windowStart, request.windowEnd, table.securities)
  }

  function ReadAnalyst(table: Table, request: Request): Result<Option<Row>, AttentionPit.Error> {
    AttentionPit.LatestAnalystCoverage(
      table.rows, QueryFor(request, request.analystSeries, AttentionPit.ANALYST),
      request.bound, table.securities)
  }

  function FeaturesAsOf(table: Table, request: Request): Result<Bundle, Error> {
    if request.companyLevelOnly == request.securityId.Some? then
      Err(BadSecurityMode)
    else if request.windowStart >= request.windowEnd then
      Err(BadWindow)
    else
      var news := ReadNews(table, request);
      var analyst := ReadAnalyst(table, request);
      if news.Err? then Err(ReadFailed(news.error))
      else if analyst.Err? then Err(ReadFailed(analyst.error))
      else if news.value.Some? && !CoherentNews(news.value.value, request) then Err(IncoherentNews)
      else if analyst.value.Some? && !CoherentAnalyst(analyst.value.value, request) then Err(IncoherentAnalyst)
      else AssembleBundle(request, news.value, analyst.value)
  }

  function AssembleBundle(request: Request, news: Option<Row>, analyst: Option<Row>): Result<Bundle, Error>
    requires news.Some? ==> CoherentNews(news.value, request)
    requires analyst.Some? ==> CoherentAnalyst(analyst.value, request)
  {
    var newsAge :- NewsAge(news, request.asOf);
    var analystAge :- AnalystAge(analyst, request.asOf);
    Ok(Bundle(
      request,
      CountFeature(news, AttentionPit.NEWS, NEWS_COUNT_VERSION, MISSING_NEWS,
        "partial_news_attention_coverage", "unknown_news_attention_coverage"),
      NewsDuration(news),
      newsAge,
      CountFeature(analyst, AttentionPit.ANALYST, ANALYST_COUNT_VERSION, MISSING_ANALYST,
        "partial_analyst_attention_coverage", "unknown_analyst_attention_coverage"),
      analystAge,
      news, analyst, BUNDLE_VERSION))
  }

  lemma DateOfMonotone(s: Instant, t: Instant)
    requires s <= t
    ensures DateOf(s) <= DateOf(t)
  {
  }

  lemma DaysNonNegative(t: int)
    requires t >= 0
    ensures Days(t) >= 0.0 && DecimalDays(t) >= 0.0
  {
    SignedRoundSign(Days(t));
  }

  lemma NewsRowCoherent(table: Table, request: Request)
    requires AttentionPit.DistinctIds(table.rows) && ValidIdentity(request.newsSeries)
    requires request.windowStart < request.windowEnd
    requires ReadNews(table, request).Ok? && ReadNews(table, request).value.Some?
    ensures CoherentNews(ReadNews(table, request).value.value, request)
  {
    hide AttentionPit.ObservationsAsOf;
    var q := QueryFor(request, request.newsSeries, AttentionPit.NEWS);
    assert AttentionPit.NewsQuery(q) == q;
    AttentionPit.WindowNeverAmbiguous(table.rows, q, request.windowStart, request.windowEnd, table.securities);
    AttentionPit.ShownRow(table.rows, q, table.securities, ReadNews(table, request).value.value);
    LowerIdempotent(request.newsSeries.definition);
    hide AttentionPit.NewsForExactWindow;
  }

  lemma AnalystRowCoherent(table: Table, request: Request)
    requires AttentionPit.DistinctIds(table.rows) && ValidIdentity(request.analystSeries)
    requires ReadAnalyst(table, request).Ok? && ReadAnalyst(table, request).value.Some?
    ensures CoherentAnalyst(ReadAnalyst(table, request).value.value, request)
  {
    hide AttentionPit.ObservationsAsOf;
    var q := QueryFor(request, request.analystSeries, AttentionPit.ANALYST);
    assert AttentionPit.AnalystQuery(q) == q;
    var r := ReadAnalyst(table, request).value.value;
    AttentionPit.SnapshotNeverAmbiguous(table.rows, q, request.bound, table.securities);
    AttentionPit.ShownRow(table.rows, q, table.securities, r);
    LowerIdempotent(request.analystSeries.definition);
    DateOfMonotone(r.observation.availableAt, request.asOf);
    hide AttentionPit.LatestAnalystCoverage;
  }

  /** Everything the assembler re-checks was already guaranteed by the reader. */
  lemma ReaderRowsCoherent(table: Table, request: Request)
    requires AttentionPit.DistinctIds(table.rows)
    requires ValidIdentity(request.newsSeries) && ValidIdentity(request.analystSeries)
    requires request.windowStart < request.windowEnd
    ensures var news := ReadNews(table, request);
            news.Ok? && news.value.Some? ==> CoherentNews(news.value.value, request)
    ensures var analyst := ReadAnalyst(table, request);
            analyst.Ok? && analyst.value.Some? ==> CoherentAnalyst(analyst.value.value, request)
  {
    hide *;
    var news, analyst := ReadNews(table, request), ReadAnalyst(table, request);
    if news.Ok? && news.value.Some? { NewsRowCoherent(table, request); }
    if analyst.Ok? && analyst.value.Some? { AnalystRowCoherent(table, request); }
  }

  /**
   * Past the mode and window checks the assembler fails only because a series read failed:
   * its own re-validation and its two age errors are dead code.
   */
  lemma AssemblerFailsOnlyOnReads(table: Table, request: Request)
    requires AttentionPit.DistinctIds(table.rows)
    requires ValidIdentity(request.newsSeries) && ValidIdentity(request.analystSeries)
    requires request.companyLevelOnly == request.securityId.None? && request.windowStart < request.windowEnd
    ensures FeaturesAsOf(table, request).Ok? <==>
              && AttentionPit.ObservationsAsOf(
                   table.rows, QueryFor(request, request.newsSeries, AttentionPit.NEWS), table.securities).Ok?
              && AttentionPit.ObservationsAsOf(
                   table.rows, QueryFor(request, request.analystSeries, AttentionPit.ANALYST), table.securities).Ok?
    ensures FeaturesAsOf(table, request).Err? ==> FeaturesAsOf(table, request).error.ReadFailed?
  {
    hide AttentionPit.ObservationsAsOf;
    var nq := QueryFor(request, request.newsSeries, AttentionPit.NEWS);
    var aq := QueryFor(request, request.analystSeries, AttentionPit.ANALYST);
    assert AttentionPit.NewsQuery(nq) == nq && AttentionPit.AnalystQuery(aq) == aq;
    AttentionPit.WindowNeverAmbiguous(table.rows, nq, request.windowStart, request.windowEnd, table.securities);
    AttentionPit.SnapshotNeverAmbiguous(table.rows, aq, request.bound, table.securities);
    ReaderRowsCoherent(table, request);
    hide AttentionPit.NewsForExactWindow, AttentionPit.LatestAnalystCoverage;
    DaysNonNegative(if request.asOf >= request.windowEnd then request.asOf - request.windowEnd else 0);
  }
}
