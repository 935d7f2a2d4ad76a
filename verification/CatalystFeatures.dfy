/** Event-time materiality and request-time recency of one business event. */
module CatalystFeatures {
  import opened Prelude
  import opened Text
  import opened Reals
  import opened Decimals
  import opened CapacityGrowth
  import opened EventModel

  const BUNDLE_VERSION := "business_event_feature_bundle_v1"
  const AGE_VERSION := "business_event_age_days_v1"
  const TTM_VERSION := "ttm_v1"

  const NOT_APPLICABLE := "not_applicable_for_event_type"
  const CONFLICTING := "conflicting_quantitative_observations"

  /** Fact values that agree have one key. */
  datatype SemanticKey =
    | Money(currency: string, value: real)
    | Amount(unit: string, value: real)
    | Day(date: Date)

  /** One semantic value, resolved without summing its source observations. */
  datatype Resolved = Resolved(
    code: FactCode, value: Option<real>, unit: Option<string>, currency: Option<string>, date: Option<Date>,
    facts: seq<Fact>, warnings: seq<string>)

  datatype Revenue = Revenue(
    datasetId: Uuid, companyId: Uuid, scope: string, metric: string, periodEnd: Date, value: real, unit: string,
    version: string, asOf: Instant, availableAt: Instant)

  datatype RevenueQuery = RevenueQuery(datasetId: Uuid, companyId: Uuid, scope: string, asOf: Instant)

  /** The trailing-twelve-month reader: any function of its point-in-time query. */
  type RevenueReader = RevenueQuery -> seq<Revenue>

  datatype Evidence = OfEvent(event: Event) | OfObservation(observation: Resolved) | OfRevenue(revenue: Revenue)

  datatype Feature = Feature(
    code: string, value: Option<real>, unit: string, warnings: seq<string>, asOf: Instant,
    availableAt: Option<Instant>, version: string, evidence: seq<Evidence>)

  datatype Bundle = Bundle(
    companyId: Uuid, securityId: Option<Uuid>, datasetId: Uuid, announcementId: Uuid, eventId: Uuid,
    eventType: EventType, rulesetCode: string, rulesetVersion: string,
    quantRulesetCode: Option<string>, quantRulesetVersion: Option<string>,
    financialDatasetId: Uuid, scope: string, date: Option<Date>, sourceAvailableAt: Instant,
    materialityCutoff: Instant, asOf: Instant,
    age: Feature, order: Feature, capex: Feature, capacity: Feature, consideration: Feature, stake: Feature,
    revenue: Option<Revenue>, version: string, derivation: Option<Derivation>)

  datatype Error =
    | UnsupportedRuleset | UnsupportedType | NotDetected | IncoherentIdentity | NotYetPublic
    | EmptyFinancialDataset | EmptyScope | DerivationMismatch | IncoherentFact | NonCanonicalCodes
    | IncoherentRevenue | WrongFactKind | IncoherentFactValue | NegativeMoney | StakeOutOfDomain

  /** What a caller asks, apart from the cutoff. */
  datatype Request = Request(event: Event, derivation: Option<Derivation>, financialDatasetId: Uuid, scope: string)

  function ExpectedKind(c: FactCode): FactKind {
    match c
    case OrderValue => Monetary
    case CapexValue => Monetary
    case CapacityBefore => Capacity
    case CapacityAfter => Capacity
    case AdditionalCapacity => Capacity
    case AcquisitionConsideration => Monetary
    case AcquisitionStake => Fraction
    case CommencementDate => Dated
    case UnknownCode(name) => UnknownKind(name)
  }

  function MissingWarning(c: FactCode): string {
    match c
    case OrderValue => "missing_order_value"
    case CapexValue => "missing_capex_value"
    case CapacityBefore => "missing_capacity_baseline"
    case CapacityAfter => "missing_capacity_after"
    case AdditionalCapacity => "missing_additional_capacity"
    case AcquisitionConsideration => "missing_acquisition_consideration"
    case AcquisitionStake => "missing_acquisition_stake"
    case CommencementDate => "missing_commercial_commencement_date"
    case UnknownCode(name) => name
  }

  // --- Validation of the inputs ---

  function EventObjection(e: Event): Option<Error> {
    if e.rulesetCode != RULESET_CODE || e.rulesetVersion != RULESET_VERSION then Some(UnsupportedRuleset)
    else if e.eventType.UnknownType? then Some(UnsupportedType)
    else if e.status != "detected" then Some(NotDetected)
    else if e.announcement.id == 0 || e.companyId == 0 || e.datasetId == 0
         || e.announcement.companyId != e.companyId
         || e.announcement.securityId != e.securityId
         || e.announcement.datasetId != e.datasetId
         || e.announcement.availableAt != e.sourceAvailableAt then Some(IncoherentIdentity)
    else None
  }

  predicate FactCoherent(f: Fact, e: Event) {
    && (exists v | v in e.evidence :: v.id == f.evidenceId)
    && f.code in Compatible(e.eventType)
    && f.kind == ExpectedKind(f.code)
    && f.sourceAvailableAt == e.sourceAvailableAt
  }

  function DerivationObjection(e: Event, d: Derivation): Option<Error> {
    if d.event != e || d.sourceAvailableAt != e.sourceAvailableAt
       || d.rulesetCode != QUANT_RULESET_CODE || d.rulesetVersion != QUANT_RULESET_VERSION
    then Some(DerivationMismatch)
    else if exists f | f in d.facts :: !FactCoherent(f, e) then Some(IncoherentFact)
    else if d.availableCodes != AvailableCodes(set f | f in d.facts :: f.code) then Some(NonCanonicalCodes)
    else None
  }

  // --- Resolution of observations ---

  function KeyOf(f: Fact): Result<SemanticKey, Error> {
    if f.kind != ExpectedKind(f.code) then
      Err(WrongFactKind)
    else
      match f.kind
      case Monetary =>
        if f.reportedCurrency.Some? && f.reportedCurrency.value in {"INR", "USD", "EUR"}
           && f.normalizedUnit == Some("currency_major") && f.normalizedValue.Some?
        then Ok(Money(f.reportedCurrency.value, f.normalizedValue.value))
        else Err(IncoherentFactValue)
      case Capacity => AmountKey(f)
      case Fraction => AmountKey(f)
      case Dated => if f.date.Some? then Ok(Day(f.date.value)) else Err(IncoherentFactValue)
      case UnknownKind(_) => Err(WrongFactKind)
  }

  function AmountKey(f: Fact): Result<SemanticKey, Error> {
    if f.normalizedUnit.Some? && f.normalizedValue.Some?
    then Ok(Amount(f.normalizedUnit.value, f.normalizedValue.value))
    else Err(IncoherentFactValue)
  }

  function FactsWithCode(facts: seq<Fact>, c: FactCode): (r: seq<Fact>)
    ensures forall f | f in r :: f in facts && f.code == c
    ensures forall f | f in facts && f.code == c :: f in r
  {
    if facts == [] then [] else (if facts[0].code == c then [facts[0]] else []) + FactsWithCode(facts[1..], c)
  }

  /** The set comprehension over the facts' keys; any incoherent fact raises. */
  function KeysOf(facts: seq<Fact>): (r: Result<set<SemanticKey>, Error>)
    ensures r.Ok? ==> (forall f | f in facts :: KeyOf(f).Ok? && KeyOf(f).value in r.value)
    ensures r.Ok? && facts != [] ==> r.value != {}
  {
    if facts == [] then
      Ok({})
    else
      var k :- KeyOf(facts[0]);
      var rest :- KeysOf(facts[1..]);
      Ok({k} + rest)
  }

  function Unresolved(c: FactCode, facts: seq<Fact>, warning: string): Resolved {
    Resolved(c, None, None, None, None, facts, [warning])
  }

  function Resolve(derivation: Option<Derivation>, c: FactCode): Result<Resolved, Error> {
    if derivation.None? then
      Ok(Unresolved(c, [], "quantitative_derivation_unavailable"))
    else
      var facts := FactsWithCode(derivation.value.facts, c);
      if facts == [] then
        Ok(Unresolved(c, [], MissingWarning(c)))
      else
        var keys :- KeysOf(facts);
        if |keys| != 1 then
          Ok(Unresolved(c, facts, CONFLICTING))
        else
          var f := facts[0];
          Ok(Resolved(c, f.normalizedValue, f.normalizedUnit, f.reportedCurrency, f.date, facts, []))
  }

  // --- Event-time revenue ---

  function LatestPeriodEnd(values: seq<Revenue>): (d: Date)
    requires values != []
    ensures exists v | v in values :: v.periodEnd == d
    ensures forall v | v in values :: v.periodEnd <= d
  {
    if |values| == 1 then
      assert values[0] in values;
      values[0].periodEnd
    else
      var rest := LatestPeriodEnd(values[1..]);
      assert values[0] in values;
      if values[0].periodEnd > rest then values[0].periodEnd else rest
  }

  function EndingAt(values: seq<Revenue>, d: Date): (r: seq<Revenue>)
    ensures forall v | v in r :: v in values && v.periodEnd == d
    ensures forall v | v in values && v.periodEnd == d :: v in r
  {
    if values == [] then [] else (if values[0].periodEnd == d then [values[0]] else []) + EndingAt(values[1..], d)
  }

  predicate RevenueCoherent(v: Revenue, request: Request) {
    var e := request.event;
    && v.datasetId == request.financialDatasetId
    && v.companyId == e.companyId
    && v.scope == request.scope
    && v.metric == "revenue" && v.unit == "INR"
    && v.asOf == e.sourceAvailableAt && v.availableAt <= e.sourceAvailableAt
    && v.version == TTM_VERSION
  }

  /** The selected revenue, and the warning that blocks ratios over it. */
  datatype EventRevenue = EventRevenue(revenue: Option<Revenue>, warning: Option<string>)

  /** Without a warning a selected revenue is positive, so ratios over it are defined. */
  predicate ValidRevenue(er: EventRevenue) {
    er.revenue.Some? && er.warning.None? ==> er.revenue.value.value > 0.0
  }

  function EventTimeRevenue(request: Request, read: RevenueReader): (r: Result<EventRevenue, Error>)
    ensures r.Ok? ==> ValidRevenue(r.value)
    ensures r.Ok? && r.value.revenue.Some? ==> RevenueCoherent(r.value.revenue.value, request)
    ensures r.Ok? && r.value.revenue.None? ==> r.value.warning.Some?
  {
    var e := request.event;
    var values := read(RevenueQuery(request.financialDatasetId, e.companyId, request.scope, e.sourceAvailableAt));
    if values == [] then
      Ok(EventRevenue(None, Some("missing_event_time_ttm_revenue")))
    else
      var latest := EndingAt(values, LatestPeriodEnd(values));
      if |latest| != 1 then
        Ok(EventRevenue(None, Some("ambiguous_latest_event_time_ttm_revenue")))
      else if !RevenueCoherent(latest[0], request) then
        Err(IncoherentRevenue)
      else if latest[0].value <= 0.0 then
        Ok(EventRevenue(Some(latest[0]), Some("non_positive_event_time_ttm_revenue")))
      else
        Ok(EventRevenue(Some(latest[0]), None))
  }

  // --- Features ---

  function AvailableAt(e: Event, revenue: Option<Revenue>): Option<Instant> {
    if revenue.Some? && revenue.value.availableAt > e.sourceAvailableAt
    then Some(revenue.value.availableAt) else Some(e.sourceAvailableAt)
  }

  function Age(e: Event, asOf: Instant): Feature {
    Feature("event_age_days", Some(Days(asOf - e.sourceAvailableAt)), "days", [], asOf,
            Some(e.sourceAvailableAt), AGE_VERSION, [OfEvent(e)])
  }

  /** Which feature, under which version and unit. */
  datatype Spec = Spec(code: string, version: string, unit: string)

  const ORDER := Spec("order_value_to_ttm_revenue", "order_value_to_ttm_revenue_v1", "ratio")
  const CAPEX := Spec("capex_value_to_ttm_revenue", "capex_value_to_ttm_revenue_v1", "ratio")
  const CAPACITY := Spec("capacity_change_ratio", "capacity_change_ratio_v1", "ratio")
  const CONSIDERATION :=
    Spec("acquisition_consideration_to_ttm_revenue", "acquisition_consideration_to_ttm_revenue_v1", "ratio")
  const STAKE := Spec("acquisition_stake_fraction", "acquisition_stake_fraction_feature_v1", "fraction")

  function NotApplicable(spec: Spec, e: Event, asOf: Instant): Feature {
    Feature(spec.code, None, spec.unit, [NOT_APPLICABLE], asOf, None, spec.version, [OfEvent(e)])
  }

  function MonetaryRatio(
      request: Request, c: FactCode, spec: Spec, nonInr: string, er: EventRevenue, asOf: Instant)
    : Result<Feature, Error>
    requires ValidRevenue(er)
  {
    var observation :- Resolve(request.derivation, c);
    var evidence := [OfObservation(observation)] + (if er.revenue.Some? then [OfRevenue(er.revenue.value)] else []);
    var blocked :=
      if observation.warnings != [] then Some(observation.warnings[0])
      else if observation.currency != Some("INR") || observation.unit != Some("currency_major") then Some(nonInr)
      else None;
    if blocked.None? && observation.value.Some? && observation.value.value < 0.0 then
      Err(NegativeMoney)
    else
      var warning := if blocked.Some? then blocked else er.warning;
      var value :=
        if warning.None? && observation.value.Some? && er.revenue.Some?
        then Some(Quotient(observation.value.value, er.revenue.value.value)) else None;
      Ok(Feature(spec.code, value, spec.unit, if warning.Some? then [warning.value] else [], asOf,
                 AvailableAt(request.event, er.revenue), spec.version, evidence))
  }

  /** A ratio or the warning that replaces it. */
  datatype Ratio = Ratio(value: Option<real>, warning: Option<string>)

  predicate Conflicts(o: Resolved) {
    o.warnings == [CONFLICTING]
  }

  predicate Usable(o: Resolved) {
    o.warnings == [] && o.value.Some?
  }

  /** What one of the two change observations contributes: a complaint or a calculation. */
  function AfterCheck(before: Resolved, after: Resolved): Result<Option<real>, string>
    requires before.value.Some? && before.value.value > 0.0
  {
    if !Usable(after) then Ok(None)
    else if after.unit != before.unit then Err("incompatible_capacity_units")
    else if after.value.value <= before.value.value then Err("non_expanding_capacity_pair")
    else Ok(Some(FromWhole(before.value.value, after.value.value)))
  }

  function AdditionalCheck(before: Resolved, additional: Resolved): Result<Option<real>, string>
    requires before.value.Some? && before.value.value > 0.0
  {
    if !Usable(additional) then Ok(None)
    else if additional.unit != before.unit then Err("incompatible_capacity_units")
    else if additional.value.value <= 0.0 then Err("non_positive_additional_capacity")
    else Ok(Some(FromPart(before.value.value, additional.value.value)))
  }

  function CapacityChange(before: Resolved, after: Resolved, additional: Resolved): Ratio {
    if before.warnings != [] then Ratio(None, Some(before.warnings[0]))
    else if before.value.None? || before.value.value <= 0.0 then Ratio(None, Some("non_positive_capacity_baseline"))
    else if Conflicts(after) || Conflicts(additional) then Ratio(None, Some(CONFLICTING))
    else
      var a, d := AfterCheck(before, after), AdditionalCheck(before, additional);
      if a.Err? then Ratio(None, Some(a.error))
      else if d.Err? then Ratio(None, Some(d.error))
      else if a.value.None? && d.value.None? then Ratio(None, Some("missing_capacity_change"))
      else if a.value.Some? && d.value.Some? && a.value != d.value then
        Ratio(None, Some("conflicting_capacity_change_calculations"))
      else Ratio(if a.value.Some? then a.value else d.value, None)
  }

  /** The step-by-step form: a running warning and a growing list of calculations. */
  method ComputeCapacityChange(before: Resolved, after: Resolved, additional: Resolved) returns (r: Ratio)
    ensures r == CapacityChange(before, after, additional)
  {
    if before.warnings != [] {
      return Ratio(None, Some(before.warnings[0]));
    }
    if before.value.None? || before.value.value <= 0.0 {
      return Ratio(None, Some("non_positive_capacity_baseline"));
    }
    var calculations: seq<real> := [];
    var warning: Option<string> := None;
    var observations := [after, additional];
    for i := 0 to |observations|
      invariant warning.None?
      invariant forall k | 0 <= k < i :: !Conflicts(observations[k])
    {
      if observations[i].warnings == [CONFLICTING] {
        warning := Some(observations[i].warnings[0]);
        break;
      }
    }
    assert warning.None? ==> !Conflicts(observations[0]) && !Conflicts(observations[1]);
    ghost var a, d := AfterCheck(before, after), AdditionalCheck(before, additional);
    if warning.None? && after.warnings == [] && after.value.Some? {
      if after.unit != before.unit {
        warning := Some("incompatible_capacity_units");
      } else if after.value.value <= before.value.value {
        warning := Some("non_expanding_capacity_pair");
      } else {
        calculations := calculations + [FromWhole(before.value.value, after.value.value)];
      }
    }
    assert warning.None? ==> a.Ok? && calculations == if a.value.Some? then [a.value.value] else [];
    if warning.None? && additional.warnings == [] && additional.value.Some? {
      if additional.unit != before.unit {
        warning := Some("incompatible_capacity_units");
      } else if additional.value.value <= 0.0 {
        warning := Some("non_positive_additional_capacity");
      } else {
        calculations := calculations + [FromPart(before.value.value, additional.value.value)];
      }
    }
    assert warning.None? ==> a.Ok? && d.Ok?;
    assert warning.None? ==>
        (calculations == (if a.value.Some? then [a.value.value] else []) + (if d.value.Some? then [d.value.value] else []));
    if warning.None? && calculations == [] {
      warning := Some("missing_capacity_change");
    }
    assert warning.None? && |calculations| == 2 ==> calculations[0] in calculations && calculations[1] in calculations;
    if warning.None? && exists x, y | x in calculations && y in calculations :: x != y {
      warning := Some("conflicting_capacity_change_calculations");
    }
    r := Ratio(if warning.None? then Some(calculations[0]) else None, warning);
  }

  function CapacityRatio(request: Request, asOf: Instant): Result<Feature, Error> {
    var before :- Resolve(request.derivation, CapacityBefore);
    var after :- Resolve(request.derivation, CapacityAfter);
    var additional :- Resolve(request.derivation, AdditionalCapacity);
    var change := CapacityChange(before, after, additional);
    Ok(Feature(CAPACITY.code, change.value, CAPACITY.unit,
               if change.warning.Some? then [change.warning.value] else [], asOf,
               AvailableAt(request.event, None), CAPACITY.version,
               [OfObservation(before), OfObservation(after), OfObservation(additional)]))
  }

  function StakeFeature(request: Request, asOf: Instant): Result<Feature, Error> {
    var observation :- Resolve(request.derivation, AcquisitionStake);
    if observation.warnings == []
       && (observation.unit != Some("fraction") || observation.value.None? || !(0.0 < observation.value.value <= 1.0))
    then
      Err(StakeOutOfDomain)
    else
      Ok(Feature(STAKE.code, if observation.warnings == [] then observation.value else None, STAKE.unit,
                 if observation.warnings == [] then [] else [observation.warnings[0]], asOf,
                 AvailableAt(request.event, None), STAKE.version, [OfObservation(observation)]))
  }

  predicate IsMonetaryEvent(t: EventType) {
    t in {OrderAward, CapexAnnouncement, AcquisitionAgreement}
  }

  function RequestObjection(request: Request, asOf: Instant): Option<Error> {
    var e := request.event;
    if EventObjection(e).Some? then EventObjection(e)
    else if e.sourceAvailableAt > asOf then Some(NotYetPublic)
    else if request.financialDatasetId == 0 then Some(EmptyFinancialDataset)
    else if !NotBlank(request.scope) then Some(EmptyScope)
    else if request.derivation.Some? then DerivationObjection(e, request.derivation.value)
    else None
  }

  /** The five materiality features of one event. */
  datatype Materiality = Materiality(
    order: Feature, capex: Feature, capacity: Feature, consideration: Feature, stake: Feature)

  function Blank(e: Event, asOf: Instant): Materiality {
    Materiality(NotApplicable(ORDER, e, asOf), NotApplicable(CAPEX, e, asOf), NotApplicable(CAPACITY, e, asOf),
                NotApplicable(CONSIDERATION, e, asOf), NotApplicable(STAKE, e, asOf))
  }

  function MaterialityOf(request: Request, er: EventRevenue, asOf: Instant): Result<Materiality, Error>
    requires ValidRevenue(er)
  {
    var blank := Blank(request.event, asOf);
    match request.event.eventType
    case OrderAward =>
      var f :- MonetaryRatio(request, OrderValue, ORDER, "non_inr_order_value", er, asOf);
      Ok(blank.(order := f))
    case CapexAnnouncement =>
      var f :- MonetaryRatio(request, CapexValue, CAPEX, "non_inr_capex_value", er, asOf);
      Ok(blank.(capex := f))
    case CapacityExpansion =>
      var f :- CapacityRatio(request, asOf);
      Ok(blank.(capacity := f))
    case AcquisitionAgreement =>
      var f :- MonetaryRatio(request, AcquisitionConsideration, CONSIDERATION,
                             "non_inr_acquisition_consideration", er, asOf);
      var g :- StakeFeature(request, asOf);
      Ok(blank.(consideration := f, stake := g))
    case _ => Ok(blank)
  }

  function RevenueFor(request: Request, read: RevenueReader): (r: Result<EventRevenue, Error>)
    ensures r.Ok? ==> ValidRevenue(r.value)
  {
    if IsMonetaryEvent(request.event.eventType) then EventTimeRevenue(request, read)
    else Ok(EventRevenue(None, None))
  }

  function BundleOf(request: Request, er: EventRevenue, m: Materiality, asOf: Instant): Bundle {
    var e, d := request.event, request.derivation;
    Bundle(
      e.companyId, e.securityId, e.datasetId, e.announcement.id, e.id, e.eventType, e.rulesetCode, e.rulesetVersion,
      if d.None? then None else Some(d.value.rulesetCode),
      if d.None? then None else Some(d.value.rulesetVersion),
      request.financialDatasetId, request.scope, e.date, e.sourceAvailableAt, e.sourceAvailableAt, asOf,
      Age(e, asOf), m.order, m.capex, m.capacity, m.consideration, m.stake,
      er.revenue, BUNDLE_VERSION, d)
  }

  function FeaturesAsOf(request: Request, read: RevenueReader, asOf: Instant): Result<Bundle, Error> {
    if RequestObjection(request, asOf).Some? then
      Err(RequestObjection(request, asOf).value)
    else
      var er :- RevenueFor(request, read);
      var m :- MaterialityOf(request, er, asOf);
      Ok(BundleOf(request, er, m, asOf))
  }

  // --- What the features mean ---

  /** A resolved observation is the one value that all facts under its code agree on. */
  lemma ResolvedMeansAgreement(d: Derivation, c: FactCode)
    requires Resolve(Some(d), c).Ok?
    ensures var o := Resolve(Some(d), c).value;
            var facts := FactsWithCode(d.facts, c);
            && (o.warnings == [] <==> facts != [] && forall f, g | f in facts && g in facts :: KeyOf(f) == KeyOf(g))
            && (o.warnings == [] ==> forall f | f in facts ::
                  && (f.kind == Monetary ==> KeyOf(f) == Ok(Money(o.currency.GetOr(""), o.value.GetOr(0.0))))
                  && (f.kind in {Capacity, Fraction} ==> KeyOf(f) == Ok(Amount(o.unit.GetOr(""), o.value.GetOr(0.0)))))
  {
    var facts := FactsWithCode(d.facts, c);
    if facts != [] {
      var keys := KeysOf(facts).value;
      KeysAreImages(facts);
      assert facts[0] in facts;
      var k := KeyOf(facts[0]).value;
      if forall f, g | f in facts && g in facts :: KeyOf(f) == KeyOf(g) {
        assert keys == {k};
      }
      if |keys| == 1 {
        forall x | x in keys ensures x == k { SingletonMember(keys, k, x); }
      }
    }
  }

  lemma SingletonMember<T>(s: set<T>, a: T, b: T)
    requires |s| == 1 && a in s && b in s
    ensures a == b
  {
    assert |s - {a}| == 0;
    assert b !in s - {a};
  }

  lemma {:induction false} KeysAreImages(facts: seq<Fact>)
    requires KeysOf(facts).Ok?
    ensures forall k | k in KeysOf(facts).value :: exists f | f in facts :: KeyOf(f) == Ok(k)
  {
    if facts != [] {
      KeysAreImages(facts[1..]);
      assert facts[0] in facts;
      forall k | k in KeysOf(facts).value ensures exists f | f in facts :: KeyOf(f) == Ok(k) {
        if k in KeysOf(facts[1..]).value {
          var f :| f in facts[1..] && KeyOf(f) == Ok(k);
          assert f in facts;
        } else {
          assert KeyOf(facts[0]) == Ok(k);
        }
      }
    }
  }

  /** The change observation exists, is in the baseline's unit, and grows the baseline. */
  predicate Expands(before: Resolved, after: Resolved) {
    after.unit == before.unit && after.value.Some? && before.value.Some? && after.value.value > before.value.value
  }

  predicate Adds(before: Resolved, additional: Resolved) {
    additional.unit == before.unit && additional.value.Some? && additional.value.value > 0.0
  }

  /** The rounded quotients agree: after/before rounds to one more than the rounded additional/before. */
  ghost predicate QuotientsAgree(before: real, after: real, additional: real)
    requires 0.0 < before < after && additional > 0.0
  {
    PartPositive(before, additional);
    QuotientAboveOne(before, after);
    Nearest(after / before, WholeOf(after / before, FromPart(before, additional)), Unit(after / before))
  }

  /** Everything but the agreement of the two quotients. */
  predicate ChangeUsable(before: Resolved, after: Resolved, additional: Resolved) {
    && Usable(before) && before.value.value > 0.0
    && !Conflicts(after) && !Conflicts(additional)
    && (Usable(after) || Usable(additional))
    && (Usable(after) ==> Expands(before, after))
    && (Usable(additional) ==> Adds(before, additional))
  }

  /**
   * A capacity ratio is defined exactly when the baseline is positive, no change observation conflicts, at least one
   * is usable, every usable one grows the baseline, and the quotients of two usable ones agree once rounded.
   * It is never negative, and positive exactly when an additional capacity is usable or the expansion exceeds half of
   * the 27th decimal of the baseline.
   */
  lemma CapacityChangeDefined(before: Resolved, after: Resolved, additional: Resolved)
    ensures var r := CapacityChange(before, after, additional);
            && (r.value.Some? <==> r.warning.None?)
            && (r.value.Some? <==>
                  && ChangeUsable(before, after, additional)
                  && (Usable(after) && Usable(additional) ==>
                        QuotientsAgree(before.value.value, after.value.value, additional.value.value)))
            && (r.value.Some? ==>
                  && r.value.value >= 0.0
                  && (r.value.value > 0.0 <==>
                        || Usable(additional)
                        || 2.0 * (after.value.value - before.value.value)
                           > before.value.value * Power(-(PRECISION - 1))))
  {
    hide FromWhole, FromPart, Nearest, Unit, Power, WholeOf;
    if ChangeUsable(before, after, additional) {
      var b := before.value.value;
      if Usable(after) { GrowthPositiveIff(b, after.value.value); }
      if Usable(additional) { PartPositive(b, additional.value.value); }
      if Usable(after) && Usable(additional) { AgreeIff(b, after.value.value, additional.value.value); }
    }
  }

  /**
   * When the two observations add up (after = before + additional) a ratio is still defined only if the rounded
   * growth has no digit beyond the last of the 28 digits of after/before.
   */
  lemma ConsistentChangeDefined(before: Resolved, after: Resolved, additional: Resolved)
    requires ChangeUsable(before, after, additional) && Usable(after) && Usable(additional)
    requires after.value.value == before.value.value + additional.value.value
    requires after.value.value / before.value.value < Power(PRECISION - 1)
    ensures after.value.value / before.value.value > 1.0
    ensures CapacityChange(before, after, additional).value.Some? <==>
            OnGrid(FromPart(before.value.value, additional.value.value), Unit(after.value.value / before.value.value))
  {
    hide FromWhole, FromPart, Nearest, Unit, Power, WholeOf;
    ConsistentAgreeIff(before.value.value, additional.value.value);
  }

  /** Only the pair is usable, and it expands the baseline by too little for the context to show. */
  predicate ExpansionVanishes(before: Resolved, after: Resolved, additional: Resolved) {
    && ChangeUsable(before, after, additional) && !Usable(additional)
    && 2.0 * (after.value.value - before.value.value) <= before.value.value * Power(-(PRECISION - 1))
  }

  /** The only ratio that is defined and not positive is that of a vanishing expansion, and it is zero. */
  lemma ZeroIffVanishes(before: Resolved, after: Resolved, additional: Resolved)
    ensures CapacityChange(before, after, additional).value == Some(0.0)
            <==> ExpansionVanishes(before, after, additional)
  {
    CapacityChangeDefined(before, after, additional);
    hide CapacityChange, QuotientsAgree, Power;
  }

  /** Examples on the edge of the context: 3 to 4 by 1, 3 to 4 by 0.999...9 (27 nines), and 10^28 to 10^28 + 1. */
  lemma RoundingDecides(before: Resolved, after: Resolved, additional: Resolved)
    requires ChangeUsable(before, after, additional) && Usable(after)
    ensures before.value == Some(3.0) && after.value == Some(4.0) && Usable(additional) && additional.value == Some(1.0) ==>
              CapacityChange(before, after, additional) == Ratio(None, Some("conflicting_capacity_change_calculations"))
    ensures before.value == Some(3.0) && after.value == Some(4.0) && Usable(additional)
            && additional.value == Some(1.0 - Power(-27)) ==>
              CapacityChange(before, after, additional).value.Some?
    ensures before.value == Some(Power(28)) && after.value == Some(Power(28) + 1.0) && !Usable(additional) ==>
              CapacityChange(before, after, additional) == Ratio(Some(0.0), None)
  {
    ThreeFourOneDiffer();
    ThreeFourNinesAgree();
    VanishingGrowth();
    hide FromWhole, FromPart, Power;
  }

  // --- The cutoff only moves the age ---

  function ShiftFeature(f: Feature, asOf: Instant): Feature {
    f.(asOf := asOf)
  }

  /** The same bundle read at another cutoff. */
  function Shift(b: Bundle, age: Feature, asOf: Instant): Bundle {
    b.(asOf := asOf, age := age, order := ShiftFeature(b.order, asOf), capex := ShiftFeature(b.capex, asOf),
       capacity := ShiftFeature(b.capacity, asOf), consideration := ShiftFeature(b.consideration, asOf),
       stake := ShiftFeature(b.stake, asOf))
  }

  /**
   * Materiality is fixed at event time: at a later cutoff the assembler succeeds with the same values,
   * warnings, availability and evidence, and only the age of the event differs.
   */
  lemma MaterialityFrozen(request: Request, read: RevenueReader, asOf: Instant, later: Instant)
    requires asOf <= later && FeaturesAsOf(request, read, asOf).Ok?
    ensures FeaturesAsOf(request, read, later) ==
            Ok(Shift(FeaturesAsOf(request, read, asOf).value, Age(request.event, later), later))
  {
    hide Resolve, CapacityChange, EventTimeRevenue, DerivationObjection, EventObjection;
  }
}
