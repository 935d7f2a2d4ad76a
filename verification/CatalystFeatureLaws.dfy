/** What the features of a business event say, in the fields of its facts and of the revenues it is measured by. */
module CatalystFeatureLaws {
  import opened Prelude
  import opened Reals
  import opened Decimals
  import opened CapacityGrowth
  import opened EventModel
  import opened CatalystFeatures

  // --- Facts ---

  /** The derivation has a fact under this code. */
  ghost predicate Has(d: Derivation, c: FactCode) {
    exists f | f in d.facts :: f.code == c
  }

  /** All facts under the code state one amount in one currency. */
  ghost predicate OneAmount(d: Derivation, c: FactCode) {
    forall f, g | f in d.facts && g in d.facts && f.code == c && g.code == c ::
      f.reportedCurrency == g.reportedCurrency && f.normalizedValue == g.normalizedValue
  }

  /** There is such a fact, and every one states this amount in this currency. */
  ghost predicate States(d: Derivation, c: FactCode, currency: string, amount: real) {
    && Has(d, c)
    && forall f | f in d.facts && f.code == c :: f.reportedCurrency == Some(currency) && f.normalizedValue == Some(amount)
  }

  /** All facts under the code state one quantity in one unit. */
  ghost predicate OneQuantity(d: Derivation, c: FactCode) {
    forall f, g | f in d.facts && g in d.facts && f.code == c && g.code == c ::
      f.normalizedUnit == g.normalizedUnit && f.normalizedValue == g.normalizedValue
  }

  ghost predicate Measures(d: Derivation, c: FactCode, unit: string, quantity: real) {
    && Has(d, c)
    && forall f | f in d.facts && f.code == c :: f.normalizedUnit == Some(unit) && f.normalizedValue == Some(quantity)
  }

  /** Why a code has no value. */
  ghost predicate NotStated(derivation: Option<Derivation>, c: FactCode, agree: bool, missing: string, warning: string) {
    if derivation.None? then warning == "quantitative_derivation_unavailable"
    else if !Has(derivation.value, c) then warning == missing
    else !agree && warning == "conflicting_quantitative_observations"
  }

  lemma KeysAgree(f: Fact, g: Fact)
    requires KeyOf(f).Ok? && KeyOf(g).Ok? && f.code == g.code
    ensures ExpectedKind(f.code) == Monetary ==>
              (KeyOf(f) == KeyOf(g) <==> f.reportedCurrency == g.reportedCurrency && f.normalizedValue == g.normalizedValue)
    ensures ExpectedKind(f.code) in {Capacity, Fraction} ==>
              (KeyOf(f) == KeyOf(g) <==> f.normalizedUnit == g.normalizedUnit && f.normalizedValue == g.normalizedValue)
  {
    hide ExpectedKind;
  }

  lemma KeyFields(f: Fact)
    requires KeyOf(f).Ok?
    ensures ExpectedKind(f.code) == Monetary ==>
              f.reportedCurrency.Some? && f.normalizedValue.Some? && f.normalizedUnit == Some("currency_major")
    ensures ExpectedKind(f.code) in {Capacity, Fraction} ==> f.normalizedUnit.Some? && f.normalizedValue.Some?
  {
    hide ExpectedKind;
  }

  ghost predicate SameKeys(d: Derivation, c: FactCode) {
    forall f, g | f in d.facts && g in d.facts && f.code == c && g.code == c :: KeyOf(f) == KeyOf(g)
  }

  lemma WithCode(d: Derivation, c: FactCode)
    ensures var facts := FactsWithCode(d.facts, c);
            && (facts != [] <==> Has(d, c))
            && ((forall f, g | f in facts && g in facts :: KeyOf(f) == KeyOf(g)) <==> SameKeys(d, c))
            && (facts != [] ==> facts[0] in d.facts && facts[0].code == c)
  {
    hide KeyOf;
    var facts := FactsWithCode(d.facts, c);
    assert forall f :: f in facts <==> f in d.facts && f.code == c;
    hide FactsWithCode;
    if facts != [] { assert facts[0] in facts; }
  }

  lemma AgreementIff(d: Derivation, c: FactCode)
    requires Resolve(Some(d), c).Ok?
    ensures var facts := FactsWithCode(d.facts, c);
            Resolve(Some(d), c).value.warnings == [] <==>
            facts != [] && forall f, g | f in facts && g in facts :: KeyOf(f) == KeyOf(g)
  {
    hide KeyOf, Resolve, FactsWithCode;
    ResolvedMeansAgreement(d, c);
  }

  /** The keys of the facts of a derivation under one code, once resolved. */
  lemma Keyed(d: Derivation, c: FactCode)
    requires Resolve(Some(d), c).Ok?
    ensures var o := Resolve(Some(d), c).value;
            && (o.warnings == [] <==> Has(d, c) && SameKeys(d, c))
            && (!Has(d, c) ==> o.warnings == [MissingWarning(c)])
            && (Has(d, c) && o.warnings != [] ==> o.warnings == ["conflicting_quantitative_observations"])
            && (o.warnings == [] ==> exists f | f in d.facts && f.code == c ::
                  o.value == f.normalizedValue && o.unit == f.normalizedUnit && o.currency == f.reportedCurrency)
  {
    hide KeyOf, KeysOf, FactsWithCode, MissingWarning, Has, SameKeys;
    AgreementIff(d, c);
    WithCode(d, c);
  }

  lemma KeysFine(d: Derivation, c: FactCode, f: Fact)
    requires Resolve(Some(d), c).Ok? && f in d.facts && f.code == c
    ensures KeyOf(f).Ok?
  {
    hide KeyOf, MissingWarning;
    assert f in FactsWithCode(d.facts, c);
  }

  /** The derivation states this amount in this currency. */
  ghost predicate StatedAs(derivation: Option<Derivation>, c: FactCode, currency: string, amount: real) {
    derivation.Some? && States(derivation.value, c, currency, amount)
  }

  /** What resolving a monetary code means. */
  lemma AmountResolved(derivation: Option<Derivation>, c: FactCode)
    requires Resolve(derivation, c).Ok? && ExpectedKind(c) == Monetary
    ensures var o := Resolve(derivation, c).value;
            && (forall currency, amount :: StatedAs(derivation, c, currency, amount) <==>
                  o.warnings == [] && o.currency == Some(currency) && o.value == Some(amount))
            && (o.warnings == [] ==> o.unit == Some("currency_major") && o.value.Some? && o.currency.Some?)
            && (o.warnings != [] ==>
                  |o.warnings| == 1
                  && NotStated(derivation, c, derivation.Some? && OneAmount(derivation.value, c), MissingWarning(c), o.warnings[0]))
  {
    if derivation.Some? {
      var d := derivation.value;
      Keyed(d, c);
      forall f | f in d.facts && f.code == c
        ensures f.reportedCurrency.Some? && f.normalizedValue.Some? && f.normalizedUnit == Some("currency_major")
      {
        KeysFine(d, c, f);
        KeyFields(f);
      }
      forall f, g | f in d.facts && g in d.facts && f.code == c && g.code == c
        ensures KeyOf(f) == KeyOf(g) <==> f.reportedCurrency == g.reportedCurrency && f.normalizedValue == g.normalizedValue
      {
        KeysFine(d, c, f);
        KeysFine(d, c, g);
        KeysAgree(f, g);
      }
      hide Resolve, KeyOf, MissingWarning, ExpectedKind;
    }
  }

  /** What resolving a capacity or a fraction means. */
  lemma QuantityResolved(derivation: Option<Derivation>, c: FactCode)
    requires Resolve(derivation, c).Ok? && ExpectedKind(c) in {Capacity, Fraction}
    ensures var o := Resolve(derivation, c).value;
            && (forall unit, quantity :: o.warnings == [] && o.unit == Some(unit) && o.value == Some(quantity) <==>
                  derivation.Some? && Measures(derivation.value, c, unit, quantity))
            && (o.warnings == [] ==> o.unit.Some? && o.value.Some?)
            && (o.warnings != [] ==>
                  |o.warnings| == 1
                  && NotStated(derivation, c, derivation.Some? && OneQuantity(derivation.value, c), MissingWarning(c), o.warnings[0]))
  {
    if derivation.Some? {
      var d := derivation.value;
      Keyed(d, c);
      forall f | f in d.facts && f.code == c ensures f.normalizedUnit.Some? && f.normalizedValue.Some? {
        KeysFine(d, c, f);
        KeyFields(f);
      }
      forall f, g | f in d.facts && g in d.facts && f.code == c && g.code == c
        ensures KeyOf(f) == KeyOf(g) <==> f.normalizedUnit == g.normalizedUnit && f.normalizedValue == g.normalizedValue
      {
        KeysFine(d, c, f);
        KeysFine(d, c, g);
        KeysAgree(f, g);
      }
      hide Resolve, KeyOf, MissingWarning, ExpectedKind;
    }
  }

  // --- Revenue ---

  /** The revenues known at event time. */
  ghost function RevenuesFor(request: Request, read: RevenueReader): seq<Revenue> {
    read(RevenueQuery(request.financialDatasetId, request.event.companyId, request.scope, request.event.sourceAvailableAt))
  }

  /** The one revenue with the latest period end. */
  ghost predicate LatestRevenue(values: seq<Revenue>, v: Revenue) {
    exists i | 0 <= i < |values| ::
      values[i] == v && forall j | 0 <= j < |values| && j != i :: values[j].periodEnd < v.periodEnd
  }

  ghost predicate LatestTwice(values: seq<Revenue>) {
    exists i, j | 0 <= i < j < |values| ::
      && values[i].periodEnd == values[j].periodEnd
      && forall v | v in values :: v.periodEnd <= values[i].periodEnd
  }

  lemma {:induction false} EndingAtOne(values: seq<Revenue>, d: Date, i: nat)
    requires i < |values| && values[i].periodEnd == d && forall j | 0 <= j < |values| && j != i :: values[j].periodEnd != d
    ensures EndingAt(values, d) == [values[i]]
  {
    if i > 0 {
      assert values[0].periodEnd != d;
      EndingAtOne(values[1..], d, i - 1);
    } else {
      NoneEndingAt(values[1..], d);
    }
  }

  lemma {:induction false} NoneEndingAt(values: seq<Revenue>, d: Date)
    requires forall v | v in values :: v.periodEnd != d
    ensures EndingAt(values, d) == []
  {
    if values != [] { NoneEndingAt(values[1..], d); }
  }

  lemma {:induction false} EndingAtMany(values: seq<Revenue>, d: Date, i: nat, j: nat)
    requires i < j < |values| && values[i].periodEnd == d && values[j].periodEnd == d
    ensures |EndingAt(values, d)| > 1
  {
    if i > 0 {
      EndingAtMany(values[1..], d, i - 1, j - 1);
    } else {
      assert values[1..][j - 1] in EndingAt(values[1..], d);
    }
  }

  /** The latest revenue is unique, or the latest period end occurs twice. */
  lemma LatestCases(values: seq<Revenue>)
    requires values != []
    ensures var latest := EndingAt(values, LatestPeriodEnd(values));
            && (|latest| == 1 ==> LatestRevenue(values, latest[0]))
            && (|latest| != 1 ==> LatestTwice(values))
  {
    var d := LatestPeriodEnd(values);
    var v :| v in values && v.periodEnd == d;
    var i :| 0 <= i < |values| && values[i] == v;
    hide LatestPeriodEnd, EndingAt, LatestTwice, LatestRevenue;
    if j :| 0 <= j < |values| && j != i && values[j].periodEnd == d {
      EndingAtMany(values, d, if i < j then i else j, if i < j then j else i);
      LatestAtTwo(values, if i < j then i else j, if i < j then j else i);
    } else {
      EndingAtOne(values, d, i);
      LatestAtOne(values, i);
    }
  }

  lemma LatestAtTwo(values: seq<Revenue>, i: nat, j: nat)
    requires i < j < |values| && values[i].periodEnd == values[j].periodEnd
    requires forall v | v in values :: v.periodEnd <= values[i].periodEnd
    ensures LatestTwice(values)
  {
  }

  lemma LatestAtOne(values: seq<Revenue>, i: nat)
    requires i < |values| && forall j | 0 <= j < |values| && j != i :: values[j].periodEnd != values[i].periodEnd
    requires forall v | v in values :: v.periodEnd <= values[i].periodEnd
    ensures LatestRevenue(values, values[i])
  {
    forall j | 0 <= j < |values| && j != i ensures values[j].periodEnd < values[i].periodEnd {
      assert values[j] in values;
    }
  }

  lemma LatestExcludes(values: seq<Revenue>, v: Revenue)
    requires LatestRevenue(values, v)
    ensures !LatestTwice(values) && values != []
    ensures forall w | LatestRevenue(values, w) :: w == v
  {
    var i :| 0 <= i < |values| && values[i] == v && forall j | 0 <= j < |values| && j != i :: values[j].periodEnd < v.periodEnd;
    assert values[i] in values;
  }

  /** Which revenue is selected, and which warning blocks it. */
  lemma RevenueLaw(request: Request, read: RevenueReader)
    requires EventTimeRevenue(request, read).Ok?
    ensures var er, values := EventTimeRevenue(request, read).value, RevenuesFor(request, read);
            && (forall v :: er.revenue == Some(v) <==> LatestRevenue(values, v))
            && (er.warning == Some("missing_event_time_ttm_revenue") <==> values == [])
            && (er.warning == Some("ambiguous_latest_event_time_ttm_revenue") <==> LatestTwice(values))
            && (er.warning == Some("non_positive_event_time_ttm_revenue") <==>
                er.revenue.Some? && er.revenue.value.value <= 0.0)
            && (er.warning.None? <==> er.revenue.Some? && er.revenue.value.value > 0.0)
  {
    var values := RevenuesFor(request, read);
    if values != [] { LatestCases(values); }
    forall v | LatestRevenue(values, v)
      ensures !LatestTwice(values) && values != [] && forall w | LatestRevenue(values, w) :: w == v
    {
      LatestExcludes(values, v);
    }
    assert values == [] ==> !LatestTwice(values);
    hide EndingAt, LatestPeriodEnd, RevenueCoherent, LatestRevenue, LatestTwice;
  }

  // --- Ratios over revenue ---

  /** The facts state an amount in rupees, the latest revenue is positive, and `x` is their rounded quotient. */
  ghost predicate RatioOf(
      derivation: Option<Derivation>, values: seq<Revenue>, c: FactCode, amount: real, v: Revenue, x: real)
  {
    && StatedAs(derivation, c, "INR", amount) && amount >= 0.0
    && LatestRevenue(values, v) && v.value > 0.0
    && x == SignedRound(amount / v.value)
  }

  /** Why the revenue gives no ratio. */
  ghost predicate RevenueBlocks(values: seq<Revenue>, w: string) {
    || (values == [] && w == "missing_event_time_ttm_revenue")
    || (LatestTwice(values) && w == "ambiguous_latest_event_time_ttm_revenue")
    || (w == "non_positive_event_time_ttm_revenue" && exists v :: LatestRevenue(values, v) && v.value <= 0.0)
  }

  /** Why there is no ratio: nothing stated, not in rupees, or no usable revenue, in this order. */
  ghost predicate RatioBlocked(
      derivation: Option<Derivation>, values: seq<Revenue>, c: FactCode, missing: string, nonInr: string, w: string)
  {
    || NotStated(derivation, c, derivation.Some? && OneAmount(derivation.value, c), missing, w)
    || (w == nonInr && exists currency, amount :: currency != "INR" && StatedAs(derivation, c, currency, amount))
    || (RevenueBlocks(values, w) && exists amount :: StatedAs(derivation, c, "INR", amount))
  }

  ghost predicate RatioFeature(
      f: Feature, request: Request, values: seq<Revenue>, c: FactCode, code: string, missing: string, nonInr: string,
      asOf: Instant)
  {
    && f.code == code && f.unit == "ratio" && f.asOf == asOf && f.availableAt == Some(request.event.sourceAvailableAt)
    && (forall x :: f.value == Some(x) <==> exists amount, v :: RatioOf(request.derivation, values, c, amount, v, x))
    && (f.value.Some? ==> f.warnings == [])
    && (f.value.None? ==>
          |f.warnings| == 1 && RatioBlocked(request.derivation, values, c, missing, nonInr, f.warnings[0]))
  }

  lemma RoundedQuotient(a: real, b: real)
    requires a >= 0.0 && b > 0.0
    ensures Quotient(a, b) == SignedRound(a / b)
  {
    QuotientOrder(0.0, a, b);
    hide Round;
  }

  /** What resolving an amount and selecting a revenue come to. */
  ghost predicate InputsMean(
      derivation: Option<Derivation>, values: seq<Revenue>, c: FactCode, o: Resolved, er: EventRevenue)
  {
    && (forall currency, amount :: StatedAs(derivation, c, currency, amount) <==>
          o.warnings == [] && o.currency == Some(currency) && o.value == Some(amount))
    && (o.warnings == [] ==> o.unit == Some("currency_major") && o.value.Some? && o.currency.Some?)
    && (o.warnings != [] ==>
          |o.warnings| == 1
          && NotStated(derivation, c, derivation.Some? && OneAmount(derivation.value, c), MissingWarning(c), o.warnings[0]))
    && (forall v :: LatestRevenue(values, v) <==> er.revenue == Some(v))
    && (er.warning.None? <==> er.revenue.Some? && er.revenue.value.value > 0.0)
    && (er.warning.Some? ==> RevenueBlocks(values, er.warning.value))
  }

  lemma InputsLaw(request: Request, read: RevenueReader, c: FactCode)
    requires EventTimeRevenue(request, read).Ok? && ExpectedKind(c) == Monetary && Resolve(request.derivation, c).Ok?
    ensures InputsMean(request.derivation, RevenuesFor(request, read), c, Resolve(request.derivation, c).value,
                       EventTimeRevenue(request, read).value)
  {
    hide Resolve, EventTimeRevenue, ExpectedKind, MissingWarning, LatestRevenue, StatedAs, OneAmount, NotStated,
         RevenuesFor, RevenueBlocks, LatestTwice;
    RevenueLaw(request, read);
    RevenueWarned(request, read);
    AmountResolved(request.derivation, c);
  }

  lemma RevenueWarned(request: Request, read: RevenueReader)
    requires EventTimeRevenue(request, read).Ok?
    ensures var er := EventTimeRevenue(request, read).value;
            er.warning.Some? ==> RevenueBlocks(RevenuesFor(request, read), er.warning.value)
  {
    RevenueLaw(request, read);
    hide EndingAt, LatestPeriodEnd, RevenueCoherent, LatestRevenue, LatestTwice;
  }

  lemma InputsUsable(derivation: Option<Derivation>, values: seq<Revenue>, c: FactCode, o: Resolved, er: EventRevenue)
    requires InputsMean(derivation, values, c, o, er)
    ensures er.warning.None? ==> er.revenue.Some? && er.revenue.value.value > 0.0
    ensures o.warnings == [] ==> o.unit == Some("currency_major") && o.value.Some? && o.currency.Some?
  {
    hide StatedAs, LatestRevenue, NotStated, RevenueBlocks, OneAmount, MissingWarning;
  }

  lemma RatioValue(
      f: Feature, derivation: Option<Derivation>, values: seq<Revenue>, c: FactCode, o: Resolved, er: EventRevenue, x: real)
    requires InputsMean(derivation, values, c, o, er)
    requires var plain := o.warnings == [] && o.currency == Some("INR") && er.warning.None?;
             && (plain ==> o.value.value >= 0.0 && er.revenue.value.value > 0.0
                           && f.value == Some(SignedRound(o.value.value / er.revenue.value.value)))
             && (!plain ==> f.value.None?)
    ensures f.value == Some(x) <==> exists amount, v :: RatioOf(derivation, values, c, amount, v, x)
  {
    hide SignedRound, LatestRevenue, StatedAs, NotStated, RevenueBlocks, OneAmount;
    if f.value == Some(x) { assert RatioOf(derivation, values, c, o.value.value, er.revenue.value, x); }
    if amount, v :| RatioOf(derivation, values, c, amount, v, x) {
      assert o.value == Some(amount) && er.revenue == Some(v);
    }
  }

  lemma RatioReason(
      derivation: Option<Derivation>, values: seq<Revenue>, c: FactCode, o: Resolved, er: EventRevenue, nonInr: string, w: string)
    requires InputsMean(derivation, values, c, o, er)
    requires if o.warnings != [] then w == o.warnings[0]
             else if o.currency != Some("INR") then w == nonInr else er.warning == Some(w)
    ensures RatioBlocked(derivation, values, c, MissingWarning(c), nonInr, w)
  {
    hide LatestRevenue, StatedAs, NotStated, RevenueBlocks, OneAmount, MissingWarning;
    if o.warnings == [] {
      assert StatedAs(derivation, c, o.currency.value, o.value.value);
    }
  }

  /** A ratio in terms of what it was resolved to. */
  ghost predicate RatioShape(f: Feature, o: Resolved, er: EventRevenue, nonInr: string) {
    var plain := o.warnings == [] && o.currency == Some("INR") && er.warning.None?;
    && (plain ==> o.value.Some? && o.value.value >= 0.0 && er.revenue.Some? && er.revenue.value.value > 0.0
                  && f.warnings == [] && f.value == Some(SignedRound(o.value.value / er.revenue.value.value)))
    && (!plain ==>
          && f.value.None? && |f.warnings| == 1
          && f.warnings[0] == (if o.warnings != [] then o.warnings[0]
                               else if o.currency != Some("INR") then nonInr else er.warning.GetOr("")))
  }

  lemma RatioOfResolved(
      request: Request, c: FactCode, spec: Spec, nonInr: string, er: EventRevenue, asOf: Instant)
    requires ValidRevenue(er) && (er.warning.None? ==> er.revenue.Some?)
    requires MonetaryRatio(request, c, spec, nonInr, er, asOf).Ok?
    requires var o := Resolve(request.derivation, c).value;
             o.warnings == [] ==> o.unit == Some("currency_major") && o.value.Some?
    ensures RatioShape(MonetaryRatio(request, c, spec, nonInr, er, asOf).value, Resolve(request.derivation, c).value, er, nonInr)
  {
    var o := Resolve(request.derivation, c).value;
    hide Resolve, SignedRound, Quotient;
    if o.warnings == [] && er.warning.None? && o.value.value >= 0.0 {
      RoundedQuotient(o.value.value, er.revenue.value.value);
    }
  }

  lemma RatioHeader(
      request: Request, c: FactCode, spec: Spec, nonInr: string, er: EventRevenue, asOf: Instant)
    requires ValidRevenue(er) && MonetaryRatio(request, c, spec, nonInr, er, asOf).Ok?
    requires er.revenue.Some? ==> er.revenue.value.availableAt <= request.event.sourceAvailableAt
    ensures var f := MonetaryRatio(request, c, spec, nonInr, er, asOf).value;
            && f.code == spec.code && f.unit == spec.unit && f.asOf == asOf
            && f.availableAt == Some(request.event.sourceAvailableAt)
  {
    hide Resolve, Quotient;
  }

  lemma RatioLaw(
      request: Request, read: RevenueReader, c: FactCode, spec: Spec, nonInr: string, asOf: Instant)
    requires EventTimeRevenue(request, read).Ok? && ExpectedKind(c) == Monetary && spec.unit == "ratio"
    requires MonetaryRatio(request, c, spec, nonInr, EventTimeRevenue(request, read).value, asOf).Ok?
    ensures RatioFeature(
              MonetaryRatio(request, c, spec, nonInr, EventTimeRevenue(request, read).value, asOf).value,
              request, RevenuesFor(request, read), c, spec.code, MissingWarning(c), nonInr, asOf)
  {
    var d, values, er := request.derivation, RevenuesFor(request, read), EventTimeRevenue(request, read).value;
    var o := Resolve(d, c).value;
    assert er.revenue.Some? ==> er.revenue.value.availableAt <= request.event.sourceAvailableAt;
    assert Resolve(d, c).Ok? by { hide Resolve; }
    var f := MonetaryRatio(request, c, spec, nonInr, er, asOf).value;
    hide Resolve, EventTimeRevenue, ExpectedKind, MissingWarning, SignedRound, InputsMean, RevenuesFor,
         RevenueCoherent, MonetaryRatio, RatioOf, RatioBlocked, RatioShape;
    InputsLaw(request, read, c);
    InputsUsable(d, values, c, o, er);
    RatioHeader(request, c, spec, nonInr, er, asOf);
    RatioOfResolved(request, c, spec, nonInr, er, asOf);
    ShapedRatio(f, d, values, c, o, er, nonInr);
  }

  lemma ShapedRatio(
      f: Feature, derivation: Option<Derivation>, values: seq<Revenue>, c: FactCode, o: Resolved, er: EventRevenue,
      nonInr: string)
    requires InputsMean(derivation, values, c, o, er) && RatioShape(f, o, er, nonInr)
    ensures forall x :: f.value == Some(x) <==> exists amount, v :: RatioOf(derivation, values, c, amount, v, x)
    ensures f.value.Some? ==> f.warnings == []
    ensures f.value.None? ==>
              |f.warnings| == 1 && RatioBlocked(derivation, values, c, MissingWarning(c), nonInr, f.warnings[0])
  {
    hide SignedRound, InputsMean, RatioOf, RatioBlocked, MissingWarning;
    forall x ensures f.value == Some(x) <==> exists amount, v :: RatioOf(derivation, values, c, amount, v, x) {
      RatioValue(f, derivation, values, c, o, er, x);
    }
    if f.value.None? {
      assert er.warning.None? ==> o.warnings != [] || o.currency != Some("INR");
      RatioReason(derivation, values, c, o, er, nonInr, f.warnings[0]);
    }
  }

  // --- Capacity and stake ---

  /** A quantity the derivation measures under a code, in some unit. */
  ghost predicate MeasuredAs(derivation: Option<Derivation>, c: FactCode, unit: string, quantity: real) {
    derivation.Some? && Measures(derivation.value, c, unit, quantity)
  }

  lemma ResolvedMeasures(derivation: Option<Derivation>, c: FactCode, o: Resolved, unit: string, quantity: real)
    requires Resolve(derivation, c) == Ok(o) && ExpectedKind(c) in {Capacity, Fraction}
    ensures MeasuredAs(derivation, c, unit, quantity) <==>
            o.warnings == [] && o.unit == Some(unit) && o.value == Some(quantity)
    ensures o.warnings == [] ==> o.unit.Some? && o.value.Some?
  {
    QuantityResolved(derivation, c);
    hide Resolve, ExpectedKind, Measures;
  }

  /** The growth over a baseline that an observation of the facts amounts to, as the context rounds it. */
  ghost predicate GrowsTo(derivation: Option<Derivation>, unit: string, before: real, x: real)
    requires before > 0.0
  {
    && (forall other, after | MeasuredAs(derivation, CapacityAfter, other, after) ::
          other == unit && after > before && x == SignedRound(SignedRound(after / before) - 1.0))
    && (forall other, additional | MeasuredAs(derivation, AdditionalCapacity, other, additional) ::
          other == unit && additional > 0.0 && x == SignedRound(additional / before))
  }

  /** A capacity after or an additional capacity is measured. */
  ghost predicate ChangeMeasured(derivation: Option<Derivation>) {
    exists unit, quantity ::
      MeasuredAs(derivation, CapacityAfter, unit, quantity) || MeasuredAs(derivation, AdditionalCapacity, unit, quantity)
  }

  /** The baseline is measured and positive, a change of it is measured, and every measured change gives this growth. */
  ghost predicate GrowthIs(derivation: Option<Derivation>, unit: string, before: real, x: real) {
    && before > 0.0 && MeasuredAs(derivation, CapacityBefore, unit, before)
    && ChangeMeasured(derivation) && GrowsTo(derivation, unit, before, x)
  }

  /** The feature of a capacity expansion: a growth, or one warning in its place. */
  ghost predicate GrowthFeature(f: Feature, request: Request, asOf: Instant) {
    && f.code == "capacity_change_ratio" && f.unit == "ratio" && f.asOf == asOf
    && f.availableAt == Some(request.event.sourceAvailableAt)
    && (f.value.Some? <==> f.warnings == []) && |f.warnings| <= 1
    && (f.value.Some? ==> exists unit, before :: GrowthIs(request.derivation, unit, before, f.value.value))
  }

  lemma WholeGrowth(before: real, after: real)
    requires 0.0 < before < after
    ensures FromWhole(before, after) == SignedRound(SignedRound(after / before) - 1.0)
  {
    RoundedQuotient(after, before);
    WholeAboveOne(before, after);
    hide Round, Quotient;
  }

  lemma ChangeValue(before: Resolved, after: Resolved, additional: Resolved)
    requires CapacityChange(before, after, additional).value.Some?
    ensures var x := CapacityChange(before, after, additional).value.value;
            && before.warnings == [] && before.value.Some? && before.value.value > 0.0
            && (Usable(after) || Usable(additional))
            && (Usable(after) ==> after.unit == before.unit && after.value.value > before.value.value
                                  && x == SignedRound(SignedRound(after.value.value / before.value.value) - 1.0))
            && (Usable(additional) ==> additional.unit == before.unit && additional.value.value > 0.0
                                       && x == SignedRound(additional.value.value / before.value.value))
  {
    if before.value.Some? && before.value.value > 0.0 && after.value.Some? && after.value.value > before.value.value {
      WholeGrowth(before.value.value, after.value.value);
    }
    if before.value.Some? && before.value.value > 0.0 && additional.value.Some? && additional.value.value > 0.0 {
      RoundedQuotient(additional.value.value, before.value.value);
    }
    hide FromWhole, SignedRound, Quotient;
  }

  /** What an observation was resolved to is what the facts measure. */
  ghost predicate Means(derivation: Option<Derivation>, c: FactCode, o: Resolved) {
    && (forall unit, quantity :: MeasuredAs(derivation, c, unit, quantity) <==>
          o.warnings == [] && o.unit == Some(unit) && o.value == Some(quantity))
    && (o.warnings == [] ==> o.unit.Some? && o.value.Some?)
  }

  lemma ResolvedMeans(derivation: Option<Derivation>, c: FactCode)
    requires Resolve(derivation, c).Ok? && ExpectedKind(c) in {Capacity, Fraction}
    ensures Means(derivation, c, Resolve(derivation, c).value)
  {
    hide Resolve, ExpectedKind, MeasuredAs;
    var o := Resolve(derivation, c).value;
    ResolvedMeasures(derivation, c, o, "", 0.0);
    forall unit, quantity
      ensures MeasuredAs(derivation, c, unit, quantity) <==>
              o.warnings == [] && o.unit == Some(unit) && o.value == Some(quantity)
    {
      ResolvedMeasures(derivation, c, o, unit, quantity);
    }
  }

  lemma ChangeGrows(derivation: Option<Derivation>, before: Resolved, after: Resolved, additional: Resolved)
    requires Means(derivation, CapacityBefore, before) && Means(derivation, CapacityAfter, after)
    requires Means(derivation, AdditionalCapacity, additional)
    requires CapacityChange(before, after, additional).value.Some?
    ensures before.unit.Some? && before.value.Some?
    ensures GrowthIs(derivation, before.unit.value, before.value.value, CapacityChange(before, after, additional).value.value)
  {
    ChangeValue(before, after, additional);
    hide CapacityChange, MeasuredAs, SignedRound;
    assert MeasuredAs(derivation, CapacityBefore, before.unit.value, before.value.value);
    if Usable(after) {
      assert MeasuredAs(derivation, CapacityAfter, after.unit.value, after.value.value);
    } else {
      assert MeasuredAs(derivation, AdditionalCapacity, additional.unit.value, additional.value.value);
    }
  }

  lemma CapacityShape(request: Request, asOf: Instant)
    requires CapacityRatio(request, asOf).Ok?
    ensures var d, f := request.derivation, CapacityRatio(request, asOf).value;
            && Resolve(d, CapacityBefore).Ok? && Resolve(d, CapacityAfter).Ok? && Resolve(d, AdditionalCapacity).Ok?
            && f.value == CapacityChange(Resolve(d, CapacityBefore).value, Resolve(d, CapacityAfter).value,
                                         Resolve(d, AdditionalCapacity).value).value
            && f.code == "capacity_change_ratio" && f.unit == "ratio" && f.asOf == asOf
            && f.availableAt == Some(request.event.sourceAvailableAt)
            && (f.value.Some? <==> f.warnings == []) && |f.warnings| <= 1
  {
    var d := request.derivation;
    hide Resolve;
    CapacityChangeDefined(Resolve(d, CapacityBefore).value, Resolve(d, CapacityAfter).value,
                          Resolve(d, AdditionalCapacity).value);
    hide CapacityChange, QuotientsAgree, ChangeUsable;
  }

  lemma CapacityLaw(request: Request, asOf: Instant)
    requires CapacityRatio(request, asOf).Ok?
    ensures GrowthFeature(CapacityRatio(request, asOf).value, request, asOf)
  {
    var d := request.derivation;
    CapacityShape(request, asOf);
    hide Resolve, CapacityChange, CapacityRatio, Means, GrowthIs;
    ResolvedMeans(d, CapacityBefore);
    ResolvedMeans(d, CapacityAfter);
    ResolvedMeans(d, AdditionalCapacity);
    if CapacityRatio(request, asOf).value.value.Some? {
      ChangeGrows(d, Resolve(d, CapacityBefore).value, Resolve(d, CapacityAfter).value,
                  Resolve(d, AdditionalCapacity).value);
    }
  }

  /** The stake all facts agree on, a fraction of the whole. */
  ghost predicate StakeShown(f: Feature, request: Request, asOf: Instant) {
    var d := request.derivation;
    && f.code == "acquisition_stake_fraction" && f.unit == "fraction" && f.asOf == asOf
    && f.availableAt == Some(request.event.sourceAvailableAt)
    && (forall x :: f.value == Some(x) <==> MeasuredAs(d, AcquisitionStake, "fraction", x))
    && (f.value.Some? ==> 0.0 < f.value.value <= 1.0 && f.warnings == [])
    && (f.value.None? ==>
          && |f.warnings| == 1
          && NotStated(d, AcquisitionStake, d.Some? && OneQuantity(d.value, AcquisitionStake),
                       "missing_acquisition_stake", f.warnings[0]))
  }

  lemma StakeLaw(request: Request, asOf: Instant)
    requires StakeFeature(request, asOf).Ok?
    ensures StakeShown(StakeFeature(request, asOf).value, request, asOf)
  {
    var d := request.derivation;
    var o := Resolve(d, AcquisitionStake).value;
    QuantityResolved(d, AcquisitionStake);
    forall x
      ensures MeasuredAs(d, AcquisitionStake, "fraction", x) <==>
              o.warnings == [] && o.unit == Some("fraction") && o.value == Some(x)
    {
      ResolvedMeasures(d, AcquisitionStake, o, "fraction", x);
    }
    hide Resolve, MeasuredAs, NotStated, OneQuantity, Measures;
  }

  // --- The bundle ---

  ghost predicate Inapplicable(f: Feature, code: string, unit: string, asOf: Instant) {
    && f.code == code && f.unit == unit && f.value == None && f.warnings == ["not_applicable_for_event_type"]
    && f.availableAt == None && f.asOf == asOf
  }

  /**
   * The features of an event by its type: an order and a capital expenditure over revenue, the growth of capacity, an
   * acquisition's consideration over revenue and its stake. The others do not apply. The age is counted to the cutoff.
   */
  lemma FeaturesLaw(request: Request, read: RevenueReader, asOf: Instant)
    requires FeaturesAsOf(request, read, asOf).Ok?
    ensures var b, t, values := FeaturesAsOf(request, read, asOf).value, request.event.eventType, RevenuesFor(request, read);
            && b.eventType == t
            && (t == OrderAward ==>
                  RatioFeature(b.order, request, values, OrderValue, "order_value_to_ttm_revenue",
                               "missing_order_value", "non_inr_order_value", asOf))
            && (t == CapexAnnouncement ==>
                  RatioFeature(b.capex, request, values, CapexValue, "capex_value_to_ttm_revenue",
                               "missing_capex_value", "non_inr_capex_value", asOf))
            && (t == AcquisitionAgreement ==>
                  && RatioFeature(b.consideration, request, values, AcquisitionConsideration,
                                  "acquisition_consideration_to_ttm_revenue", "missing_acquisition_consideration",
                                  "non_inr_acquisition_consideration", asOf)
                  && StakeShown(b.stake, request, asOf))
            && (t == CapacityExpansion ==> GrowthFeature(b.capacity, request, asOf))
            && (t != OrderAward ==> Inapplicable(b.order, "order_value_to_ttm_revenue", "ratio", asOf))
            && (t != CapexAnnouncement ==> Inapplicable(b.capex, "capex_value_to_ttm_revenue", "ratio", asOf))
            && (t != CapacityExpansion ==> Inapplicable(b.capacity, "capacity_change_ratio", "ratio", asOf))
            && (t != AcquisitionAgreement ==>
                  && Inapplicable(b.consideration, "acquisition_consideration_to_ttm_revenue", "ratio", asOf)
                  && Inapplicable(b.stake, "acquisition_stake_fraction", "fraction", asOf))
  {
    var t := request.event.eventType;
    var er := RevenueFor(request, read).value;
    hide RatioFeature, StakeShown, GrowthFeature, RequestObjection, EventTimeRevenue, MonetaryRatio, CapacityRatio,
         StakeFeature, RevenuesFor;
    match t
    case OrderAward => RatioLaw(request, read, OrderValue, ORDER, "non_inr_order_value", asOf);
    case CapexAnnouncement => RatioLaw(request, read, CapexValue, CAPEX, "non_inr_capex_value", asOf);
    case CapacityExpansion => CapacityLaw(request, asOf);
    case AcquisitionAgreement =>
      RatioLaw(request, read, AcquisitionConsideration, CONSIDERATION, "non_inr_acquisition_consideration", asOf);
      StakeLaw(request, asOf);
    case _ =>
  }

  /** The bundle is about the event, was public at the cutoff, and counts its age to it. */
  lemma BundleLaw(request: Request, read: RevenueReader, asOf: Instant)
    requires FeaturesAsOf(request, read, asOf).Ok?
    ensures var b, e := FeaturesAsOf(request, read, asOf).value, request.event;
            && b.companyId == e.companyId && b.securityId == e.securityId && b.datasetId == e.datasetId
            && b.announcementId == e.announcement.id && b.eventId == e.id && b.rulesetCode == e.rulesetCode
            && b.rulesetVersion == e.rulesetVersion && b.date == e.date && b.asOf == asOf
            && b.sourceAvailableAt == e.sourceAvailableAt && b.materialityCutoff == e.sourceAvailableAt
            && b.financialDatasetId == request.financialDatasetId && b.scope == request.scope
            && e.sourceAvailableAt <= asOf && b.age.unit == "days" && b.age.warnings == []
            && b.age.availableAt == Some(e.sourceAvailableAt)
            && b.age.value.Some? && b.age.value.value * 86_400_000_000.0 == (asOf - e.sourceAvailableAt) as real
            && (forall v :: b.revenue == Some(v) <==>
                  e.eventType in {OrderAward, CapexAnnouncement, AcquisitionAgreement}
                  && LatestRevenue(RevenuesFor(request, read), v))
  {
    if IsMonetaryEvent(request.event.eventType) { RevenueLaw(request, read); }
    var microseconds := asOf - request.event.sourceAvailableAt;
    QuotientTimes(microseconds as real, 86_400_000_000.0);
    hide EventTimeRevenue, MaterialityOf, EventObjection, DerivationObjection, LatestRevenue, LatestTwice;
  }
}
