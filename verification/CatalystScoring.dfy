/** The business-catalyst component: bundle re-validation, event scores and the maximum event. */
module CatalystScoring {
  import opened Prelude
  import opened Text
  import opened Reals
  import opened CapacityGrowth
  import opened Sorting
  import opened Dictionaries
  import opened EventModel
  import opened CatalystFeatures
  import Curves

  datatype Policy = Policy(
    maximumAgeDays: int, recencyCurve: Curves.Curve, orderCurve: Curves.Curve, capacityCurve: Curves.Curve,
    commencementBase: real, approvalBase: real)

  predicate ValidPolicy(p: Policy) {
    && p.maximumAgeDays >= 1
    && Curves.Valid(p.recencyCurve) && Curves.Valid(p.orderCurve) && Curves.Valid(p.capacityCurve)
    && 0.0 <= p.commencementBase <= 100.0
    && 0.0 <= p.approvalBase <= 100.0
  }

  // --- Validation ---

  /** `_validate_feature` of an applicable feature, after its identity. */
  predicate ApplicableHolds(f: Feature, sourceAvailableAt: Instant) {
    && (f.value.None? ==> f.warnings != [])
    && (f.value.Some? ==>
          && f.warnings == []
          && f.availableAt.Some?
          && (if f.code == CAPACITY.code then f.value.value > 0.0
              else if f.code == STAKE.code then 0.0 < f.value.value <= 1.0
              else f.value.value >= 0.0))
    && (f.availableAt.Some? ==> f.availableAt.value <= sourceAvailableAt)
  }

  predicate FeatureHolds(f: Feature, spec: Spec, applicable: bool, sourceAvailableAt: Instant, cutoff: Instant) {
    && f.code == spec.code && f.version == spec.version && f.unit == spec.unit && f.asOf == cutoff
    && if applicable then ApplicableHolds(f, sourceAvailableAt)
       else f.value.None? && f.warnings == [NOT_APPLICABLE] && f.availableAt.None?
  }

  predicate AgeHolds(b: Bundle, cutoff: Instant) {
    var age := b.age;
    && age.code == "event_age_days" && age.version == AGE_VERSION && age.unit == "days"
    && age.value.Some? && age.value.value >= 0.0
    && age.warnings == []
    && age.availableAt == Some(b.sourceAvailableAt)
    && age.asOf == cutoff
  }

  predicate AgeEvidenceHolds(b: Bundle) {
    && |b.age.evidence| == 1 && b.age.evidence[0].OfEvent?
    && var e := b.age.evidence[0].event;
    && e.id == b.eventId
    && e.companyId == b.companyId
    && e.securityId == b.securityId
    && e.datasetId == b.datasetId
    && e.eventType == b.eventType
    && e.rulesetCode == b.rulesetCode
    && e.rulesetVersion == b.rulesetVersion
    && e.announcement.id == b.announcementId
    && e.sourceAvailableAt == b.sourceAvailableAt
  }

  /** The bundle checks of the scorer; any failure raises. */
  predicate BundleHolds(b: Bundle, cutoff: Instant) {
    && b.version == BUNDLE_VERSION
    && !b.eventType.UnknownType?
    && b.rulesetCode == RULESET_CODE && b.rulesetVersion == RULESET_VERSION
    && ((b.quantRulesetCode.None? && b.quantRulesetVersion.None?)
        || (b.quantRulesetCode == Some(QUANT_RULESET_CODE) && b.quantRulesetVersion == Some(QUANT_RULESET_VERSION)))
    && b.sourceAvailableAt <= cutoff
    && b.materialityCutoff == b.sourceAvailableAt
    && AgeHolds(b, cutoff) && AgeEvidenceHolds(b)
    && FeatureHolds(b.order, ORDER, b.eventType == OrderAward, b.sourceAvailableAt, cutoff)
    && FeatureHolds(b.capex, CAPEX, b.eventType == CapexAnnouncement, b.sourceAvailableAt, cutoff)
    && FeatureHolds(b.capacity, CAPACITY, b.eventType == CapacityExpansion, b.sourceAvailableAt, cutoff)
    && FeatureHolds(b.consideration, CONSIDERATION, b.eventType == AcquisitionAgreement, b.sourceAvailableAt, cutoff)
    && FeatureHolds(b.stake, STAKE, b.eventType == AcquisitionAgreement, b.sourceAvailableAt, cutoff)
  }

  function EventId(b: Bundle): Uuid {
    b.eventId
  }

  predicate SharesContext(b: Bundle, first: Bundle) {
    && b.companyId == first.companyId
    && b.datasetId == first.datasetId
    && b.financialDatasetId == first.financialDatasetId
    && b.scope == first.scope
    && b.asOf == first.asOf
  }

  /** One coherent, non-empty event set. */
  ghost predicate Coherent(evidence: seq<Bundle>) {
    && evidence != []
    && NotBlank(evidence[0].scope)
    && Distinct(evidence, EventId)
    && (forall b | b in evidence :: SharesContext(b, evidence[0]) && BundleHolds(b, evidence[0].asOf))
    && (forall a, b | a in evidence && b in evidence && a.securityId.Some? && b.securityId.Some? ::
          a.securityId == b.securityId)
  }

  /** What the loop knows after the first `i` bundles. */
  ghost predicate CoherentTo(evidence: seq<Bundle>, i: nat, eventIds: set<Uuid>, securityIds: set<Uuid>)
    requires 0 < |evidence| && i <= |evidence|
  {
    && eventIds == (set b | b in evidence[..i] :: b.eventId)
    && securityIds == (set b | b in evidence[..i] && b.securityId.Some? :: b.securityId.value)
    && (forall j, k | 0 <= j < k < i :: evidence[j].eventId != evidence[k].eventId)
    && (forall x, y | x in securityIds && y in securityIds :: x == y)
    && (forall b | b in evidence[..i] :: SharesContext(b, evidence[0]) && BundleHolds(b, evidence[0].asOf))
  }

  lemma CoherentAtEnd(evidence: seq<Bundle>, eventIds: set<Uuid>, securityIds: set<Uuid>)
    requires evidence != [] && NotBlank(evidence[0].scope)
    requires CoherentTo(evidence, |evidence|, eventIds, securityIds)
    ensures Coherent(evidence)
  {
    hide BundleHolds, SharesContext;
    assert evidence[..|evidence|] == evidence;
    forall a, b | a in evidence && b in evidence && a.securityId.Some? && b.securityId.Some?
      ensures a.securityId == b.securityId
    {
      assert a.securityId.value in securityIds && b.securityId.value in securityIds;
    }
  }

  /** The validation loop, with its sets of seen events and securities. */
  method ValidateEvidence(evidence: seq<Bundle>) returns (accepted: bool)
    ensures accepted <==> Coherent(evidence)
  {
    hide BundleHolds, SharesContext;
    if evidence == [] {
      return false;
    }
    var first := evidence[0];
    if !NotBlank(first.scope) {
      return false;
    }
    hide NotBlank;
    var eventIds: set<Uuid> := {};
    var securityIds: set<Uuid> := {};
    for i := 0 to |evidence|
      invariant CoherentTo(evidence, i, eventIds, securityIds)
    {
      var b := evidence[i];
      assert b in evidence;
      assert evidence[..i + 1] == evidence[..i] + [b];
      if b.eventId in eventIds {
        RepeatedEvent(evidence, i);
        return false;
      }
      eventIds := eventIds + {b.eventId};
      if b.securityId.Some? {
        if exists x | x in securityIds :: x != b.securityId.value {
          return false;
        }
        securityIds := securityIds + {b.securityId.value};
      }
      if !SharesContext(b, first) || !BundleHolds(b, first.asOf) {
        return false;
      }
    }
    CoherentAtEnd(evidence, eventIds, securityIds);
    accepted := true;
  }

  lemma RepeatedEvent(evidence: seq<Bundle>, i: nat)
    requires i < |evidence|
    requires evidence[i].eventId in set b | b in evidence[..i] :: b.eventId
    ensures !Distinct(evidence, EventId)
  {
    var b :| b in evidence[..i] && b.eventId == evidence[i].eventId;
    var j :| 0 <= j < i && evidence[..i][j] == b;
    assert EventId(evidence[j]) == EventId(evidence[i]);
  }

  // --- Event scores ---

  datatype EventScore = EventScore(
    eventId: Uuid, announcementId: Uuid, eventType: EventType, sourceAvailableAt: Instant,
    score: Option<real>, strength: Option<real>, strengthCode: Option<string>, strengthRaw: Option<real>,
    age: real, recencyInput: Option<real>, recency: Option<real>, warnings: seq<string>, asOf: Instant)

  const OUTSIDE_WINDOW := "outside_business_catalyst_window"
  const NOT_SCOREABLE := "event_type_not_scoreable_in_business_catalyst_v1"
  const NO_STRENGTH := "event_strength_unavailable"

  predicate Scoreable(t: EventType) {
    t in {OrderAward, CapacityExpansion, CommercialCommencement, RegulatoryApproval}
  }

  /** The strength side of one event: code, raw value, score, warnings. */
  datatype Strength = Strength(code: Option<string>, raw: Option<real>, score: Option<real>, warnings: seq<string>)

  function CurveStrength(f: Feature, code: string, curve: Curves.Curve): Strength
    requires Curves.Valid(curve)
  {
    if f.value.None? then Strength(Some(code), None, None, f.warnings + [NO_STRENGTH])
    else Strength(Some(code), f.value, Some(Curves.Score(f.value.value, curve)), [])
  }

  /** Strength ignores the cutoff: it reads event-time materiality only. */
  function StrengthOf(b: Bundle, p: Policy): Strength
    requires ValidPolicy(p)
  {
    match b.eventType
    case OrderAward => CurveStrength(b.order, ORDER.code, p.orderCurve)
    case CapacityExpansion => CurveStrength(b.capacity, CAPACITY.code, p.capacityCurve)
    case CommercialCommencement =>
      Strength(Some("commercial_commencement_base_score"), Some(p.commencementBase), Some(p.commencementBase), [])
    case RegulatoryApproval =>
      Strength(Some("regulatory_approval_base_score"), Some(p.approvalBase), Some(p.approvalBase), [])
    case _ => Strength(None, None, None, [NOT_SCOREABLE])
  }

  function Recency(age: real, p: Policy): Option<real>
    requires ValidPolicy(p)
  {
    if age > p.maximumAgeDays as real then None else Some(Curves.Score(-age, p.recencyCurve))
  }

  function Blend(strength: Option<real>, recency: Option<real>): Option<real> {
    if strength.Some? && recency.Some? then Some(strength.value * recency.value / 100.0) else None
  }

  function ScoreOf(b: Bundle, p: Policy): EventScore
    requires ValidPolicy(p) && b.age.value.Some?
  {
    var age := b.age.value.value;
    var recency := Recency(age, p);
    var strength :=
      if !Scoreable(b.eventType) then Strength(None, None, None, [NOT_SCOREABLE])
      else if recency.None? then Strength(None, None, None, [])
      else StrengthOf(b, p);
    EventScore(
      b.eventId, b.announcementId, b.eventType, b.sourceAvailableAt,
      Blend(strength.score, recency), strength.score, strength.code, strength.raw,
      age, if recency.Some? then Some(-age) else None, recency,
      Unique((if recency.None? then [OUTSIDE_WINDOW] else []) + strength.warnings), b.asOf)
  }

  /** The step-by-step form of one event's score. */
  method ScoreEvent(b: Bundle, p: Policy) returns (r: EventScore)
    requires ValidPolicy(p) && b.age.value.Some?
    ensures r == ScoreOf(b, p)
  {
    hide Curves.Score, Curves.Valid, Unique;
    var age := b.age.value.value;
    var warnings: seq<string> := [];
    var recencyInput: Option<real>, recency: Option<real> := None, None;
    if age > p.maximumAgeDays as real {
      warnings := warnings + [OUTSIDE_WINDOW];
    } else {
      recencyInput := Some(-age);
      var value := Curves.ScorePiecewiseLinear(-age, p.recencyCurve);
      recency := Some(value);
    }
    var strengthCode: Option<string> := None;
    var strengthRaw: Option<real>, strength: Option<real> := None, None;
    if !Scoreable(b.eventType) {
      warnings := warnings + [NOT_SCOREABLE];
    } else if age <= p.maximumAgeDays as real {
      if b.eventType == OrderAward {
        strengthCode := Some(ORDER.code);
        if b.order.value.None? {
          warnings := warnings + b.order.warnings;
          warnings := warnings + [NO_STRENGTH];
        } else {
          var value := Curves.ScorePiecewiseLinear(b.order.value.value, p.orderCurve);
          strength, strengthRaw := Some(value), b.order.value;
        }
      } else if b.eventType == CapacityExpansion {
        strengthCode := Some(CAPACITY.code);
        if b.capacity.value.None? {
          warnings := warnings + b.capacity.warnings;
          warnings := warnings + [NO_STRENGTH];
        } else {
          var value := Curves.ScorePiecewiseLinear(b.capacity.value.value, p.capacityCurve);
          strength, strengthRaw := Some(value), b.capacity.value;
        }
      } else if b.eventType == CommercialCommencement {
        strengthCode := Some("commercial_commencement_base_score");
        strengthRaw, strength := Some(p.commencementBase), Some(p.commencementBase);
      } else {
        strengthCode := Some("regulatory_approval_base_score");
        strengthRaw, strength := Some(p.approvalBase), Some(p.approvalBase);
      }
    }
    ghost var expected :=
      if !Scoreable(b.eventType) then Strength(None, None, None, [NOT_SCOREABLE])
      else if recency.None? then Strength(None, None, None, [])
      else StrengthOf(b, p);
    assert warnings == (if recency.None? then [OUTSIDE_WINDOW] else []) + expected.warnings;
    r := EventScore(
      b.eventId, b.announcementId, b.eventType, b.sourceAvailableAt,
      Blend(strength, recency), strength, strengthCode, strengthRaw, age, recencyInput, recency,
      Unique(warnings), b.asOf);
  }

  // --- Selection ---

  function ScoreOrder(s: EventScore): seq<int> {
    [TypeRank(s.eventType), s.sourceAvailableAt, s.eventId]
  }

  /** A higher score, then a newer source, then the lower type rank, then the lower id. */
  predicate Beats(a: EventScore, b: EventScore)
    requires a.score.Some? && b.score.Some?
  {
    || a.score.value > b.score.value
    || (a.score.value == b.score.value
        && (|| a.sourceAvailableAt > b.sourceAvailableAt
            || (a.sourceAvailableAt == b.sourceAvailableAt
                && (|| TypeRank(a.eventType) < TypeRank(b.eventType)
                    || (TypeRank(a.eventType) == TypeRank(b.eventType) && a.eventId < b.eventId)))))
  }

  /** The event that beats every other scored event. */
  ghost predicate IsSelected(scores: seq<EventScore>, s: EventScore) {
    && s in scores && s.score.Some?
    && forall t | t in scores && t.score.Some? && t != s :: Beats(s, t)
  }

  function MaximumScore(scores: seq<EventScore>): (m: real)
    requires scores != [] && forall s | s in scores :: s.score.Some?
    ensures exists s | s in scores :: s.score.value == m
    ensures forall s | s in scores :: s.score.value <= m
  {
    if |scores| == 1 then
      assert scores[0] in scores;
      scores[0].score.value
    else
      assert scores[0] in scores && forall s | s in scores[1..] :: s in scores;
      var rest := MaximumScore(scores[1..]);
      if scores[0].score.value > rest then scores[0].score.value else rest
  }

  function NewestSource(scores: seq<EventScore>): (t: Instant)
    requires scores != []
    ensures exists s | s in scores :: s.sourceAvailableAt == t
    ensures forall s | s in scores :: s.sourceAvailableAt <= t
  {
    if |scores| == 1 then
      assert scores[0] in scores;
      scores[0].sourceAvailableAt
    else
      assert scores[0] in scores;
      var rest := NewestSource(scores[1..]);
      if scores[0].sourceAvailableAt > rest then scores[0].sourceAvailableAt else rest
  }

  predicate RankedBefore(a: EventScore, b: EventScore) {
    TypeRank(a.eventType) < TypeRank(b.eventType)
    || (TypeRank(a.eventType) == TypeRank(b.eventType) && a.eventId <= b.eventId)
  }

  function FirstRanked(scores: seq<EventScore>): (r: EventScore)
    requires scores != []
    ensures r in scores && forall s | s in scores :: RankedBefore(r, s)
  {
    if |scores| == 1 then
      scores[0]
    else
      var rest := FirstRanked(scores[1..]);
      assert forall s | s in scores :: s == scores[0] || s in scores[1..];
      if RankedBefore(scores[0], rest) then scores[0] else rest
  }

  predicate IsScored(s: EventScore) {
    s.score.Some?
  }

  /** `_select_maximum`: maximum score, newest among those, first ranked among those. */
  function SelectMaximum(scores: seq<EventScore>): Option<EventScore> {
    var candidates := Filter(scores, IsScored);
    if candidates == [] then
      None
    else
      var maximum := MaximumScore(candidates);
      var tied := Filter(candidates, (s: EventScore) => s.score == Some(maximum));
      assert tied != [] by {
        ghost var s :| s in candidates && s.score.value == maximum;
        assert s in tied;
      }
      var newest := NewestSource(tied);
      var newestTied := Filter(tied, (s: EventScore) => s.sourceAvailableAt == newest);
      assert newestTied != [] by {
        ghost var s :| s in tied && s.sourceAvailableAt == newest;
        assert s in newestTied;
      }
      Some(FirstRanked(newestTied))
  }

  datatype ComponentScore = ComponentScore(
    companyId: Uuid, datasetId: Uuid, financialDatasetId: Uuid, scope: string,
    score: Option<real>, selectedId: Option<Uuid>, selectedType: Option<EventType>,
    eventScores: seq<EventScore>, warnings: seq<string>, asOf: Instant)

  function ScoreAll(evidence: seq<Bundle>, p: Policy): (r: seq<EventScore>)
    requires ValidPolicy(p) && forall b | b in evidence :: b.age.value.Some?
    ensures |r| == |evidence| && forall i | 0 <= i < |r| :: r[i] == ScoreOf(evidence[i], p)
  {
    seq(|evidence|, i requires 0 <= i < |evidence| =>
      assert evidence[i] in evidence;
      ScoreOf(evidence[i], p))
  }

  predicate Aged(evidence: seq<Bundle>) {
    forall b | b in evidence :: b.age.value.Some?
  }

  function Component(evidence: seq<Bundle>, p: Policy): ComponentScore
    requires ValidPolicy(p) && evidence != [] && Aged(evidence)
  {
    var first := evidence[0];
    var ordered := Sort(ScoreAll(evidence, p), ScoreOrder);
    var selected := SelectMaximum(ordered);
    ComponentScore(
      first.companyId, first.datasetId, first.financialDatasetId, first.scope,
      if selected.Some? then selected.value.score else None,
      if selected.Some? then Some(selected.value.eventId) else None,
      if selected.Some? then Some(selected.value.eventType) else None,
      ordered,
      if selected.Some? then [] else ["no_scoreable_business_catalyst_event"],
      first.asOf)
  }

  method Score(evidence: seq<Bundle>, p: Policy) returns (r: Result<ComponentScore, string>)
    requires ValidPolicy(p)
    ensures r.Ok? <==> Coherent(evidence)
    ensures r.Ok? ==> Aged(evidence) && r.value == Component(evidence, p)
  {
    var accepted := ValidateEvidence(evidence);
    if !accepted {
      return Err("business catalyst evidence is incoherent");
    }
    var eventScores: seq<EventScore> := [];
    for i := 0 to |evidence|
      invariant |eventScores| == i
      invariant forall k | 0 <= k < i :: evidence[k].age.value.Some? && eventScores[k] == ScoreOf(evidence[k], p)
    {
      assert evidence[i] in evidence;
      var s := ScoreEvent(evidence[i], p);
      eventScores := eventScores + [s];
    }
    assert eventScores == ScoreAll(evidence, p);
    var ordered := Sort(eventScores, ScoreOrder);
    var selected := SelectMaximum(ordered);
    var first := evidence[0];
    r := Ok(ComponentScore(
      first.companyId, first.datasetId, first.financialDatasetId, first.scope,
      if selected.Some? then selected.value.score else None,
      if selected.Some? then Some(selected.value.eventId) else None,
      if selected.Some? then Some(selected.value.eventType) else None,
      ordered,
      if selected.Some? then [] else ["no_scoreable_business_catalyst_event"],
      first.asOf));
  }

  // --- Range ---

  lemma BlendInRange(x: real, y: real)
    requires 0.0 <= x <= 100.0 && 0.0 <= y <= 100.0
    ensures 0.0 <= x * y / 100.0 <= 100.0
  {
    ProductNonNegative(x, y);
    ProductNonNegative(100.0 - x, y);
    assert (100.0 - x) * y == 100.0 * y - x * y;
  }

  lemma BlendMonotone(strength: real, lower: real, higher: real)
    requires strength >= 0.0 && lower <= higher
    ensures strength * lower / 100.0 <= strength * higher / 100.0
  {
    ProductMonotone(lower, higher, strength);
    QuotientOrder(strength * lower, strength * higher, 100.0);
  }

  lemma StrengthInRange(b: Bundle, p: Policy)
    requires ValidPolicy(p)
    ensures StrengthOf(b, p).score.Some? ==> 0.0 <= StrengthOf(b, p).score.value <= 100.0
  {
    match b.eventType
    case OrderAward => if b.order.value.Some? { Curves.ScoreBounds(b.order.value.value, p.orderCurve); }
    case CapacityExpansion => if b.capacity.value.Some? { Curves.ScoreBounds(b.capacity.value.value, p.capacityCurve); }
    case _ =>
  }

  /** The 0-100 assertion on an event score cannot fire. */
  lemma EventScoreInRange(b: Bundle, p: Policy)
    requires ValidPolicy(p) && b.age.value.Some?
    ensures ScoreOf(b, p).score.Some? ==> 0.0 <= ScoreOf(b, p).score.value <= 100.0
  {
    StrengthInRange(b, p);
    Curves.ScoreBounds(-b.age.value.value, p.recencyCurve);
    hide Curves.Score, Curves.Valid, Unique, StrengthOf;
    var s := ScoreOf(b, p);
    if s.score.Some? {
      BlendInRange(s.strength.value, s.recency.value);
    }
  }

  // --- Selection is a unique maximum ---

  ghost predicate DistinctEvents(scores: seq<EventScore>) {
    forall a, b | a in scores && b in scores && a.eventId == b.eventId :: a == b
  }

  /** The selected event beats every other scored event; nothing is selected only when nothing is scored. */
  lemma SelectedIsMaximum(scores: seq<EventScore>)
    requires DistinctEvents(scores)
    ensures var r := SelectMaximum(scores);
            && (r.None? <==> forall s | s in scores :: s.score.None?)
            && (r.Some? ==> IsSelected(scores, r.value))
  {
    hide MaximumScore, NewestSource, FirstRanked, Filter;
    var candidates := Filter(scores, IsScored);
    assert candidates != [] ==> candidates[0] in candidates;
    forall s | s in scores && candidates == [] ensures s.score.None? {
      assert !IsScored(s);
    }
  }

  lemma SelectionUnique(scores: seq<EventScore>, a: EventScore, b: EventScore)
    requires IsSelected(scores, a) && IsSelected(scores, b)
    ensures a == b
  {
  }

  function ScoreId(s: EventScore): Uuid {
    s.eventId
  }

  lemma ScoresDistinct(evidence: seq<Bundle>, p: Policy)
    requires ValidPolicy(p) && Aged(evidence) && Distinct(evidence, EventId)
    ensures Distinct(ScoreAll(evidence, p), ScoreOrder)
    ensures DistinctEvents(ScoreAll(evidence, p))
  {
    var scores := ScoreAll(evidence, p);
    forall i, j | 0 <= i < j < |scores| ensures ScoreOrder(scores[i]) != ScoreOrder(scores[j]) {
      assert EventId(evidence[i]) != EventId(evidence[j]);
      assert ScoreOrder(scores[i])[2] != ScoreOrder(scores[j])[2];
    }
    forall a, b | a in scores && b in scores && a.eventId == b.eventId ensures a == b {
      var i :| 0 <= i < |scores| && scores[i] == a;
      var j :| 0 <= j < |scores| && scores[j] == b;
      assert i < j ==> EventId(evidence[i]) != EventId(evidence[j]);
      assert j < i ==> EventId(evidence[j]) != EventId(evidence[i]);
    }
  }

  lemma OrderedSelection(evidence: seq<Bundle>, p: Policy)
    requires ValidPolicy(p) && Coherent(evidence)
    ensures Aged(evidence)
    ensures var ordered := Sort(ScoreAll(evidence, p), ScoreOrder);
            && SameElements(ordered, ScoreAll(evidence, p))
            && StrictlySorted(ordered, ScoreOrder)
            && DistinctEvents(ordered)
  {
    CoherentAged(evidence);
    ScoresDistinct(evidence, p);
    hide BundleHolds, SharesContext;
    SortStrict(ScoreAll(evidence, p), ScoreOrder);
    MultisetElements(Sort(ScoreAll(evidence, p), ScoreOrder), ScoreAll(evidence, p));
  }

  lemma CoherentAged(evidence: seq<Bundle>)
    requires Coherent(evidence)
    ensures Aged(evidence)
  {
    forall b | b in evidence ensures b.age.value.Some? {
      assert BundleHolds(b, evidence[0].asOf);
      assert AgeHolds(b, evidence[0].asOf);
    }
  }

  /** The component's score, id and type are those of the one best event; None means nothing is scored. */
  ghost predicate ReportsBest(c: ComponentScore, scores: seq<EventScore>) {
    && (c.score.None? ==> c.selectedId.None? && c.selectedType.None? && forall s | s in scores :: s.score.None?)
    && (c.score.Some? ==> exists s | s in scores :: IsSelected(scores, s) && Reports(c, s))
  }

  predicate Reports(c: ComponentScore, s: EventScore) {
    c.score == s.score && c.selectedId == Some(s.eventId) && c.selectedType == Some(s.eventType)
  }

  /** What the maximum of the ordered scores says about the scores in any order. */
  lemma MaximumOfOrdered(ordered: seq<EventScore>, scores: seq<EventScore>)
    requires SameElements(ordered, scores) && DistinctEvents(ordered)
    ensures var r := SelectMaximum(ordered);
            && (r.None? ==> forall s | s in scores :: s.score.None?)
            && (r.Some? ==> r.value in scores && r.value.score.Some? && IsSelected(scores, r.value))
  {
    SelectedIsMaximum(ordered);
    hide SelectMaximum, Beats, DistinctEvents;
  }

  /** A component filled from a selection. */
  predicate FilledFrom(c: ComponentScore, selected: Option<EventScore>) {
    && c.score == (if selected.Some? then selected.value.score else None)
    && c.selectedId == (if selected.Some? then Some(selected.value.eventId) else None)
    && c.selectedType == (if selected.Some? then Some(selected.value.eventType) else None)
  }

  lemma ReportsSelection(c: ComponentScore, ordered: seq<EventScore>, scores: seq<EventScore>)
    requires SameElements(ordered, scores) && DistinctEvents(ordered)
    requires FilledFrom(c, SelectMaximum(ordered))
    ensures ReportsBest(c, scores)
  {
    MaximumOfOrdered(ordered, scores);
    hide SelectMaximum, IsSelected, SameElements, DistinctEvents;
    var r := SelectMaximum(ordered);
    assert r.Some? ==> Reports(c, r.value);
  }

  lemma ComponentFilled(evidence: seq<Bundle>, p: Policy)
    requires ValidPolicy(p) && evidence != [] && Aged(evidence)
    ensures FilledFrom(Component(evidence, p), SelectMaximum(Sort(ScoreAll(evidence, p), ScoreOrder)))
  {
    hide SelectMaximum, Sort, ScoreAll;
  }

  /** The component reports the unique best event of the set, and its score. */
  lemma ComponentSelectsBest(evidence: seq<Bundle>, p: Policy)
    requires ValidPolicy(p) && Coherent(evidence)
    ensures Aged(evidence) && ReportsBest(Component(evidence, p), ScoreAll(evidence, p))
  {
    OrderedSelection(evidence, p);
    ComponentFilled(evidence, p);
    hide BundleHolds, Component, SelectMaximum, Sort, ScoreAll, StrictlySorted, DistinctEvents, SameElements, FilledFrom;
    ReportsSelection(Component(evidence, p), Sort(ScoreAll(evidence, p), ScoreOrder), ScoreAll(evidence, p));
  }

  lemma SameSortedScores(a: seq<Bundle>, b: seq<Bundle>, p: Policy)
    requires ValidPolicy(p) && Aged(a) && Aged(b) && SameElements(a, b)
    requires Distinct(a, EventId) && Distinct(b, EventId)
    ensures Sort(ScoreAll(a, p), ScoreOrder) == Sort(ScoreAll(b, p), ScoreOrder)
  {
    ScoresDistinct(a, p);
    ScoresDistinct(b, p);
    SameScores(a, b, p);
    SameScores(b, a, p);
    hide ScoreAll;
    SortIgnoresOrder(ScoreAll(a, p), ScoreAll(b, p), ScoreOrder);
  }

  /** No order of the same evidence changes the component: not its scores, not their order, not the selection. */
  lemma EvidenceOrderIrrelevant(a: seq<Bundle>, b: seq<Bundle>, p: Policy)
    requires ValidPolicy(p) && Coherent(a) && Coherent(b) && SameElements(a, b)
    ensures Aged(a) && Aged(b) && Component(a, p) == Component(b, p)
  {
    CoherentAged(a);
    CoherentAged(b);
    assert a[0] in b;
    assert SharesContext(a[0], b[0]);
    SameSortedScores(a, b, p);
    hide Sort, SelectMaximum, ScoreAll, BundleHolds;
  }

  lemma SameScores(a: seq<Bundle>, b: seq<Bundle>, p: Policy)
    requires ValidPolicy(p) && Aged(a) && Aged(b) && forall x | x in a :: x in b
    ensures forall s | s in ScoreAll(a, p) :: s in ScoreAll(b, p)
  {
    hide ScoreOf;
    forall s | s in ScoreAll(a, p) ensures s in ScoreAll(b, p) {
      var i :| 0 <= i < |a| && ScoreAll(a, p)[i] == s;
      assert a[i] in a;
      var j :| 0 <= j < |b| && b[j] == a[i];
      assert ScoreAll(b, p)[j] == s;
    }
  }

  /** None counts as below every score. */
  predicate NotBelow(a: Option<real>, b: Option<real>) {
    b.Some? ==> a.Some? && a.value >= b.value
  }

  /** An event set whose every score is matched from above scores at least as high. */
  lemma Dominates(a: seq<Bundle>, b: seq<Bundle>, p: Policy)
    requires ValidPolicy(p) && Coherent(a) && Coherent(b) && Aged(a) && Aged(b)
    requires forall s | s in ScoreAll(b, p) :: exists t | t in ScoreAll(a, p) :: NotBelow(t.score, s.score)
    ensures NotBelow(Component(a, p).score, Component(b, p).score)
  {
    ComponentSelectsBest(a, p);
    ComponentSelectsBest(b, p);
    hide Component, ScoreAll, BundleHolds;
    if Component(b, p).score.Some? {
      var s :| s in ScoreAll(b, p) && IsSelected(ScoreAll(b, p), s) && Reports(Component(b, p), s);
      var t :| t in ScoreAll(a, p) && NotBelow(t.score, s.score);
      BestIsHighest(Component(a, p), ScoreAll(a, p), t);
    }
  }

  lemma BestIsHighest(c: ComponentScore, scores: seq<EventScore>, t: EventScore)
    requires ReportsBest(c, scores) && t in scores
    ensures NotBelow(c.score, t.score)
  {
  }

  /** Adding compatible events never lowers the component. */
  lemma AddingEventsNeverLowers(fewer: seq<Bundle>, more: seq<Bundle>, p: Policy)
    requires ValidPolicy(p) && Coherent(fewer) && Coherent(more)
    requires forall b | b in fewer :: b in more
    ensures Aged(fewer) && Aged(more) && NotBelow(Component(more, p).score, Component(fewer, p).score)
  {
    CoherentAged(fewer);
    CoherentAged(more);
    SameScores(fewer, more, p);
    hide Component, ScoreOf, Coherent;
    Dominates(more, fewer, p);
  }

  // --- The contract between assembler and scorer ---

  lemma ResolvedAmount(derivation: Option<Derivation>, c: FactCode)
    requires Resolve(derivation, c).Ok? && Resolve(derivation, c).value.warnings == []
    requires ExpectedKind(c) in {Monetary, Capacity, Fraction}
    ensures Resolve(derivation, c).value.value.Some?
  {
    var facts := FactsWithCode(derivation.value.facts, c);
    assert facts[0] in facts;
  }

  lemma MonetaryAccepted(
      request: Request, c: FactCode, spec: Spec, nonInr: string, er: EventRevenue, asOf: Instant)
    requires ValidRevenue(er) && (er.revenue.Some? || er.warning.Some?)
    requires er.revenue.Some? ==> er.revenue.value.availableAt <= request.event.sourceAvailableAt
    requires spec in {ORDER, CAPEX, CONSIDERATION} && ExpectedKind(c) == Monetary
    requires MonetaryRatio(request, c, spec, nonInr, er, asOf).Ok?
    ensures FeatureHolds(MonetaryRatio(request, c, spec, nonInr, er, asOf).value, spec, true,
                         request.event.sourceAvailableAt, asOf)
  {
    var o := Resolve(request.derivation, c).value;
    if o.warnings == [] { ResolvedAmount(request.derivation, c); }
    hide Resolve, ExpectedKind, Quotient;
    var f := MonetaryRatio(request, c, spec, nonInr, er, asOf).value;
    if f.value.Some? {
      QuotientNonNegative(o.value.value, er.revenue.value.value);
    }
  }

  /** The request is for an expansion whose growth is zero under the decimal context. */
  predicate GrowthVanishes(request: Request) {
    && request.event.eventType == CapacityExpansion
    && var before, after, additional :=
         Resolve(request.derivation, CapacityBefore), Resolve(request.derivation, CapacityAfter),
         Resolve(request.derivation, AdditionalCapacity);
    && before.Ok? && after.Ok? && additional.Ok?
    && ExpansionVanishes(before.value, after.value, additional.value)
  }

  lemma CapacityAcceptedIff(request: Request, asOf: Instant)
    requires CapacityRatio(request, asOf).Ok? && request.event.eventType == CapacityExpansion
    ensures FeatureHolds(CapacityRatio(request, asOf).value, CAPACITY, true, request.event.sourceAvailableAt, asOf)
            <==> !GrowthVanishes(request)
  {
    var before, after, additional :=
      Resolve(request.derivation, CapacityBefore).value, Resolve(request.derivation, CapacityAfter).value,
      Resolve(request.derivation, AdditionalCapacity).value;
    CapacityChangeDefined(before, after, additional);
    ZeroIffVanishes(before, after, additional);
    hide Resolve, CapacityChange, ExpansionVanishes, ChangeUsable;
  }

  lemma StakeAccepted(request: Request, asOf: Instant)
    requires StakeFeature(request, asOf).Ok?
    ensures FeatureHolds(StakeFeature(request, asOf).value, STAKE, true, request.event.sourceAvailableAt, asOf)
  {
    hide Resolve;
  }

  lemma MaterialityAccepted(request: Request, er: EventRevenue, asOf: Instant)
    requires ValidRevenue(er)
    requires IsMonetaryEvent(request.event.eventType) ==> er.revenue.Some? || er.warning.Some?
    requires er.revenue.Some? ==> er.revenue.value.availableAt <= request.event.sourceAvailableAt
    requires MaterialityOf(request, er, asOf).Ok?
    ensures var m, t, at := MaterialityOf(request, er, asOf).value, request.event.eventType,
                            request.event.sourceAvailableAt;
            && FeatureHolds(m.order, ORDER, t == OrderAward, at, asOf)
            && FeatureHolds(m.capex, CAPEX, t == CapexAnnouncement, at, asOf)
            && (FeatureHolds(m.capacity, CAPACITY, t == CapacityExpansion, at, asOf) <==> !GrowthVanishes(request))
            && FeatureHolds(m.consideration, CONSIDERATION, t == AcquisitionAgreement, at, asOf)
            && FeatureHolds(m.stake, STAKE, t == AcquisitionAgreement, at, asOf)
  {
    match request.event.eventType
    case OrderAward =>
      MonetaryAccepted(request, OrderValue, ORDER, "non_inr_order_value", er, asOf);
      hide MonetaryRatio, ApplicableHolds;
    case CapexAnnouncement =>
      MonetaryAccepted(request, CapexValue, CAPEX, "non_inr_capex_value", er, asOf);
      hide MonetaryRatio, ApplicableHolds;
    case CapacityExpansion =>
      CapacityAcceptedIff(request, asOf);
      hide CapacityRatio, ApplicableHolds;
    case AcquisitionAgreement =>
      MonetaryAccepted(
        request, AcquisitionConsideration, CONSIDERATION, "non_inr_acquisition_consideration", er, asOf);
      StakeAccepted(request, asOf);
      hide MonetaryRatio, StakeFeature, ApplicableHolds;
    case _ =>
  }

  lemma AgeAccepted(e: Event, asOf: Instant)
    requires e.sourceAvailableAt <= asOf
    ensures Age(e, asOf).value.Some? && Age(e, asOf).value.value >= 0.0
  {
    QuotientOrder(0.0, (asOf - e.sourceAvailableAt) as real, MICROSECONDS_PER_DAY as real);
  }

  /**
   * Every bundle the assembler returns passes the scorer's checks at the same cutoff, with one exception: an expansion
   * so small that its ratio is zero under the decimal context.
   */
  lemma AssembledBundleAcceptedIff(request: Request, read: RevenueReader, asOf: Instant)
    requires FeaturesAsOf(request, read, asOf).Ok?
    ensures BundleHolds(FeaturesAsOf(request, read, asOf).value, asOf) <==> !GrowthVanishes(request)
  {
    hide EventTimeRevenue;
    var er := RevenueFor(request, read).value;
    MaterialityAccepted(request, er, asOf);
    AgeAccepted(request.event, asOf);
    hide MaterialityOf, FeatureHolds, GrowthVanishes;
  }

  // --- Decay ---

  /** The bundles of an event set read at one cutoff. */
  function Bundles(requests: seq<Request>, read: RevenueReader, asOf: Instant): (r: seq<Bundle>)
    requires forall i | 0 <= i < |requests| :: FeaturesAsOf(requests[i], read, asOf).Ok?
    ensures |r| == |requests| && forall i | 0 <= i < |r| :: r[i] == FeaturesAsOf(requests[i], read, asOf).value
  {
    seq(|requests|, i requires 0 <= i < |requests| => FeaturesAsOf(requests[i], read, asOf).value)
  }

  lemma BlendDecays(strength: Option<real>, recent: Option<real>, older: Option<real>)
    requires strength.Some? ==> strength.value >= 0.0
    requires NotBelow(recent, older)
    ensures NotBelow(Blend(strength, recent), Blend(strength, older))
  {
    if strength.Some? && older.Some? { BlendMonotone(strength.value, older.value, recent.value); }
  }

  lemma RecencyDecays(age: real, older: real, p: Policy)
    requires ValidPolicy(p) && age <= older
    ensures NotBelow(Recency(age, p), Recency(older, p))
  {
    Curves.ScoreMonotone(-older, -age, p.recencyCurve);
  }

  lemma OlderScoresNoHigher(a: Bundle, b: Bundle, p: Policy)
    requires ValidPolicy(p) && a.age.value.Some? && b.age.value.Some?
    requires a.eventType == b.eventType && StrengthOf(a, p) == StrengthOf(b, p)
    requires a.age.value.value <= b.age.value.value
    ensures NotBelow(ScoreOf(a, p).score, ScoreOf(b, p).score)
  {
    StrengthInRange(a, p);
    RecencyDecays(a.age.value.value, b.age.value.value, p);
    hide StrengthOf, Recency, Unique, Curves.Valid;
    assert Blend(ScoreOf(b, p).strength, None) == None;
    BlendDecays(ScoreOf(b, p).strength, ScoreOf(a, p).recency, ScoreOf(b, p).recency);
    hide Blend;
  }

  lemma AgeGrows(e: Event, asOf: Instant, later: Instant)
    requires asOf <= later
    ensures Age(e, asOf).value.value <= Age(e, later).value.value
  {
    QuotientOrder((asOf - e.sourceAvailableAt) as real, (later - e.sourceAvailableAt) as real,
                  MICROSECONDS_PER_DAY as real);
  }

  /** Waiting never raises an event's score, and a score that is gone stays gone. */
  lemma EventScoreDecays(request: Request, read: RevenueReader, asOf: Instant, later: Instant, p: Policy)
    requires ValidPolicy(p) && asOf <= later && FeaturesAsOf(request, read, asOf).Ok?
    ensures FeaturesAsOf(request, read, later).Ok?
    ensures var a, b := FeaturesAsOf(request, read, asOf).value, FeaturesAsOf(request, read, later).value;
            && a.age.value.Some? && b.age.value.Some?
            && NotBelow(ScoreOf(a, p).score, ScoreOf(b, p).score)
  {
    MaterialityFrozen(request, read, asOf, later);
    AgeGrows(request.event, asOf, later);
    var a, b := FeaturesAsOf(request, read, asOf).value, FeaturesAsOf(request, read, later).value;
    assert a.age == Age(request.event, asOf) && b.age == Age(request.event, later);
    assert StrengthOf(a, p) == StrengthOf(b, p);
    hide FeaturesAsOf;
    OlderScoresNoHigher(a, b, p);
  }

  /** The same event and context, read at another cutoff and accepted if it was before. */
  predicate Reread(a: Bundle, b: Bundle, later: Instant) {
    && b.eventId == a.eventId && b.securityId == a.securityId
    && SharesContext(b.(asOf := a.asOf), a)
    && b.asOf == later && (BundleHolds(a, a.asOf) ==> BundleHolds(b, later))
  }

  lemma RereadBundle(request: Request, read: RevenueReader, asOf: Instant, later: Instant)
    requires asOf <= later && FeaturesAsOf(request, read, asOf).Ok?
    ensures FeaturesAsOf(request, read, later).Ok?
    ensures Reread(FeaturesAsOf(request, read, asOf).value, FeaturesAsOf(request, read, later).value, later)
  {
    MaterialityFrozen(request, read, asOf, later);
    AssembledBundleAcceptedIff(request, read, asOf);
    AssembledBundleAcceptedIff(request, read, later);
    hide BundleHolds, GrowthVanishes, EventTimeRevenue, MaterialityOf;
  }

  lemma RereadCoherent(a: seq<Bundle>, b: seq<Bundle>, later: Instant)
    requires Coherent(a) && |a| == |b| && forall i | 0 <= i < |a| :: Reread(a[i], b[i], later)
    ensures Coherent(b)
  {
    hide BundleHolds, NotBlank;
    assert a[0] in a;
    forall i, j | 0 <= i < j < |b| ensures EventId(b[i]) != EventId(b[j]) {
      assert EventId(a[i]) != EventId(a[j]);
    }
    forall x | x in b ensures SharesContext(x, b[0]) && BundleHolds(x, b[0].asOf) {
      var i :| 0 <= i < |b| && b[i] == x;
      assert a[i] in a;
    }
    forall x, y | x in b && y in b && x.securityId.Some? && y.securityId.Some? ensures x.securityId == y.securityId {
      var i :| 0 <= i < |b| && b[i] == x;
      var j :| 0 <= j < |b| && b[j] == y;
      assert a[i] in a && a[j] in a;
    }
  }

  /** A coherent event set stays coherent as the cutoff moves. */
  lemma CoherenceKept(requests: seq<Request>, read: RevenueReader, asOf: Instant, later: Instant)
    requires asOf <= later
    requires forall i | 0 <= i < |requests| :: FeaturesAsOf(requests[i], read, asOf).Ok?
    requires Coherent(Bundles(requests, read, asOf))
    ensures forall i | 0 <= i < |requests| :: FeaturesAsOf(requests[i], read, later).Ok?
    ensures Coherent(Bundles(requests, read, later))
  {
    hide FeaturesAsOf, Coherent, Reread;
    forall i | 0 <= i < |requests|
      ensures FeaturesAsOf(requests[i], read, later).Ok?
      ensures Reread(FeaturesAsOf(requests[i], read, asOf).value, FeaturesAsOf(requests[i], read, later).value, later)
    {
      RereadBundle(requests[i], read, asOf, later);
    }
    RereadCoherent(Bundles(requests, read, asOf), Bundles(requests, read, later), later);
  }

  /** Waiting never raises the component: for a fixed event set and policy it only decays. */
  lemma ComponentDecays(requests: seq<Request>, read: RevenueReader, asOf: Instant, later: Instant, p: Policy)
    requires ValidPolicy(p) && asOf <= later
    requires forall i | 0 <= i < |requests| :: FeaturesAsOf(requests[i], read, asOf).Ok?
    requires Coherent(Bundles(requests, read, asOf))
    ensures forall i | 0 <= i < |requests| :: FeaturesAsOf(requests[i], read, later).Ok?
    ensures var a, b := Bundles(requests, read, asOf), Bundles(requests, read, later);
            && Coherent(b) && Aged(a) && Aged(b)
            && NotBelow(Component(a, p).score, Component(b, p).score)
  {
    hide FeaturesAsOf, Component, ScoreOf, Coherent;
    CoherenceKept(requests, read, asOf, later);
    var a, b := Bundles(requests, read, asOf), Bundles(requests, read, later);
    CoherentAged(a);
    CoherentAged(b);
    forall s | s in ScoreAll(b, p) ensures exists t | t in ScoreAll(a, p) :: NotBelow(t.score, s.score) {
      var i :| 0 <= i < |b| && ScoreAll(b, p)[i] == s;
      EventScoreDecays(requests[i], read, asOf, later, p);
      assert ScoreAll(a, p)[i] in ScoreAll(a, p);
    }
    Dominates(a, b, p);
  }
}
