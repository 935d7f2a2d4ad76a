/** What a catalyst score says, in the fields of the bundle and the policy it was computed from. */
module CatalystLaws {
  import opened Prelude
  import opened Reals
  import opened Sorting
  import opened Dictionaries
  import opened EventModel
  import opened CatalystFeatures
  import opened CatalystScoring
  import Curves

  // --- One event ---

  /** The type is one of the four that are scored. */
  ghost predicate Scored(t: EventType) {
    t == OrderAward || t == CapacityExpansion || t == CommercialCommencement || t == RegulatoryApproval
  }

  /** The ratio the type is measured by, if it is measured at all. */
  ghost predicate RatioMissing(b: Bundle) {
    (b.eventType == OrderAward && b.order.value.None?) || (b.eventType == CapacityExpansion && b.capacity.value.None?)
  }

  /** The strength of an event, type by type. */
  ghost predicate StrengthIs(b: Bundle, p: Policy, strength: real)
    requires |p.orderCurve| >= 2 && |p.capacityCurve| >= 2
  {
    && (b.eventType == OrderAward ==>
          b.order.value.Some? && Curves.OnCurve(p.orderCurve, b.order.value.value, strength))
    && (b.eventType == CapacityExpansion ==>
          b.capacity.value.Some? && Curves.OnCurve(p.capacityCurve, b.capacity.value.value, strength))
    && (b.eventType == CommercialCommencement ==> strength == p.commencementBase)
    && (b.eventType == RegulatoryApproval ==> strength == p.approvalBase)
  }

  /** What the score says of the strength: its code and its raw value. */
  ghost predicate StrengthNamed(b: Bundle, p: Policy, s: EventScore) {
    && (b.eventType == OrderAward ==> s.strengthCode == Some("order_value_to_ttm_revenue") && s.strengthRaw == b.order.value)
    && (b.eventType == CapacityExpansion ==> s.strengthCode == Some("capacity_change_ratio") && s.strengthRaw == b.capacity.value)
    && (b.eventType == CommercialCommencement ==>
          s.strengthCode == Some("commercial_commencement_base_score") && s.strengthRaw == Some(p.commencementBase))
    && (b.eventType == RegulatoryApproval ==>
          s.strengthCode == Some("regulatory_approval_base_score") && s.strengthRaw == Some(p.approvalBase))
  }

  lemma StrengthLaw(b: Bundle, p: Policy)
    requires ValidPolicy(p) && Scored(b.eventType)
    ensures var s := StrengthOf(b, p);
            && (s.score.Some? <==> !RatioMissing(b))
            && (s.score.Some? ==> StrengthIs(b, p, s.score.value) && s.warnings == [])
            && (s.score.None? ==>
                  s.warnings == (if b.eventType == OrderAward then b.order.warnings else b.capacity.warnings)
                                + ["event_strength_unavailable"])
  {
    if b.eventType == OrderAward && b.order.value.Some? {
      Curves.ScoreOnCurve(p.orderCurve, b.order.value.value, Curves.Score(b.order.value.value, p.orderCurve));
    }
    if b.eventType == CapacityExpansion && b.capacity.value.Some? {
      Curves.ScoreOnCurve(p.capacityCurve, b.capacity.value.value, Curves.Score(b.capacity.value.value, p.capacityCurve));
    }
    hide Curves.Score, Curves.OnCurve, Curves.Valid;
  }

  lemma BlendTimes(strength: real, recency: real)
    ensures Blend(Some(strength), Some(recency)).Some?
    ensures Blend(Some(strength), Some(recency)).value * 100.0 == strength * recency
  {
  }

  /**
   * A score exists exactly for a scored type inside the window whose ratio, where it has one, is known. It is the
   * product of strength and recency in hundredths; recency is the recency curve at minus the age.
   */
  lemma EventScoreLaw(b: Bundle, p: Policy)
    requires ValidPolicy(p) && b.age.value.Some?
    ensures var s, age := ScoreOf(b, p), b.age.value.value;
            && (s.score.Some? <==> Scored(b.eventType) && age <= p.maximumAgeDays as real && !RatioMissing(b))
            && (s.recency.Some? <==> age <= p.maximumAgeDays as real)
            && (s.recency.Some? ==>
                  Curves.OnCurve(p.recencyCurve, -age, s.recency.value) && s.recencyInput == Some(-age))
            && (s.strength.Some? <==> s.score.Some?)
            && (s.score.Some? ==>
                  && s.score.value * 100.0 == s.strength.value * s.recency.value
                  && StrengthIs(b, p, s.strength.value) && StrengthNamed(b, p, s))
            && s.eventId == b.eventId && s.announcementId == b.announcementId && s.eventType == b.eventType
            && s.sourceAvailableAt == b.sourceAvailableAt && s.age == age && s.asOf == b.asOf
  {
    var age := b.age.value.value;
    if Scored(b.eventType) { StrengthLaw(b, p); }
    Curves.ScoreOnCurve(p.recencyCurve, -age, Curves.Score(-age, p.recencyCurve));
    hide Curves.Score, Curves.OnCurve, Curves.Valid, Unique;
    var s := ScoreOf(b, p);
    if s.strength.Some? && s.recency.Some? { BlendTimes(s.strength.value, s.recency.value); }
    assert Scoreable(b.eventType) <==> Scored(b.eventType);
    assert s.score.Some? <==> s.strength.Some? && s.recency.Some?;
    hide Blend, StrengthIs;
  }

  /** Why there is no score. */
  lemma EventWarnings(b: Bundle, p: Policy, w: string)
    requires ValidPolicy(p) && b.age.value.Some?
    ensures var inside := b.age.value.value <= p.maximumAgeDays as real;
            w in ScoreOf(b, p).warnings <==>
            || (!inside && w == "outside_business_catalyst_window")
            || (!Scored(b.eventType) && w == "event_type_not_scoreable_in_business_catalyst_v1")
            || (inside && RatioMissing(b)
                && (w == "event_strength_unavailable"
                    || w in if b.eventType == OrderAward then b.order.warnings else b.capacity.warnings))
  {
    hide Curves.Score, Curves.OnCurve, Curves.Valid, StrengthIs, Blend, StrengthOf;
    if Scored(b.eventType) { StrengthLaw(b, p); }
    assert Scoreable(b.eventType) <==> Scored(b.eventType);
    hide Scoreable, Scored, RatioMissing;
  }

  lemma ProductOrder(strength: real, recent: real, older: real, score: real, olderScore: real)
    requires strength > 0.0 && score * 100.0 == strength * recent && olderScore * 100.0 == strength * older
    ensures olderScore < score <==> older < recent
  {
    ScaledOrder(older, recent, strength);
  }

  /** The score is the product of strength and recency in hundredths. */
  ghost predicate Blended(s: EventScore) {
    && s.score.Some? && s.strength.Some? && s.recency.Some?
    && s.score.value * 100.0 == s.strength.value * s.recency.value
  }

  lemma ScoreParts(b: Bundle, p: Policy)
    requires ValidPolicy(p) && b.age.value.Some?
    ensures var s := ScoreOf(b, p);
            && (s.score.Some? <==> Scored(b.eventType) && b.age.value.value <= p.maximumAgeDays as real
                                   && StrengthOf(b, p).score.Some?)
            && (s.score.Some? ==> Blended(s) && s.strength == StrengthOf(b, p).score)
  {
    hide Curves.Score, Curves.Valid, Unique, StrengthOf;
    var s := ScoreOf(b, p);
    if s.strength.Some? && s.recency.Some? { BlendTimes(s.strength.value, s.recency.value); }
    assert Scoreable(b.eventType) <==> Scored(b.eventType);
    assert s.score.Some? <==> s.strength.Some? && s.recency.Some?;
    hide Blend;
  }

  lemma OlderBundle(a: Bundle, b: Bundle, p: Policy)
    requires ValidPolicy(p) && a.age.value.Some? && b.age.value.Some?
    requires a.eventType == b.eventType && StrengthOf(a, p) == StrengthOf(b, p)
    requires a.age.value.value <= b.age.value.value
    requires ScoreOf(b, p).score.Some?
    ensures LosesWithRecency(ScoreOf(a, p), ScoreOf(b, p))
  {
    ScoreParts(a, p);
    ScoreParts(b, p);
    hide StrengthOf, ScoreOf, Curves.Valid, Blended, LosesWithRecency;
    ScoresOrder(ScoreOf(a, p), ScoreOf(b, p));
  }

  /** Same strength; with a positive one the score is lower exactly when recency is. */
  ghost predicate LosesWithRecency(s: EventScore, t: EventScore) {
    && s.score.Some? && t.score.Some? && s.strength.Some? && t.strength == s.strength
    && s.recency.Some? && t.recency.Some?
    && (s.strength.value > 0.0 ==> (t.score.value < s.score.value <==> t.recency.value < s.recency.value))
  }

  lemma ScoresOrder(s: EventScore, t: EventScore)
    requires Blended(s) && Blended(t) && s.strength == t.strength
    ensures LosesWithRecency(s, t)
  {
    if s.strength.value > 0.0 {
      ProductOrder(s.strength.value, s.recency.value, t.recency.value, s.score.value, t.score.value);
    }
  }

  /** An event with strength loses exactly when its recency does: one event read at two cutoffs. */
  lemma DecaysWithRecency(request: Request, read: RevenueReader, asOf: Instant, later: Instant, p: Policy)
    requires ValidPolicy(p) && asOf <= later && FeaturesAsOf(request, read, asOf).Ok?
    ensures FeaturesAsOf(request, read, later).Ok?
    ensures var a, b := FeaturesAsOf(request, read, asOf).value, FeaturesAsOf(request, read, later).value;
            && a.age.value.Some? && b.age.value.Some?
            && var s, t := ScoreOf(a, p), ScoreOf(b, p);
               t.score.Some? ==> LosesWithRecency(s, t)
  {
    MaterialityFrozen(request, read, asOf, later);
    AgeGrows(request.event, asOf, later);
    var a, b := FeaturesAsOf(request, read, asOf).value, FeaturesAsOf(request, read, later).value;
    assert a.age == Age(request.event, asOf) && b.age == Age(request.event, later);
    assert StrengthOf(a, p) == StrengthOf(b, p);
    hide FeaturesAsOf, StrengthOf, ScoreOf;
    if ScoreOf(b, p).score.Some? { OlderBundle(a, b, p); }
  }

  // --- The component ---

  /** Event scores in order: by type, then by availability, then by id. */
  ghost predicate ListedBefore(s: EventScore, t: EventScore) {
    if TypeRank(s.eventType) != TypeRank(t.eventType) then TypeRank(s.eventType) < TypeRank(t.eventType)
    else if s.sourceAvailableAt != t.sourceAvailableAt then s.sourceAvailableAt < t.sourceAvailableAt
    else s.eventId < t.eventId
  }

  lemma KeyOrder(s: EventScore, t: EventScore)
    requires LexLeq(ScoreOrder(s), ScoreOrder(t)) && ScoreOrder(s) != ScoreOrder(t)
    ensures ListedBefore(s, t)
  {
    var a, b := ScoreOrder(s), ScoreOrder(t);
    assert a[0] < b[0] || (a[0] == b[0] && LexLeq(a[1..], b[1..]));
    assert LexLeq(a[1..], b[1..]) ==> a[1] < b[1] || (a[1] == b[1] && LexLeq(a[2..], b[2..]));
    assert LexLeq(a[2..], b[2..]) ==> a[2] <= b[2];
    hide LexLeq, TypeRank;
  }

  /** The score of a bundle is among the component's. */
  ghost predicate ScoredAmong(scores: seq<EventScore>, b: Bundle, p: Policy)
    requires ValidPolicy(p) && b.age.value.Some?
  {
    ScoreOf(b, p) in scores
  }

  lemma ComponentLists(evidence: seq<Bundle>, p: Policy)
    requires ValidPolicy(p) && Coherent(evidence)
    ensures Aged(evidence)
    ensures var ordered := Sort(ScoreAll(evidence, p), ScoreOrder);
            && |ordered| == |evidence|
            && (forall i, j | 0 <= i < j < |ordered| :: ListedBefore(ordered[i], ordered[j]))
            && (forall b | b in evidence :: ScoredAmong(ordered, b, p))
            && (forall s | s in ordered :: exists b | b in evidence :: s == ScoreOf(b, p))
  {
    OrderedSelection(evidence, p);
    var scores := ScoreAll(evidence, p);
    var ordered := Sort(scores, ScoreOrder);
    MultisetElements(ordered, scores);
    hide BundleHolds, ScoreOf, Sort, ListedBefore, DistinctEvents, LexLeq, ScoreOrder, Coherent;
    forall i, j | 0 <= i < j < |ordered| ensures ListedBefore(ordered[i], ordered[j]) {
      KeyOrder(ordered[i], ordered[j]);
    }
    forall b | b in evidence ensures ScoredAmong(ordered, b, p) {
      var i :| 0 <= i < |evidence| && evidence[i] == b;
      assert scores[i] in scores;
    }
    forall s | s in ordered ensures exists b | b in evidence :: s == ScoreOf(b, p) {
      var i :| 0 <= i < |scores| && scores[i] == s;
      assert evidence[i] in evidence;
    }
  }

  /** A coherent event set's component lists the score of each event, and no other, in order. */
  lemma ComponentListsScores(evidence: seq<Bundle>, p: Policy)
    requires ValidPolicy(p) && Coherent(evidence)
    ensures Aged(evidence)
    ensures var scores := Component(evidence, p).eventScores;
            && |scores| == |evidence|
            && (forall i, j | 0 <= i < j < |scores| :: ListedBefore(scores[i], scores[j]))
            && (forall b | b in evidence :: ScoredAmong(scores, b, p))
            && (forall s | s in scores :: exists b | b in evidence :: s == ScoreOf(b, p))
  {
    ComponentLists(evidence, p);
    hide ScoreAll, ScoreOf, Sort, SelectMaximum, ListedBefore, ScoredAmong, Coherent;
  }

  /**
   * Its score, id and type are those of the one listed event that beats all others; there is none exactly when no
   * listed event has a score.
   */
  lemma ComponentReportsBest(evidence: seq<Bundle>, p: Policy)
    requires ValidPolicy(p) && Coherent(evidence)
    ensures Aged(evidence)
    ensures var c := Component(evidence, p);
            && (c.score.Some? <==> exists s | s in c.eventScores :: s.score.Some?)
            && (c.score.Some? ==>
                  exists s | s in c.eventScores ::
                    && IsSelected(c.eventScores, s)
                    && c.score == s.score && c.selectedId == Some(s.eventId) && c.selectedType == Some(s.eventType))
            && (c.score.None? ==> c.selectedId == None && c.selectedType == None)
            && c.warnings == (if c.score.Some? then [] else ["no_scoreable_business_catalyst_event"])
  {
    OrderedSelection(evidence, p);
    var ordered := Sort(ScoreAll(evidence, p), ScoreOrder);
    SelectedIsMaximum(ordered);
    hide ScoreAll, ScoreOf, Sort, SelectMaximum, Beats, StrictlySorted, DistinctEvents, SameElements, Coherent;
  }

  /** The component is about the context that its events share. */
  lemma ComponentContext(evidence: seq<Bundle>, p: Policy, b: Bundle)
    requires ValidPolicy(p) && Coherent(evidence) && Aged(evidence) && b in evidence
    ensures var c := Component(evidence, p);
            && c.companyId == b.companyId && c.datasetId == b.datasetId && c.scope == b.scope
            && c.financialDatasetId == b.financialDatasetId && c.asOf == b.asOf
  {
    assert SharesContext(b, evidence[0]);
    hide ScoreAll, Sort, SelectMaximum, Coherent;
  }

  // --- What a coherent event set is ---

  /** A feature states a value only if it applies, without a warning, known when the event was, and in its range. */
  ghost predicate FeatureStated(f: Feature, applies: bool, b: Bundle, positive: bool, fraction: bool) {
    && f.asOf == b.asOf
    && (f.value.Some? ==>
          && applies && f.warnings == [] && f.availableAt.Some? && f.availableAt.value <= b.sourceAvailableAt
          && f.value.value >= 0.0 && (positive ==> f.value.value > 0.0) && (fraction ==> f.value.value <= 1.0))
    && (f.value.None? ==> f.warnings != [])
  }

  /** One event of the set, as the scorer takes it. */
  ghost predicate Scorable(b: Bundle) {
    && b.version == "business_event_feature_bundle_v1" && !b.eventType.UnknownType?
    && b.rulesetCode == "business_event_rules" && b.rulesetVersion == "business_event_rules_v1"
    && (b.quantRulesetCode == None <==> b.quantRulesetVersion == None)
    && (b.quantRulesetCode.Some? ==>
          b.quantRulesetCode == Some("business_event_quantitative_rules")
          && b.quantRulesetVersion == Some("business_event_quantitative_rules_v1"))
    && b.materialityCutoff == b.sourceAvailableAt && b.sourceAvailableAt <= b.asOf
    && b.age.value.Some? && b.age.value.value >= 0.0 && b.age.availableAt == Some(b.sourceAvailableAt)
    && b.age.asOf == b.asOf && b.age.warnings == []
    && FeatureStated(b.order, b.eventType == OrderAward, b, false, false)
    && FeatureStated(b.capex, b.eventType == CapexAnnouncement, b, false, false)
    && FeatureStated(b.capacity, b.eventType == CapacityExpansion, b, true, false)
    && FeatureStated(b.consideration, b.eventType == AcquisitionAgreement, b, false, false)
    && FeatureStated(b.stake, b.eventType == AcquisitionAgreement, b, true, true)
  }

  lemma HoldsScorable(b: Bundle)
    requires BundleHolds(b, b.asOf)
    ensures Scorable(b)
  {
  }

  /** An accepted event set is not empty; its events are different, each scorable, and of one context and security. */
  lemma CoherentMeans(evidence: seq<Bundle>)
    requires Coherent(evidence)
    ensures evidence != [] && forall b | b in evidence :: Scorable(b)
    ensures forall i, j | 0 <= i < j < |evidence| :: evidence[i].eventId != evidence[j].eventId
    ensures forall a, b | a in evidence && b in evidence ::
              && a.companyId == b.companyId && a.datasetId == b.datasetId && a.scope == b.scope
              && a.financialDatasetId == b.financialDatasetId && a.asOf == b.asOf
              && (a.securityId.Some? && b.securityId.Some? ==> a.securityId == b.securityId)
  {
    hide BundleHolds, Scorable;
    forall b | b in evidence ensures Scorable(b) {
      assert SharesContext(b, evidence[0]);
      HoldsScorable(b);
    }
    forall i, j | 0 <= i < j < |evidence| ensures evidence[i].eventId != evidence[j].eventId {
      assert EventId(evidence[i]) != EventId(evidence[j]);
    }
    assert forall b | b in evidence :: SharesContext(b, evidence[0]);
  }
}
