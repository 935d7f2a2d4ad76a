/** The valuation component: negated multiples, skipped zero weights, unavailable factors. */
module Valuation {
  import opened Prelude
  import opened Sorting
  import Curves
  import opened Subfactors

  /** One feature of the bundle. */
  datatype Multiple = Multiple(value: Option<real>, availableAt: Option<Instant>, warnings: seq<string>)

  /** One subfactor of the fixed order: its policy, and the bundle's feature under the same code. */
  datatype Entry = Entry(code: string, weight: real, curve: Curves.Curve, multiple: Multiple)

  /** What the policy validators and the bundle's feature checks leave. */
  predicate ValidEntry(e: Entry) {
    && e.weight >= 0.0
    && Curves.Valid(e.curve)
    && (e.multiple.value.Some? ==>
          e.multiple.value.value > 0.0 && e.multiple.availableAt.Some? && e.multiple.warnings == [])
  }

  predicate Valid(entries: seq<Entry>) {
    forall i | 0 <= i < |entries| :: ValidEntry(entries[i])
  }

  ghost predicate DistinctCodes(entries: seq<Entry>) {
    forall i, j | 0 <= i < j < |entries| :: entries[i].code != entries[j].code
  }

  function RawOf(e: Entry): Raw
    requires ValidEntry(e) && e.multiple.value.Some?
  {
    Raw(e.code, e.multiple.value.value, -e.multiple.value.value, e.weight, e.multiple.availableAt.value, e.curve)
  }

  function KeptAt(e: Entry): (r: seq<Raw>)
    requires ValidEntry(e)
    ensures forall i | 0 <= i < |r| :: ValidRaw(r[i])
  {
    if e.weight == 0.0 || e.multiple.value.None? then [] else [RawOf(e)]
  }

  function DroppedAt(e: Entry): seq<Unavailable> {
    if e.weight == 0.0 || e.multiple.value.Some? then []
    else [Unavailable(e.code, e.weight, e.multiple.warnings)]
  }

  /** The subfactors the loop keeps over the first `n` codes, in order. */
  function Kept(entries: seq<Entry>, n: nat): (r: seq<Raw>)
    requires Valid(entries) && n <= |entries|
    ensures forall i | 0 <= i < |r| :: ValidRaw(r[i])
  {
    if n == 0 then [] else Kept(entries, n - 1) + KeptAt(entries[n - 1])
  }

  function Dropped(entries: seq<Entry>, n: nat): seq<Unavailable>
    requires n <= |entries|
  {
    if n == 0 then [] else Dropped(entries, n - 1) + DroppedAt(entries[n - 1])
  }

  function Component(entries: seq<Entry>, minimum: real): ComponentScore
    requires Valid(entries) && minimum > 0.0
  {
    Assemble(Kept(entries, |entries|), Dropped(entries, |entries|), minimum)
  }

  /** The dictionary the loop fills, read back in subfactor order. */
  function InOrder(entries: seq<Entry>, raw: map<string, Raw>, n: nat): seq<Raw>
    requires n <= |entries|
  {
    if n == 0 then []
    else InOrder(entries, raw, n - 1) + if entries[n - 1].code in raw then [raw[entries[n - 1].code]] else []
  }

  lemma {:induction false} InOrderUnchanged(entries: seq<Entry>, raw: map<string, Raw>, x: Raw, n: nat, k: nat)
    requires DistinctCodes(entries) && n <= k < |entries|
    ensures InOrder(entries, raw[entries[k].code := x], n) == InOrder(entries, raw, n)
  {
    if n > 0 { InOrderUnchanged(entries, raw, x, n - 1, k); }
  }

  method Score(entries: seq<Entry>, minimum: real) returns (c: ComponentScore)
    requires Valid(entries) && DistinctCodes(entries) && minimum > 0.0
    ensures c == Component(entries, minimum)
  {
    var raw: map<string, Raw> := map[];
    var unavailable: seq<Unavailable> := [];
    for i := 0 to |entries|
      invariant InOrder(entries, raw, i) == Kept(entries, i)
      invariant forall c | c in raw :: exists k | 0 <= k < i :: entries[k].code == c
      invariant unavailable == Dropped(entries, i)
    {
      var e := entries[i];
      assert e.code !in raw;
      if e.weight == 0.0 {
        continue;
      }
      if e.multiple.value.None? {
        unavailable := unavailable + [Unavailable(e.code, e.weight, e.multiple.warnings)];
        continue;
      }
      InOrderUnchanged(entries, raw, RawOf(e), i, i);
      raw := raw[e.code := RawOf(e)];
    }
    c := Assemble(InOrder(entries, raw, |entries|), unavailable, minimum);
  }

  function ConfiguredWeight(entries: seq<Entry>, n: nat): real
    requires n <= |entries|
  {
    if n == 0 then 0.0 else ConfiguredWeight(entries, n - 1) + entries[n - 1].weight
  }

  lemma WeightConservedAt(e: Entry)
    requires ValidEntry(e)
    ensures RawWeight(KeptAt(e)) + UnavailableWeight(DroppedAt(e)) == e.weight
  {
  }

  lemma {:induction false} WeightConservedTo(entries: seq<Entry>, n: nat)
    requires Valid(entries) && n <= |entries|
    ensures RawWeight(Kept(entries, n)) + UnavailableWeight(Dropped(entries, n)) == ConfiguredWeight(entries, n)
  {
    hide KeptAt, DroppedAt;
    if n > 0 {
      WeightConservedTo(entries, n - 1);
      WeightConservedAt(entries[n - 1]);
      RawWeightSplit(Kept(entries, n - 1), KeptAt(entries[n - 1]));
      UnavailableWeightSplit(Dropped(entries, n - 1), DroppedAt(entries[n - 1]));
      hide RawWeight, UnavailableWeight;
    }
  }

  /** Coverage is conserved: what is scored and what is reported missing make up the whole policy. */
  lemma WeightConserved(entries: seq<Entry>, minimum: real)
    requires Valid(entries) && minimum > 0.0
    ensures var c := Component(entries, minimum);
            c.availableWeight + UnavailableWeight(c.unavailable) == ConfiguredWeight(entries, |entries|)
  {
    WeightConservedTo(entries, |entries|);
    FactorsWeigh(Kept(entries, |entries|));
  }

  /** One policy; the same features are available, and no multiple is higher in `b`. */
  ghost predicate NoDearer(a: seq<Entry>, b: seq<Entry>) {
    && |a| == |b|
    && forall i | 0 <= i < |a| ::
         && b[i].code == a[i].code && b[i].weight == a[i].weight && b[i].curve == a[i].curve
         && (a[i].multiple.value.Some? <==> b[i].multiple.value.Some?)
         && (a[i].multiple.value.Some? ==> b[i].multiple.value.value <= a[i].multiple.value.value)
  }

  lemma {:induction false} KeptNoDearer(a: seq<Entry>, b: seq<Entry>, n: nat)
    requires Valid(a) && Valid(b) && NoDearer(a, b) && n <= |a|
    ensures SignalsAtMost(Kept(a, n), Kept(b, n))
  {
    if n > 0 {
      KeptNoDearer(a, b, n - 1);
      hide Curves.Valid;
      assert SignalsAtMost(KeptAt(a[n - 1]), KeptAt(b[n - 1]));
    }
  }

  /** Cheaper never scores lower: a lower multiple cannot reduce the valuation component. */
  lemma CheaperNeverScoresLower(a: seq<Entry>, b: seq<Entry>, minimum: real)
    requires Valid(a) && Valid(b) && NoDearer(a, b) && minimum > 0.0
    ensures var s, t := Component(a, minimum).score, Component(b, minimum).score;
            (s.Some? <==> t.Some?) && (s.Some? ==> s.value <= t.value)
  {
    KeptNoDearer(a, b, |a|);
    StrongerSignals(Kept(a, |a|), Kept(b, |b|), minimum);
  }

  // --- What the component says ---

  /** The factor counts: it weighs something and its multiple is known. */
  predicate Counts(e: Entry) {
    e.weight != 0.0 && e.multiple.value.Some?
  }

  predicate Lacks(e: Entry) {
    e.weight != 0.0 && e.multiple.value.None?
  }

  /** A multiple scored on its own curve at minus its value, with its share of the available weight. */
  ghost predicate MultipleScored(e: Entry, f: SubfactorScore, available: real, sufficient: bool)
    requires |e.curve| >= 2
  {
    && e.multiple.value.Some? && f.code == e.code && f.configuredWeight == e.weight
    && f.rawValue == e.multiple.value.value && f.scoringValue == -e.multiple.value.value
    && e.multiple.availableAt == Some(f.availableAt)
    && Curves.OnCurve(e.curve, -e.multiple.value.value, f.normalized)
    && (sufficient ==> f.effectiveWeight * available == e.weight && f.contribution == f.normalized * f.effectiveWeight)
    && (!sufficient ==> f.effectiveWeight == 0.0 && f.contribution == 0.0)
  }

  /** An input of the mean made from an entry. */
  ghost predicate MadeFrom(raw: Raw, e: Entry) {
    && e.multiple.value.Some? && Curves.Valid(e.curve)
    && raw.code == e.code && raw.weight == e.weight && raw.curve == e.curve
    && raw.rawValue == e.multiple.value.value && raw.scoringValue == -e.multiple.value.value
    && e.multiple.availableAt == Some(raw.availableAt)
  }

  ghost predicate AllMadeFrom(raw: seq<Raw>, kept: seq<Entry>) {
    |raw| == |kept| && forall i | 0 <= i < |kept| :: MadeFrom(raw[i], kept[i])
  }

  ghost predicate ReportedAs(u: Unavailable, e: Entry) {
    u == Unavailable(e.code, e.weight, e.multiple.warnings)
  }

  ghost predicate AllReported(unavailable: seq<Unavailable>, lacking: seq<Entry>) {
    |unavailable| == |lacking| && forall i | 0 <= i < |lacking| :: ReportedAs(unavailable[i], lacking[i])
  }

  lemma FilterStep(entries: seq<Entry>, n: nat, p: Entry -> bool)
    requires 0 < n <= |entries|
    ensures Filter(entries[..n], p) ==
            Filter(entries[..n - 1], p) + if p(entries[n - 1]) then [entries[n - 1]] else []
  {
    assert entries[..n] == entries[..n - 1] + [entries[n - 1]];
    FilterAppend(entries[..n - 1], [entries[n - 1]], p);
  }

  lemma KeptOne(e: Entry)
    requires ValidEntry(e)
    ensures AllMadeFrom(KeptAt(e), if Counts(e) then [e] else [])
    ensures AllReported(DroppedAt(e), if Lacks(e) then [e] else [])
  {
  }

  lemma MadeConcat(a: seq<Raw>, x: seq<Entry>, b: seq<Raw>, y: seq<Entry>)
    requires AllMadeFrom(a, x) && AllMadeFrom(b, y)
    ensures AllMadeFrom(a + b, x + y)
  {
    hide MadeFrom;
  }

  lemma ReportedConcat(a: seq<Unavailable>, x: seq<Entry>, b: seq<Unavailable>, y: seq<Entry>)
    requires AllReported(a, x) && AllReported(b, y)
    ensures AllReported(a + b, x + y)
  {
    hide ReportedAs;
  }

  lemma {:induction false} KeptIsFilter(entries: seq<Entry>, n: nat)
    requires Valid(entries) && n <= |entries|
    ensures AllMadeFrom(Kept(entries, n), Filter(entries[..n], Counts))
    decreases n
  {
    if n > 0 {
      var e := entries[n - 1];
      KeptIsFilter(entries, n - 1);
      KeptOne(e);
      FilterStep(entries, n, Counts);
      hide Filter, KeptAt, DroppedAt, Counts, Lacks, ValidEntry, AllMadeFrom, AllReported;
      MadeConcat(Kept(entries, n - 1), Filter(entries[..n - 1], Counts), KeptAt(e), if Counts(e) then [e] else []);
    }
  }

  lemma {:induction false} DroppedIsFilter(entries: seq<Entry>, n: nat)
    requires Valid(entries) && n <= |entries|
    ensures AllReported(Dropped(entries, n), Filter(entries[..n], Lacks))
    decreases n
  {
    if n > 0 {
      var e := entries[n - 1];
      DroppedIsFilter(entries, n - 1);
      KeptOne(e);
      FilterStep(entries, n, Lacks);
      hide Filter, KeptAt, DroppedAt, Counts, Lacks, ValidEntry, AllMadeFrom, AllReported;
      ReportedConcat(Dropped(entries, n - 1), Filter(entries[..n - 1], Lacks), DroppedAt(e), if Lacks(e) then [e] else []);
    }
  }

  lemma MadeScored(raw: Raw, e: Entry, f: SubfactorScore, available: real, sufficient: bool)
    requires MadeFrom(raw, e) && |raw.curve| >= 2 && Weighs(raw, f, available, sufficient)
    ensures |e.curve| >= 2 && MultipleScored(e, f, available, sufficient)
  {
    hide Curves.OnCurve;
  }

  /**
   * The component: each known multiple that weighs something, scored at minus its value, in the fixed order; each
   * unknown one is reported with its warnings. The score is the sum of the contributions and exists exactly when the
   * known multiples weigh enough.
   */
  lemma ComponentLaw(entries: seq<Entry>, minimum: real)
    requires Valid(entries) && minimum > 0.0
    ensures var c, kept, lacking := Component(entries, minimum), Filter(entries, Counts), Filter(entries, Lacks);
            && |c.subfactors| == |kept| && |c.unavailable| == |lacking| && |c.missing| == |lacking|
            && (forall i | 0 <= i < |kept| ::
                  |kept[i].curve| >= 2 && MultipleScored(kept[i], c.subfactors[i], c.availableWeight, c.score.Some?))
            && (forall i | 0 <= i < |lacking| ::
                  && c.unavailable[i] == Unavailable(lacking[i].code, lacking[i].weight, lacking[i].multiple.warnings)
                  && c.missing[i] == lacking[i].code)
            && c.availableWeight == ConfiguredTotal(c.subfactors)
            && (c.score.Some? <==> c.availableWeight >= minimum)
            && (c.score.Some? ==> c.score.value == ContributionTotal(c.subfactors))
            && c.warnings == (if c.score.Some? then [] else ["insufficient_subfactor_coverage"])
  {
    var n := |entries|;
    assert entries[..n] == entries;
    KeptIsFilter(entries, n);
    DroppedIsFilter(entries, n);
    var raw, unavailable, c := Kept(entries, n), Dropped(entries, n), Component(entries, minimum);
    var kept, lacking := Filter(entries, Counts), Filter(entries, Lacks);
    AssembleLaw(raw, unavailable, minimum);
    hide Assemble, Kept, Dropped, Filter, Counts, Lacks, Valid, ConfiguredTotal, ContributionTotal, Weighs,
         MultipleScored, MadeFrom, Component;
    forall i | 0 <= i < |kept|
      ensures |kept[i].curve| >= 2 && MultipleScored(kept[i], c.subfactors[i], c.availableWeight, c.score.Some?)
    {
      hide AllReported;
      MadeScored(raw[i], kept[i], c.subfactors[i], c.availableWeight, c.score.Some?);
    }
    hide AllMadeFrom;
    forall i | 0 <= i < |lacking|
      ensures c.unavailable[i] == Unavailable(lacking[i].code, lacking[i].weight, lacking[i].multiple.warnings)
    {
      assert ReportedAs(unavailable[i], lacking[i]);
    }
  }
}
