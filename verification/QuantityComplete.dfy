/** What a whole derivation leaves for its reader, match by match: nothing is lost, nothing is added. */
module QuantityComplete {
  import opened Prelude
  import opened Sorting
  import opened Dictionaries
  import opened EventModel
  import opened Spans
  import opened EventStore
  import opened Quantities
  import opened QuantityReading
  import ScoreAudit
  import EventReading

  // --- The fact of a match ---

  /** The number is that of the decimal, and there is one exactly when there is the other. */
  ghost predicate SameNumber(x: Option<real>, d: Option<ScoreAudit.Decimal>) {
    && (d.None? ==> x.None?)
    && (d.Some? ==> x == Some(ScoreAudit.Value(d.value)))
  }

  /** The text reads back as the decimal. */
  ghost predicate WritesNumber(s: Option<string>, d: Option<ScoreAudit.Decimal>) {
    && (d.None? ==> s.None?)
    && (d.Some? ==> s.Some? && ScoreAudit.Value(ScoreAudit.ReadDecimal(s.value)) == ScoreAudit.Value(d.value))
  }

  /** The fact carries every field of the match, at its place in the evidence. */
  ghost predicate Shows(hash: string -> Digest, event: Event, ev: EvidenceView, m: QuantityMatch, f: Fact) {
    && f.evidenceId == ev.id
    && f.code == m.code && f.kind == m.kind && f.ruleCode == m.ruleCode && f.ruleVersion == m.ruleVersion
    && f.start == ev.start + m.start && f.end == ev.start + m.end
    && f.rawText == m.rawText && f.rawTextDigest == hash(m.rawText)
    && SameNumber(f.reportedValue, m.reportedValue)
    && f.reportedScale == m.reportedScale && f.reportedUnit == m.reportedUnit
    && f.reportedCurrency == m.reportedCurrency
    && SameNumber(f.normalizedValue, m.normalizedValue) && f.normalizedUnit == m.normalizedUnit
    && f.date == m.date && f.warnings == m.warnings && f.sourceAvailableAt == event.sourceAvailableAt
  }

  /** It is fingerprinted by the event, the evidence, the ruleset and those fields, decimals as texts. */
  ghost predicate Fingerprinted(h: Hashes, req: Request, ev: EvidenceView, m: QuantityMatch, f: Fact) {
    exists reported, normalized :: && WritesNumber(reported, m.reportedValue) && WritesNumber(normalized, m.normalizedValue)
      && f.fingerprint == h.fact(FactPayload(
           req.event.id, req.event.fingerprint, ev.id, ev.fingerprint, req.ruleset.code, req.ruleset.version,
           f.code, f.kind, f.ruleCode, f.ruleVersion, f.start, f.end, f.rawTextDigest, reported, f.reportedScale,
           f.reportedUnit, f.reportedCurrency, normalized, f.normalizedUnit, f.date, f.warnings))
  }

  ghost predicate FactShows(h: Hashes, req: Request, ev: EvidenceView, m: QuantityMatch, f: Fact) {
    Shows(h.text, req.event, ev, m, f) && Fingerprinted(h, req, ev, m, f)
  }

  /** What the rules find in a piece of evidence of the event. */
  ghost predicate Found(req: Request, ev: EvidenceView, m: QuantityMatch) {
    ev in req.event.evidence && m in req.ruleset.find(req.event.eventType, ev.excerpt)
  }

  lemma FactFields(h: Hashes, req: Request, ev: EvidenceView, m: QuantityMatch, f: Fact)
    requires f.(id := 0) == FactOf(h, req, ev, m)
    ensures f == FactOf(h, req, ev, m).(id := f.id)
  {
    hide FactOf;
    assert f == f.(id := 0).(id := f.id);
  }

  lemma FactOfShown(h: Hashes, req: Request, ev: EvidenceView, m: QuantityMatch, id: Uuid)
    ensures Shows(h.text, req.event, ev, m, FactOf(h, req, ev, m).(id := id))
  {
    hide PayloadOf, ScoreAudit.Value;
  }

  lemma TextWritesNumber(d: Option<ScoreAudit.Decimal>)
    ensures WritesNumber(TextOf(d), d)
  {
    if d.Some? { DecimalTextReads(d.value); }
    hide DecimalText, ScoreAudit.ReadDecimal, ScoreAudit.Value;
  }

  lemma FactOfFingerprinted(h: Hashes, req: Request, ev: EvidenceView, m: QuantityMatch, id: Uuid)
    ensures Fingerprinted(h, req, ev, m, FactOf(h, req, ev, m).(id := id))
  {
    var reported, normalized := TextOf(m.reportedValue), TextOf(m.normalizedValue);
    var f := FactOf(h, req, ev, m).(id := id);
    TextWritesNumber(m.reportedValue);
    TextWritesNumber(m.normalizedValue);
    hide TextOf, NumberOf, WritesNumber;
    assert PayloadOf(h, req, ev, m) == FactPayload(
      req.event.id, req.event.fingerprint, ev.id, ev.fingerprint, req.ruleset.code, req.ruleset.version,
      f.code, f.kind, f.ruleCode, f.ruleVersion, f.start, f.end, f.rawTextDigest, reported, f.reportedScale,
      f.reportedUnit, f.reportedCurrency, normalized, f.normalizedUnit, f.date, f.warnings);
  }

  lemma FactOfShows(h: Hashes, req: Request, ev: EvidenceView, m: QuantityMatch, f: Fact)
    requires f.(id := 0) == FactOf(h, req, ev, m)
    ensures FactShows(h, req, ev, m, f)
  {
    FactFields(h, req, ev, m, f);
    FactOfShown(h, req, ev, m, f.id);
    FactOfFingerprinted(h, req, ev, m, f.id);
    hide FactOf, Shows, Fingerprinted;
  }

  // --- Candidates ---

  lemma FingerprintOnce(h: Hashes, req: Request, ev: EvidenceView, m: QuantityMatch, other: EvidenceView, n: QuantityMatch)
    requires CollisionFree(h) && FactOf(h, req, ev, m).fingerprint == FactOf(h, req, other, n).fingerprint
    ensures FactOf(h, req, ev, m) == FactOf(h, req, other, n)
  {
    var f, g := FactOf(h, req, ev, m), FactOf(h, req, other, n);
    FactFingerprintDetermines(h, req, ev, m, req, other, n);
    assert f.sourceAvailableAt == g.sourceAvailableAt;
    assert f == f.(sourceAvailableAt := 0).(sourceAvailableAt := g.sourceAvailableAt);
    assert g == g.(sourceAvailableAt := 0).(sourceAvailableAt := g.sourceAvailableAt);
  }

  /** A fact of some match, accepted or not. */
  ghost predicate FactOfFound(h: Hashes, req: Request, f: Fact) {
    exists ev, m :: Found(req, ev, m) && f == FactOf(h, req, ev, m)
  }

  lemma {:induction false} PutMatchesIff(
      h: Hashes, req: Request, ev: EvidenceView, matches: seq<QuantityMatch>, d: seq<Fact>, f: Fact)
    requires CollisionFree(h) && Distinct(d, FactFingerprint) && (forall g | g in d :: FactOfFound(h, req, g))
    requires forall m | m in matches :: Found(req, ev, m)
    ensures Distinct(PutMatches(h, req, ev, matches, d), FactFingerprint)
    ensures forall g | g in PutMatches(h, req, ev, matches, d) :: FactOfFound(h, req, g)
    ensures f in PutMatches(h, req, ev, matches, d) <==> f in d || exists m | m in matches :: f == FactOf(h, req, ev, m)
    decreases |matches|
  {
    hide FactOf, Put, Distinct, Found, CollisionFree;
    if matches != [] {
      var front, last := matches[..|matches| - 1], matches[|matches| - 1];
      PutMatchesIff(h, req, ev, front, d, f);
      assert last in matches && forall m :: m in matches <==> m in front || m == last;
      var before, x := PutMatches(h, req, ev, front, d), FactOf(h, req, ev, last);
      assert FactOfFound(h, req, x);
      PutKeepsDistinct(before, x, FactFingerprint);
      forall g | g in before && g.fingerprint == x.fingerprint ensures g == x {
        var other, n :| Found(req, other, n) && g == FactOf(h, req, other, n);
        FingerprintOnce(h, req, ev, last, other, n);
      }
      hide FactOfFound;
      PutMembers(before, x, FactFingerprint, f);
    }
  }

  lemma {:induction false} PutEvidenceIff(h: Hashes, req: Request, evidence: seq<EvidenceView>, f: Fact)
    requires CollisionFree(h) && forall ev | ev in evidence :: ev in req.event.evidence
    ensures Distinct(PutEvidence(h, req, evidence), FactFingerprint)
    ensures forall g | g in PutEvidence(h, req, evidence) :: FactOfFound(h, req, g)
    ensures f in PutEvidence(h, req, evidence) <==>
            exists ev, m :: ev in evidence && Found(req, ev, m) && f == FactOf(h, req, ev, m)
    decreases |evidence|
  {
    hide FactOf, PutMatches, CollisionFree, FactOfFound;
    if evidence != [] {
      hide Distinct;
      var front, last := evidence[..|evidence| - 1], evidence[|evidence| - 1];
      PutEvidenceIff(h, req, front, f);
      assert last in evidence && forall ev :: ev in evidence <==> ev in front || ev == last;
      PutMatchesIff(h, req, last, req.ruleset.find(req.event.eventType, last.excerpt), PutEvidence(h, req, front), f);
      assert forall m :: m in req.ruleset.find(req.event.eventType, last.excerpt) <==> Found(req, last, m);
      hide Found;
    }
  }

  /** The candidates of a call are exactly the facts of its matches. */
  lemma FactIff(h: Hashes, req: Request, f: Fact)
    requires CollisionFree(h)
    ensures f in Facts(h, req) <==> FactOfFound(h, req, f)
  {
    var d := PutEvidence(h, req, req.event.evidence);
    PutEvidenceIff(h, req, req.event.evidence, f);
    MultisetElements(Facts(h, req), d);
    assert forall ev, m | Found(req, ev, m) :: ev in req.event.evidence;
    hide PutEvidence, Sort, FactOf, Found;
  }

  // --- The reader's answer ---

  /** No two facts of the table have the same fingerprint. */
  ghost predicate UniqueFacts(s: FactStore) {
    forall i, j | 0 <= i < j < |s.facts| :: s.facts[i].fact.fingerprint != s.facts[j].fact.fingerprint
  }

  lemma {:induction false} AddFactsUnique(s: FactStore, derivationId: Uuid, facts: seq<Fact>)
    requires UniqueFacts(s)
    ensures UniqueFacts(AddFacts(s, derivationId, facts).store)
    decreases |facts|
  {
    if facts != [] {
      var front, last := facts[..|facts| - 1], facts[|facts| - 1];
      AddFactsUnique(s, derivationId, front);
      var before := AddFacts(s, derivationId, front).store;
      hide AddFacts;
      if !FactTaken(before, last.fingerprint) {
        var after := WithFact(before, derivationId, last);
        forall i, j | 0 <= i < j < |after.facts|
          ensures after.facts[i].fact.fingerprint != after.facts[j].fact.fingerprint
        {
          assert after.facts[i] == before.facts[i] && before.facts[i] in before.facts;
        }
      }
    }
  }

  /** Deriving keeps the unique key of the facts. */
  lemma DerivedUnique(w: World, h: Hashes, s: FactStore, req: Request)
    requires UniqueFacts(s)
    ensures UniqueFacts(Derived(w, h, s, req).store)
  {
    var d := NewDerivation(h, req, Facts(h, req), s.nextId);
    AddFactsUnique(WithDerivation(s, d), d.id, Facts(h, req));
    hide Accepted, Facts, Reusable, FindDerivation, DerivationTaken, UniqueFacts, AddFacts;
  }

  function FingerprintOfRow(r: FactRow): Digest {
    r.fact.fingerprint
  }

  lemma ReadUnique(s: FactStore, derivationId: Uuid)
    requires UniqueFacts(s)
    ensures Distinct(QuantityReading.Views(ReadRows(s, derivationId)), FactFingerprint)
  {
    var p := (r: FactRow) => r.derivationId == derivationId;
    assert Distinct(s.facts, FingerprintOfRow);
    FilterDistinct(s.facts, p, FingerprintOfRow);
    assert FactsOf(s, derivationId) == Filter(s.facts, p);
    SortDistinct(FactsOf(s, derivationId), ReadOrder, FingerprintOfRow);
    var rows := ReadRows(s, derivationId);
    hide Filter, Sort, FactsOf, ReadRows;
    forall i, j | 0 <= i < j < |rows| ensures rows[i].fact.fingerprint != rows[j].fact.fingerprint {
      assert FingerprintOfRow(rows[i]) != FingerprintOfRow(rows[j]);
    }
  }

  /** The rows of a stored derivation are its candidates under ids. */
  lemma CarriesIff(h: Hashes, rows: seq<FactRow>, facts: seq<Fact>)
    requires Carries(h, rows, facts) && Distinct(facts, FactFingerprint)
    ensures forall r | r in rows :: r.fact.(id := 0) in facts
    ensures forall f | f in facts :: exists r | r in rows :: r.fact.(id := 0) == f
  {
    forall r | r in rows ensures r.fact.(id := 0) in facts {
      assert FactCanonical(h, facts, r.fact);
    }
    forall f | f in facts ensures exists r | r in rows :: r.fact.(id := 0) == f {
      var r :| r in rows && r.fact.fingerprint == f.fingerprint;
      var k :| 0 <= k < |facts| && facts[k] == f;
      LastWithSelf(facts, FactFingerprint, k);
      assert FactCanonical(h, facts, r.fact);
    }
  }

  /** The facts of a derivation are the matches: every one and no other. */
  ghost predicate HoldsMatches(h: Hashes, req: Request, facts: seq<Fact>) {
    && (forall ev, m | Found(req, ev, m) :: exists f | f in facts :: FactShows(h, req, ev, m, f))
    && (forall f | f in facts :: exists ev, m :: Found(req, ev, m) && FactShows(h, req, ev, m, f))
  }

  lemma RowsHoldMatches(h: Hashes, req: Request, rows: seq<FactRow>)
    requires CollisionFree(h) && Distinct(Facts(h, req), FactFingerprint) && Carries(h, rows, Facts(h, req))
    ensures HoldsMatches(h, req, QuantityReading.Views(rows))
  {
    var facts, views := Facts(h, req), QuantityReading.Views(rows);
    CarriesIff(h, rows, facts);
    hide Facts, Carries, FactOf, FactShows, Found, CollisionFree, Distinct;
    forall ev, m | Found(req, ev, m) ensures exists f | f in views :: FactShows(h, req, ev, m, f) {
      var c := FactOf(h, req, ev, m);
      FactIff(h, req, c);
      var r :| r in rows && r.fact.(id := 0) == c;
      var i :| 0 <= i < |rows| && rows[i] == r;
      assert views[i] == r.fact && views[i] in views;
      FactOfShows(h, req, ev, m, r.fact);
    }
    forall f | f in views ensures exists ev, m :: Found(req, ev, m) && FactShows(h, req, ev, m, f) {
      var i :| 0 <= i < |views| && views[i] == f;
      assert rows[i] in rows && f == rows[i].fact;
      FactIff(h, req, f.(id := 0));
      var ev, m :| Found(req, ev, m) && f.(id := 0) == FactOf(h, req, ev, m);
      FactOfShows(h, req, ev, m, f);
    }
  }

  // --- The order of reading ---

  /** The order of facts: by code, evidence, span, rule code and fingerprint. */
  ghost predicate ReadBefore(a: Fact, b: Fact) {
    if FactRank(a.code) != FactRank(b.code) then FactRank(a.code) < FactRank(b.code)
    else if a.evidenceId != b.evidenceId then a.evidenceId < b.evidenceId
    else if a.start != b.start then a.start < b.start
    else if a.end != b.end then a.end < b.end
    else if a.ruleCode != b.ruleCode then EventReading.TextBefore(a.ruleCode, b.ruleCode)
    else a.fingerprint <= b.fingerprint
  }

  ghost function RuleKey(f: Fact): seq<int> {
    TextKey(f.ruleCode) + [-1, f.fingerprint as int]
  }

  lemma KeyParts(f: Fact)
    ensures FactOrder(f) == [FactRank(f.code)] + ([f.evidenceId as int] + ([f.start] + ([f.end] + RuleKey(f))))
  {
  }

  lemma OrderOfKeys(a: Fact, b: Fact)
    requires LexLeq(FactOrder(a), FactOrder(b))
    ensures ReadBefore(a, b)
  {
    KeyParts(a);
    KeyParts(b);
    hide LexLeq, FactOrder, RuleKey, EventReading.TextBefore, FactRank;
    var a1, b1 := [a.end] + RuleKey(a), [b.end] + RuleKey(b);
    var a2, b2 := [a.start] + a1, [b.start] + b1;
    EventReading.LexHead(FactRank(a.code), [a.evidenceId as int] + a2, FactRank(b.code), [b.evidenceId as int] + b2);
    EventReading.LexHead(a.evidenceId as int, a2, b.evidenceId as int, b2);
    EventReading.LexHead(a.start, a1, b.start, b1);
    EventReading.LexHead(a.end, RuleKey(a), b.end, RuleKey(b));
    if LexLeq(RuleKey(a), RuleKey(b)) { RuleOrder(a, b); }
  }

  lemma RuleOrder(a: Fact, b: Fact)
    requires LexLeq(RuleKey(a), RuleKey(b))
    ensures if a.ruleCode != b.ruleCode then EventReading.TextBefore(a.ruleCode, b.ruleCode)
            else a.fingerprint <= b.fingerprint
  {
    hide LexLeq, EventReading.TextBefore;
    EventReading.TextOrder(a.ruleCode, b.ruleCode, a.fingerprint, b.fingerprint);
    if a.ruleCode == b.ruleCode && EventReading.TextBefore(a.ruleCode, b.ruleCode) {
      EventReading.NotBeforeItself(a.ruleCode);
    }
  }

  ghost predicate InReadingOrder(facts: seq<Fact>) {
    forall i, j | 0 <= i < j < |facts| ::
      ReadBefore(facts[i], facts[j]) && facts[i].fingerprint != facts[j].fingerprint
  }

  lemma ReadInOrder(s: FactStore, derivationId: Uuid)
    requires UniqueFacts(s)
    ensures InReadingOrder(QuantityReading.Views(ReadRows(s, derivationId)))
  {
    SortAscending(FactsOf(s, derivationId), ReadOrder);
    ReadUnique(s, derivationId);
    var rows := ReadRows(s, derivationId);
    var facts := QuantityReading.Views(rows);
    hide Sort, FactsOf, ReadRows, LexLeq, FactOrder, ReadBefore;
    forall i, j | 0 <= i < j < |facts|
      ensures ReadBefore(facts[i], facts[j]) && facts[i].fingerprint != facts[j].fingerprint
    {
      assert LexLeq(ReadOrder(rows[i]), ReadOrder(rows[j]));
      OrderOfKeys(facts[i], facts[j]);
      assert FactFingerprint(facts[i]) != FactFingerprint(facts[j]);
    }
  }

  /** The codes some fact carries, each once, in the order of the codes. */
  ghost predicate NamesItsCodes(codes: seq<FactCode>, facts: seq<Fact>) {
    && (forall i, j | 0 <= i < j < |codes| :: FactRank(codes[i]) < FactRank(codes[j]))
    && (forall c | c in FACT_ORDER :: c in codes <==> exists f | f in facts :: f.code == c)
    && (forall c | c in codes :: c in FACT_ORDER)
  }

  lemma RankOfCode(n: nat)
    requires n < |FACT_ORDER|
    ensures FactRank(FACT_ORDER[n]) == n
  {
  }

  lemma {:induction false} CodesFromOrder(codes: set<FactCode>, n: nat)
    requires n <= |FACT_ORDER|
    ensures var r := CodesFrom(codes, n);
            && (forall i, j | 0 <= i < j < |r| :: FactRank(r[i]) < FactRank(r[j]))
            && (forall c | c in r :: c in codes && c in FACT_ORDER && FactRank(c) >= n)
            && (forall k | n <= k < |FACT_ORDER| && FACT_ORDER[k] in codes :: FACT_ORDER[k] in r)
    decreases |FACT_ORDER| - n
  {
    hide FACT_ORDER, FactRank;
    if n < |FACT_ORDER| {
      CodesFromOrder(codes, n + 1);
      RankOfCode(n);
      var c := FACT_ORDER[n];
      var rest := CodesFrom(codes, n + 1);
      assert CodesFrom(codes, n) == (if c in codes then [c] else []) + rest;
      hide CodesFrom;
      RanksGrow(c, rest);
      assert [] + rest == rest;
      forall k | n <= k < |FACT_ORDER| && FACT_ORDER[k] in codes
        ensures FACT_ORDER[k] in (if c in codes then [c] else []) + rest
      {
        if k == n { assert ([c] + rest)[0] == c; }
      }
    }
  }

  lemma RanksGrow(c: FactCode, rest: seq<FactCode>)
    requires forall i, j | 0 <= i < j < |rest| :: FactRank(rest[i]) < FactRank(rest[j])
    requires forall x | x in rest :: FactRank(x) > FactRank(c)
    ensures forall i, j | 0 <= i < j < |rest| + 1 :: FactRank(([c] + rest)[i]) < FactRank(([c] + rest)[j])
  {
    hide FactRank;
    var r := [c] + rest;
    forall i, j | 0 <= i < j < |r| ensures FactRank(r[i]) < FactRank(r[j]) {
      assert r[j] == rest[j - 1] && r[j] in rest;
    }
  }

  lemma CodesNamed(facts: seq<Fact>)
    ensures NamesItsCodes(AvailableCodes(Codes(facts)), facts)
  {
    CodesFromOrder(Codes(facts), 0);
    hide CodesFrom, FACT_ORDER, FactRank;
  }

  // --- Main results ---

  /**
   * After a successful derivation the reader returns, for the same event under the same ruleset, exactly the matches
   * of the event's evidence: a fact with every field of each match, no other fact, none twice, in reading order, and
   * the codes they carry.
   */
  lemma MatchesReadBack(w: World, h: Hashes, s: FactStore, req: Request)
    requires ValidStore(w.store) && ValidFacts(s) && UniqueFacts(s) && CollisionFree(h)
    requires Derived(w, h, s, req).result.Some?
    ensures var o := Derived(w, h, s, req);
            var read := FactsForEvent(w, h.text, o.store, req.event, req.ruleset.code, req.ruleset.version);
            && read.Ok? && read.value.Some?
            && var d := read.value.value;
            && d.event == req.event && d.sourceAvailableAt == req.event.sourceAvailableAt && d.warnings == []
            && d.rulesetCode == req.ruleset.code && d.rulesetVersion == req.ruleset.version
            && HoldsMatches(h, req, d.facts) && InReadingOrder(d.facts) && NamesItsCodes(d.availableCodes, d.facts)
  {
    var d := DerivedHolds(w, h, s, req);
    var later := Derived(w, h, s, req).store;
    DerivedUnique(w, h, s, req);
    hide Derived, Facts, Accepted, ValidStore, ValidFacts, UniqueFacts, CollisionFree, FactsForEvent, Holds,
         HoldsMatches, InReadingOrder, NamesItsCodes;
    ReadOfHolds(w, h, later, req, d);
    HeldFacts(w, h, later, req, d);
    HeldRow(h, later, req, Facts(h, req), d);
    hide ReadRows, QuantityReading.Views;
    assert DerivationKeyOf(d) == DerivationKey(req.event.id, req.ruleset.code, req.ruleset.version);
  }

  lemma HeldRow(h: Hashes, s: FactStore, req: Request, facts: seq<Fact>, d: DerivationRow)
    requires Holds(h, s, req, facts, d)
    ensures FindDerivation(s.derivations, req.event.id, req.ruleset.code, req.ruleset.version) == Some(d)
    ensures d.sourceAvailableAt == req.event.sourceAvailableAt && d.warnings == []
    ensures d.availableCodes == AvailableCodes(Codes(facts)) && Carries(h, FactsOf(s, d.id), facts)
  {
    hide FindDerivation, Carries, FactsOf, DerivationFingerprint, AvailableCodes, Codes;
  }

  lemma HeldFacts(w: World, h: Hashes, s: FactStore, req: Request, d: DerivationRow)
    requires Accepted(w, h, req) && CollisionFree(h) && UniqueFacts(s) && Holds(h, s, req, Facts(h, req), d)
    ensures var facts := QuantityReading.Views(ReadRows(s, d.id));
            HoldsMatches(h, req, facts) && InReadingOrder(facts) && NamesItsCodes(d.availableCodes, facts)
  {
    FactsMembers(w, h, req);
    HeldRow(h, s, req, Facts(h, req), d);
    StoredSame(s, d.id);
    hide *;
    var rows := ReadRows(s, d.id);
    CarriesSame(h, FactsOf(s, d.id), rows, Facts(h, req));
    RowsHoldMatches(h, req, rows);
    ReadInOrder(s, d.id);
    CarriedCodes(h, rows, Facts(h, req));
    CodesNamed(QuantityReading.Views(rows));
  }

  /** Whether the table holds a derivation of this event under this ruleset. */
  ghost predicate Stored(s: FactStore, req: Request) {
    exists d | d in s.derivations ::
      d.eventId == req.event.id && d.rulesetCode == req.ruleset.code && d.rulesetVersion == req.ruleset.version
  }

  lemma StoredIff(s: FactStore, req: Request)
    ensures Stored(s, req) <==>
            FindDerivation(s.derivations, req.event.id, req.ruleset.code, req.ruleset.version).Some?
  {
    hide FirstWith;
    if Stored(s, req) {
      var d :| d in s.derivations && d.eventId == req.event.id && d.rulesetCode == req.ruleset.code
               && d.rulesetVersion == req.ruleset.version;
      assert DerivationKeyOf(d) == DerivationKey(req.event.id, req.ruleset.code, req.ruleset.version);
    }
  }

  /** The derivation a call writes for its event, and the facts it adds for it. */
  ghost predicate Adds(s: FactStore, later: FactStore, req: Request, id: Uuid) {
    && |later.derivations| == |s.derivations| + 1 && later.derivations[..|s.derivations|] == s.derivations
    && |s.facts| <= |later.facts| && later.facts[..|s.facts|] == s.facts
    && var d := later.derivations[|s.derivations|];
    && d.id == id && d.eventId == req.event.id && d.rulesetCode == req.ruleset.code
    && d.rulesetVersion == req.ruleset.version && d.derivedAt == req.derivedAt
    && forall r | r in later.facts[|s.facts|..] :: r.derivationId == id
  }

  lemma WriteAdds(h: Hashes, s: FactStore, req: Request, facts: seq<Fact>)
    requires var d := NewDerivation(h, req, facts, s.nextId);
             AddFacts(WithDerivation(s, d), d.id, facts).rows.Some?
    ensures var d := NewDerivation(h, req, facts, s.nextId);
            Adds(s, AddFacts(WithDerivation(s, d), d.id, facts).store, req, d.id)
  {
    var d := NewDerivation(h, req, facts, s.nextId);
    hide DerivationFingerprint, AvailableCodes, Codes;
    AddFactsRows(WithDerivation(s, d), d.id, facts);
    var added := AddFacts(WithDerivation(s, d), d.id, facts);
    hide AddFacts;
    var rows := added.rows.value;
    assert added.store.facts[|s.facts|..] == rows;
    forall r | r in rows ensures r.derivationId == d.id {
      var i :| 0 <= i < |rows| && rows[i] == r;
    }
  }

  /**
   * A successful call writes exactly when the table had no derivation of the event under the ruleset. It then adds
   * that one derivation with facts of its own; otherwise the table stays what it was.
   */
  lemma DerivedOnlyAdds(w: World, h: Hashes, s: FactStore, req: Request)
    requires Derived(w, h, s, req).result.Some?
    ensures var o := Derived(w, h, s, req);
            && (o.result.value.created <==> !Stored(s, req))
            && (if Stored(s, req) then o.store == s else Adds(s, o.store, req, o.result.value.id))
  {
    var facts := Facts(h, req);
    StoredIff(s, req);
    var d := NewDerivation(h, req, facts, s.nextId);
    assert AddFacts(WithDerivation(s, d), d.id, facts).rows.Some? ==>
        Adds(s, AddFacts(WithDerivation(s, d), d.id, facts).store, req, d.id) by {
      if AddFacts(WithDerivation(s, d), d.id, facts).rows.Some? { WriteAdds(h, s, req, facts); }
    }
    hide Accepted, Facts, Reusable, FindDerivation, DerivationTaken, AddFacts, Adds, Stored, NewDerivation,
         StoredFacts;
  }

  // --- What the reader vouches for ---

  /** The fact is compatible with the event and quotes the excerpt of a piece of its evidence inside its span. */
  ghost predicate Vouched(hash: string -> Digest, event: Event, f: Fact) {
    && f.code in Compatible(event.eventType) && f.sourceAvailableAt == event.sourceAvailableAt
    && f.rawTextDigest == hash(f.rawText)
    && exists ev | ev in event.evidence ::
         && ev.id == f.evidenceId && ev.start <= f.start < f.end <= ev.end
         && (f.end - ev.start <= |ev.excerpt| ==> f.rawText == ev.excerpt[f.start - ev.start..f.end - ev.start])
  }

  lemma FactVouched(w: World, hash: string -> Digest, event: Event, f: Fact)
    requires FactAccepted(w, hash, event, f)
    ensures Vouched(hash, event, f)
  {
    hide EvidenceRowById;
    var ev := EvidenceWithId(event.evidence, f.evidenceId).value;
    assert ev in event.evidence && ev.id == f.evidenceId;
    if f.end - ev.start <= |ev.excerpt| { SliceInside(ev.excerpt, f.start - ev.start, f.end - ev.start); }
    hide Slice;
  }

  /** Whatever is stored, the reader returns only facts it vouches for, under the codes they carry. */
  lemma ReadVouched(w: World, hash: string -> Digest, s: FactStore, event: Event, code: string, version: string)
    requires var read := FactsForEvent(w, hash, s, event, code, version); read.Ok? && read.value.Some?
    ensures var d := FactsForEvent(w, hash, s, event, code, version).value.value;
            && d.event == event && d.sourceAvailableAt == event.sourceAvailableAt
            && d.rulesetCode == code && d.rulesetVersion == version
            && NamesItsCodes(d.availableCodes, d.facts)
            && forall f | f in d.facts :: Vouched(hash, event, f)
  {
    var d := ReadRow(w, hash, s, event, code, version);
    hide ReadRows, FactAccepted, AvailableCodes, Codes, NamesItsCodes, Vouched, FactsForEvent;
    var rows := ReadRows(s, d.id);
    var facts := QuantityReading.Views(rows);
    CodesNamed(facts);
    forall f | f in facts ensures Vouched(hash, event, f) {
      var i :| 0 <= i < |facts| && facts[i] == f;
      assert rows[i] in rows;
      FactVouched(w, hash, event, f);
    }
  }

  lemma ReadRow(w: World, hash: string -> Digest, s: FactStore, event: Event, code: string, version: string)
    returns (d: DerivationRow)
    requires var read := FactsForEvent(w, hash, s, event, code, version); read.Ok? && read.value.Some?
    ensures FactsForEvent(w, hash, s, event, code, version).value.value == QuantityReading.ViewOf(event, d, ReadRows(s, d.id))
    ensures d.rulesetCode == code && d.rulesetVersion == version && d.sourceAvailableAt == event.sourceAvailableAt
    ensures d.availableCodes == AvailableCodes(Codes(QuantityReading.Views(ReadRows(s, d.id))))
    ensures forall r | r in ReadRows(s, d.id) :: FactAccepted(w, hash, event, r.fact)
  {
    d := FindDerivation(s.derivations, event.id, code, version).value;
    assert DerivationKeyOf(d) == DerivationKey(event.id, code, version);
    hide EventKnown, ReadRows, FactAccepted, FindDerivation, AvailableCodes, Codes, QuantityReading.Views,
         QuantityReading.ViewOf;
  }
}
