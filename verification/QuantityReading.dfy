/** The reader of derived quantities, and what it makes of everything a derivation stores. */
module QuantityReading {
  import opened Prelude
  import opened Sorting
  import opened Dictionaries
  import opened EventModel
  import opened Spans
  import opened EventStore
  import opened Quantities
  import ScoreAudit

  datatype ReadError = EmptyRuleset | EventMismatch | TimeMismatch | FactIncoherent | CodesMismatch

  function EvidenceId(ev: EvidenceView): Uuid {
    ev.id
  }

  function EvidenceWithId(evidence: seq<EvidenceView>, id: Uuid): Option<EvidenceView> {
    LastWith(evidence, EvidenceId, id)
  }

  function EvidenceRowId(row: EvidenceRow): Uuid {
    row.id
  }

  function EvidenceRowById(rows: seq<EvidenceRow>, id: Uuid): Option<EvidenceRow> {
    FirstWith(rows, EvidenceRowId, id)
  }

  /** When the reader accepts a fact as coherent with the event's evidence. */
  predicate FactAccepted(w: World, hash: string -> Digest, event: Event, f: Fact) {
    var source := EvidenceWithId(event.evidence, f.evidenceId);
    var row := EvidenceRowById(w.store.evidence, f.evidenceId);
    && source.Some? && row.Some? && row.value.eventId == event.id
    && f.code in Compatible(event.eventType) && !f.kind.UnknownKind?
    && source.value.start <= f.start < f.end <= source.value.end
    && Slice(source.value.excerpt, f.start - source.value.start, f.end - source.value.start) == f.rawText
    && hash(f.rawText) == f.rawTextDigest
    && f.sourceAvailableAt == event.sourceAvailableAt
  }

  function ReadOrder(r: FactRow): seq<int> {
    FactOrder(r.fact)
  }

  function Views(rows: seq<FactRow>): (r: seq<Fact>)
    ensures |r| == |rows| && forall i | 0 <= i < |r| :: r[i] == rows[i].fact
  {
    seq(|rows|, i requires 0 <= i < |rows| => rows[i].fact)
  }

  function ReadRows(s: FactStore, derivationId: Uuid): seq<FactRow> {
    Sort(FactsOf(s, derivationId), ReadOrder)
  }

  function ViewOf(event: Event, d: DerivationRow, rows: seq<FactRow>): Derivation {
    Derivation(
      d.id, event, d.rulesetCode, d.rulesetVersion, d.sourceAvailableAt, d.availableCodes, d.warnings, d.fingerprint,
      d.derivedAt, Views(rows))
  }

  predicate EventKnown(store: Store, event: Event) {
    var row := EventById(store.events, event.id);
    && row.Some? && row.value.fingerprint == event.fingerprint && row.value.eventType == event.eventType
    && row.value.sourceAvailableAt == event.sourceAvailableAt
  }

  /** The facts of an event under one ruleset, or None where nothing was derived. */
  function FactsForEvent(
      w: World, hash: string -> Digest, s: FactStore, event: Event, code: string, version: string)
    : Result<Option<Derivation>, ReadError>
  {
    if code == "" || version == "" then
      Err(EmptyRuleset)
    else if !EventKnown(w.store, event) then
      Err(EventMismatch)
    else
      var d := FindDerivation(s.derivations, event.id, code, version);
      if d.None? then Ok(None)
      else if d.value.sourceAvailableAt != event.sourceAvailableAt then Err(TimeMismatch)
      else
        var rows := ReadRows(s, d.value.id);
        if exists r | r in rows :: !FactAccepted(w, hash, event, r.fact) then Err(FactIncoherent)
        else if d.value.availableCodes != AvailableCodes(Codes(Views(rows))) then Err(CodesMismatch)
        else Ok(Some(ViewOf(event, d.value, rows)))
  }

  /** The reader itself: sort in place, check and collect in one loop. */
  method ReadFacts(w: World, hash: string -> Digest, s: FactStore, event: Event, code: string, version: string)
    returns (r: Result<Option<Derivation>, ReadError>)
    ensures r == FactsForEvent(w, hash, s, event, code, version)
  {
    hide EventKnown, FactAccepted, FindDerivation, ReadOrder, Sort, AvailableCodes;
    if code == "" || version == "" {
      return Err(EmptyRuleset);
    }
    if !EventKnown(w.store, event) {
      return Err(EventMismatch);
    }
    var d := FindDerivation(s.derivations, event.id, code, version);
    if d.None? {
      return Ok(None);
    }
    if d.value.sourceAvailableAt != event.sourceAvailableAt {
      return Err(TimeMismatch);
    }
    var facts := FactsOf(s, d.value.id);
    facts := Sort(facts, ReadOrder);
    var views: seq<Fact> := [];
    for i := 0 to |facts|
      invariant views == Views(facts[..i])
      invariant forall k | 0 <= k < i :: FactAccepted(w, hash, event, facts[k].fact)
    {
      if !FactAccepted(w, hash, event, facts[i].fact) {
        assert facts[i] in facts;
        return Err(FactIncoherent);
      }
      views := views + [facts[i].fact];
    }
    assert facts[..|facts|] == facts;
    if d.value.availableCodes != AvailableCodes(Codes(views)) {
      return Err(CodesMismatch);
    }
    r := Ok(Some(ViewOf(event, d.value, facts)));
  }

  // --- The evidence of an event that was read ---

  lemma EvidenceRowAt(rows: seq<EvidenceRow>, row: EvidenceRow)
    requires row in rows && forall a, b | 0 <= a < b < |rows| :: rows[a].id != rows[b].id
    ensures EvidenceRowById(rows, row.id) == Some(row)
  {
    var i :| 0 <= i < |rows| && rows[i] == row;
    FirstWithAt(rows, EvidenceRowId, i);
  }

  lemma {:induction false} EventViewsMembers(
      lineage: Lineage, hash: string -> Digest, s: Store, rows: seq<EventRow>, a: Announcement, event: Event)
    requires EventViews(lineage, hash, s, rows, a).Some? && event in EventViews(lineage, hash, s, rows, a).value
    ensures exists e | e in rows :: EventView(lineage, hash, s, e, a) == Some(event)
  {
    hide EventView;
    if EventView(lineage, hash, s, rows[0], a) == Some(event) {
      assert rows[0] in rows;
    } else {
      EventViewsMembers(lineage, hash, s, rows[1..], a, event);
      assert forall e | e in rows[1..] :: e in rows;
    }
  }

  /** An event that derivation accepts was read from its own accepted rows. */
  lemma EventFromRows(w: World, hash: string -> Digest, event: Event) returns (e: EventRow)
    requires EventMatches(w, hash, event)
    ensures e in w.store.events && e.id == event.id
    ensures EventAccepted(w.lineage, hash, w.store, e, event.announcement)
    ensures event.sourceAvailableAt == e.sourceAvailableAt
    ensures event.evidence == EventStore.Views(w.lineage, EvidenceOf(w.store, event.id), event.announcement)
  {
    var a := event.announcement;
    var rows := Filter(w.store.events, (x: EventRow) =>
      x.announcementId == a.id && x.rulesetCode == event.rulesetCode && x.rulesetVersion == event.rulesetVersion);
    var sorted := Sort(rows, EventOrder);
    MultisetElements(sorted, rows);
    hide EventAccepted, RowMatches, AnnouncementMatches, EventById, EvidenceOf, Filter, Sort;
    EventViewsMembers(w.lineage, hash, w.store, sorted, a, event);
    e :| e in sorted && EventView(w.lineage, hash, w.store, e, a) == Some(event);
    assert EventAccepted(w.lineage, hash, w.store, e, a);
  }

  /** The rows of an event's evidence have unique ids, and each is found by its id. */
  lemma EvidenceOfRows(s: Store, eventId: Uuid)
    requires ValidStore(s)
    ensures var rows := EvidenceOf(s, eventId);
            && (forall i, j | 0 <= i < j < |rows| :: rows[i].id != rows[j].id)
            && (forall row | row in rows :: row in s.evidence && row.eventId == eventId)
  {
    var p := (r: EvidenceRow) => r.eventId == eventId;
    var id := (r: EvidenceRow) => r.id;
    var f := Filter(s.evidence, p);
    FilterDistinct(s.evidence, p, id);
    var rows := EvidenceOf(s, eventId);
    SortDistinct(f, EventStore.RowKey, id);
    MultisetElements(rows, f);
    hide Filter, Sort, ValidStore, EvidenceOf;
    forall i, j | 0 <= i < j < |rows| ensures rows[i].id != rows[j].id {
      assert id(rows[i]) != id(rows[j]);
    }
  }

  /** Each piece of evidence is found again by its id, and its row belongs to the event. */
  lemma EvidenceFound(w: World, hash: string -> Digest, event: Event, ev: EvidenceView)
    requires ValidStore(w.store) && EventMatches(w, hash, event) && ev in event.evidence
    ensures EvidenceWithId(event.evidence, ev.id) == Some(ev)
    ensures var row := EvidenceRowById(w.store.evidence, ev.id);
            && row.Some? && row.value.eventId == event.id
            && RowAccepted(w.lineage, hash, row.value, event.announcement, event.sourceAvailableAt)
            && ev == EventStore.ViewOf(w.lineage, row.value, event.announcement)
  {
    var e := EventFromRows(w, hash, event);
    EvidenceOfRows(w.store, event.id);
    var rows := EvidenceOf(w.store, event.id);
    assert forall row | row in rows :: RowAccepted(w.lineage, hash, row, event.announcement, event.sourceAvailableAt);
    hide EventMatches, EventAccepted, EvidenceOf, HeadlineAccepted, DocumentAccepted;
    var i :| 0 <= i < |event.evidence| && event.evidence[i] == ev;
    assert rows[i] in rows;
    LastWithSelf(event.evidence, EvidenceId, i);
    EvidenceRowAt(w.store.evidence, rows[i]);
  }

  // --- Candidates ---

  /** A fact some accepted match of some evidence stands for. */
  ghost predicate FactFrom(w: World, h: Hashes, req: Request, f: Fact) {
    exists ev, m | ev in req.event.evidence ::
      EvidenceAccepted(w, h.text, req, ev) && MatchAccepted(req.event, ev, m) && f == FactOf(h, req, ev, m)
  }

  lemma {:induction false} PutMatchesMembers(
      w: World, h: Hashes, req: Request, ev: EvidenceView, matches: seq<QuantityMatch>, d: seq<Fact>)
    requires Distinct(d, FactFingerprint) && (forall f | f in d :: FactFrom(w, h, req, f))
    requires ev in req.event.evidence && EvidenceAccepted(w, h.text, req, ev)
    requires forall m | m in matches :: MatchAccepted(req.event, ev, m)
    ensures Distinct(PutMatches(h, req, ev, matches, d), FactFingerprint)
    ensures forall f | f in PutMatches(h, req, ev, matches, d) :: FactFrom(w, h, req, f)
    decreases |matches|
  {
    hide EvidenceAccepted, MatchAccepted, FactOf, Put, Distinct;
    if matches != [] {
      var front, last := matches[..|matches| - 1], matches[|matches| - 1];
      PutMatchesMembers(w, h, req, ev, front, d);
      assert last in matches && FactFrom(w, h, req, FactOf(h, req, ev, last));
      PutKeepsDistinct(PutMatches(h, req, ev, front, d), FactOf(h, req, ev, last), FactFingerprint);
    }
  }

  lemma {:induction false} PutEvidenceMembers(w: World, h: Hashes, req: Request, evidence: seq<EvidenceView>)
    requires forall ev | ev in evidence :: ev in req.event.evidence && EvidenceAccepted(w, h.text, req, ev)
    ensures Distinct(PutEvidence(h, req, evidence), FactFingerprint)
    ensures forall f | f in PutEvidence(h, req, evidence) :: FactFrom(w, h, req, f)
    decreases |evidence|
  {
    if evidence != [] {
      var front, last := evidence[..|evidence| - 1], evidence[|evidence| - 1];
      PutEvidenceMembers(w, h, req, front);
      assert EvidenceAccepted(w, h.text, req, last);
      PutMatchesMembers(
        w, h, req, last, req.ruleset.find(req.event.eventType, last.excerpt), PutEvidence(h, req, front));
    }
  }

  lemma FactsMembers(w: World, h: Hashes, req: Request)
    requires Accepted(w, h, req)
    ensures Distinct(Facts(h, req), FactFingerprint)
    ensures forall f | f in Facts(h, req) :: FactFrom(w, h, req, f) && f.id == 0
  {
    hide EventMatches, EvidenceAccepted;
    PutEvidenceMembers(w, h, req, req.event.evidence);
    var d := PutEvidence(h, req, req.event.evidence);
    SortDistinct(d, FactOrder, FactFingerprint);
    MultisetElements(Facts(h, req), d);
    hide Sort, PutEvidence, MatchAccepted, Distinct;
  }

  /** The fields of a fact the reader looks at. */
  predicate Cites(f: Fact, ev: EvidenceView, m: QuantityMatch, hash: string -> Digest, at: Instant) {
    && f.evidenceId == ev.id && f.code == m.code && f.kind == m.kind
    && f.start == ev.start + m.start && f.end == ev.start + m.end
    && f.rawText == m.rawText && f.rawTextDigest == hash(m.rawText) && f.sourceAvailableAt == at
  }

  lemma FactOfCites(h: Hashes, req: Request, ev: EvidenceView, m: QuantityMatch, stored: Fact)
    requires stored.(id := 0) == FactOf(h, req, ev, m).(id := 0)
    ensures Cites(stored, ev, m, h.text, req.event.sourceAvailableAt)
  {
    var f := FactOf(h, req, ev, m);
    assert Cites(f.(id := 0), ev, m, h.text, req.event.sourceAvailableAt);
    hide FactOf;
  }

  lemma CitedAccepted(w: World, hash: string -> Digest, event: Event, ev: EvidenceView, m: QuantityMatch, f: Fact)
    requires ValidStore(w.store) && EventMatches(w, hash, event) && ev in event.evidence
    requires MatchAccepted(event, ev, m) && Cites(f, ev, m, hash, event.sourceAvailableAt)
    ensures FactAccepted(w, hash, event, f)
  {
    hide EventMatches, ValidStore, EvidenceWithId, EvidenceRowById, RowAccepted, Representable, EventStore.ViewOf, Slice,
         Compatible;
    EvidenceFound(w, hash, event, ev);
    SliceInside(ev.excerpt, m.start, m.end);
  }

  /** The reader accepts a candidate under whatever id it is stored. */
  lemma CandidateAccepted(w: World, h: Hashes, req: Request, f: Fact, stored: Fact)
    requires ValidStore(w.store) && Accepted(w, h, req) && FactFrom(w, h, req, f) && stored.(id := 0) == f.(id := 0)
    ensures FactAccepted(w, h.text, req.event, stored)
  {
    hide ValidStore, EventMatches, EvidenceAccepted, MatchAccepted, FactOf, FactAccepted;
    var ev, m :| ev in req.event.evidence && EvidenceAccepted(w, h.text, req, ev)
                 && MatchAccepted(req.event, ev, m) && f == FactOf(h, req, ev, m);
    FactOfCites(h, req, ev, m, stored);
    CitedAccepted(w, h.text, req.event, ev, m, stored);
  }

  // --- What a derivation leaves ---

  lemma {:induction false} AddFactsRows(s: FactStore, derivationId: Uuid, facts: seq<Fact>)
    requires AddFacts(s, derivationId, facts).rows.Some?
    ensures var a := AddFacts(s, derivationId, facts);
            && |a.rows.value| == |facts|
            && a.store == s.(facts := s.facts + a.rows.value, nextId := s.nextId + |facts|)
            && forall i | 0 <= i < |facts| :: a.rows.value[i] == FactRow(derivationId, facts[i].(id := s.nextId + i))
    decreases |facts|
  {
    hide FactTaken;
    if facts == [] {
      assert s.facts + [] == s.facts;
    } else {
      var front, last := facts[..|facts| - 1], facts[|facts| - 1];
      AddFactsRows(s, derivationId, front);
      var rows := AddFacts(s, derivationId, front).rows.value;
      var added := FactRow(derivationId, last.(id := s.nextId + |front|));
      assert s.facts + rows + [added] == s.facts + (rows + [added]);
    }
  }

  /** These rows are these facts, each once, under ids. */
  ghost predicate Carries(h: Hashes, rows: seq<FactRow>, facts: seq<Fact>) {
    && (forall r | r in rows :: FactCanonical(h, facts, r.fact))
    && (forall f | f in facts :: exists r | r in rows :: r.fact.fingerprint == f.fingerprint)
  }

  lemma CarriesSame(h: Hashes, rows: seq<FactRow>, other: seq<FactRow>, facts: seq<Fact>)
    requires Carries(h, rows, facts) && SameElements(rows, other)
    ensures Carries(h, other, facts)
  {
    hide FactCanonical;
    forall f | f in facts ensures exists r | r in other :: r.fact.fingerprint == f.fingerprint {
      var r :| r in rows && r.fact.fingerprint == f.fingerprint;
      assert r in other;
    }
  }

  ghost predicate Digested(h: Hashes, facts: seq<Fact>) {
    forall f | f in facts :: f.id == 0 && h.text(f.rawText) == f.rawTextDigest
  }

  lemma NewRowsCarry(h: Hashes, derivationId: Uuid, facts: seq<Fact>, firstId: nat, rows: seq<FactRow>)
    requires Distinct(facts, FactFingerprint) && Digested(h, facts) && |rows| == |facts|
    requires forall i | 0 <= i < |facts| :: rows[i] == FactRow(derivationId, facts[i].(id := firstId + i))
    ensures Carries(h, rows, facts)
  {
    hide Distinct;
    forall r | r in rows ensures FactCanonical(h, facts, r.fact) {
      var i :| 0 <= i < |rows| && rows[i] == r;
      LastWithSelf(facts, FactFingerprint, i);
      assert facts[i] in facts;
      assert facts[i].(id := firstId + i).(id := 0) == facts[i];
    }
    forall f | f in facts ensures exists r | r in rows :: r.fact.fingerprint == f.fingerprint {
      var i :| 0 <= i < |facts| && facts[i] == f;
      assert rows[i] in rows;
    }
  }

  /** A derivation is in the store, with exactly these facts. */
  ghost predicate Holds(h: Hashes, s: FactStore, req: Request, facts: seq<Fact>, d: DerivationRow) {
    && FindDerivation(s.derivations, req.event.id, req.ruleset.code, req.ruleset.version) == Some(d)
    && d.fingerprint == DerivationFingerprint(h, req, facts)
    && d.sourceAvailableAt == req.event.sourceAvailableAt
    && d.availableCodes == AvailableCodes(Codes(facts)) && d.warnings == []
    && Carries(h, FactsOf(s, d.id), facts)
  }

  lemma StoredSame(s: FactStore, derivationId: Uuid)
    ensures multiset(StoredFacts(s, derivationId)) == multiset(FactsOf(s, derivationId))
    ensures SameElements(StoredFacts(s, derivationId), FactsOf(s, derivationId))
    ensures multiset(ReadRows(s, derivationId)) == multiset(FactsOf(s, derivationId))
    ensures SameElements(ReadRows(s, derivationId), FactsOf(s, derivationId))
  {
    hide FactsOf, RepositoryOrder, ReadOrder;
    MultisetElements(StoredFacts(s, derivationId), FactsOf(s, derivationId));
    MultisetElements(ReadRows(s, derivationId), FactsOf(s, derivationId));
  }

  lemma ReusableHolds(h: Hashes, s: FactStore, req: Request, facts: seq<Fact>, d: DerivationRow)
    requires FindDerivation(s.derivations, req.event.id, req.ruleset.code, req.ruleset.version) == Some(d)
    ensures Reusable(h, s, req, facts, d) <==> Holds(h, s, req, facts, d)
  {
    StoredSame(s, d.id);
    hide FindDerivation, DerivationFingerprint, AvailableCodes, StoredFacts, FactsOf, FactCanonical;
    var stored, rows := StoredFacts(s, d.id), FactsOf(s, d.id);
    if Carries(h, stored, facts) { CarriesSame(h, stored, rows, facts); }
    if Carries(h, rows, facts) { CarriesSame(h, rows, stored, facts); }
  }

  lemma FindDerivationAppend(
      rows: seq<DerivationRow>, d: DerivationRow, eventId: Uuid, code: string, version: string)
    requires FindDerivation(rows, eventId, code, version).None?
    requires d.eventId == eventId && d.rulesetCode == code && d.rulesetVersion == version
    ensures FindDerivation(rows + [d], eventId, code, version) == Some(d)
  {
    FirstWithAppend(rows, [d], DerivationKeyOf, DerivationKey(eventId, code, version));
  }

  lemma WrittenRows(s: FactStore, d: DerivationRow, facts: seq<Fact>)
    requires ValidFacts(s) && d.id == s.nextId && AddFacts(WithDerivation(s, d), d.id, facts).rows.Some?
    ensures var added := AddFacts(WithDerivation(s, d), d.id, facts);
            && FactsOf(added.store, d.id) == added.rows.value
            && ValidFacts(added.store) && added.store.derivations == s.derivations + [d]
  {
    var begun := WithDerivation(s, d);
    AddFactsRows(begun, d.id, facts);
    var added := AddFacts(begun, d.id, facts);
    var rows := added.rows.value;
    hide AddFacts;
    forall r | r in rows ensures r.derivationId == d.id {
      var i :| 0 <= i < |rows| && rows[i] == r;
    }
    FilterSplit(s.facts, rows, (r: FactRow) => r.derivationId == d.id);
    hide Filter;
    forall r | r in added.store.facts ensures r.derivationId < added.store.nextId {
      if r !in s.facts { assert r in rows; }
    }
  }

  /** Writing leaves the derivation in the store, with exactly the rows the call returned. */
  lemma WrittenHolds(h: Hashes, s: FactStore, req: Request, facts: seq<Fact>)
    requires ValidFacts(s) && Distinct(facts, FactFingerprint) && Digested(h, facts)
    requires FindDerivation(s.derivations, req.event.id, req.ruleset.code, req.ruleset.version).None?
    requires var d := NewDerivation(h, req, facts, s.nextId);
             AddFacts(WithDerivation(s, d), d.id, facts).rows.Some?
    ensures var d := NewDerivation(h, req, facts, s.nextId);
            var added := AddFacts(WithDerivation(s, d), d.id, facts);
            Holds(h, added.store, req, facts, d) && FactsOf(added.store, d.id) == added.rows.value
  {
    var d := NewDerivation(h, req, facts, s.nextId);
    var begun := WithDerivation(s, d);
    hide DerivationFingerprint, AvailableCodes, ValidFacts;
    WrittenRows(s, d, facts);
    AddFactsRows(begun, d.id, facts);
    hide AddFacts, FactsOf, Distinct, Digested, Carries;
    NewRowsCarry(h, d.id, facts, begun.nextId, AddFacts(begun, d.id, facts).rows.value);
    FindDerivationAppend(s.derivations, d, req.event.id, req.ruleset.code, req.ruleset.version);
    hide FindDerivation;
  }

  /** After a successful call the derivation is in the store, and the result reports exactly its rows. */
  lemma DerivedHolds(w: World, h: Hashes, s: FactStore, req: Request) returns (d: DerivationRow)
    requires ValidFacts(s) && Derived(w, h, s, req).result.Some?
    ensures var o := Derived(w, h, s, req);
            && Accepted(w, h, req) && Holds(h, o.store, req, Facts(h, req), d)
            && o.result.value.id == d.id && o.result.value.fingerprint == d.fingerprint
            && o.result.value.availableCodes == d.availableCodes && o.result.value.warnings == []
            && exists rows :: multiset(rows) == multiset(FactsOf(o.store, d.id))
                              && o.result.value.facts == FactResults(rows)
  {
    var facts := Facts(h, req);
    FactsMembers(w, h, req);
    assert Digested(h, facts) by { FactsDigested(w, h, req); }
    hide Accepted, Facts, Distinct, Digested, FactFrom, DerivationTaken, ValidFacts, AddFacts, FindDerivation;
    var existing := FindDerivation(s.derivations, req.event.id, req.ruleset.code, req.ruleset.version);
    if existing.Some? {
      d := existing.value;
      ReusableHolds(h, s, req, facts, d);
      StoredSame(s, d.id);
      hide Reusable, StoredFacts, FactsOf;
    } else {
      d := NewDerivation(h, req, facts, s.nextId);
      WrittenHolds(h, s, req, facts);
      hide Holds, NewDerivation, WithDerivation, FactsOf;
    }
  }

  lemma FactsDigested(w: World, h: Hashes, req: Request)
    requires Accepted(w, h, req)
    ensures Digested(h, Facts(h, req))
  {
    FactsMembers(w, h, req);
    hide Accepted, Facts, Distinct, EvidenceAccepted, MatchAccepted;
    forall f | f in Facts(h, req) ensures f.id == 0 && h.text(f.rawText) == f.rawTextDigest {
      assert FactFrom(w, h, req, f);
    }
  }

  // --- Main results ---

  lemma CarriedAccepted(w: World, h: Hashes, req: Request, rows: seq<FactRow>)
    requires ValidStore(w.store) && Accepted(w, h, req) && Carries(h, rows, Facts(h, req))
    ensures forall r | r in rows :: FactAccepted(w, h.text, req.event, r.fact)
  {
    FactsMembers(w, h, req);
    hide ValidStore, Accepted, Facts, FactFrom, FactAccepted, FactWith, Distinct;
    forall r | r in rows ensures FactAccepted(w, h.text, req.event, r.fact) {
      assert FactCanonical(h, Facts(h, req), r.fact);
      CandidateAccepted(w, h, req, r.fact.(id := 0), r.fact);
    }
  }

  lemma CarriedCodes(h: Hashes, rows: seq<FactRow>, facts: seq<Fact>)
    requires Carries(h, rows, facts) && Distinct(facts, FactFingerprint)
    ensures Codes(Views(rows)) == Codes(facts)
  {
    forall c ensures c in Codes(Views(rows)) <==> c in Codes(facts) {
      if c in Codes(Views(rows)) {
        var f :| f in Views(rows) && f.code == c;
        var i :| 0 <= i < |rows| && Views(rows)[i] == f;
        assert rows[i] in rows && FactCanonical(h, facts, rows[i].fact);
        assert f.(id := 0) in facts;
      }
      if c in Codes(facts) {
        var f :| f in facts && f.code == c;
        var r :| r in rows && r.fact.fingerprint == f.fingerprint;
        var k :| 0 <= k < |facts| && facts[k] == f;
        LastWithSelf(facts, FactFingerprint, k);
        assert FactCanonical(h, facts, r.fact);
        var i :| 0 <= i < |rows| && rows[i] == r;
        assert Views(rows)[i] == r.fact && r.fact in Views(rows);
      }
    }
  }

  lemma ReadSucceeds(w: World, hash: string -> Digest, s: FactStore, event: Event, code: string, version: string, d: DerivationRow)
    requires code != "" && version != "" && EventKnown(w.store, event)
    requires FindDerivation(s.derivations, event.id, code, version) == Some(d)
    requires d.sourceAvailableAt == event.sourceAvailableAt
    requires var rows := ReadRows(s, d.id);
             && d.availableCodes == AvailableCodes(Codes(Views(rows)))
             && forall r | r in rows :: FactAccepted(w, hash, event, r.fact)
    ensures FactsForEvent(w, hash, s, event, code, version) == Ok(Some(ViewOf(event, d, ReadRows(s, d.id))))
  {
    hide EventKnown, FindDerivation, ReadRows, AvailableCodes, Codes, FactAccepted, ViewOf;
  }

  /** The reader's answer once a derivation is in the store. */
  lemma ReadOfHolds(w: World, h: Hashes, s: FactStore, req: Request, d: DerivationRow)
    requires ValidStore(w.store) && Accepted(w, h, req) && Holds(h, s, req, Facts(h, req), d)
    ensures FactsForEvent(w, h.text, s, req.event, req.ruleset.code, req.ruleset.version)
            == Ok(Some(ViewOf(req.event, d, ReadRows(s, d.id))))
  {
    var facts, rows := Facts(h, req), ReadRows(s, d.id);
    StoredSame(s, d.id);
    FactsMembers(w, h, req);
    hide Facts, ReadRows, FactsOf, Carries, Distinct, FactFrom, AvailableCodes, DerivationFingerprint, FindDerivation,
         ValidStore, EventKnown, FactAccepted, FactsForEvent, Accepted;
    CarriesSame(h, FactsOf(s, d.id), rows, facts);
    CarriedAccepted(w, h, req, rows);
    CarriedCodes(h, rows, facts);
    AcceptedKnown(w, h, req);
    AcceptedRuleset(w, h, req);
    hide Codes, Views;
    ReadSucceeds(w, h.text, s, req.event, req.ruleset.code, req.ruleset.version, d);
  }

  /**
   * Writer and reader agree: after a successful derivation, whether it wrote or reused, the reader returns it for the
   * same event: the same derivation with the same codes, and exactly the reported facts.
   */
  lemma DerivedReadsBack(w: World, h: Hashes, s: FactStore, req: Request)
    requires ValidStore(w.store) && ValidFacts(s) && Derived(w, h, s, req).result.Some?
    ensures var o := Derived(w, h, s, req);
            var read := FactsForEvent(w, h.text, o.store, req.event, req.ruleset.code, req.ruleset.version);
            && read.Ok? && read.value.Some?
            && read.value.value.event == req.event
            && read.value.value.id == o.result.value.id
            && read.value.value.fingerprint == o.result.value.fingerprint
            && read.value.value.availableCodes == o.result.value.availableCodes
            && exists rows, stored :: multiset(rows) == multiset(stored)
                 && read.value.value.facts == Views(rows) && o.result.value.facts == FactResults(stored)
  {
    var d := DerivedHolds(w, h, s, req);
    var o := Derived(w, h, s, req);
    hide Derived, Facts, Accepted, ValidStore, ValidFacts, Holds, FactsForEvent;
    ReadOfHolds(w, h, o.store, req, d);
    StoredSame(o.store, d.id);
    hide FactsOf, ReadRows;
    var stored :| multiset(stored) == multiset(FactsOf(o.store, d.id)) && o.result.value.facts == FactResults(stored);
    assert multiset(ReadRows(o.store, d.id)) == multiset(stored);
  }

  lemma AcceptedRuleset(w: World, h: Hashes, req: Request)
    requires Accepted(w, h, req)
    ensures req.ruleset.code != "" && req.ruleset.version != ""
  {
    hide EventMatches, EvidenceAccepted;
  }

  lemma AcceptedKnown(w: World, h: Hashes, req: Request)
    requires Accepted(w, h, req)
    ensures EventKnown(w.store, req.event)
  {
    hide EvidenceAccepted, EventsForAnnouncement;
  }

  /** The page a document span refers to, if any. */
  function PageOf(lineage: Lineage, ev: EvidenceView): Option<PageEntry> {
    if ev.extraction.Some? && ev.extraction.value.id in lineage.extractions && ev.pageNumbers != []
    then EntryFor(lineage.extractions[ev.extraction.value.id].pageMap, ev.pageNumbers[0]) else None
  }

  /** A fact quotes the immutable source text at its offsets, inside its evidence span and, in a document, one page. */
  ghost predicate Quotes(w: World, hash: string -> Digest, event: Event, f: Fact) {
    exists ev | ev in event.evidence && ev.id == f.evidenceId ::
      && 0 <= ev.start <= f.start < f.end <= ev.end
      && var text := SourceText(w, hash, event, ev);
      && text.Some? && f.end <= |text.value| && f.rawText == text.value[f.start..f.end]
      && (ev.kind == DocumentText ==>
            var page := PageOf(w.lineage, ev);
            page.Some? && page.value.start <= ev.start && ev.end <= page.value.end)
  }

  lemma ExcerptSlice(text: string, start: nat, end: int, a: nat, b: nat)
    requires a < b <= |Slice(text, start, end)|
    ensures start + b <= |text| && Slice(text, start, end)[a..b] == text[start + a..start + b]
  {
    var hi := Landing(end, |text|);
    NestedSlice(text, start, hi, a, b);
  }

  lemma RowPage(lineage: Lineage, row: EvidenceRow, a: Announcement)
    requires row.content.kind == DocumentText && DocumentAccepted(lineage, row.content, a)
    requires ExtractionMatches(lineage, EventStore.ViewOf(lineage, row, a))
    requires lineage.extractions[row.content.extractionId.value].extraction.id == row.content.extractionId.value
    ensures var page := PageOf(lineage, EventStore.ViewOf(lineage, row, a));
            page.Some? && page.value.start <= row.content.start && row.content.end <= page.value.end
  {
    hide EntryFor, DocumentById;
  }

  /** Every extraction is stored under its own id. */
  ghost predicate KeyedById(lineage: Lineage) {
    forall id | id in lineage.extractions :: lineage.extractions[id].extraction.id == id
  }

  lemma EvidencePage(w: World, hash: string -> Digest, event: Event, ev: EvidenceView)
    requires ValidStore(w.store) && KeyedById(w.lineage) && EventMatches(w, hash, event) && ev in event.evidence
    ensures 0 <= ev.start < ev.end
    ensures ev.kind == DocumentText && SourceText(w, hash, event, ev).Some? ==>
              var page := PageOf(w.lineage, ev);
              page.Some? && page.value.start <= ev.start && ev.end <= page.value.end
  {
    EvidenceFound(w, hash, event, ev);
    var row := EvidenceRowById(w.store.evidence, ev.id).value;
    hide EventMatches, ValidStore, EvidenceWithId, EvidenceRowById, PageOf, HeadlineAccepted;
    if ev.kind == DocumentText && SourceText(w, hash, event, ev).Some? {
      assert ExtractionMatches(w.lineage, ev) by { SourceTextMatches(w, hash, event, ev); }
      hide SourceText, ExtractionMatches;
      assert row.content.extractionId.value in w.lineage.extractions;
      RowPage(w.lineage, row, event.announcement);
    }
  }

  lemma SourceTextMatches(w: World, hash: string -> Digest, event: Event, ev: EvidenceView)
    requires ev.kind == DocumentText && SourceText(w, hash, event, ev).Some?
    ensures ExtractionMatches(w.lineage, ev)
  {
    hide ExtractionMatches, PagesMatch, ReadObject;
  }

  lemma CitedQuotes(w: World, h: Hashes, req: Request, ev: EvidenceView, m: QuantityMatch, f: Fact)
    requires ValidStore(w.store) && KeyedById(w.lineage) && EventMatches(w, h.text, req.event)
    requires ev in req.event.evidence
    requires EvidenceAccepted(w, h.text, req, ev) && MatchAccepted(req.event, ev, m)
    requires Cites(f, ev, m, h.text, req.event.sourceAvailableAt)
    ensures Quotes(w, h.text, req.event, f)
  {
    hide EventMatches, ValidStore, SourceText, Slice, Compatible, Representable, PageOf, KeyedById;
    EvidencePage(w, h.text, req.event, ev);
    var text := SourceText(w, h.text, req.event, ev).value;
    assert Slice(text, ev.start, ev.end) == ev.excerpt;
    ExcerptSlice(text, ev.start, ev.end, m.start, m.end);
    assert f.rawText == text[f.start..f.end];
    hide EvidenceAccepted, MatchAccepted;
    assert ev.id == f.evidenceId;
  }

  /** Every fact the reader returns after a successful derivation quotes its source. */
  lemma DerivedQuotesSource(w: World, h: Hashes, s: FactStore, req: Request, f: Fact)
    requires ValidStore(w.store) && KeyedById(w.lineage) && ValidFacts(s) && Derived(w, h, s, req).result.Some?
    requires var read := FactsForEvent(
               w, h.text, Derived(w, h, s, req).store, req.event, req.ruleset.code, req.ruleset.version);
             read.Ok? && read.value.Some? && f in read.value.value.facts
    ensures Quotes(w, h.text, req.event, f)
  {
    var d := DerivedHolds(w, h, s, req);
    var later, facts := Derived(w, h, s, req).store, Facts(h, req);
    hide Derived, Facts, Accepted, ValidStore, KeyedById, ValidFacts, FactsForEvent, Quotes, DerivationFingerprint,
         AvailableCodes, FindDerivation;
    ReadOfHolds(w, h, later, req, d);
    StoredSame(later, d.id);
    hide FactsOf, ReadRows;
    var rows := ReadRows(later, d.id);
    var i :| 0 <= i < |rows| && rows[i].fact == f;
    assert rows[i] in rows;
    assert FactCanonical(h, facts, f);
    hide Holds, Carries;
    FactsMembers(w, h, req);
    CandidateQuotes(w, h, req, f);
  }

  lemma CandidateQuotes(w: World, h: Hashes, req: Request, f: Fact)
    requires ValidStore(w.store) && KeyedById(w.lineage) && Accepted(w, h, req) && FactFrom(w, h, req, f.(id := 0))
    ensures Quotes(w, h.text, req.event, f)
  {
    hide ValidStore, KeyedById, EventMatches, EvidenceAccepted, MatchAccepted, FactOf, Quotes;
    var ev, m :| ev in req.event.evidence && EvidenceAccepted(w, h.text, req, ev)
                 && MatchAccepted(req.event, ev, m) && f.(id := 0) == FactOf(h, req, ev, m);
    FactOfCites(h, req, ev, m, f);
    CitedQuotes(w, h, req, ev, m, f);
  }

  /** Digests of stored objects are those of their texts. */
  ghost predicate HonestObjects(objects: map<string, Object>, hash: string -> Digest) {
    forall k | k in objects && objects[k].text.Some? :: hash(objects[k].text.value) == objects[k].digest
  }

  /** The text a document span is checked against is the text its extraction's digest was taken of. */
  lemma SourceIsExtractedText(w: World, hash: string -> Digest, event: Event, ev: EvidenceView, text: string)
    requires ev.kind == DocumentText && SourceText(w, hash, event, ev).Some?
    requires ev.extraction.Some? && ev.extraction.value.textDigest == Some(hash(text))
    requires HonestObjects(w.objects, hash) && forall a, b | hash(a) == hash(b) :: a == b
    ensures SourceText(w, hash, event, ev) == Some(text)
  {
    SourceTextMatches(w, hash, event, ev);
    hide PagesMatch;
  }

  lemma HoldsAtAnyTime(h: Hashes, s: FactStore, req: Request, derivedAt: Instant, facts: seq<Fact>, d: DerivationRow)
    ensures Holds(h, s, req, facts, d) == Holds(h, s, req.(derivedAt := derivedAt), facts, d)
  {
    var again := req.(derivedAt := derivedAt);
    assert DerivationFingerprint(h, req, facts) == DerivationFingerprint(h, again, facts);
    hide DerivationFingerprint, Carries, FactsOf, FindDerivation, AvailableCodes;
  }

  lemma {:induction false} PutMatchesAtAnyTime(
      h: Hashes, req: Request, derivedAt: Instant, ev: EvidenceView, matches: seq<QuantityMatch>, d: seq<Fact>)
    ensures PutMatches(h, req, ev, matches, d) == PutMatches(h, req.(derivedAt := derivedAt), ev, matches, d)
    decreases |matches|
  {
    hide Put;
    if matches != [] {
      PutMatchesAtAnyTime(h, req, derivedAt, ev, matches[..|matches| - 1], d);
      var last := matches[|matches| - 1];
      assert FactOf(h, req, ev, last) == FactOf(h, req.(derivedAt := derivedAt), ev, last);
      hide FactOf;
    }
  }

  lemma {:induction false} PutEvidenceAtAnyTime(
      h: Hashes, req: Request, derivedAt: Instant, evidence: seq<EvidenceView>)
    ensures PutEvidence(h, req, evidence) == PutEvidence(h, req.(derivedAt := derivedAt), evidence)
    decreases |evidence|
  {
    if evidence != [] {
      var front, last := evidence[..|evidence| - 1], evidence[|evidence| - 1];
      PutEvidenceAtAnyTime(h, req, derivedAt, front);
      PutMatchesAtAnyTime(
        h, req, derivedAt, last, req.ruleset.find(req.event.eventType, last.excerpt), PutEvidence(h, req, front));
      hide PutMatches;
    }
  }

  lemma AcceptedAtAnyTime(w: World, h: Hashes, req: Request, derivedAt: Instant)
    ensures Accepted(w, h, req) == Accepted(w, h, req.(derivedAt := derivedAt))
  {
    hide EventMatches, SourceText, MatchAccepted, Slice;
    var again := req.(derivedAt := derivedAt);
    forall ev ensures EvidenceAccepted(w, h.text, req, ev) == EvidenceAccepted(w, h.text, again, ev) {
    }
  }

  /**
   * Replay: once a derivation has succeeded, the same call at any later time succeeds, leaves the store unchanged and
   * reports the same derivation with the same codes and, as a multiset, the same facts; nothing is created.
   */
  lemma ReplayReuses(w: World, h: Hashes, s: FactStore, req: Request, derivedAt: Instant)
    requires ValidFacts(s) && Derived(w, h, s, req).result.Some?
    ensures var first := Derived(w, h, s, req);
            var again := Derived(w, h, first.store, req.(derivedAt := derivedAt));
            && again.store == first.store && again.result.Some? && !again.result.value.created
            && again.result.value.id == first.result.value.id
            && again.result.value.fingerprint == first.result.value.fingerprint
            && again.result.value.availableCodes == first.result.value.availableCodes
            && again.result.value.warnings == first.result.value.warnings
            && multiset(again.result.value.facts) == multiset(first.result.value.facts)
  {
    var d := DerivedHolds(w, h, s, req);
    var first, later := Derived(w, h, s, req), req.(derivedAt := derivedAt);
    PutEvidenceAtAnyTime(h, req, derivedAt, req.event.evidence);
    AcceptedAtAnyTime(w, h, req, derivedAt);
    assert Facts(h, later) == Facts(h, req);
    var facts := Facts(h, req);
    HoldsAtAnyTime(h, first.store, req, derivedAt, facts, d);
    ReusableHolds(h, first.store, later, facts, d);
    assert FindDerivation(first.store.derivations, req.event.id, req.ruleset.code, req.ruleset.version) == Some(d);
    StoredSame(first.store, d.id);
    var rows :| multiset(rows) == multiset(FactsOf(first.store, d.id)) && first.result.value.facts == FactResults(rows);
    ResultsOfPermutation(rows, StoredFacts(first.store, d.id));
    hide Accepted, Facts, Holds, Reusable, FindDerivation, StoredFacts, FactsOf, FactResults, AddFacts, NewDerivation;
    assert Derived(w, h, first.store, later)
        == Outcome(first.store, Some(ResultOf(d, StoredFacts(first.store, d.id), false)));
  }

  function Without<T>(s: seq<T>, i: nat): seq<T>
    requires i < |s|
  {
    s[..i] + s[i + 1..]
  }

  lemma WithoutMultiset<T>(s: seq<T>, i: nat)
    requires i < |s|
    ensures multiset(s) == multiset{s[i]} + multiset(Without(s, i))
  {
    assert s == s[..i] + [s[i]] + s[i + 1..];
  }

  lemma ResultsWithout(rows: seq<FactRow>, i: nat)
    requires i < |rows|
    ensures FactResults(Without(rows, i)) == Without(FactResults(rows), i)
  {
    var a, b := FactResults(Without(rows, i)), Without(FactResults(rows), i);
    forall k | 0 <= k < |a| ensures a[k] == b[k] {
      assert Without(rows, i)[k] == rows[if k < i then k else k + 1];
    }
  }

  lemma {:induction false} ResultsOfPermutation(a: seq<FactRow>, b: seq<FactRow>)
    requires multiset(a) == multiset(b)
    ensures multiset(FactResults(a)) == multiset(FactResults(b))
    decreases |a|
  {
    MultisetElements(a, b);
    if a == [] {
      assert FactResults(a) == FactResults(b);
    } else {
      assert a[0] in a;
      var i :| 0 <= i < |b| && b[i] == a[0];
      WithoutMultiset(a, 0);
      WithoutMultiset(b, i);
      assert |Without(a, 0)| == |a| - 1;
      assert FactResults(a)[0] == FactResults(b)[i];
      assert multiset(Without(a, 0)) == multiset(a) - multiset{a[0]} == multiset(Without(b, i));
      hide Without;
      ResultsOfPermutation(Without(a, 0), Without(b, i));
      ResultsWithout(a, 0);
      ResultsWithout(b, i);
      WithoutMultiset(FactResults(a), 0);
      WithoutMultiset(FactResults(b), i);
    }
  }

  /** A decimal's text reads back as its number. */
  lemma DecimalTextReads(d: ScoreAudit.Decimal)
    ensures ScoreAudit.Value(ScoreAudit.ReadDecimal(DecimalText(d))) == ScoreAudit.Value(d)
  {
    var exponent := if d.coefficient == 0 && d.exponent > 0 then 0 else d.exponent;
    var s := ScoreAudit.Fixed(d.coefficient, exponent);
    ScoreAudit.FixedRead(d.coefficient, exponent, d.negative);
    assert ScoreAudit.Value(ScoreAudit.Decimal(d.negative, d.coefficient, exponent)) == ScoreAudit.Value(d);
    hide ScoreAudit.Fixed, ScoreAudit.ReadUnsigned, ScoreAudit.Value;
    assert ("-" + s)[1..] == s && [] + s == s;
  }

  lemma SameTextSameNumber(a: Option<ScoreAudit.Decimal>, b: Option<ScoreAudit.Decimal>)
    requires TextOf(a) == TextOf(b)
    ensures NumberOf(a) == NumberOf(b)
  {
    if a.Some? {
      DecimalTextReads(a.value);
      DecimalTextReads(b.value);
    }
  }

  /**
   * A fact fingerprint determines the fact, its event, its evidence, the ruleset and the digits of its decimals, as
   * long as neither digest collides on the two facts compared.
   */
  lemma FactFingerprintDetermines(
      h: Hashes, req: Request, ev: EvidenceView, m: QuantityMatch, also: Request, other: EvidenceView, n: QuantityMatch)
    requires FactOf(h, req, ev, m).fingerprint == FactOf(h, also, other, n).fingerprint
    requires var p, q := PayloadOf(h, req, ev, m), PayloadOf(h, also, other, n); h.fact(p) == h.fact(q) ==> p == q
    requires h.text(m.rawText) == h.text(n.rawText) ==> m.rawText == n.rawText
    ensures FactOf(h, req, ev, m).(sourceAvailableAt := 0) == FactOf(h, also, other, n).(sourceAvailableAt := 0)
    ensures req.event.id == also.event.id && req.event.fingerprint == also.event.fingerprint
            && ev.fingerprint == other.fingerprint && ev.id == other.id
            && req.ruleset.code == also.ruleset.code && req.ruleset.version == also.ruleset.version
            && TextOf(m.reportedValue) == TextOf(n.reportedValue)
            && TextOf(m.normalizedValue) == TextOf(n.normalizedValue)
  {
    assert PayloadOf(h, req, ev, m) == PayloadOf(h, also, other, n);
    SameTextSameNumber(m.reportedValue, n.reportedValue);
    SameTextSameNumber(m.normalizedValue, n.normalizedValue);
    hide TextOf, NumberOf;
  }

  /** A replay may report the facts in another order: the repository sorts by code text, the writer by fact order. */
  lemma ReplayMayReorder(before: Fact, after: Fact, derivationId: Uuid)
    requires before.code == CapacityBefore && after.code == CapacityAfter
    ensures Sort([after, before], FactOrder) == [before, after]
    ensures var rows := [FactRow(derivationId, before), FactRow(derivationId, after)];
            Sort(rows, RepositoryOrder) == [rows[1], rows[0]]
  {
    LexAt(FactOrder(before), FactOrder(after), 0);
    CodeTextOrder();
    var x, y := FactRow(derivationId, before), FactRow(derivationId, after);
    var kx, ky := RepositoryOrder(x), RepositoryOrder(y);
    forall k | 0 <= k < 9 ensures kx[k] == ky[k] {
      assert kx[k] == CodeText(CapacityBefore)[k] as int && ky[k] == CodeText(CapacityAfter)[k] as int;
    }
    assert kx[..9] == ky[..9];
    assert kx[9] == 'b' as int && ky[9] == 'a' as int;
    LexAt(ky, kx, 9);
    hide LexLeq, FactOrder, RepositoryOrder, CodeText;
    SortTwo(after, before, FactOrder);
    SortTwo(x, y, RepositoryOrder);
  }

  lemma CodeTextOrder()
    ensures var before, after := CodeText(CapacityBefore), CodeText(CapacityAfter);
            && |before| > 9 && |after| > 9 && before[9] == 'b' && after[9] == 'a'
            && forall k | 0 <= k < 9 :: before[k] == after[k]
  {
    assert "capacity_before"[..9] == "capacity_after"[..9];
    forall k | 0 <= k < 9 ensures CodeText(CapacityBefore)[k] == CodeText(CapacityAfter)[k] {
      assert "capacity_before"[k] == "capacity_before"[..9][k];
      assert "capacity_after"[k] == "capacity_after"[..9][k];
    }
  }

  lemma SortTwo<T>(a: T, b: T, key: T -> seq<int>)
    requires !LexLeq(key(a), key(b))
    ensures Sort([a, b], key) == [b, a]
  {
    assert [a, b][1..] == [b] && [b][1..] == [];
    assert Sort([b], key) == [b];
  }

  /** Keys that agree before a place where the first is smaller are ordered, and not the other way round. */
  lemma {:induction false} LexAt(a: seq<int>, b: seq<int>, i: nat)
    requires i < |a| && i < |b| && a[..i] == b[..i] && a[i] < b[i]
    ensures LexLeq(a, b) && !LexLeq(b, a)
    decreases i
  {
    if i > 0 {
      assert a[0] == a[..i][0] && b[0] == b[..i][0];
      assert a[1..][..i - 1] == a[..i][1..] && b[1..][..i - 1] == b[..i][1..];
      LexAt(a[1..], b[1..], i - 1);
    }
  }
}
