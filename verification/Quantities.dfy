/** Deriving quantities from event evidence: sub-spans of stored spans, stored once, read back by a second reader. */
module Quantities {
  import opened Prelude
  import opened Sorting
  import opened Dictionaries
  import opened EventModel
  import opened Spans
  import opened EventStore
  import ScoreAudit

  /** A match; its decimals have digits of their own, a stored fact only the numbers they denote. */
  datatype QuantityMatch = QuantityMatch(
    code: FactCode, kind: FactKind, ruleCode: string, ruleVersion: string, start: int, end: int, rawText: string,
    reportedValue: Option<ScoreAudit.Decimal>, reportedScale: Option<string>, reportedUnit: Option<string>,
    reportedCurrency: Option<string>, normalizedValue: Option<ScoreAudit.Decimal>, normalizedUnit: Option<string>,
    date: Option<Date>, warnings: seq<string>)

  datatype Ruleset = Ruleset(code: string, version: string, find: (EventType, string) -> seq<QuantityMatch>)

  /** What a fact is fingerprinted by; its decimals are texts. */
  datatype FactPayload = FactPayload(
    eventId: Uuid, eventFingerprint: Digest, evidenceId: Uuid, evidenceFingerprint: Digest,
    rulesetCode: string, rulesetVersion: string, code: FactCode, kind: FactKind, ruleCode: string, ruleVersion: string,
    start: int, end: int, rawTextDigest: Digest, reportedValue: Option<string>, reportedScale: Option<string>,
    reportedUnit: Option<string>, reportedCurrency: Option<string>, normalizedValue: Option<string>,
    normalizedUnit: Option<string>, date: Option<Date>, warnings: seq<string>)

  datatype DerivationPayload = DerivationPayload(
    eventId: Uuid, eventFingerprint: Digest, sourceAvailableAt: Instant, rulesetCode: string, rulesetVersion: string,
    facts: seq<Digest>, availableCodes: seq<FactCode>, warnings: seq<string>)

  datatype Hashes = Hashes(text: string -> Digest, fact: FactPayload -> Digest, derivation: DerivationPayload -> Digest)

  ghost predicate CollisionFree(h: Hashes) {
    && (forall a, b | h.text(a) == h.text(b) :: a == b)
    && (forall a, b | h.fact(a) == h.fact(b) :: a == b)
  }

  /** An object of the store: the digest of its bytes, and its text if the bytes are UTF-8. */
  datatype Object = Object(digest: Digest, text: Option<string>)

  /** Everything a derivation reads and never changes. */
  datatype World = World(lineage: Lineage, store: Store, objects: map<string, Object>)

  datatype DerivationRow = DerivationRow(
    id: Uuid, eventId: Uuid, rulesetCode: string, rulesetVersion: string, sourceAvailableAt: Instant,
    availableCodes: seq<FactCode>, warnings: seq<string>, fingerprint: Digest, derivedAt: Instant)

  datatype FactRow = FactRow(derivationId: Uuid, fact: Fact)

  datatype FactStore = FactStore(derivations: seq<DerivationRow>, facts: seq<FactRow>, nextId: nat)

  ghost predicate ValidFacts(s: FactStore) {
    && (forall d | d in s.derivations :: d.id < s.nextId)
    && (forall f | f in s.facts :: f.derivationId < s.nextId)
  }

  datatype Request = Request(event: Event, ruleset: Ruleset, derivedAt: Instant)

  datatype FactResult = FactResult(id: Uuid, evidenceId: Uuid, code: FactCode, fingerprint: Digest)

  datatype DerivationResult = DerivationResult(
    id: Uuid, fingerprint: Digest, availableCodes: seq<FactCode>, warnings: seq<string>, facts: seq<FactResult>,
    created: bool)

  // --- What is checked before anything is written ---

  function EventRowId(e: EventRow): Uuid {
    e.id
  }

  function EventById(events: seq<EventRow>, id: Uuid): Option<EventRow> {
    FirstWith(events, EventRowId, id)
  }

  function EventId(e: Event): Uuid {
    e.id
  }

  /** The row of the event carries the fields of its view. */
  predicate RowMatches(row: EventRow, event: Event) {
    && row.companyId == event.companyId && row.securityId == event.securityId
    && row.announcementId == event.announcement.id && row.datasetId == event.datasetId
    && row.eventType == event.eventType && row.date == event.date
    && row.sourceAvailableAt == event.sourceAvailableAt
    && row.rulesetCode == event.rulesetCode && row.rulesetVersion == event.rulesetVersion
    && row.fingerprint == event.fingerprint && row.status == "detected"
    && row.matchedRuleCodes == event.matchedRuleCodes && row.warnings == event.warnings
  }

  predicate AnnouncementMatches(stored: Announcement, event: Event) {
    && stored.companyId == event.companyId && stored.securityId == event.securityId
    && stored.datasetId == event.datasetId && stored.headline == event.announcement.headline
    && stored.date == event.announcement.date && stored.availableAt == event.announcement.availableAt
  }

  /** The event is what the event reader returns for its announcement and ruleset. */
  predicate EventMatches(w: World, hash: string -> Digest, event: Event) {
    var row := EventById(w.store.events, event.id);
    && row.Some? && RowMatches(row.value, event)
    && event.announcement.id in w.lineage.announcements
    && AnnouncementMatches(w.lineage.announcements[event.announcement.id].announcement, event)
    && var reread := EventsForAnnouncement(
         w.lineage, hash, w.store, event.announcement, event.rulesetCode, event.rulesetVersion);
    && reread.Some? && FirstWith(reread.value, EventId, event.id) == Some(event)
  }

  function ReadObject(objects: map<string, Object>, key: string, digest: Digest): Option<Object> {
    if key in objects && objects[key].digest == digest then Some(objects[key]) else None
  }

  predicate PagesMatch(pageMap: seq<PageEntry>, ev: EvidenceView, text: string, hash: string -> Digest) {
    && |ev.pageNumbers| == |ev.pageDigests|
    && forall i | 0 <= i < |ev.pageNumbers| ::
         var entry := EntryFor(pageMap, ev.pageNumbers[i]);
         && entry.Some? && entry.value.digest == ev.pageDigests[i]
         && hash(Slice(text, entry.value.start, entry.value.end)) == ev.pageDigests[i]
  }

  /** The evidence and its persisted asset and extraction still belong together. */
  predicate ExtractionMatches(lineage: Lineage, ev: EvidenceView) {
    && ev.document.Some? && ev.asset.Some? && ev.extraction.Some?
    && ev.asset.value.documentId == ev.document.value.id
    && ev.extraction.value.assetId == ev.asset.value.id && ev.extraction.value.status == "success"
    && ev.extraction.value.textObjectKey.Some? && ev.extraction.value.textDigest.Some?
    && ev.asset.value.id in lineage.assets && ev.extraction.value.id in lineage.extractions
    && var asset, extraction := lineage.assets[ev.asset.value.id], lineage.extractions[ev.extraction.value.id].extraction;
    && asset.documentId == ev.document.value.id && asset.contentDigest == ev.asset.value.contentDigest
    && asset.objectKey == ev.asset.value.objectKey && extraction.assetId == asset.id
    && extraction.textObjectKey == ev.extraction.value.textObjectKey
    && extraction.textDigest == ev.extraction.value.textDigest && extraction.status == "success"
  }

  /** The immutable text an evidence span quotes; None where it cannot be trusted. */
  function SourceText(w: World, hash: string -> Digest, event: Event, ev: EvidenceView): Option<string> {
    if ev.sourceAvailableAt != event.sourceAvailableAt || hash(ev.excerpt) != ev.excerptDigest then None
    else if ev.kind == Headline then Some(event.announcement.headline)
    else if ev.kind != DocumentText || !ExtractionMatches(w.lineage, ev) then None
    else
      var asset, stored := w.lineage.assets[ev.asset.value.id], w.lineage.extractions[ev.extraction.value.id];
      var content := ReadObject(w.objects, stored.extraction.textObjectKey.value, stored.extraction.textDigest.value);
      if ReadObject(w.objects, asset.objectKey, asset.contentDigest).None? || content.None? then None
      else if content.value.text.None? || stored.extraction.characterCount != Some(|content.value.text.value|) then None
      else if !PagesMatch(stored.pageMap, ev, content.value.text.value, hash) then None
      else content.value.text
  }

  predicate Currency(c: Option<string>) {
    c == Some("INR") || c == Some("USD") || c == Some("EUR")
  }

  predicate CapacityUnit(u: Option<string>) {
    u == Some("tonnes_per_annum") || u == Some("tonnes_per_day") || u == Some("megawatt")
    || u == Some("kilolitres_per_day")
  }

  /** The fields a fact of each kind has and lacks. */
  predicate Representable(m: QuantityMatch) {
    match m.kind
    case Dated =>
      m.date.Some? && m.reportedValue.None? && m.reportedScale.None? && m.reportedUnit.None?
      && m.reportedCurrency.None? && m.normalizedValue.None? && m.normalizedUnit.None?
    case Monetary =>
      m.date.None? && m.reportedValue.Some? && m.reportedScale.Some? && m.reportedUnit.None?
      && Currency(m.reportedCurrency) && m.normalizedValue.Some? && m.normalizedUnit == Some("currency_major")
    case Capacity =>
      m.date.None? && m.reportedValue.Some? && m.reportedScale.None? && m.reportedUnit.Some?
      && m.reportedCurrency.None? && m.normalizedValue.Some? && CapacityUnit(m.normalizedUnit)
    case Fraction =>
      m.date.None? && m.reportedValue.Some? && m.reportedScale.None? && m.reportedUnit == Some("percent")
      && m.reportedCurrency.None? && m.normalizedValue.Some? && m.normalizedUnit == Some("fraction")
    case UnknownKind(_) => false
  }

  predicate MatchAccepted(event: Event, ev: EvidenceView, m: QuantityMatch) {
    && m.code in Compatible(event.eventType) && !m.kind.UnknownKind?
    && 0 <= m.start < m.end <= |ev.excerpt|
    && ev.excerpt[m.start..m.end] == m.rawText
    && ev.start <= ev.start + m.start < ev.start + m.end <= ev.end
    && Representable(m)
  }

  predicate EvidenceAccepted(w: World, hash: string -> Digest, req: Request, ev: EvidenceView) {
    var text := SourceText(w, hash, req.event, ev);
    && text.Some? && Slice(text.value, ev.start, ev.end) == ev.excerpt
    && forall m | m in req.ruleset.find(req.event.eventType, ev.excerpt) :: MatchAccepted(req.event, ev, m)
  }

  /** Exactly when derivation gets to writing. */
  predicate Accepted(w: World, h: Hashes, req: Request) {
    && req.ruleset.code != "" && req.ruleset.version != ""
    && EventMatches(w, h.text, req.event)
    && forall ev | ev in req.event.evidence :: EvidenceAccepted(w, h.text, req, ev)
  }

  // --- Candidates ---

  /** `format(value, "f")`; a zero has no trailing zeros. */
  function DecimalText(d: ScoreAudit.Decimal): string {
    (if d.negative then "-" else "")
      + ScoreAudit.Fixed(d.coefficient, if d.coefficient == 0 && d.exponent > 0 then 0 else d.exponent)
  }

  function TextOf(d: Option<ScoreAudit.Decimal>): Option<string> {
    if d.None? then None else Some(DecimalText(d.value))
  }

  function NumberOf(d: Option<ScoreAudit.Decimal>): Option<real> {
    if d.None? then None else Some(ScoreAudit.Value(d.value))
  }

  function PayloadOf(h: Hashes, req: Request, ev: EvidenceView, m: QuantityMatch): FactPayload {
    FactPayload(
      req.event.id, req.event.fingerprint, ev.id, ev.fingerprint, req.ruleset.code, req.ruleset.version,
      m.code, m.kind, m.ruleCode, m.ruleVersion, ev.start + m.start, ev.start + m.end, h.text(m.rawText),
      TextOf(m.reportedValue), m.reportedScale, m.reportedUnit, m.reportedCurrency, TextOf(m.normalizedValue),
      m.normalizedUnit, m.date, m.warnings)
  }

  /** The fact a match stands for, without an id. */
  function FactOf(h: Hashes, req: Request, ev: EvidenceView, m: QuantityMatch): Fact {
    Fact(
      0, ev.id, m.code, m.kind, m.ruleCode, m.ruleVersion, ev.start + m.start, ev.start + m.end, m.rawText,
      h.text(m.rawText), NumberOf(m.reportedValue), m.reportedScale, m.reportedUnit, m.reportedCurrency,
      NumberOf(m.normalizedValue), m.normalizedUnit, m.date, req.event.sourceAvailableAt, m.warnings,
      h.fact(PayloadOf(h, req, ev, m)))
  }

  function FactFingerprint(f: Fact): Digest {
    f.fingerprint
  }

  /** `deduplicated[fingerprint] = candidate` over the matches of one span. */
  function PutMatches(h: Hashes, req: Request, ev: EvidenceView, matches: seq<QuantityMatch>, d: seq<Fact>): seq<Fact>
    decreases |matches|
  {
    if matches == [] then d
    else
      var front, last := matches[..|matches| - 1], matches[|matches| - 1];
      Put(PutMatches(h, req, ev, front, d), FactOf(h, req, ev, last), FactFingerprint)
  }

  function PutEvidence(h: Hashes, req: Request, evidence: seq<EvidenceView>): seq<Fact>
    decreases |evidence|
  {
    if evidence == [] then []
    else
      var front, last := evidence[..|evidence| - 1], evidence[|evidence| - 1];
      PutMatches(h, req, last, req.ruleset.find(req.event.eventType, last.excerpt), PutEvidence(h, req, front))
  }

  function FactOrder(f: Fact): seq<int> {
    [FactRank(f.code), f.evidenceId, f.start, f.end] + TextKey(f.ruleCode) + [-1, f.fingerprint as int]
  }

  function Facts(h: Hashes, req: Request): seq<Fact> {
    Sort(PutEvidence(h, req, req.event.evidence), FactOrder)
  }

  function Codes(facts: seq<Fact>): set<FactCode> {
    set f | f in facts :: f.code
  }

  function DerivationFingerprint(h: Hashes, req: Request, facts: seq<Fact>): Digest {
    h.derivation(DerivationPayload(
      req.event.id, req.event.fingerprint, req.event.sourceAvailableAt, req.ruleset.code, req.ruleset.version,
      Map(facts, FactFingerprint), AvailableCodes(Codes(facts)), []))
  }

  // --- Writing or reusing a derivation ---

  datatype DerivationKey = DerivationKey(eventId: Uuid, rulesetCode: string, rulesetVersion: string)

  function DerivationKeyOf(d: DerivationRow): DerivationKey {
    DerivationKey(d.eventId, d.rulesetCode, d.rulesetVersion)
  }

  function FindDerivation(rows: seq<DerivationRow>, eventId: Uuid, code: string, version: string)
    : Option<DerivationRow>
  {
    FirstWith(rows, DerivationKeyOf, DerivationKey(eventId, code, version))
  }

  function CodeText(c: FactCode): string {
    match c
    case OrderValue => "order_value"
    case CapexValue => "capex_value"
    case CapacityBefore => "capacity_before"
    case CapacityAfter => "capacity_after"
    case AdditionalCapacity => "additional_capacity"
    case AcquisitionConsideration => "acquisition_consideration"
    case AcquisitionStake => "acquisition_stake_fraction"
    case CommencementDate => "commercial_commencement_date"
    case UnknownCode(name) => name
  }

  /** The repository orders by the code's text, not by its place in the fact order. */
  function RepositoryOrder(r: FactRow): seq<int> {
    TextKey(CodeText(r.fact.code)) + [-1, r.fact.evidenceId as int, r.fact.start, r.fact.end]
      + TextKey(r.fact.ruleCode) + [-1, r.fact.fingerprint as int]
  }

  function FactsOf(s: FactStore, derivationId: Uuid): seq<FactRow> {
    Filter(s.facts, (r: FactRow) => r.derivationId == derivationId)
  }

  function StoredFacts(s: FactStore, derivationId: Uuid): seq<FactRow> {
    Sort(FactsOf(s, derivationId), RepositoryOrder)
  }

  function FactWith(facts: seq<Fact>, fingerprint: Digest): Option<Fact> {
    LastWith(facts, FactFingerprint, fingerprint)
  }

  /** A stored fact is its candidate under an id. */
  predicate FactCanonical(h: Hashes, facts: seq<Fact>, f: Fact) {
    FactWith(facts, f.fingerprint) == Some(f.(id := 0)) && h.text(f.rawText) == f.rawTextDigest
  }

  predicate Reusable(h: Hashes, s: FactStore, req: Request, facts: seq<Fact>, d: DerivationRow) {
    && d.fingerprint == DerivationFingerprint(h, req, facts)
    && d.sourceAvailableAt == req.event.sourceAvailableAt
    && d.availableCodes == AvailableCodes(Codes(facts)) && d.warnings == []
    && (forall f | f in facts :: exists r | r in StoredFacts(s, d.id) :: r.fact.fingerprint == f.fingerprint)
    && (forall r | r in StoredFacts(s, d.id) :: FactCanonical(h, facts, r.fact))
  }

  function FactResults(rows: seq<FactRow>): (r: seq<FactResult>)
    ensures |r| == |rows|
    ensures forall i | 0 <= i < |r| ::
      r[i] == FactResult(rows[i].fact.id, rows[i].fact.evidenceId, rows[i].fact.code, rows[i].fact.fingerprint)
  {
    seq(|rows|, i requires 0 <= i < |rows| =>
      FactResult(rows[i].fact.id, rows[i].fact.evidenceId, rows[i].fact.code, rows[i].fact.fingerprint))
  }

  function ResultOf(d: DerivationRow, rows: seq<FactRow>, created: bool): DerivationResult {
    DerivationResult(d.id, d.fingerprint, d.availableCodes, d.warnings, FactResults(rows), created)
  }

  function NewDerivation(h: Hashes, req: Request, facts: seq<Fact>, id: Uuid): DerivationRow {
    DerivationRow(
      id, req.event.id, req.ruleset.code, req.ruleset.version, req.event.sourceAvailableAt,
      AvailableCodes(Codes(facts)), [], DerivationFingerprint(h, req, facts), req.derivedAt)
  }

  predicate DerivationTaken(s: FactStore, fingerprint: Digest) {
    exists d | d in s.derivations :: d.fingerprint == fingerprint
  }

  predicate FactTaken(s: FactStore, fingerprint: Digest) {
    exists r | r in s.facts :: r.fact.fingerprint == fingerprint
  }

  /** A store and, unless a unique key was violated, the rows added to it. */
  datatype Added = Added(store: FactStore, rows: Option<seq<FactRow>>)

  function WithFact(s: FactStore, derivationId: Uuid, f: Fact): FactStore {
    s.(facts := s.facts + [FactRow(derivationId, f.(id := s.nextId))], nextId := s.nextId + 1)
  }

  function AddFacts(s: FactStore, derivationId: Uuid, facts: seq<Fact>): Added
    decreases |facts|
  {
    if facts == [] then
      Added(s, Some([]))
    else
      var front, last := facts[..|facts| - 1], facts[|facts| - 1];
      var before := AddFacts(s, derivationId, front);
      if before.rows.None? || FactTaken(before.store, last.fingerprint) then
        Added(before.store, None)
      else
        Added(WithFact(before.store, derivationId, last),
              Some(before.rows.value + [FactRow(derivationId, last.(id := before.store.nextId))]))
  }

  datatype Outcome = Outcome(store: FactStore, result: Option<DerivationResult>)

  function WithDerivation(s: FactStore, d: DerivationRow): FactStore {
    s.(derivations := s.derivations + [d], nextId := s.nextId + 1)
  }

  function WriteOrReuse(h: Hashes, s: FactStore, req: Request, facts: seq<Fact>): Outcome {
    var existing := FindDerivation(s.derivations, req.event.id, req.ruleset.code, req.ruleset.version);
    if existing.Some? then
      if Reusable(h, s, req, facts, existing.value)
      then Outcome(s, Some(ResultOf(existing.value, StoredFacts(s, existing.value.id), false)))
      else Outcome(s, None)
    else if DerivationTaken(s, DerivationFingerprint(h, req, facts)) then
      Outcome(s, None)
    else
      var d := NewDerivation(h, req, facts, s.nextId);
      var added := AddFacts(WithDerivation(s, d), d.id, facts);
      Outcome(added.store, if added.rows.None? then None else Some(ResultOf(d, added.rows.value, true)))
  }

  function Derived(w: World, h: Hashes, s: FactStore, req: Request): Outcome {
    if Accepted(w, h, req) then WriteOrReuse(h, s, req, Facts(h, req)) else Outcome(s, None)
  }

  // --- The service ---

  /** The two tables derivation writes. */
  class FactRepository {
    var derivations: seq<DerivationRow>
    var facts: seq<FactRow>
    var nextId: nat

    constructor (s: FactStore)
      ensures Snapshot() == s
    {
      derivations, facts, nextId := s.derivations, s.facts, s.nextId;
    }

    function Snapshot(): FactStore
      reads this
    {
      FactStore(derivations, facts, nextId)
    }

    /** Add a derivation under a fresh id; None on a violated unique key. */
    method AddDerivation(d: DerivationRow) returns (r: Option<DerivationRow>)
      modifies this
      ensures var s, stored := old(Snapshot()), d.(id := old(nextId));
              if FindDerivation(s.derivations, d.eventId, d.rulesetCode, d.rulesetVersion).Some?
                 || DerivationTaken(s, d.fingerprint) then r.None? && Snapshot() == s
              else r == Some(stored) && Snapshot() == WithDerivation(s, stored)
    {
      if FindDerivation(derivations, d.eventId, d.rulesetCode, d.rulesetVersion).Some?
         || DerivationTaken(Snapshot(), d.fingerprint) {
        return None;
      }
      var stored := d.(id := nextId);
      derivations := derivations + [stored];
      nextId := nextId + 1;
      r := Some(stored);
    }

    method AddFact(derivationId: Uuid, f: Fact) returns (r: Option<FactRow>)
      modifies this
      ensures var s := old(Snapshot());
              if FactTaken(s, f.fingerprint) then r.None? && Snapshot() == s
              else r == Some(FactRow(derivationId, f.(id := s.nextId)))
                   && Snapshot() == WithFact(s, derivationId, f)
    {
      if FactTaken(Snapshot(), f.fingerprint) {
        return None;
      }
      var row := FactRow(derivationId, f.(id := nextId));
      facts := facts + [row];
      nextId := nextId + 1;
      r := Some(row);
    }
  }

  class Service {
    const repository: FactRepository
    const world: World
    const hashes: Hashes

    constructor (repository: FactRepository, world: World, hashes: Hashes)
      ensures this.repository == repository && this.world == world && this.hashes == hashes
    {
      this.repository := repository;
      this.world := world;
      this.hashes := hashes;
    }

    /** The deduplicated candidates of all evidence; None when anything is refused. */
    method Collect(req: Request) returns (r: Option<seq<Fact>>)
      ensures r.Some? <==> forall ev | ev in req.event.evidence :: EvidenceAccepted(world, hashes.text, req, ev)
      ensures r.Some? ==> r.value == PutEvidence(hashes, req, req.event.evidence)
    {
      var evidence := req.event.evidence;
      var deduplicated: seq<Fact> := [];
      for i := 0 to |evidence|
        invariant forall ev | ev in evidence[..i] :: EvidenceAccepted(world, hashes.text, req, ev)
        invariant deduplicated == PutEvidence(hashes, req, evidence[..i])
      {
        var ev := evidence[i];
        assert ev in evidence;
        assert evidence[..i + 1] == evidence[..i] + [ev] && evidence[..i + 1][..i] == evidence[..i];
        var next := CollectOne(req, ev, deduplicated);
        if next.None? {
          return None;
        }
        deduplicated := next.value;
        hide EvidenceAccepted, PutMatches;
      }
      assert evidence[..|evidence|] == evidence;
      r := Some(deduplicated);
    }

    /** One span: its source text, then its matches. */
    method CollectOne(req: Request, ev: EvidenceView, before: seq<Fact>) returns (r: Option<seq<Fact>>)
      ensures r.Some? <==> EvidenceAccepted(world, hashes.text, req, ev)
      ensures r.Some? ==>
                r.value == PutMatches(hashes, req, ev, req.ruleset.find(req.event.eventType, ev.excerpt), before)
    {
      hide SourceText, MatchAccepted, FactOf, Put;
      var text := SourceText(world, hashes.text, req.event, ev);
      if text.None? || Slice(text.value, ev.start, ev.end) != ev.excerpt {
        return None;
      }
      var matches := req.ruleset.find(req.event.eventType, ev.excerpt);
      var deduplicated := before;
      for i := 0 to |matches|
        invariant forall m | m in matches[..i] :: MatchAccepted(req.event, ev, m)
        invariant deduplicated == PutMatches(hashes, req, ev, matches[..i], before)
      {
        var m := matches[i];
        if !MatchAccepted(req.event, ev, m) {
          assert m in matches;
          return None;
        }
        assert matches[..i + 1] == matches[..i] + [m] && matches[..i + 1][..i] == matches[..i];
        deduplicated := Put(deduplicated, FactOf(hashes, req, ev, m), FactFingerprint);
      }
      assert matches[..|matches|] == matches;
      r := Some(deduplicated);
    }

    /** Store facts one by one under fresh ids. */
    method Persist(derivationId: Uuid, facts: seq<Fact>) returns (r: Option<seq<FactRow>>)
      modifies repository
      ensures Added(repository.Snapshot(), r) == AddFacts(old(repository.Snapshot()), derivationId, facts)
    {
      hide WithFact, FactTaken;
      ghost var s := repository.Snapshot();
      var rows: seq<FactRow> := [];
      for i := 0 to |facts|
        invariant Added(repository.Snapshot(), Some(rows)) == AddFacts(s, derivationId, facts[..i])
      {
        assert facts[..i + 1][..i] == facts[..i];
        var row := repository.AddFact(derivationId, facts[i]);
        if row.None? {
          AddFactsStops(s, derivationId, facts, i);
          return None;
        }
        rows := rows + [row.value];
      }
      assert facts[..|facts|] == facts;
      r := Some(rows);
    }

    method Derive(req: Request) returns (r: Option<DerivationResult>)
      modifies repository
      ensures Outcome(repository.Snapshot(), r) == Derived(world, hashes, old(repository.Snapshot()), req)
    {
      if req.ruleset.code == "" || req.ruleset.version == "" || !EventMatches(world, hashes.text, req.event) {
        return None;
      }
      hide EventMatches, EvidenceAccepted, PutEvidence, Sort, DerivationFingerprint, AvailableCodes, Reusable, AddFacts,
           FindDerivation, StoredFacts;
      var collected := Collect(req);
      if collected.None? {
        return None;
      }
      var facts := Sort(collected.value, FactOrder);
      var existing := FindDerivation(repository.derivations, req.event.id, req.ruleset.code, req.ruleset.version);
      if existing.Some? {
        if Reusable(hashes, repository.Snapshot(), req, facts, existing.value) {
          return Some(ResultOf(existing.value, StoredFacts(repository.Snapshot(), existing.value.id), false));
        }
        return None;
      }
      var derivation := repository.AddDerivation(NewDerivation(hashes, req, facts, 0));
      if derivation.None? {
        return None;
      }
      var rows := Persist(derivation.value.id, facts);
      if rows.None? {
        return None;
      }
      r := Some(ResultOf(derivation.value, rows.value, true));
    }
  }

  /** A violated key ends the loop for good. */
  lemma {:induction false} AddFactsStops(s: FactStore, derivationId: Uuid, facts: seq<Fact>, i: nat)
    requires i < |facts| && AddFacts(s, derivationId, facts[..i]).rows.Some?
    requires FactTaken(AddFacts(s, derivationId, facts[..i]).store, facts[i].fingerprint)
    ensures AddFacts(s, derivationId, facts) == Added(AddFacts(s, derivationId, facts[..i]).store, None)
    decreases |facts|
  {
    hide FactTaken, WithFact;
    var front := facts[..|facts| - 1];
    if i < |facts| - 1 {
      assert front[..i] == facts[..i];
      AddFactsStops(s, derivationId, front, i);
    } else {
      assert front == facts[..i];
    }
  }
}
