/** Detecting business events: rule matches become evidence spans, stored once and reused on replay. */
module Detection {
  import opened Prelude
  import opened Sorting
  import opened Dictionaries
  import opened EventModel
  import opened Spans
  import opened EventStore

  datatype Match = Match(eventType: EventType, ruleCode: string, ruleVersion: string, start: int, end: int)

  /** A ruleset is any function from text to matches. */
  datatype Ruleset = Ruleset(code: string, version: string, find: string -> seq<Match>)

  datatype EvidencePayload = EvidencePayload(
    announcementId: Uuid, kind: EvidenceKind, documentId: Option<Uuid>, assetId: Option<Uuid>,
    extractionId: Option<Uuid>, ruleCode: string, ruleVersion: string, start: int, end: int,
    excerptDigest: Digest, pageNumbers: seq<int>, pageDigests: seq<Digest>)

  datatype EventPayload = EventPayload(
    companyId: Uuid, securityId: Option<Uuid>, announcementId: Uuid, datasetId: Uuid, eventType: EventType,
    date: Option<Date>, sourceAvailableAt: Instant, rulesetCode: string, rulesetVersion: string,
    matchedRuleCodes: seq<string>, evidence: seq<Digest>)

  /** SHA-256 over UTF-8 text and over canonical payloads. */
  datatype Hashes = Hashes(text: string -> Digest, evidence: EvidencePayload -> Digest, event: EventPayload -> Digest)

  ghost predicate CollisionFree(h: Hashes) {
    && (forall a, b | h.text(a) == h.text(b) :: a == b)
    && (forall a, b | h.evidence(a) == h.evidence(b) :: a == b)
  }

  /** An extracted text as the caller supplies it. */
  datatype SuppliedText = SuppliedText(
    document: Document, asset: Asset, extraction: Extraction, sourceAvailableAt: Instant,
    text: Option<string>, pages: seq<Page>)

  datatype Request = Request(
    announcement: Announcement, texts: seq<SuppliedText>, ruleset: Ruleset, derivedAt: Instant)

  datatype EvidenceResult = EvidenceResult(id: Uuid, kind: EvidenceKind, ruleCode: string, fingerprint: Digest)

  datatype EventResult = EventResult(
    id: Uuid, eventType: EventType, fingerprint: Digest, evidence: seq<EvidenceResult>, created: bool)

  // --- What is checked before anything is written ---

  /** The announcement under the name its own source record carries; a caller may leave that field different. */
  function Canonical(a: Announcement): Announcement {
    a.(documents := [], source := a.source.(externalRecordId := a.externalRecordId))
  }

  predicate DocumentsMatch(a: Announcement, stored: seq<StoredDocument>) {
    && (forall i, j | 0 <= i < j < |a.documents| :: a.documents[i].id != a.documents[j].id)
    && (forall d | d in a.documents :: exists x | x in stored :: x.document.id == d.id)
    && (forall x | x in stored ::
          && DocumentById(a.documents, x.document.id) == Some(x.document)
          && x.sourceDatasetId == a.datasetId && x.document.source.validation == "accepted")
  }

  predicate AnnouncementMatches(lineage: Lineage, a: Announcement) {
    && a.source.validation == "accepted"
    && a.id in lineage.announcements
    && var stored := lineage.announcements[a.id];
    && Canonical(a) == stored.announcement && stored.sourceDatasetId == a.datasetId
    && DocumentsMatch(a, stored.documents)
  }

  predicate TextMatches(lineage: Lineage, h: Hashes, a: Announcement, t: SuppliedText) {
    && DocumentById(a.documents, t.document.id) == Some(t.document)
    && t.document.companyId == a.companyId && t.document.securityId == a.securityId
    && t.document.datasetId == a.datasetId
    && t.document.availableAt == a.availableAt && t.sourceAvailableAt == a.availableAt
    && t.asset.documentId == t.document.id && t.extraction.assetId == t.asset.id
    && t.asset.id in lineage.assets && lineage.assets[t.asset.id] == t.asset
    && t.extraction.id in lineage.extractions && lineage.extractions[t.extraction.id].extraction == t.extraction
    && t.asset.status in ACCEPTED_ASSETS
    && if t.extraction.status != "success" then t.text.None?
       else
         && t.text.Some? && t.extraction.textDigest.Some?
         && h.text(t.text.value) == t.extraction.textDigest.value
         && t.extraction.characterCount == Some(|t.text.value|)
         && t.extraction.pageCount == Some(|t.pages|)
         && PagesCoherent(t.text.value, t.pages, lineage.extractions[t.extraction.id].pageMap, h.text)
  }

  // --- Candidates ---

  /** A text the rules run on: the headline, or one page of a document text that starts at `base` of `whole`. */
  datatype Source = Source(
    kind: EvidenceKind, documentId: Option<Uuid>, assetId: Option<Uuid>, extractionId: Option<Uuid>,
    text: string, base: int, whole: string, pageNumbers: seq<int>, pageDigests: seq<Digest>)

  function HeadlineSource(a: Announcement): Source {
    Source(Headline, None, None, None, a.headline, 0, a.headline, [], [])
  }

  function PageSource(t: SuppliedText, p: Page): Source {
    Source(DocumentText, Some(t.document.id), Some(t.asset.id), Some(t.extraction.id),
           p.text.GetOr([]), p.start, t.text.GetOr([]), [p.number], [p.digest])
  }

  predicate HasPages(t: SuppliedText) {
    t.extraction.status == "success" && t.text.Some?
  }

  predicate MatchAccepted(m: Match, length: nat) {
    0 <= m.start < m.end <= length && m.ruleCode != "" && m.ruleVersion != ""
  }

  function LocalWindow(src: Source, m: Match): Span
    requires MatchAccepted(m, |src.text|)
  {
    ContextBounds(src.text, Span(m.start, m.end), src.kind == DocumentText)
  }

  function Window(src: Source, m: Match): Span
    requires MatchAccepted(m, |src.text|)
  {
    var local := LocalWindow(src, m);
    Span(src.base + local.start, src.base + local.end)
  }

  /** The match is in range and of a known type, and its window selects the same text locally and in the whole. */
  predicate SpanAccepted(src: Source, m: Match) {
    && MatchAccepted(m, |src.text|)
    && m.eventType in TYPE_ORDER
    && var local, window := LocalWindow(src, m), Window(src, m);
       Slice(src.whole, window.start, window.end) == Slice(src.text, local.start, local.end)
  }

  function ContentOf(h: Hashes, announcementId: Uuid, src: Source, m: Match): Content
    requires MatchAccepted(m, |src.text|)
  {
    var window := Window(src, m);
    var excerpt := Slice(src.whole, window.start, window.end);
    var digest := h.text(excerpt);
    var payload := EvidencePayload(
      announcementId, src.kind, src.documentId, src.assetId, src.extractionId, m.ruleCode, m.ruleVersion,
      window.start, window.end, digest, src.pageNumbers, src.pageDigests);
    Content(
      src.kind, src.documentId, src.assetId, src.extractionId, m.ruleCode, m.ruleVersion, window.start, window.end,
      src.pageNumbers, src.pageDigests, excerpt, digest, h.evidence(payload))
  }

  datatype Candidate = Candidate(eventType: EventType, content: Content)

  function CandidateOf(h: Hashes, announcementId: Uuid, src: Source, m: Match): Candidate
    requires MatchAccepted(m, |src.text|)
  {
    Candidate(m.eventType, ContentOf(h, announcementId, src, m))
  }

  predicate SourceAccepted(ruleset: Ruleset, src: Source) {
    forall m | m in ruleset.find(src.text) :: SpanAccepted(src, m)
  }

  predicate TextAccepted(lineage: Lineage, h: Hashes, req: Request, t: SuppliedText) {
    && TextMatches(lineage, h, req.announcement, t)
    && (HasPages(t) ==> forall p | p in t.pages :: SourceAccepted(req.ruleset, PageSource(t, p)))
  }

  /** Exactly when detection gets to writing. */
  predicate Accepted(lineage: Lineage, h: Hashes, req: Request) {
    && req.ruleset.code != "" && req.ruleset.version != ""
    && AnnouncementMatches(lineage, req.announcement)
    && SourceAccepted(req.ruleset, HeadlineSource(req.announcement))
    && forall t | t in req.texts :: TextAccepted(lineage, h, req, t)
  }

  function FromMatches(h: Hashes, announcementId: Uuid, src: Source, matches: seq<Match>): (r: seq<Candidate>)
    requires forall m | m in matches :: SpanAccepted(src, m)
    decreases |matches|
  {
    if matches == [] then []
    else
      var front, last := matches[..|matches| - 1], matches[|matches| - 1];
      assert SpanAccepted(src, last);
      FromMatches(h, announcementId, src, front) + [CandidateOf(h, announcementId, src, last)]
  }

  function FromSource(h: Hashes, req: Request, src: Source): seq<Candidate>
    requires SourceAccepted(req.ruleset, src)
  {
    FromMatches(h, req.announcement.id, src, req.ruleset.find(src.text))
  }

  function FromPages(h: Hashes, req: Request, t: SuppliedText, pages: seq<Page>): seq<Candidate>
    requires forall p | p in pages :: SourceAccepted(req.ruleset, PageSource(t, p))
    decreases |pages|
  {
    if pages == [] then []
    else
      var front, last := pages[..|pages| - 1], pages[|pages| - 1];
      assert SourceAccepted(req.ruleset, PageSource(t, last));
      FromPages(h, req, t, front) + FromSource(h, req, PageSource(t, last))
  }

  function FromText(lineage: Lineage, h: Hashes, req: Request, t: SuppliedText): seq<Candidate>
    requires TextAccepted(lineage, h, req, t)
  {
    if HasPages(t) then FromPages(h, req, t, t.pages) else []
  }

  function FromTexts(lineage: Lineage, h: Hashes, req: Request, texts: seq<SuppliedText>): seq<Candidate>
    requires forall t | t in texts :: TextAccepted(lineage, h, req, t)
    decreases |texts|
  {
    if texts == [] then []
    else
      var front, last := texts[..|texts| - 1], texts[|texts| - 1];
      assert TextAccepted(lineage, h, req, last);
      FromTexts(lineage, h, req, front) + FromText(lineage, h, req, last)
  }

  function Candidates(lineage: Lineage, h: Hashes, req: Request): seq<Candidate>
    requires Accepted(lineage, h, req)
  {
    FromSource(h, req, HeadlineSource(req.announcement)) + FromTexts(lineage, h, req, req.texts)
  }

  // --- Grouping ---

  function ContentFingerprint(c: Content): Digest {
    c.fingerprint
  }

  function Bucket(candidates: seq<Candidate>, t: EventType): seq<Content>
    decreases |candidates|
  {
    if candidates == [] then []
    else
      var front, last := candidates[..|candidates| - 1], candidates[|candidates| - 1];
      if last.eventType == t then Put(Bucket(front, t), last.content, ContentFingerprint) else Bucket(front, t)
  }

  function Ordered(candidates: seq<Candidate>, t: EventType): seq<Content> {
    Sort(Bucket(candidates, t), ContentKey)
  }

  function RuleCodes(contents: seq<Content>): seq<string> {
    Map(contents, (c: Content) => c.ruleCode)
  }

  function Fingerprints(contents: seq<Content>): seq<Digest> {
    Map(contents, ContentFingerprint)
  }

  // --- Writing or reusing one event ---

  function KeyFor(req: Request, t: EventType): EventKey {
    EventKey(req.announcement.id, t, req.ruleset.code, req.ruleset.version)
  }

  function EventFingerprint(h: Hashes, req: Request, t: EventType, ordered: seq<Content>): Digest {
    var a := req.announcement;
    h.event(EventPayload(
      a.companyId, a.securityId, a.id, a.datasetId, t, a.date, a.availableAt, req.ruleset.code, req.ruleset.version,
      Unique(RuleCodes(ordered)), Fingerprints(ordered)))
  }

  function NewEvent(h: Hashes, req: Request, t: EventType, ordered: seq<Content>, id: Uuid): EventRow {
    var a := req.announcement;
    EventRow(
      id, a.companyId, a.securityId, a.id, a.datasetId, t, a.date, a.availableAt, req.ruleset.code,
      req.ruleset.version, Unique(RuleCodes(ordered)), "detected", [], EventFingerprint(h, req, t, ordered),
      req.derivedAt)
  }

  function NewEvidence(req: Request, eventId: Uuid, contents: seq<Content>, firstId: nat): (r: seq<EvidenceRow>)
    ensures |r| == |contents|
    ensures forall i | 0 <= i < |r| ::
      r[i] == EvidenceRow(firstId + i, eventId, req.announcement.id, contents[i], req.announcement.availableAt)
  {
    seq(|contents|, i requires 0 <= i < |contents| =>
      EvidenceRow(firstId + i, eventId, req.announcement.id, contents[i], req.announcement.availableAt))
  }

  function ResultOf(e: EventRow, rows: seq<EvidenceRow>, created: bool): EventResult {
    EventResult(
      e.id, e.eventType, e.fingerprint,
      seq(|rows|, i requires 0 <= i < |rows| =>
        EvidenceResult(rows[i].id, rows[i].content.kind, rows[i].content.ruleCode, rows[i].content.fingerprint)),
      created)
  }

  function ContentWith(contents: seq<Content>, fingerprint: Digest): Option<Content> {
    LastWith(contents, ContentFingerprint, fingerprint)
  }

  /** The row fields of a stored event, compared with what would be written now. */
  predicate EventCanonical(h: Hashes, req: Request, t: EventType, ordered: seq<Content>, e: EventRow) {
    && e.fingerprint == EventFingerprint(h, req, t, ordered)
    && e.companyId == req.announcement.companyId && e.securityId == req.announcement.securityId
    && e.datasetId == req.announcement.datasetId && e.date == req.announcement.date
    && e.sourceAvailableAt == req.announcement.availableAt
    && e.matchedRuleCodes == Unique(RuleCodes(ordered))
    && e.status == "detected" && e.warnings == []
  }

  function RowFingerprints(rows: seq<EvidenceRow>): seq<Digest> {
    Map(rows, (r: EvidenceRow) => r.content.fingerprint)
  }

  predicate EvidenceCanonical(h: Hashes, ordered: seq<Content>, e: EventRow, row: EvidenceRow) {
    && row.announcementId == e.announcementId
    && ContentWith(ordered, row.content.fingerprint) == Some(row.content)
    && row.sourceAvailableAt == e.sourceAvailableAt
    && h.text(row.content.excerpt) == row.content.excerptDigest
  }

  /** When a stored event is reused; sorted lists of fingerprints are equal when they are equal as multisets. */
  predicate Reusable(h: Hashes, s: Store, req: Request, t: EventType, ordered: seq<Content>, e: EventRow) {
    && EventCanonical(h, req, t, ordered, e)
    && multiset(RowFingerprints(EvidenceOf(s, e.id))) == multiset(Fingerprints(ordered))
    && forall row | row in EvidenceOf(s, e.id) :: EvidenceCanonical(h, ordered, e, row)
  }

  function Written(h: Hashes, s: Store, req: Request, t: EventType, ordered: seq<Content>): Store {
    Store(
      s.events + [NewEvent(h, req, t, ordered, s.nextId)],
      s.evidence + NewEvidence(req, s.nextId, ordered, s.nextId + 1),
      s.nextId + 1 + |ordered|)
  }

  /** A store and, unless the call raised, its results. */
  datatype Outcome = Outcome(store: Store, results: Option<seq<EventResult>>)

  function DetectType(h: Hashes, s: Store, req: Request, t: EventType, ordered: seq<Content>): Outcome {
    var existing := FindEvent(s.events, KeyFor(req, t));
    if ordered == [] then
      Outcome(s, Some([]))
    else if existing.Some? then
      if Reusable(h, s, req, t, ordered, existing.value)
      then Outcome(s, Some([ResultOf(existing.value, EvidenceOf(s, existing.value.id), false)]))
      else Outcome(s, None)
    else if Taken(s.events, EventFingerprint(h, req, t, ordered)) then
      Outcome(s, None)
    else
      var event := NewEvent(h, req, t, ordered, s.nextId);
      Outcome(Written(h, s, req, t, ordered),
              Some([ResultOf(event, NewEvidence(req, event.id, ordered, s.nextId + 1), true)]))
  }

  function DetectFrom(h: Hashes, s: Store, req: Request, candidates: seq<Candidate>, n: nat): Outcome
    requires n <= |TYPE_ORDER|
    decreases |TYPE_ORDER| - n
  {
    if n == |TYPE_ORDER| then
      Outcome(s, Some([]))
    else
      var first := DetectType(h, s, req, TYPE_ORDER[n], Ordered(candidates, TYPE_ORDER[n]));
      if first.results.None? then first
      else
        var rest := DetectFrom(h, first.store, req, candidates, n + 1);
        Outcome(rest.store, if rest.results.None? then None else Some(first.results.value + rest.results.value))
  }

  function Detected(lineage: Lineage, h: Hashes, s: Store, req: Request): Outcome {
    if Accepted(lineage, h, req) then DetectFrom(h, s, req, Candidates(lineage, h, req), 0) else Outcome(s, None)
  }

  // --- Stores ---

  ghost predicate DistinctFingerprints(contents: seq<Content>) {
    Distinct(contents, ContentFingerprint)
  }

  /** Writing an event under an unused key keeps the store valid. */
  lemma WrittenValid(h: Hashes, s: Store, req: Request, t: EventType, ordered: seq<Content>)
    requires ValidStore(s) && FindEvent(s.events, KeyFor(req, t)).None?
    ensures ValidStore(Written(h, s, req, t, ordered))
  {
    hide EventFingerprint, Unique, RuleCodes, FindEvent;
    var w := Written(h, s, req, t, ordered);
    var event, rows := NewEvent(h, req, t, ordered, s.nextId), NewEvidence(req, s.nextId, ordered, s.nextId + 1);
    assert KeyOf(event) == KeyFor(req, t) && event.id == s.nextId;
    hide NewEvent, NewEvidence, KeyFor;
    forall e | e in w.events ensures e.id < w.nextId {
      if e != event { assert e in s.events; }
    }
    forall r | r in w.evidence ensures r.id < w.nextId && r.eventId < w.nextId {
      if r !in s.evidence { assert r in rows; }
    }
    forall i, j | 0 <= i < j < |w.events|
      ensures w.events[i].id != w.events[j].id && KeyOf(w.events[i]) != KeyOf(w.events[j])
    {
      assert w.events[i] == s.events[i] && s.events[i] in s.events;
    }
    forall i, j | 0 <= i < j < |w.evidence| ensures w.evidence[i].id != w.evidence[j].id {
      if i < |s.evidence| { assert w.evidence[i] in s.evidence; }
      if j >= |s.evidence| { assert w.evidence[j] == rows[j - |s.evidence|]; }
      if i >= |s.evidence| { assert w.evidence[i] == rows[i - |s.evidence|]; }
    }
  }

  lemma DetectTypeValid(h: Hashes, s: Store, req: Request, t: EventType, ordered: seq<Content>)
    requires ValidStore(s)
    ensures ValidStore(DetectType(h, s, req, t, ordered).store)
  {
    if FindEvent(s.events, KeyFor(req, t)).None? { WrittenValid(h, s, req, t, ordered); }
    hide Reusable, EventFingerprint, Written, ValidStore, FindEvent, NewEvent, NewEvidence, ResultOf, Taken;
  }

  // --- The service ---

  class Service {
    const repository: Repository
    const hashes: Hashes

    constructor (repository: Repository, hashes: Hashes)
      ensures this.repository == repository && this.hashes == hashes
    {
      this.repository := repository;
      this.hashes := hashes;
    }

    /** The candidates of one text; None when a match is refused. */
    method CollectSource(req: Request, src: Source) returns (r: Option<seq<Candidate>>)
      ensures r.Some? <==> SourceAccepted(req.ruleset, src)
      ensures r.Some? ==> r.value == FromSource(hashes, req, src)
    {
      var matches := req.ruleset.find(src.text);
      var candidates: seq<Candidate> := [];
      for i := 0 to |matches|
        invariant forall m | m in matches[..i] :: SpanAccepted(src, m)
        invariant candidates == FromMatches(hashes, req.announcement.id, src, matches[..i])
      {
        var m := matches[i];
        assert SourceAccepted(req.ruleset, src) ==> SpanAccepted(src, m);
        if !MatchAccepted(m, |src.text|) || m.eventType !in TYPE_ORDER {
          return None;
        }
        var local, window := LocalWindow(src, m), Window(src, m);
        if Slice(src.whole, window.start, window.end) != Slice(src.text, local.start, local.end) {
          return None;
        }
        hide SpanAccepted, CandidateOf, FromMatches;
        FromMatchesStep(hashes, req.announcement.id, src, matches, i);
        candidates := candidates + [CandidateOf(hashes, req.announcement.id, src, m)];
      }
      assert matches[..|matches|] == matches;
      r := Some(candidates);
    }

    /** The candidates of one supplied text, page by page. */
    method CollectText(req: Request, t: SuppliedText) returns (r: Option<seq<Candidate>>)
      ensures r.Some? <==> TextAccepted(repository.lineage, hashes, req, t)
      ensures r.Some? ==> r.value == FromText(repository.lineage, hashes, req, t)
    {
      var matched := ValidateText(req, t);
      if !matched {
        return None;
      }
      if !HasPages(t) {
        return Some([]);
      }
      hide TextMatches, SourceAccepted, PageSource;
      var candidates: seq<Candidate> := [];
      for i := 0 to |t.pages|
        invariant forall p | p in t.pages[..i] :: SourceAccepted(req.ruleset, PageSource(t, p))
        invariant candidates == FromPages(hashes, req, t, t.pages[..i])
      {
        var page := t.pages[i];
        assert page in t.pages;
        var found := CollectSource(req, PageSource(t, page));
        if found.None? {
          return None;
        }
        FromPagesStep(hashes, req, t, i);
        hide FromPages, FromSource;
        candidates := candidates + found.value;
      }
      assert t.pages[..|t.pages|] == t.pages;
      r := Some(candidates);
    }

    method ValidateText(req: Request, t: SuppliedText) returns (ok: bool)
      ensures ok <==> TextMatches(repository.lineage, hashes, req.announcement, t)
    {
      var a, lineage := req.announcement, repository.lineage;
      var document := DocumentById(a.documents, t.document.id);
      if document != Some(t.document) || t.document.companyId != a.companyId || t.document.securityId != a.securityId
         || t.document.datasetId != a.datasetId || t.document.availableAt != a.availableAt
         || t.sourceAvailableAt != a.availableAt {
        return false;
      }
      if t.asset.documentId != t.document.id || t.extraction.assetId != t.asset.id {
        return false;
      }
      if t.asset.id !in lineage.assets || t.extraction.id !in lineage.extractions {
        return false;
      }
      var stored := lineage.extractions[t.extraction.id];
      if lineage.assets[t.asset.id] != t.asset || stored.extraction != t.extraction
         || t.asset.status !in ACCEPTED_ASSETS {
        return false;
      }
      if t.extraction.status != "success" {
        return t.text.None?;
      }
      if t.text.None? || t.extraction.textDigest.None? {
        return false;
      }
      var text := t.text.value;
      if hashes.text(text) != t.extraction.textDigest.value || t.extraction.characterCount != Some(|text|)
         || t.extraction.pageCount != Some(|t.pages|) {
        return false;
      }
      ok := ValidatePages(text, t.pages, stored.pageMap, hashes.text);
    }

    /** All candidates of a call; None when anything is refused. */
    method Collect(req: Request) returns (r: Option<seq<Candidate>>)
      ensures r.Some? <==> Accepted(repository.lineage, hashes, req)
      ensures r.Some? ==> r.value == Candidates(repository.lineage, hashes, req)
    {
      if req.ruleset.code == "" || req.ruleset.version == "" || !AnnouncementMatches(repository.lineage, req.announcement) {
        return None;
      }
      hide AnnouncementMatches, SourceAccepted, TextAccepted, HeadlineSource;
      var headline := CollectSource(req, HeadlineSource(req.announcement));
      if headline.None? {
        return None;
      }
      var candidates: seq<Candidate> := [];
      for i := 0 to |req.texts|
        invariant forall t | t in req.texts[..i] :: TextAccepted(repository.lineage, hashes, req, t)
        invariant candidates == FromTexts(repository.lineage, hashes, req, req.texts[..i])
      {
        var t := req.texts[i];
        assert t in req.texts;
        var found := CollectText(req, t);
        if found.None? {
          return None;
        }
        FromTextsStep(repository.lineage, hashes, req, i);
        hide FromTexts, FromText;
        candidates := candidates + found.value;
      }
      assert req.texts[..|req.texts|] == req.texts;
      r := Some(headline.value + candidates);
    }

    /** The nested dictionaries of candidates, filled in one pass. */
    method Group(candidates: seq<Candidate>) returns (grouped: map<EventType, seq<Content>>)
      ensures forall t :: (if t in grouped then grouped[t] else []) == Bucket(candidates, t)
    {
      grouped := map[];
      for i := 0 to |candidates|
        invariant forall t :: (if t in grouped then grouped[t] else []) == Bucket(candidates[..i], t)
      {
        var c := candidates[i];
        assert candidates[..i + 1][..i] == candidates[..i];
        var before := if c.eventType in grouped then grouped[c.eventType] else [];
        hide Put;
        grouped := grouped[c.eventType := Put(before, c.content, ContentFingerprint)];
      }
      assert candidates[..|candidates|] == candidates;
    }

    /** Store the event and its evidence under fresh ids. */
    method Persist(req: Request, t: EventType, ordered: seq<Content>) returns (r: Option<EventResult>)
      requires ValidStore(repository.Snapshot()) && FindEvent(repository.events, KeyFor(req, t)).None?
      requires DistinctFingerprints(ordered)
      modifies repository
      ensures var s := old(repository.Snapshot());
              if Taken(s.events, EventFingerprint(hashes, req, t, ordered)) then r.None? && repository.Snapshot() == s
              else
                && repository.Snapshot() == Written(hashes, s, req, t, ordered)
                && r == Some(ResultOf(NewEvent(hashes, req, t, ordered, s.nextId),
                                      NewEvidence(req, s.nextId, ordered, s.nextId + 1), true))
    {
      assert KeyOf(NewEvent(hashes, req, t, ordered, 0)) == KeyFor(req, t);
      hide EventFingerprint, Unique, RuleCodes, KeyFor;
      ghost var s := repository.Snapshot();
      var added := repository.AddEvent(NewEvent(hashes, req, t, ordered, 0));
      if added.None? {
        return None;
      }
      hide NewEvent, Taken, FindEvent, ResultOf;
      var rows := StoreEvidence(req, added.value.id, ordered);
      r := Some(ResultOf(added.value, rows, true));
    }

    /** The evidence rows of a new event, in order. */
    method StoreEvidence(req: Request, eventId: Uuid, contents: seq<Content>) returns (rows: seq<EvidenceRow>)
      requires forall x | x in repository.evidence :: x.eventId != eventId
      requires DistinctFingerprints(contents)
      modifies repository
      ensures rows == NewEvidence(req, eventId, contents, old(repository.nextId))
      ensures var s := old(repository.Snapshot());
              repository.Snapshot() == Store(s.events, s.evidence + rows, s.nextId + |contents|)
    {
      rows := [];
      for i := 0 to |contents|
        invariant repository.events == old(repository.events) && repository.nextId == old(repository.nextId) + i
        invariant rows == NewEvidence(req, eventId, contents[..i], old(repository.nextId))
        invariant repository.evidence == old(repository.evidence) + rows
      {
        NewEvidenceStep(req, eventId, contents, i, old(repository.nextId));
        var row := repository.AddEvidence(eventId, req.announcement.id, contents[i], req.announcement.availableAt);
        assert row.Some?;
        rows := rows + [row.value];
      }
      assert contents[..|contents|] == contents;
    }

    /** One event type with candidates: reuse what is stored or write it. */
    method DetectOne(req: Request, t: EventType, bucket: seq<Content>) returns (r: Option<EventResult>)
      requires bucket != [] && ValidStore(repository.Snapshot()) && DistinctFingerprints(bucket)
      modifies repository
      ensures var o := DetectType(hashes, old(repository.Snapshot()), req, t, Sort(bucket, ContentKey));
              && repository.Snapshot() == o.store
              && (r.None? <==> o.results.None?) && (r.Some? ==> o.results == Some([r.value]))
    {
      var ordered := Sort(bucket, ContentKey);
      SortKeepsDistinct(bucket);
      var existing := FindEvent(repository.events, KeyFor(req, t));
      hide Reusable, EventFingerprint, Sort, Written, NewEvent, NewEvidence, ResultOf, FindEvent, EvidenceOf;
      if existing.Some? {
        if Reusable(hashes, repository.Snapshot(), req, t, ordered, existing.value) {
          return Some(ResultOf(existing.value, EvidenceOf(repository.Snapshot(), existing.value.id), false));
        }
        return None;
      }
      r := Persist(req, t, ordered);
    }

    /** Detect the events of an announcement: all candidates first, then one event per type, in the types' order. */
    method Detect(req: Request) returns (r: Option<seq<EventResult>>)
      requires ValidStore(repository.Snapshot())
      modifies repository
      ensures Outcome(repository.Snapshot(), r)
              == Detected(repository.lineage, hashes, old(repository.Snapshot()), req)
      ensures ValidStore(repository.Snapshot())
    {
      hide Accepted, Candidates, DetectType, Bucket, ValidStore, Sort;
      var collected := Collect(req);
      if collected.None? {
        return None;
      }
      var candidates := collected.value;
      var grouped := Group(candidates);
      ghost var goal := DetectFrom(hashes, repository.Snapshot(), req, candidates, 0);
      var results: seq<EventResult> := [];
      AppendedNothing(goal);
      for n := 0 to |TYPE_ORDER|
        invariant ValidStore(repository.Snapshot())
        invariant goal == Appended(results, DetectFrom(hashes, repository.Snapshot(), req, candidates, n))
      {
        var t := TYPE_ORDER[n];
        ghost var s := repository.Snapshot();
        ghost var ordered := Ordered(candidates, t);
        DetectStep(hashes, s, req, candidates, n, results);
        DetectTypeValid(hashes, s, req, t, ordered);
        BucketDistinct(candidates, t);
        hide DetectFrom, Appended;
        if t in grouped && grouped[t] != [] {
          var one := DetectOne(req, t, grouped[t]);
          if one.None? {
            return None;
          }
          results := results + [one.value];
        } else {
          DetectNothing(hashes, s, req, t);
          assert results + [] == results;
        }
      }
      AppendedToNothing(results, repository.Snapshot());
      r := Some(results);
    }
  }

  // --- The loops over matches, pages, texts and rows ---

  lemma FromMatchesStep(h: Hashes, announcementId: Uuid, src: Source, matches: seq<Match>, i: nat)
    requires i < |matches| && forall m | m in matches[..i] :: SpanAccepted(src, m)
    requires SpanAccepted(src, matches[i])
    ensures forall m | m in matches[..i + 1] :: SpanAccepted(src, m)
    ensures FromMatches(h, announcementId, src, matches[..i + 1]) ==
            FromMatches(h, announcementId, src, matches[..i]) + [CandidateOf(h, announcementId, src, matches[i])]
  {
    hide SpanAccepted, CandidateOf;
    assert matches[..i + 1] == matches[..i] + [matches[i]] && matches[..i + 1][..i] == matches[..i];
  }

  lemma FromPagesStep(h: Hashes, req: Request, t: SuppliedText, i: nat)
    requires i < |t.pages| && forall p | p in t.pages[..i] :: SourceAccepted(req.ruleset, PageSource(t, p))
    requires SourceAccepted(req.ruleset, PageSource(t, t.pages[i]))
    ensures forall p | p in t.pages[..i + 1] :: SourceAccepted(req.ruleset, PageSource(t, p))
    ensures FromPages(h, req, t, t.pages[..i + 1]) ==
            FromPages(h, req, t, t.pages[..i]) + FromSource(h, req, PageSource(t, t.pages[i]))
  {
    hide SourceAccepted, FromSource, PageSource;
    assert t.pages[..i + 1] == t.pages[..i] + [t.pages[i]] && t.pages[..i + 1][..i] == t.pages[..i];
  }

  lemma FromTextsStep(lineage: Lineage, h: Hashes, req: Request, i: nat)
    requires i < |req.texts| && forall t | t in req.texts[..i] :: TextAccepted(lineage, h, req, t)
    requires TextAccepted(lineage, h, req, req.texts[i])
    ensures forall t | t in req.texts[..i + 1] :: TextAccepted(lineage, h, req, t)
    ensures FromTexts(lineage, h, req, req.texts[..i + 1]) ==
            FromTexts(lineage, h, req, req.texts[..i]) + FromText(lineage, h, req, req.texts[i])
  {
    hide TextAccepted, FromText;
    assert req.texts[..i + 1] == req.texts[..i] + [req.texts[i]] && req.texts[..i + 1][..i] == req.texts[..i];
  }

  lemma NewEvidenceStep(req: Request, eventId: Uuid, contents: seq<Content>, i: nat, firstId: nat)
    requires i < |contents|
    ensures NewEvidence(req, eventId, contents[..i + 1], firstId) ==
            NewEvidence(req, eventId, contents[..i], firstId)
            + [EvidenceRow(firstId + i, eventId, req.announcement.id, contents[i], req.announcement.availableAt)]
  {
  }

  // --- The loop over the types ---

  function Appended(results: seq<EventResult>, rest: Outcome): Outcome {
    Outcome(rest.store, if rest.results.None? then None else Some(results + rest.results.value))
  }

  lemma AppendedNothing(rest: Outcome)
    ensures Appended([], rest) == rest
  {
    if rest.results.Some? { assert [] + rest.results.value == rest.results.value; }
  }

  lemma AppendedToNothing(results: seq<EventResult>, s: Store)
    ensures Appended(results, Outcome(s, Some([]))) == Outcome(s, Some(results))
  {
    assert results + [] == results;
  }

  lemma DetectNothing(h: Hashes, s: Store, req: Request, t: EventType)
    ensures Sort<Content>([], ContentKey) == [] && DetectType(h, s, req, t, []) == Outcome(s, Some([]))
  {
  }

  lemma DetectStep(
      h: Hashes, s: Store, req: Request, candidates: seq<Candidate>, n: nat, results: seq<EventResult>)
    requires n < |TYPE_ORDER|
    ensures var first := DetectType(h, s, req, TYPE_ORDER[n], Ordered(candidates, TYPE_ORDER[n]));
            Appended(results, DetectFrom(h, s, req, candidates, n)) ==
            if first.results.None? then first
            else Appended(results + first.results.value, DetectFrom(h, first.store, req, candidates, n + 1))
  {
    var first := DetectType(h, s, req, TYPE_ORDER[n], Ordered(candidates, TYPE_ORDER[n]));
    assert DetectFrom(h, s, req, candidates, n) ==
      if first.results.None? then first
      else Appended(first.results.value, DetectFrom(h, first.store, req, candidates, n + 1));
    hide DetectType, Ordered, DetectFrom;
    if first.results.Some? {
      var rest := DetectFrom(h, first.store, req, candidates, n + 1);
      if rest.results.Some? {
        assert results + (first.results.value + rest.results.value)
            == results + first.results.value + rest.results.value;
      }
    }
  }

  // --- Dictionaries of candidates ---

  lemma {:induction false} BucketDistinct(candidates: seq<Candidate>, t: EventType)
    ensures DistinctFingerprints(Bucket(candidates, t))
    decreases |candidates|
  {
    if candidates != [] {
      var front, last := candidates[..|candidates| - 1], candidates[|candidates| - 1];
      BucketDistinct(front, t);
      PutKeepsDistinct(Bucket(front, t), last.content, ContentFingerprint);
    }
  }

  /** The fingerprint ends the sort key, so different fingerprints have different keys. */
  lemma KeyEndsWithFingerprint(c: Content)
    ensures |ContentKey(c)| > 0 && ContentKey(c)[|ContentKey(c)| - 1] == c.fingerprint
  {
  }

  lemma DistinctKeys(contents: seq<Content>)
    requires DistinctFingerprints(contents)
    ensures Distinct(contents, ContentKey)
  {
    forall i, j | 0 <= i < j < |contents| ensures ContentKey(contents[i]) != ContentKey(contents[j]) {
      KeyEndsWithFingerprint(contents[i]);
      KeyEndsWithFingerprint(contents[j]);
    }
  }

  lemma SortKeepsDistinct(contents: seq<Content>)
    requires DistinctFingerprints(contents)
    ensures var r := Sort(contents, ContentKey);
            && DistinctFingerprints(r) && StrictlySorted(r, ContentKey) && SameElements(r, contents)
            && |r| == |contents|
  {
    DistinctKeys(contents);
    SortStrict(contents, ContentKey);
    var r := Sort(contents, ContentKey);
    MultisetElements(r, contents);
    hide Sort, LexLeq, ContentKey;
    forall i, j | 0 <= i < j < |r| ensures r[i].fingerprint != r[j].fingerprint {
      assert r[i] in contents && r[j] in contents;
      assert ContentKey(r[i]) != ContentKey(r[j]);
      var a :| 0 <= a < |contents| && contents[a] == r[i];
      var b :| 0 <= b < |contents| && contents[b] == r[j];
      assert a != b;
    }
  }
}
