/** Persisted events and their evidence, the rows they were read from, and the reader that accepts them. */
module EventStore {
  import opened Prelude
  import opened Sorting
  import opened Dictionaries
  import opened EventModel
  import opened Spans

  /** The content of an evidence row, all of it decided before the row is written. */
  datatype Content = Content(
    kind: EvidenceKind, documentId: Option<Uuid>, assetId: Option<Uuid>, extractionId: Option<Uuid>,
    ruleCode: string, ruleVersion: string, start: int, end: int,
    pageNumbers: seq<int>, pageDigests: seq<Digest>, excerpt: string, excerptDigest: Digest, fingerprint: Digest)

  datatype EvidenceRow = EvidenceRow(
    id: Uuid, eventId: Uuid, announcementId: Uuid, content: Content, sourceAvailableAt: Instant)

  datatype EventRow = EventRow(
    id: Uuid, companyId: Uuid, securityId: Option<Uuid>, announcementId: Uuid, datasetId: Uuid,
    eventType: EventType, date: Option<Date>, sourceAvailableAt: Instant,
    rulesetCode: string, rulesetVersion: string, matchedRuleCodes: seq<string>, status: string,
    warnings: seq<string>, fingerprint: Digest, derivedAt: Instant)

  /** The two tables detection writes; ids are handed out in increasing order. */
  datatype Store = Store(events: seq<EventRow>, evidence: seq<EvidenceRow>, nextId: nat)

  datatype EventKey = EventKey(announcementId: Uuid, eventType: EventType, rulesetCode: string, rulesetVersion: string)

  function KeyOf(e: EventRow): EventKey {
    EventKey(e.announcementId, e.eventType, e.rulesetCode, e.rulesetVersion)
  }

  /** Keys and foreign keys the migration declares, as far as the proofs need them. */
  ghost predicate ValidStore(s: Store) {
    && (forall e | e in s.events :: e.id < s.nextId)
    && (forall r | r in s.evidence :: r.id < s.nextId && r.eventId < s.nextId)
    && (forall i, j | 0 <= i < j < |s.events| ::
          s.events[i].id != s.events[j].id && KeyOf(s.events[i]) != KeyOf(s.events[j]))
    && (forall i, j | 0 <= i < j < |s.evidence| :: s.evidence[i].id != s.evidence[j].id)
  }

  function FindEvent(events: seq<EventRow>, key: EventKey): (r: Option<EventRow>)
    ensures r.Some? ==> r.value in events && KeyOf(r.value) == key
    ensures r.None? ==> forall e | e in events :: KeyOf(e) != key
  {
    FirstWith(events, KeyOf, key)
  }

  predicate Taken(events: seq<EventRow>, fingerprint: Digest) {
    exists e | e in events :: e.fingerprint == fingerprint
  }

  predicate HasFingerprint(rows: seq<EvidenceRow>, eventId: Uuid, fingerprint: Digest) {
    exists r | r in rows :: r.eventId == eventId && r.content.fingerprint == fingerprint
  }

  // --- Source rows detection and reading check against; they never change ---

  /** An accepted document attached to an announcement, with the dataset of its source record. */
  datatype StoredDocument = StoredDocument(document: Document, sourceDatasetId: Uuid)

  /** A persisted announcement, its source's dataset and its accepted documents. */
  datatype StoredAnnouncement = StoredAnnouncement(
    announcement: Announcement, sourceDatasetId: Uuid, documents: seq<StoredDocument>)

  datatype StoredExtraction = StoredExtraction(extraction: Extraction, pageMap: seq<PageEntry>)

  /** Each map holds its rows under their own ids. */
  datatype Lineage = Lineage(
    announcements: map<Uuid, StoredAnnouncement>, assets: map<Uuid, Asset>,
    extractions: map<Uuid, StoredExtraction>)

  const ACCEPTED_ASSETS: set<string> := {"verified", "accepted_unverified"}

  function DocumentId(d: Document): Uuid {
    d.id
  }

  function DocumentById(documents: seq<Document>, id: Uuid): Option<Document> {
    LastWith(documents, DocumentId, id)
  }

  function EntryNumber(e: PageEntry): int {
    e.number
  }

  function EntryFor(pageMap: seq<PageEntry>, number: int): Option<PageEntry> {
    FirstWith(pageMap, EntryNumber, number)
  }

  // --- The reader ---

  function OptionKey(id: Option<Uuid>): int {
    if id.None? then -1 else id.value
  }

  /** Kind, document, extraction, span, rule, fingerprint; the separator sorts below every character. */
  function ContentKey(c: Content): seq<int> {
    [if c.kind == Headline then 0 else 1, OptionKey(c.documentId), OptionKey(c.extractionId), c.start, c.end]
      + TextKey(c.ruleCode) + [-1, c.fingerprint as int]
  }

  function RowKey(r: EvidenceRow): seq<int> {
    ContentKey(r.content)
  }

  function EvidenceOf(s: Store, eventId: Uuid): seq<EvidenceRow> {
    Sort(Filter(s.evidence, (r: EvidenceRow) => r.eventId == eventId), RowKey)
  }

  predicate HeadlineAccepted(c: Content, a: Announcement) {
    && c.documentId.None? && c.assetId.None? && c.extractionId.None?
    && c.pageNumbers == [] && c.pageDigests == []
    && c.end <= |a.headline|
    && Slice(a.headline, c.start, c.end) == c.excerpt
  }

  predicate DocumentAccepted(lineage: Lineage, c: Content, a: Announcement) {
    && c.documentId.Some? && c.assetId.Some? && c.extractionId.Some?
    && |c.pageNumbers| == 1 && |c.pageDigests| == 1
    && var document := DocumentById(a.documents, c.documentId.value);
    && document.Some?
    && c.assetId.value in lineage.assets && c.extractionId.value in lineage.extractions
    && var asset, stored := lineage.assets[c.assetId.value], lineage.extractions[c.extractionId.value];
    && asset.documentId == document.value.id && stored.extraction.assetId == asset.id
    && asset.status in ACCEPTED_ASSETS && stored.extraction.status == "success"
    && var entry := EntryFor(stored.pageMap, c.pageNumbers[0]);
    && entry.Some? && entry.value.digest == c.pageDigests[0]
    && entry.value.start <= c.start && c.end <= entry.value.end
  }

  /** When the reader accepts an evidence row. */
  predicate RowAccepted(lineage: Lineage, hash: string -> Digest, row: EvidenceRow, a: Announcement, at: Instant) {
    var c := row.content;
    && row.announcementId == a.id && row.sourceAvailableAt == at
    && hash(c.excerpt) == c.excerptDigest
    && 0 <= c.start < c.end
    && (c.kind == Headline || c.kind == DocumentText)
    && (c.kind == Headline ==> HeadlineAccepted(c, a))
    && (c.kind == DocumentText ==> DocumentAccepted(lineage, c, a))
  }

  function ViewOf(lineage: Lineage, row: EvidenceRow, a: Announcement): EvidenceView
    requires row.content.kind == DocumentText ==> DocumentAccepted(lineage, row.content, a)
  {
    var c := row.content;
    var ofDocument := c.kind == DocumentText;
    EvidenceView(
      row.id, c.kind,
      if ofDocument then DocumentById(a.documents, c.documentId.value) else None,
      if ofDocument then Some(lineage.assets[c.assetId.value]) else None,
      if ofDocument then Some(lineage.extractions[c.extractionId.value].extraction) else None,
      c.ruleCode, c.ruleVersion, c.start, c.end, c.pageNumbers, c.pageDigests, c.excerpt, c.excerptDigest,
      row.sourceAvailableAt, c.fingerprint)
  }

  function Views(lineage: Lineage, rows: seq<EvidenceRow>, a: Announcement): (r: seq<EvidenceView>)
    requires forall row | row in rows :: row.content.kind == DocumentText ==> DocumentAccepted(lineage, row.content, a)
    ensures |r| == |rows| && forall i | 0 <= i < |rows| :: r[i] == ViewOf(lineage, rows[i], a)
  {
    if rows == [] then [] else [ViewOf(lineage, rows[0], a)] + Views(lineage, rows[1..], a)
  }

  /** When the reader accepts an event row with all its evidence. */
  predicate EventAccepted(lineage: Lineage, hash: string -> Digest, s: Store, e: EventRow, a: Announcement) {
    && e.companyId == a.companyId && e.securityId == a.securityId && e.datasetId == a.datasetId
    && e.date == a.date && e.sourceAvailableAt == a.availableAt && e.status == "detected"
    && e.eventType in TYPE_ORDER
    && EvidenceOf(s, e.id) != []
    && forall row | row in EvidenceOf(s, e.id) :: RowAccepted(lineage, hash, row, a, e.sourceAvailableAt)
  }

  /** The view of one event; None where the reader raises. */
  function EventView(lineage: Lineage, hash: string -> Digest, s: Store, e: EventRow, a: Announcement): Option<Event> {
    if EventAccepted(lineage, hash, s, e, a) then
      Some(Event(
        e.id, a, e.companyId, e.securityId, e.datasetId, e.eventType, e.date, e.sourceAvailableAt,
        e.rulesetCode, e.rulesetVersion, e.matchedRuleCodes, e.status, e.warnings, e.fingerprint, e.derivedAt,
        Views(lineage, EvidenceOf(s, e.id), a)))
    else
      None
  }

  function EventOrder(e: EventRow): seq<int> {
    [TypeRank(e.eventType), e.id]
  }

  function EventViews(
      lineage: Lineage, hash: string -> Digest, s: Store, rows: seq<EventRow>, a: Announcement): Option<seq<Event>>
  {
    if rows == [] then
      Some([])
    else
      var first := EventView(lineage, hash, s, rows[0], a);
      var rest := EventViews(lineage, hash, s, rows[1..], a);
      if first.None? || rest.None? then None else Some([first.value] + rest.value)
  }

  /** The events of one announcement under one ruleset. */
  function EventsForAnnouncement(
      lineage: Lineage, hash: string -> Digest, s: Store, a: Announcement, code: string, version: string)
    : Option<seq<Event>>
  {
    if code == "" || version == "" then
      None
    else
      var rows := Filter(s.events, (e: EventRow) =>
        e.announcementId == a.id && e.rulesetCode == code && e.rulesetVersion == version);
      EventViews(lineage, hash, s, Sort(rows, EventOrder), a)
  }

  // --- The repository ---

  /** The database behind detection: rows are only added, under fresh ids, within the unique keys. */
  class Repository {
    const lineage: Lineage
    var events: seq<EventRow>
    var evidence: seq<EvidenceRow>
    var nextId: nat

    constructor (lineage: Lineage, s: Store)
      ensures this.lineage == lineage && Snapshot() == s
    {
      this.lineage := lineage;
      events, evidence, nextId := s.events, s.evidence, s.nextId;
    }

    function Snapshot(): Store
      reads this
    {
      Store(events, evidence, nextId)
    }

    /** Add an event under a fresh id; None on a violated unique key. */
    method AddEvent(e: EventRow) returns (r: Option<EventRow>)
      modifies this
      ensures var stored := e.(id := old(nextId));
              if FindEvent(old(events), KeyOf(e)).Some? || Taken(old(events), e.fingerprint)
              then r.None? && Snapshot() == old(Snapshot())
              else r == Some(stored) && Snapshot() == Store(old(events) + [stored], old(evidence), old(nextId) + 1)
    {
      if FindEvent(events, KeyOf(e)).Some? || Taken(events, e.fingerprint) {
        return None;
      }
      var stored := e.(id := nextId);
      events := events + [stored];
      nextId := nextId + 1;
      r := Some(stored);
    }

    /** Add an evidence row under a fresh id; None when the event already has the fingerprint. */
    method AddEvidence(eventId: Uuid, announcementId: Uuid, content: Content, at: Instant)
      returns (r: Option<EvidenceRow>)
      modifies this
      ensures var stored := EvidenceRow(old(nextId), eventId, announcementId, content, at);
              if HasFingerprint(old(evidence), eventId, content.fingerprint)
              then r.None? && Snapshot() == old(Snapshot())
              else r == Some(stored)
                   && Snapshot() == Store(old(events), old(evidence) + [stored], old(nextId) + 1)
    {
      if HasFingerprint(evidence, eventId, content.fingerprint) {
        return None;
      }
      var stored := EvidenceRow(nextId, eventId, announcementId, content, at);
      evidence := evidence + [stored];
      nextId := nextId + 1;
      r := Some(stored);
    }
  }
}
