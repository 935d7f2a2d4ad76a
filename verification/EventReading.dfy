/** The reader of events: what it lists, in which order, and what each view shows. */
module EventReading {
  import opened Prelude
  import opened Sorting
  import opened EventModel
  import opened Spans
  import opened EventStore

  // --- The order of reading ---

  /** The order of texts: the first difference decides, and a text comes before its extensions. */
  ghost predicate TextBefore(x: string, y: string) {
    exists n | 0 <= n <= |x| && n < |y| :: x[..n] == y[..n] && (n < |x| ==> x[n] < y[n])
  }

  /** Absent ids come first. */
  ghost predicate IdBefore(a: Option<Uuid>, b: Option<Uuid>) {
    b.Some? && (a.None? || a.value < b.value)
  }

  /** The order of evidence: headline first, then by document, extraction, span, rule code and fingerprint. */
  ghost predicate ReadBefore(a: Content, b: Content) {
    if (a.kind == Headline) != (b.kind == Headline) then a.kind == Headline
    else if a.documentId != b.documentId then IdBefore(a.documentId, b.documentId)
    else if a.extractionId != b.extractionId then IdBefore(a.extractionId, b.extractionId)
    else if a.start != b.start then a.start < b.start
    else if a.end != b.end then a.end < b.end
    else if a.ruleCode != b.ruleCode then TextBefore(a.ruleCode, b.ruleCode)
    else a.fingerprint <= b.fingerprint
  }

  lemma LexHead(p: int, a: seq<int>, q: int, b: seq<int>)
    ensures LexLeq([p] + a, [q] + b) <==> p < q || (p == q && LexLeq(a, b))
  {
    assert ([p] + a)[1..] == a && ([q] + b)[1..] == b;
  }

  lemma TextBeforeHead(x: string, y: string)
    requires y != [] && (x == [] || x[0] < y[0])
    ensures TextBefore(x, y)
  {
    assert x[..0] == y[..0];
  }

  lemma TextBeforeRest(c: char, x: string, y: string)
    requires TextBefore(x, y)
    ensures TextBefore([c] + x, [c] + y)
  {
    var n :| 0 <= n <= |x| && n < |y| && x[..n] == y[..n] && (n < |x| ==> x[n] < y[n]);
    assert ([c] + x)[..n + 1] == [c] + x[..n] && ([c] + y)[..n + 1] == [c] + y[..n];
  }

  /** The key of a text, with what follows it. */
  ghost function TextRest(x: string, f: int): seq<int> {
    TextKey(x) + [-1, f]
  }

  lemma TextRestCons(x: string, f: int)
    ensures x == [] ==> TextRest(x, f) == [-1] + [f]
    ensures x != [] ==> TextRest(x, f) == [x[0] as int] + TextRest(x[1..], f)
  {
  }

  lemma {:induction false} TextOrder(x: string, y: string, f: int, g: int)
    requires LexLeq(TextKey(x) + [-1, f], TextKey(y) + [-1, g])
    ensures (x == y && f <= g) || TextBefore(x, y)
    decreases |x|
  {
    assert LexLeq(TextRest(x, f), TextRest(y, g));
    TextRestCons(x, f);
    TextRestCons(y, g);
    hide LexLeq, TextBefore;
    var p, q := if x == [] then -1 else x[0] as int, if y == [] then -1 else y[0] as int;
    LexHead(p, if x == [] then [f] else TextRest(x[1..], f), q, if y == [] then [g] else TextRest(y[1..], g));
    if p < q {
      TextBeforeHead(x, y);
    } else if x == [] {
      LexOne(f, g);
    } else {
      var u, v := x[1..], y[1..];
      assert x == [x[0]] + u && y == [x[0]] + v;
      TextOrder(u, v, f, g);
      if TextBefore(u, v) { TextBeforeRest(x[0], u, v); }
    }
  }

  lemma LexOne(f: int, g: int)
    ensures LexLeq([f], [g]) ==> f <= g
  {
  }

  ghost function Rank(c: Content): int {
    if c.kind == Headline then 0 else 1
  }

  ghost function RuleKey(c: Content): seq<int> {
    TextKey(c.ruleCode) + [-1, c.fingerprint as int]
  }

  ghost function SpanKey(c: Content): seq<int> {
    [c.start] + ([c.end] + RuleKey(c))
  }

  lemma KeyParts(c: Content)
    ensures ContentKey(c) == [Rank(c)] + ([OptionKey(c.documentId)] + ([OptionKey(c.extractionId)] + SpanKey(c)))
  {
  }

  lemma SpanOrder(a: Content, b: Content)
    requires LexLeq(SpanKey(a), SpanKey(b))
    ensures if a.start != b.start then a.start < b.start else if a.end != b.end then a.end < b.end
            else if a.ruleCode != b.ruleCode then TextBefore(a.ruleCode, b.ruleCode) else a.fingerprint <= b.fingerprint
  {
    hide LexLeq, RuleKey, TextBefore;
    LexHead(a.start, [a.end] + RuleKey(a), b.start, [b.end] + RuleKey(b));
    LexHead(a.end, RuleKey(a), b.end, RuleKey(b));
    if LexLeq(RuleKey(a), RuleKey(b)) { RuleOrder(a, b); }
  }

  lemma RuleOrder(a: Content, b: Content)
    requires LexLeq(RuleKey(a), RuleKey(b))
    ensures if a.ruleCode != b.ruleCode then TextBefore(a.ruleCode, b.ruleCode) else a.fingerprint <= b.fingerprint
  {
    hide LexLeq, TextBefore;
    TextOrder(a.ruleCode, b.ruleCode, a.fingerprint, b.fingerprint);
    if a.ruleCode == b.ruleCode && TextBefore(a.ruleCode, b.ruleCode) { NotBeforeItself(a.ruleCode); }
  }

  lemma NotBeforeItself(x: string)
    ensures !TextBefore(x, x)
  {
  }

  /** The sort key of evidence orders it field by field. */
  lemma KeyOrder(a: Content, b: Content)
    requires LexLeq(ContentKey(a), ContentKey(b))
    ensures ReadBefore(a, b)
  {
    KeyParts(a);
    KeyParts(b);
    hide LexLeq, ContentKey, SpanKey, TextBefore;
    var a2, b2 := [OptionKey(a.extractionId)] + SpanKey(a), [OptionKey(b.extractionId)] + SpanKey(b);
    LexHead(Rank(a), [OptionKey(a.documentId)] + a2, Rank(b), [OptionKey(b.documentId)] + b2);
    LexHead(OptionKey(a.documentId), a2, OptionKey(b.documentId), b2);
    LexHead(OptionKey(a.extractionId), SpanKey(a), OptionKey(b.extractionId), SpanKey(b));
    if LexLeq(SpanKey(a), SpanKey(b)) { SpanOrder(a, b); }
  }

  /** The reader lists the rows of an event in that order. */
  lemma EvidenceInOrder(s: Store, eventId: Uuid, i: nat, j: nat)
    requires i < j < |EvidenceOf(s, eventId)|
    ensures ReadBefore(EvidenceOf(s, eventId)[i].content, EvidenceOf(s, eventId)[j].content)
  {
    SortAscending(Filter(s.evidence, (r: EvidenceRow) => r.eventId == eventId), EventStore.RowKey);
    var rows := EvidenceOf(s, eventId);
    assert LexLeq(EventStore.RowKey(rows[i]), EventStore.RowKey(rows[j]));
    hide EvidenceOf, Sort, Filter, ContentKey, LexLeq;
    KeyOrder(rows[i].content, rows[j].content);
  }

  // --- The reader of events ---

  /** The view of an evidence row, with the persisted records a document span refers to. */
  ghost predicate EvidenceShown(lineage: Lineage, row: EvidenceRow, a: Announcement, v: EvidenceView) {
    var c := row.content;
    && v.id == row.id && v.kind == c.kind && v.ruleCode == c.ruleCode && v.ruleVersion == c.ruleVersion
    && v.start == c.start && v.end == c.end && v.pageNumbers == c.pageNumbers && v.pageDigests == c.pageDigests
    && v.excerpt == c.excerpt && v.excerptDigest == c.excerptDigest && v.fingerprint == c.fingerprint
    && v.sourceAvailableAt == row.sourceAvailableAt
    && (c.kind == Headline ==> v.document == None && v.asset == None && v.extraction == None)
    && (c.kind == DocumentText ==>
          && v.document.Some? && v.document.value in a.documents && c.documentId == Some(v.document.value.id)
          && c.assetId.Some? && c.assetId.value in lineage.assets && v.asset == Some(lineage.assets[c.assetId.value])
          && c.extractionId.Some? && c.extractionId.value in lineage.extractions
          && v.extraction == Some(lineage.extractions[c.extractionId.value].extraction))
  }

  /** The view of an event row: its fields, and its evidence in reading order. */
  ghost predicate EventShown(lineage: Lineage, s: Store, e: EventRow, a: Announcement, v: Event) {
    && v.id == e.id && v.announcement == a && v.companyId == e.companyId && v.securityId == e.securityId
    && v.datasetId == e.datasetId && v.eventType == e.eventType && v.date == e.date
    && v.sourceAvailableAt == e.sourceAvailableAt && v.rulesetCode == e.rulesetCode
    && v.rulesetVersion == e.rulesetVersion && v.matchedRuleCodes == e.matchedRuleCodes && v.status == e.status
    && v.warnings == e.warnings && v.fingerprint == e.fingerprint && v.derivedAt == e.derivedAt
    && var rows := EvidenceOf(s, e.id);
    && |v.evidence| == |rows|
    && forall i | 0 <= i < |rows| :: EvidenceShown(lineage, rows[i], a, v.evidence[i])
  }

  lemma RowShown(lineage: Lineage, hash: string -> Digest, row: EvidenceRow, a: Announcement, at: Instant)
    requires RowAccepted(lineage, hash, row, a, at)
    ensures EvidenceShown(lineage, row, a, EventStore.ViewOf(lineage, row, a))
  {
    hide Slice, EntryFor;
  }

  lemma ViewShows(lineage: Lineage, hash: string -> Digest, s: Store, e: EventRow, a: Announcement)
    requires EventView(lineage, hash, s, e, a).Some?
    ensures EventShown(lineage, s, e, a, EventView(lineage, hash, s, e, a).value)
  {
    var rows := EvidenceOf(s, e.id);
    hide EvidenceOf, EvidenceShown, DocumentAccepted, HeadlineAccepted;
    forall row | row in rows ensures EvidenceShown(lineage, row, a, EventStore.ViewOf(lineage, row, a)) {
      RowShown(lineage, hash, row, a, e.sourceAvailableAt);
    }
    hide EventStore.ViewOf;
  }

  lemma {:induction false} EventViewsAt(
      lineage: Lineage, hash: string -> Digest, s: Store, rows: seq<EventRow>, a: Announcement)
    requires EventViews(lineage, hash, s, rows, a).Some?
    ensures var views := EventViews(lineage, hash, s, rows, a).value;
            && |views| == |rows|
            && forall i | 0 <= i < |rows| :: EventView(lineage, hash, s, rows[i], a) == Some(views[i])
  {
    hide EventView;
    if rows != [] { EventViewsAt(lineage, hash, s, rows[1..], a); }
  }

  /** An event row of the announcement under the ruleset. */
  ghost predicate OfRuleset(e: EventRow, a: Announcement, code: string, version: string) {
    e.announcementId == a.id && e.rulesetCode == code && e.rulesetVersion == version
  }

  /** The reader lists every event of the announcement under the ruleset, and no other, by type and then by id. */
  lemma EventsListed(
      lineage: Lineage, hash: string -> Digest, s: Store, a: Announcement, code: string, version: string)
    returns (rows: seq<EventRow>)
    requires EventsForAnnouncement(lineage, hash, s, a, code, version).Some?
    ensures var events := EventsForAnnouncement(lineage, hash, s, a, code, version).value;
            && |events| == |rows| && code != "" && version != ""
            && (forall e :: e in rows <==> e in s.events && OfRuleset(e, a, code, version))
            && (forall i | 0 <= i < |rows| :: EventShown(lineage, s, rows[i], a, events[i]))
            && (forall i, j | 0 <= i < j < |rows| ::
                  TypeRank(rows[i].eventType) < TypeRank(rows[j].eventType)
                  || (TypeRank(rows[i].eventType) == TypeRank(rows[j].eventType) && rows[i].id <= rows[j].id))
  {
    var p := (e: EventRow) => e.announcementId == a.id && e.rulesetCode == code && e.rulesetVersion == version;
    var found := Filter(s.events, p);
    rows := Sort(found, EventOrder);
    MultisetElements(rows, found);
    SortAscending(found, EventOrder);
    assert EventsForAnnouncement(lineage, hash, s, a, code, version) == EventViews(lineage, hash, s, rows, a);
    hide Filter, Sort, EventView, EventShown, TypeRank, EventsForAnnouncement;
    EventViewsAt(lineage, hash, s, rows, a);
    hide EventViews;
    var events := EventsForAnnouncement(lineage, hash, s, a, code, version).value;
    forall i | 0 <= i < |rows| ensures EventShown(lineage, s, rows[i], a, events[i]) {
      ViewShows(lineage, hash, s, rows[i], a);
    }
    forall i, j | 0 <= i < j < |rows|
      ensures TypeRank(rows[i].eventType) < TypeRank(rows[j].eventType)
              || (TypeRank(rows[i].eventType) == TypeRank(rows[j].eventType) && rows[i].id <= rows[j].id)
    {
      EventKeyOrder(rows[i], rows[j]);
    }
  }

  lemma EventKeyOrder(e: EventRow, x: EventRow)
    requires LexLeq(EventOrder(e), EventOrder(x))
    ensures TypeRank(e.eventType) < TypeRank(x.eventType)
            || (TypeRank(e.eventType) == TypeRank(x.eventType) && e.id <= x.id)
  {
    hide LexLeq, TypeRank;
    LexHead(TypeRank(e.eventType), [e.id as int], TypeRank(x.eventType), [x.id as int]);
    assert [e.id as int] == [e.id as int] + [] && [x.id as int] == [x.id as int] + [];
    LexHead(e.id as int, [], x.id as int, []);
    assert EventOrder(e) == [TypeRank(e.eventType)] + [e.id as int];
    assert EventOrder(x) == [TypeRank(x.eventType)] + [x.id as int];
  }

  // --- What the reader vouches for ---

  /** The headline span quotes the headline. */
  ghost predicate QuotesHeadline(a: Announcement, v: EvidenceView) {
    && v.document == None && v.asset == None && v.extraction == None && v.pageNumbers == [] && v.pageDigests == []
    && 0 <= v.start <= v.end <= |a.headline| && v.excerpt == a.headline[v.start..v.end]
  }

  /** The document span lies on the page it names, of a successful extraction of an accepted asset of its document. */
  ghost predicate LiesOnPage(lineage: Lineage, a: Announcement, v: EvidenceView) {
    && v.document.Some? && v.asset.Some? && v.extraction.Some? && v.document.value in a.documents
    && v.asset.value.documentId == v.document.value.id
    && (v.asset.value.status == "verified" || v.asset.value.status == "accepted_unverified")
    && v.extraction.value.assetId == v.asset.value.id && v.extraction.value.status == "success"
    && |v.pageNumbers| == 1 && |v.pageDigests| == 1
    && exists id, entry ::
         && id in lineage.extractions && lineage.extractions[id].extraction == v.extraction.value
         && entry in lineage.extractions[id].pageMap
         && entry.number == v.pageNumbers[0] && entry.digest == v.pageDigests[0]
         && entry.start <= v.start && v.end <= entry.end
  }

  ghost predicate Vouched(lineage: Lineage, hash: string -> Digest, a: Announcement, v: EvidenceView) {
    && v.excerptDigest == hash(v.excerpt) && 0 <= v.start < v.end && v.sourceAvailableAt == a.availableAt
    && (v.kind == Headline || v.kind == DocumentText)
    && (v.kind == Headline ==> QuotesHeadline(a, v))
    && (v.kind == DocumentText ==> LiesOnPage(lineage, a, v))
  }

  lemma RowVouched(lineage: Lineage, hash: string -> Digest, row: EvidenceRow, a: Announcement, at: Instant)
    requires RowAccepted(lineage, hash, row, a, at) && at == a.availableAt
    ensures Vouched(lineage, hash, a, EventStore.ViewOf(lineage, row, a))
  {
    var c := row.content;
    if c.kind == DocumentText {
      var stored := lineage.extractions[c.extractionId.value];
      var entry := EntryFor(stored.pageMap, c.pageNumbers[0]).value;
      assert entry in stored.pageMap && entry.number == c.pageNumbers[0];
    } else {
      SliceInside(a.headline, c.start, c.end);
    }
    hide Slice, EntryFor;
  }

  /** Every event the reader returns agrees with its announcement and has evidence, all of which it vouches for. */
  lemma ReadVouched(
      lineage: Lineage, hash: string -> Digest, s: Store, a: Announcement, code: string, version: string, v: Event)
    requires EventsForAnnouncement(lineage, hash, s, a, code, version).Some?
    requires v in EventsForAnnouncement(lineage, hash, s, a, code, version).value
    ensures v.companyId == a.companyId && v.securityId == a.securityId && v.datasetId == a.datasetId
            && v.date == a.date && v.sourceAvailableAt == a.availableAt && v.status == "detected"
            && v.eventType in TYPE_ORDER && v.evidence != []
    ensures forall x | x in v.evidence :: Vouched(lineage, hash, a, x)
  {
    var rows := Sort(Filter(s.events, (e: EventRow) =>
      e.announcementId == a.id && e.rulesetCode == code && e.rulesetVersion == version), EventOrder);
    var events := EventsForAnnouncement(lineage, hash, s, a, code, version).value;
    assert events == EventViews(lineage, hash, s, rows, a).value;
    hide Filter, Sort, EventView, EventsForAnnouncement;
    EventViewsAt(lineage, hash, s, rows, a);
    hide EventViews;
    var i :| 0 <= i < |events| && events[i] == v;
    assert EventView(lineage, hash, s, rows[i], a) == Some(v);
    ViewVouched(lineage, hash, s, rows[i], a);
  }

  lemma ViewVouched(lineage: Lineage, hash: string -> Digest, s: Store, e: EventRow, a: Announcement)
    requires EventView(lineage, hash, s, e, a).Some?
    ensures var v := EventView(lineage, hash, s, e, a).value;
            && v.companyId == a.companyId && v.securityId == a.securityId && v.datasetId == a.datasetId
            && v.date == a.date && v.sourceAvailableAt == a.availableAt && v.status == "detected"
            && v.eventType in TYPE_ORDER && v.evidence != []
            && forall x | x in v.evidence :: Vouched(lineage, hash, a, x)
  {
    var rows, v := EvidenceOf(s, e.id), EventView(lineage, hash, s, e, a).value;
    hide EvidenceOf, DocumentAccepted, HeadlineAccepted, Vouched;
    assert |v.evidence| == |rows|;
    forall x | x in v.evidence ensures Vouched(lineage, hash, a, x) {
      var i :| 0 <= i < |rows| && v.evidence[i] == x;
      assert rows[i] in rows && RowAccepted(lineage, hash, rows[i], a, e.sourceAvailableAt);
      RowVouched(lineage, hash, rows[i], a, e.sourceAvailableAt);
    }
  }
}
