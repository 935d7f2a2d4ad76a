/** What a whole detection call leaves behind, match by match: nothing is lost, nothing is added. */
module DetectionComplete {
  import opened Prelude
  import opened Sorting
  import opened Dictionaries
  import opened EventModel
  import opened Spans
  import opened EventStore
  import opened Detection
  import opened DetectionReplay
  import opened DetectionReadBack

  // --- The row of a match ---

  /** The row quotes the window around a match in a text that starts at `base` of `whole`. */
  ghost predicate QuotesWindow(
      h: Hashes, c: Content, m: Match, text: string, base: int, whole: string, lineLocal: bool)
  {
    && 0 <= m.start < m.end <= |text|
    && c.ruleCode == m.ruleCode && c.ruleVersion == m.ruleVersion
    && var window := ContextBounds(text, Span(m.start, m.end), lineLocal);
    && 0 <= window.start <= window.end <= |text|
    && c.start == base + window.start && c.end == base + window.end
    && c.excerpt == text[window.start..window.end] && c.excerpt == Slice(whole, c.start, c.end)
    && c.excerptDigest == h.text(c.excerpt)
  }

  ghost predicate Fingerprinted(h: Hashes, a: Announcement, c: Content) {
    c.fingerprint == h.evidence(EvidencePayload(
      a.id, c.kind, c.documentId, c.assetId, c.extractionId, c.ruleCode, c.ruleVersion, c.start, c.end,
      c.excerptDigest, c.pageNumbers, c.pageDigests))
  }

  /** The content of a headline match. */
  ghost predicate HeadlineContent(h: Hashes, a: Announcement, m: Match, c: Content) {
    && QuotesWindow(h, c, m, a.headline, 0, a.headline, false)
    && c.kind == Headline && c.documentId == None && c.assetId == None && c.extractionId == None
    && c.pageNumbers == [] && c.pageDigests == []
    && Fingerprinted(h, a, c)
  }

  /** The content of a match on a page. */
  ghost predicate PageContent(h: Hashes, a: Announcement, t: SuppliedText, p: Page, m: Match, c: Content) {
    && t.text.Some? && p.text.Some?
    && QuotesWindow(h, c, m, p.text.value, p.start, t.text.value, true)
    && c.kind == DocumentText && c.documentId == Some(t.document.id) && c.assetId == Some(t.asset.id)
    && c.extractionId == Some(t.extraction.id)
    && c.pageNumbers == [p.number] && c.pageDigests == [p.digest]
    && Fingerprinted(h, a, c)
  }

  /** What the rules find in the headline. */
  ghost predicate HeadlineMatch(req: Request, m: Match) {
    m in req.ruleset.find(req.announcement.headline)
  }

  /** What the rules find on a page of a supplied text. */
  ghost predicate PageMatch(req: Request, t: SuppliedText, p: Page, m: Match) {
    && t in req.texts && t.extraction.status == "success" && p in t.pages
    && m in req.ruleset.find(p.text.GetOr([]))
  }

  /** Some match of this type has this content. */
  ghost predicate FromMatch(h: Hashes, req: Request, type_: EventType, c: Content) {
    || (exists m :: HeadlineMatch(req, m) && m.eventType == type_ && HeadlineContent(h, req.announcement, m, c))
    || (exists t, p, m :: PageMatch(req, t, p, m) && m.eventType == type_
                          && PageContent(h, req.announcement, t, p, m, c))
  }

  ghost predicate TypeMatched(req: Request, type_: EventType) {
    || (exists m :: HeadlineMatch(req, m) && m.eventType == type_)
    || (exists t, p, m :: PageMatch(req, t, p, m) && m.eventType == type_)
  }

  // --- Candidates and matches ---

  lemma {:induction false} MatchCollected(
      h: Hashes, announcementId: Uuid, src: Source, matches: seq<Match>, c: Candidate)
    requires forall m | m in matches :: SpanAccepted(src, m)
    ensures c in FromMatches(h, announcementId, src, matches) <==>
            exists m | m in matches :: SpanAccepted(src, m) && c == CandidateOf(h, announcementId, src, m)
    decreases |matches|
  {
    hide SpanAccepted, CandidateOf;
    if matches != [] {
      var front, last := matches[..|matches| - 1], matches[|matches| - 1];
      MatchCollected(h, announcementId, src, front, c);
      assert SpanAccepted(src, last);
      assert forall m :: m in matches <==> m in front || m == last;
    }
  }

  lemma {:induction false} PageCollected(h: Hashes, req: Request, t: SuppliedText, pages: seq<Page>, c: Candidate)
    requires forall p | p in pages :: SourceAccepted(req.ruleset, PageSource(t, p))
    ensures c in FromPages(h, req, t, pages) <==>
            exists p | p in pages :: SourceAccepted(req.ruleset, PageSource(t, p)) && c in FromSource(h, req, PageSource(t, p))
    decreases |pages|
  {
    hide SourceAccepted, PageSource, FromSource;
    if pages != [] {
      var front, last := pages[..|pages| - 1], pages[|pages| - 1];
      PageCollected(h, req, t, front, c);
      assert SourceAccepted(req.ruleset, PageSource(t, last));
      assert forall p :: p in pages <==> p in front || p == last;
    }
  }

  lemma SourceCandidate(h: Hashes, req: Request, src: Source, c: Candidate)
    requires SourceAccepted(req.ruleset, src)
    ensures c in FromSource(h, req, src) <==>
            exists m | m in req.ruleset.find(src.text) ::
              SpanAccepted(src, m) && c == CandidateOf(h, req.announcement.id, src, m)
  {
    hide SpanAccepted, CandidateOf;
    MatchCollected(h, req.announcement.id, src, req.ruleset.find(src.text), c);
  }

  lemma HeadlineContentOf(h: Hashes, a: Announcement, m: Match, c: Content)
    requires SpanAccepted(HeadlineSource(a), m)
    ensures c == ContentOf(h, a.id, HeadlineSource(a), m) <==> HeadlineContent(h, a, m, c)
  {
    ContextNonEmpty(a.headline, Span(m.start, m.end), false);
    hide ContextBounds;
  }

  lemma PageContentOf(lineage: Lineage, h: Hashes, a: Announcement, t: SuppliedText, p: Page, m: Match, c: Content)
    requires TextMatches(lineage, h, a, t) && HasPages(t) && p in t.pages && SpanAccepted(PageSource(t, p), m)
    ensures c == ContentOf(h, a.id, PageSource(t, p), m) <==> PageContent(h, a, t, p, m, c)
  {
    PageEntryFound(lineage, h, a, t, p);
    hide TextMatches;
    ContextNonEmpty(p.text.value, Span(m.start, m.end), true);
    hide ContextBounds;
    var window := LocalWindow(PageSource(t, p), m);
    SliceInside(p.text.value, window.start, window.end);
    hide Slice;
  }

  lemma FromHeadline(h: Hashes, req: Request, c: Candidate)
    requires SourceAccepted(req.ruleset, HeadlineSource(req.announcement))
    ensures c in FromSource(h, req, HeadlineSource(req.announcement)) <==>
            exists m :: HeadlineMatch(req, m) && m.eventType == c.eventType
                        && HeadlineContent(h, req.announcement, m, c.content)
  {
    var src := HeadlineSource(req.announcement);
    SourceCandidate(h, req, src, c);
    hide ContentOf, HeadlineContent, SpanAccepted, FromSource;
    forall m | HeadlineMatch(req, m)
      ensures SpanAccepted(src, m) && (c == CandidateOf(h, req.announcement.id, src, m) <==>
              m.eventType == c.eventType && HeadlineContent(h, req.announcement, m, c.content))
    {
      HeadlineContentOf(h, req.announcement, m, c.content);
    }
  }

  lemma FromPage(lineage: Lineage, h: Hashes, req: Request, t: SuppliedText, p: Page, c: Candidate)
    requires t in req.texts && TextAccepted(lineage, h, req, t) && HasPages(t) && p in t.pages
    ensures SourceAccepted(req.ruleset, PageSource(t, p))
    ensures c in FromSource(h, req, PageSource(t, p)) <==>
            exists m :: PageMatch(req, t, p, m) && m.eventType == c.eventType
                        && PageContent(h, req.announcement, t, p, m, c.content)
  {
    var src := PageSource(t, p);
    SourceCandidate(h, req, src, c);
    hide ContentOf, PageContent, SpanAccepted, FromSource, TextMatches;
    forall m | PageMatch(req, t, p, m)
      ensures SpanAccepted(src, m) && (c == CandidateOf(h, req.announcement.id, src, m) <==>
              m.eventType == c.eventType && PageContent(h, req.announcement, t, p, m, c.content))
    {
      PageContentOf(lineage, h, req.announcement, t, p, m, c.content);
    }
  }

  lemma FromPagesOfText(lineage: Lineage, h: Hashes, req: Request, t: SuppliedText, c: Candidate)
    requires t in req.texts && TextAccepted(lineage, h, req, t)
    ensures c in FromText(lineage, h, req, t) <==>
            exists p, m :: PageMatch(req, t, p, m) && m.eventType == c.eventType
                           && PageContent(h, req.announcement, t, p, m, c.content)
  {
    if HasPages(t) {
      PageCollected(h, req, t, t.pages, c);
      forall p | p in t.pages
        ensures SourceAccepted(req.ruleset, PageSource(t, p))
        ensures c in FromSource(h, req, PageSource(t, p)) <==>
                exists m :: PageMatch(req, t, p, m) && m.eventType == c.eventType
                            && PageContent(h, req.announcement, t, p, m, c.content)
      {
        FromPage(lineage, h, req, t, p, c);
      }
      assert forall p, m | PageMatch(req, t, p, m) :: p in t.pages;
      hide PageMatch, PageContent, PageSource, SourceAccepted, FromSource, FromPages, TextMatches;
    } else {
      assert forall p, m :: !PageMatch(req, t, p, m) by { hide PageContent; }
      hide PageMatch, PageContent, SourceAccepted, FromPages;
    }
  }

  /** The candidates of an accepted call are exactly the contents of its matches, under their types. */
  lemma CandidateIff(lineage: Lineage, h: Hashes, req: Request, type_: EventType, content: Content)
    requires Accepted(lineage, h, req)
    ensures Candidate(type_, content) in Candidates(lineage, h, req) <==> FromMatch(h, req, type_, content)
  {
    var c := Candidate(type_, content);
    FromHeadline(h, req, c);
    FromTextsMembers(lineage, h, req, req.texts, c);
    forall t | t in req.texts
      ensures TextAccepted(lineage, h, req, t)
      ensures c in FromText(lineage, h, req, t) <==>
              exists p, m :: PageMatch(req, t, p, m) && m.eventType == type_
                             && PageContent(h, req.announcement, t, p, m, content)
    {
      FromPagesOfText(lineage, h, req, t, c);
    }
    assert forall t, p, m | PageMatch(req, t, p, m) :: t in req.texts;
    hide HeadlineMatch, PageMatch, HeadlineContent, PageContent, SourceAccepted, TextAccepted, AnnouncementMatches,
         FromTexts, FromText, FromSource, HeadlineSource;
  }

  // --- The event of a type ---

  /** The row of an event of this type, as detection writes it for this announcement under this ruleset. */
  ghost predicate EventFor(req: Request, type_: EventType, e: EventRow) {
    var a := req.announcement;
    && e.announcementId == a.id && e.eventType == type_
    && e.rulesetCode == req.ruleset.code && e.rulesetVersion == req.ruleset.version
    && e.companyId == a.companyId && e.securityId == a.securityId && e.datasetId == a.datasetId
    && e.date == a.date && e.sourceAvailableAt == a.availableAt
    && e.status == "detected" && e.warnings == []
  }

  ghost predicate RowOf(req: Request, e: EventRow, row: EvidenceRow) {
    row.eventId == e.id && row.announcementId == req.announcement.id
    && row.sourceAvailableAt == req.announcement.availableAt
  }

  /** Each content is on some row of the event. */
  ghost predicate EachStored(s: Store, req: Request, e: EventRow, c: Content) {
    exists row | row in s.evidence :: RowOf(req, e, row) && row.content == c
  }

  /** No content is on two rows of the event. */
  ghost predicate NoneTwice(s: Store, e: EventRow) {
    forall i, j | 0 <= i < j < |s.evidence| ::
      s.evidence[i].eventId == e.id && s.evidence[j].eventId == e.id ==> s.evidence[i].content != s.evidence[j].content
  }

  /** The rules the event names are those of its rows, each once. */
  ghost predicate NamesItsRules(s: Store, e: EventRow) {
    && (forall i, j | 0 <= i < j < |e.matchedRuleCodes| :: e.matchedRuleCodes[i] != e.matchedRuleCodes[j])
    && (forall row | row in s.evidence && row.eventId == e.id :: row.content.ruleCode in e.matchedRuleCodes)
    && (forall code | code in e.matchedRuleCodes ::
          exists row | row in s.evidence :: row.eventId == e.id && row.content.ruleCode == code)
  }

  /** The event's rows are its type's matches: every one, no other, and none twice. */
  ghost predicate HoldsMatches(h: Hashes, s: Store, req: Request, type_: EventType, e: EventRow) {
    && (forall c | FromMatch(h, req, type_, c) :: EachStored(s, req, e, c))
    && (forall row | row in s.evidence && row.eventId == e.id ::
          RowOf(req, e, row) && FromMatch(h, req, type_, row.content))
    && NoneTwice(s, e) && NamesItsRules(s, e)
  }

  /** Rows of the event, as the reader lists them, and rows of the table. */
  lemma EvidenceMembers(s: Store, eventId: Uuid, row: EvidenceRow)
    ensures row in EvidenceOf(s, eventId) <==> row in s.evidence && row.eventId == eventId
  {
    var rows := Filter(s.evidence, (r: EvidenceRow) => r.eventId == eventId);
    MultisetElements(Sort(rows, EventStore.RowKey), rows);
  }

  /** Pairwise different fingerprints in the order of reading are pairwise different in the table. */
  lemma ReadOnceStoredOnce(s: Store, e: EventRow, ordered: seq<Content>)
    requires multiset(RowFingerprints(EvidenceOf(s, e.id))) == multiset(Fingerprints(ordered))
    requires DistinctFingerprints(ordered)
    ensures NoneTwice(s, e)
  {
    var fingerprint := (r: EvidenceRow) => r.content.fingerprint;
    var own := (r: EvidenceRow) => r.eventId == e.id;
    var rows := Filter(s.evidence, own);
    assert EvidenceOf(s, e.id) == Sort(rows, EventStore.RowKey);
    SortMap(rows, EventStore.RowKey, fingerprint);
    assert RowFingerprints(EvidenceOf(s, e.id)) == Map(EvidenceOf(s, e.id), fingerprint);
    hide Sort, Filter, EvidenceOf, RowFingerprints, EventStore.RowKey;
    assert multiset(Map(rows, fingerprint)) == multiset(Fingerprints(ordered));
    DistinctByCount(ordered, ContentFingerprint, rows, fingerprint);
    forall i, j | 0 <= i < j < |s.evidence| && s.evidence[i].eventId == e.id && s.evidence[j].eventId == e.id
      ensures s.evidence[i].content != s.evidence[j].content
    {
      FilterReflectsDistinct(s.evidence, own, fingerprint, i, j);
    }
  }

  lemma EventRowHolds(h: Hashes, s: Store, req: Request, type_: EventType, ordered: seq<Content>, e: EventRow)
    requires FindEvent(s.events, KeyFor(req, type_)) == Some(e) && EventCanonical(h, req, type_, ordered, e)
    ensures e in s.events && EventFor(req, type_, e)
    ensures forall code :: code in e.matchedRuleCodes <==> exists c | c in ordered :: c.ruleCode == code
    ensures forall i, j | 0 <= i < j < |e.matchedRuleCodes| :: e.matchedRuleCodes[i] != e.matchedRuleCodes[j]
  {
    hide EventFingerprint;
    var codes := RuleCodes(ordered);
    assert e.matchedRuleCodes == Unique(codes);
    forall code ensures code in codes <==> exists c | c in ordered :: c.ruleCode == code {
      if code in codes {
        var i :| 0 <= i < |codes| && codes[i] == code;
        assert ordered[i] in ordered;
      }
      if c :| c in ordered && c.ruleCode == code {
        var i :| 0 <= i < |ordered| && ordered[i] == c;
        assert codes[i] == code;
      }
    }
  }

  /** The rows of a settled type's event carry exactly the ordered contents. */
  lemma SettledRows(h: Hashes, s: Store, req: Request, type_: EventType, ordered: seq<Content>, e: EventRow)
    requires Settled(h, s, req, type_, ordered) && ordered != [] && DistinctFingerprints(ordered)
    requires FindEvent(s.events, KeyFor(req, type_)) == Some(e)
    ensures EventCanonical(h, req, type_, ordered, e) && EventFor(req, type_, e) && NoneTwice(s, e)
    ensures forall row | row in s.evidence && row.eventId == e.id :: RowOf(req, e, row) && row.content in ordered
  {
    assert Reusable(h, s, req, type_, ordered, e);
    EventRowHolds(h, s, req, type_, ordered, e);
    ReadOnceStoredOnce(s, e, ordered);
    hide EventCanonical, NoneTwice, DistinctFingerprints, FindEvent, KeyFor, EvidenceOf, Settled;
    forall row | row in s.evidence && row.eventId == e.id ensures RowOf(req, e, row) && row.content in ordered {
      EvidenceMembers(s, e.id, row);
      assert EvidenceCanonical(h, ordered, e, row);
    }
  }

  lemma SettledEach(h: Hashes, s: Store, req: Request, type_: EventType, ordered: seq<Content>, e: EventRow, c: Content)
    requires Settled(h, s, req, type_, ordered) && ordered != [] && DistinctFingerprints(ordered)
    requires FindEvent(s.events, KeyFor(req, type_)) == Some(e) && c in ordered
    ensures EachStored(s, req, e, c)
  {
    SettledRows(h, s, req, type_, ordered, e);
    SettledContents(h, s, req, type_, ordered, c);
    hide Settled, DistinctFingerprints, EvidenceOf, FindEvent, KeyFor, NoneTwice, EventCanonical, RowOf;
    var row :| row in EvidenceOf(s, e.id) && row.content == c;
    EvidenceMembers(s, e.id, row);
  }

  lemma RulesNamed(s: Store, req: Request, ordered: seq<Content>, e: EventRow)
    requires forall row | row in s.evidence && row.eventId == e.id :: RowOf(req, e, row) && row.content in ordered
    requires forall c | c in ordered :: EachStored(s, req, e, c)
    requires forall code :: code in e.matchedRuleCodes <==> exists c | c in ordered :: c.ruleCode == code
    requires forall i, j | 0 <= i < j < |e.matchedRuleCodes| :: e.matchedRuleCodes[i] != e.matchedRuleCodes[j]
    ensures NamesItsRules(s, e)
  {
    forall code | code in e.matchedRuleCodes
      ensures exists row | row in s.evidence :: row.eventId == e.id && row.content.ruleCode == code
    {
      var c :| c in ordered && c.ruleCode == code;
      assert EachStored(s, req, e, c);
    }
  }

  /** A settled type's event holds exactly its matches. */
  lemma SettledHolds(h: Hashes, s: Store, req: Request, type_: EventType, ordered: seq<Content>, e: EventRow)
    requires Settled(h, s, req, type_, ordered) && ordered != [] && DistinctFingerprints(ordered)
    requires FindEvent(s.events, KeyFor(req, type_)) == Some(e)
    requires forall c :: c in ordered <==> FromMatch(h, req, type_, c)
    ensures e in s.events && EventFor(req, type_, e) && HoldsMatches(h, s, req, type_, e)
  {
    SettledRows(h, s, req, type_, ordered, e);
    EventRowHolds(h, s, req, type_, ordered, e);
    forall c | c in ordered ensures EachStored(s, req, e, c) { SettledEach(h, s, req, type_, ordered, e, c); }
    RulesNamed(s, req, ordered, e);
    hide FromMatch, Settled, FindEvent, KeyFor, EventCanonical, NoneTwice, DistinctFingerprints, EventFor, RowOf,
         EachStored, NamesItsRules;
  }

  lemma SuppliedPage(lineage: Lineage, h: Hashes, req: Request, t: SuppliedText, p: Page, m: Match)
    requires Accepted(lineage, h, req) && PageMatch(req, t, p, m)
    ensures TextMatches(lineage, h, req.announcement, t) && HasPages(t) && SpanAccepted(PageSource(t, p), m)
  {
    assert TextAccepted(lineage, h, req, t);
    hide AnnouncementMatches, SpanAccepted, PagesCoherent;
    assert HasPages(t);
    hide TextMatches;
    assert SourceAccepted(req.ruleset, PageSource(t, p));
  }

  /** A match's content exists. */
  lemma MatchHasContent(lineage: Lineage, h: Hashes, req: Request)
    requires Accepted(lineage, h, req)
    ensures forall m | HeadlineMatch(req, m) :: exists c :: HeadlineContent(h, req.announcement, m, c)
    ensures forall t, p, m | PageMatch(req, t, p, m) :: exists c :: PageContent(h, req.announcement, t, p, m, c)
  {
    hide ContentOf, HeadlineContent, PageContent, AnnouncementMatches, TextMatches, TextAccepted, Window;
    var a := req.announcement;
    forall m | HeadlineMatch(req, m) ensures exists c :: HeadlineContent(h, a, m, c) {
      assert SpanAccepted(HeadlineSource(a), m);
      HeadlineContentOf(h, a, m, ContentOf(h, a.id, HeadlineSource(a), m));
    }
    forall t, p, m | PageMatch(req, t, p, m) ensures exists c :: PageContent(h, a, t, p, m, c) {
      SuppliedPage(lineage, h, req, t, p, m);
      PageContentOf(lineage, h, a, t, p, m, ContentOf(h, a.id, PageSource(t, p), m));
    }
  }

  lemma MatchedIff(lineage: Lineage, h: Hashes, req: Request, type_: EventType)
    requires Accepted(lineage, h, req)
    ensures TypeMatched(req, type_) <==> exists c :: FromMatch(h, req, type_, c)
  {
    hide HeadlineContent, PageContent, Accepted, HeadlineMatch, PageMatch;
    MatchHasContent(lineage, h, req);
    if TypeMatched(req, type_) {
      if m :| HeadlineMatch(req, m) && m.eventType == type_ {
        var c :| HeadlineContent(h, req.announcement, m, c);
        assert FromMatch(h, req, type_, c);
      } else {
        var t, p, m :| PageMatch(req, t, p, m) && m.eventType == type_;
        var c :| PageContent(h, req.announcement, t, p, m, c);
        assert FromMatch(h, req, type_, c);
      }
    }
  }

  // --- A whole call ---

  /** The event of a type and only it carries the type's key. */
  ghost predicate OnlyEvent(s: Store, req: Request, type_: EventType, e: EventRow) {
    forall other | other in s.events && other.announcementId == req.announcement.id && other.eventType == type_
                   && other.rulesetCode == req.ruleset.code && other.rulesetVersion == req.ruleset.version :: other == e
  }

  lemma OnlyEventValid(s: Store, req: Request, type_: EventType, e: EventRow)
    requires ValidStore(s) && e in s.events && KeyOf(e) == KeyFor(req, type_)
    ensures OnlyEvent(s, req, type_, e)
  {
    forall other | other in s.events && KeyOf(other) == KeyFor(req, type_) ensures other == e {
      var i :| 0 <= i < |s.events| && s.events[i] == e;
      var j :| 0 <= j < |s.events| && s.events[j] == other;
    }
  }

  /**
   * After a successful call every type with a match has one event, written then or before, and its rows are the
   * type's matches: every match of the headline and of every page of every supplied text, no other, none twice.
   */
  lemma MatchesStored(lineage: Lineage, h: Hashes, s: Store, req: Request, type_: EventType) returns (e: EventRow)
    requires ValidStore(s) && CollisionFree(h) && Detected(lineage, h, s, req).results.Some?
    requires TypeMatched(req, type_)
    ensures var later := Detected(lineage, h, s, req).store;
            && e in later.events && EventFor(req, type_, e) && OnlyEvent(later, req, type_, e)
            && HoldsMatches(h, later, req, type_, e)
    ensures FindEvent(Detected(lineage, h, s, req).store.events, KeyFor(req, type_)) == Some(e)
    ensures type_ in TYPE_ORDER && Ordered(Candidates(lineage, h, req), type_) != []
  {
    var later := Detected(lineage, h, s, req).store;
    DetectedRuns(lineage, h, s, req);
    MatchedIff(lineage, h, req, type_);
    ReplayReuses(lineage, h, s, req, req.derivedAt);
    var ordered := Ordered(Candidates(lineage, h, req), type_);
    hide Detected, Accepted, Candidates, CollisionFree, Ordered, ValidStore, Extends, Replayed, TypeMatched, FromMatch,
         FindEvent, Settled, DistinctFingerprints, HoldsMatches, EventFor, OnlyEvent, DetectFrom;
    var some :| FromMatch(h, req, type_, some);
    CandidateIff(lineage, h, req, type_, some);
    CallSettles(lineage, h, s, req, type_, some);
    CandidateType(lineage, h, req, Candidate(type_, some));
    e := FindEvent(later.events, KeyFor(req, type_)).value;
    assert e in later.events && KeyOf(e) == KeyFor(req, type_);
    forall c ensures c in ordered <==> FromMatch(h, req, type_, c) { CandidateIff(lineage, h, req, type_, c); }
    SettledHolds(h, later, req, type_, ordered, e);
    OnlyEventValid(later, req, type_, e);
  }

  /** No match of the headline is lost. */
  lemma HeadlineMatchStored(lineage: Lineage, h: Hashes, s: Store, req: Request, m: Match)
    requires ValidStore(s) && CollisionFree(h) && Detected(lineage, h, s, req).results.Some?
    requires HeadlineMatch(req, m)
    ensures var later := Detected(lineage, h, s, req).store;
            exists e, row | e in later.events && row in later.evidence ::
              EventFor(req, m.eventType, e) && RowOf(req, e, row)
              && HeadlineContent(h, req.announcement, m, row.content)
  {
    DetectedRuns(lineage, h, s, req);
    MatchHasContent(lineage, h, req);
    assert TypeMatched(req, m.eventType);
    hide Detected, Accepted, CollisionFree, ValidStore, HeadlineMatch, PageMatch, HeadlineContent, PageContent, EventFor,
         OnlyEvent, NoneTwice, NamesItsRules, RowOf, TypeMatched, FindEvent, Ordered, Candidates;
    var e := MatchesStored(lineage, h, s, req, m.eventType);
    var c :| HeadlineContent(h, req.announcement, m, c);
    assert FromMatch(h, req, m.eventType, c);
    assert EachStored(Detected(lineage, h, s, req).store, req, e, c);
  }

  /** No match of any page of any supplied text is lost. */
  lemma PageMatchStored(
      lineage: Lineage, h: Hashes, s: Store, req: Request, t: SuppliedText, p: Page, m: Match)
    requires ValidStore(s) && CollisionFree(h) && Detected(lineage, h, s, req).results.Some?
    requires PageMatch(req, t, p, m)
    ensures var later := Detected(lineage, h, s, req).store;
            exists e, row | e in later.events && row in later.evidence ::
              EventFor(req, m.eventType, e) && RowOf(req, e, row)
              && PageContent(h, req.announcement, t, p, m, row.content)
  {
    DetectedRuns(lineage, h, s, req);
    MatchHasContent(lineage, h, req);
    assert TypeMatched(req, m.eventType);
    hide Detected, Accepted, CollisionFree, ValidStore, HeadlineMatch, PageMatch, HeadlineContent, PageContent, EventFor,
         OnlyEvent, NoneTwice, NamesItsRules, RowOf, TypeMatched, FindEvent, Ordered, Candidates;
    var e := MatchesStored(lineage, h, s, req, m.eventType);
    var c :| PageContent(h, req.announcement, t, p, m, c);
    assert FromMatch(h, req, m.eventType, c);
    assert EachStored(Detected(lineage, h, s, req).store, req, e, c);
  }

  // --- Nothing else is written ---

  /** An event written now, for a type with candidates. */
  ghost predicate WrittenFor(req: Request, candidates: seq<Candidate>, n: nat, e: EventRow) {
    exists k | n <= k < |TYPE_ORDER| ::
      Ordered(candidates, TYPE_ORDER[k]) != [] && KeyOf(e) == KeyFor(req, TYPE_ORDER[k]) && e.derivedAt == req.derivedAt
  }

  ghost predicate HasEvent(events: seq<EventRow>, row: EvidenceRow) {
    exists e | e in events :: e.id == row.eventId
  }

  /** What a call adds to the tables. */
  ghost predicate AddsOnly(s: Store, later: Store, req: Request, candidates: seq<Candidate>, n: nat) {
    && |s.events| <= |later.events| && later.events[..|s.events|] == s.events
    && |s.evidence| <= |later.evidence| && later.evidence[..|s.evidence|] == s.evidence
    && (forall e | e in later.events[|s.events|..] :: WrittenFor(req, candidates, n, e))
    && (forall row | row in later.evidence[|s.evidence|..] :: HasEvent(later.events[|s.events|..], row))
  }

  /** Appending one event with its evidence rows. */
  lemma AppendAddsOnly(
      s: Store, later: Store, req: Request, candidates: seq<Candidate>, n: nat, event: EventRow, rows: seq<EvidenceRow>)
    requires later.events == s.events + [event] && later.evidence == s.evidence + rows
    requires WrittenFor(req, candidates, n, event) && forall row | row in rows :: row.eventId == event.id
    ensures AddsOnly(s, later, req, candidates, n)
  {
    assert later.events[|s.events|..] == [event] && later.evidence[|s.evidence|..] == rows;
    hide WrittenFor;
    forall row | row in rows ensures HasEvent([event], row) {
      assert event in [event];
    }
  }

  lemma WrittenAddsOnly(h: Hashes, s: Store, req: Request, candidates: seq<Candidate>, n: nat)
    requires n < |TYPE_ORDER| && Ordered(candidates, TYPE_ORDER[n]) != []
    ensures var ordered := Ordered(candidates, TYPE_ORDER[n]);
            AddsOnly(s, Written(h, s, req, TYPE_ORDER[n], ordered), req, candidates, n)
  {
    var t := TYPE_ORDER[n];
    var ordered := Ordered(candidates, t);
    var event, rows := NewEvent(h, req, t, ordered, s.nextId), NewEvidence(req, s.nextId, ordered, s.nextId + 1);
    NewEventKey(h, req, t, ordered, s.nextId);
    WrittenTables(h, s, req, t, ordered);
    hide NewEvent, Ordered, AddsOnly, KeyOf, KeyFor, TYPE_ORDER, Written, NewEvidence;
    assert WrittenFor(req, candidates, n, event);
    hide WrittenFor;
    AppendAddsOnly(s, Written(h, s, req, t, ordered), req, candidates, n, event, rows);
  }

  lemma WrittenTables(h: Hashes, s: Store, req: Request, t: EventType, ordered: seq<Content>)
    ensures var w, rows := Written(h, s, req, t, ordered), NewEvidence(req, s.nextId, ordered, s.nextId + 1);
            && w.events == s.events + [NewEvent(h, req, t, ordered, s.nextId)] && w.evidence == s.evidence + rows
            && forall row | row in rows :: row.eventId == s.nextId
  {
    hide NewEvent;
  }

  lemma NewEventKey(h: Hashes, req: Request, t: EventType, ordered: seq<Content>, id: Uuid)
    ensures var event := NewEvent(h, req, t, ordered, id);
            KeyOf(event) == KeyFor(req, t) && event.derivedAt == req.derivedAt && event.id == id
  {
    hide EventFingerprint, Unique, RuleCodes;
  }

  lemma TypeAddsOnly(h: Hashes, s: Store, req: Request, candidates: seq<Candidate>, n: nat)
    requires n < |TYPE_ORDER|
    ensures var ordered := Ordered(candidates, TYPE_ORDER[n]);
            AddsOnly(s, DetectType(h, s, req, TYPE_ORDER[n], ordered).store, req, candidates, n)
  {
    hide Ordered, TYPE_ORDER, WrittenFor, HasEvent;
    AddsNothing(s, req, candidates, n);
    if Ordered(candidates, TYPE_ORDER[n]) != [] { WrittenAddsOnly(h, s, req, candidates, n); }
    hide AddsOnly;
    TypeStores(h, s, req, TYPE_ORDER[n], Ordered(candidates, TYPE_ORDER[n]));
  }

  lemma AddsNothing(s: Store, req: Request, candidates: seq<Candidate>, n: nat)
    ensures AddsOnly(s, s, req, candidates, n)
  {
    hide WrittenFor, HasEvent;
  }

  lemma TypeStores(h: Hashes, s: Store, req: Request, t: EventType, ordered: seq<Content>)
    ensures var later := DetectType(h, s, req, t, ordered).store;
            later == s || (ordered != [] && later == Written(h, s, req, t, ordered))
  {
    hide Reusable, EventFingerprint, Taken, EvidenceOf, FindEvent, Written, ResultOf, NewEvent, NewEvidence, KeyFor;
  }

  lemma TailSplit<T>(a: seq<T>, b: seq<T>, c: seq<T>)
    requires |a| <= |b| <= |c| && b[..|a|] == a && c[..|b|] == b
    ensures c[..|a|] == a && c[|a|..] == b[|a|..] + c[|b|..]
  {
    assert c == c[..|b|] + c[|b|..];
  }

  lemma AddsTransitive(a: Store, b: Store, c: Store, req: Request, candidates: seq<Candidate>, n: nat)
    requires AddsOnly(a, b, req, candidates, n) && AddsOnly(b, c, req, candidates, n + 1)
    ensures AddsOnly(a, c, req, candidates, n)
  {
    TailSplit(a.events, b.events, c.events);
    TailSplit(a.evidence, b.evidence, c.evidence);
    hide Ordered;
  }

  lemma {:induction false} CallAddsOnly(h: Hashes, s: Store, req: Request, candidates: seq<Candidate>, n: nat)
    requires n <= |TYPE_ORDER|
    ensures AddsOnly(s, DetectFrom(h, s, req, candidates, n).store, req, candidates, n)
    decreases |TYPE_ORDER| - n
  {
    hide Ordered, DetectType, WrittenFor;
    if n < |TYPE_ORDER| {
      TypeAddsOnly(h, s, req, candidates, n);
      var first := DetectType(h, s, req, TYPE_ORDER[n], Ordered(candidates, TYPE_ORDER[n]));
      if first.results.Some? {
        CallAddsOnly(h, first.store, req, candidates, n + 1);
        AddsTransitive(s, first.store, DetectFrom(h, first.store, req, candidates, n + 1).store, req, candidates, n);
      }
      hide AddsOnly;
    }
  }

  lemma NewEventHolds(lineage: Lineage, h: Hashes, s: Store, req: Request, e: EventRow)
    requires ValidStore(s) && CollisionFree(h) && Detected(lineage, h, s, req).results.Some?
    requires AddsOnly(s, Detected(lineage, h, s, req).store, req, Candidates(lineage, h, req), 0)
    requires e in Detected(lineage, h, s, req).store.events[|s.events|..]
    ensures TypeMatched(req, e.eventType) && EventFor(req, e.eventType, e) && e.derivedAt == req.derivedAt
    ensures HoldsMatches(h, Detected(lineage, h, s, req).store, req, e.eventType, e)
  {
    var later, candidates := Detected(lineage, h, s, req).store, Candidates(lineage, h, req);
    DetectedRuns(lineage, h, s, req);
    CandidatesWellFormed(lineage, h, req);
    assert WrittenFor(req, candidates, 0, e) && e in later.events;
    hide Detected, Accepted, Candidates, CollisionFree, AllWellFormed, Ordered, ValidStore, TypeMatched, FromMatch,
         FindEvent, EventFor, DetectFrom, HoldsMatches, AddsOnly;
    var k :| 0 <= k < |TYPE_ORDER| && Ordered(candidates, TYPE_ORDER[k]) != []
             && KeyOf(e) == KeyFor(req, TYPE_ORDER[k]) && e.derivedAt == req.derivedAt;
    var t := TYPE_ORDER[k];
    var some := Ordered(candidates, t)[0];
    OrderedMembers(h, req.announcement.id, candidates, t, some);
    CandidateIff(lineage, h, req, t, some);
    MatchedIff(lineage, h, req, t);
    var stored := MatchesStored(lineage, h, s, req, t);
    assert e == stored;
  }

  /**
   * A successful call only adds: rows stored before stay, each new event is of a type with a match and holds exactly
   * that type's matches, and each new evidence row is one of them.
   */
  lemma OnlyMatchesWritten(lineage: Lineage, h: Hashes, s: Store, req: Request)
    requires ValidStore(s) && CollisionFree(h) && Detected(lineage, h, s, req).results.Some?
    ensures var later := Detected(lineage, h, s, req).store;
            && |s.events| <= |later.events| && later.events[..|s.events|] == s.events
            && |s.evidence| <= |later.evidence| && later.evidence[..|s.evidence|] == s.evidence
            && (forall e | e in later.events[|s.events|..] ::
                  TypeMatched(req, e.eventType) && EventFor(req, e.eventType, e) && e.derivedAt == req.derivedAt
                  && HoldsMatches(h, later, req, e.eventType, e))
            && (forall row | row in later.evidence[|s.evidence|..] ::
                  exists e | e in later.events[|s.events|..] ::
                    RowOf(req, e, row) && FromMatch(h, req, e.eventType, row.content))
  {
    var later, candidates := Detected(lineage, h, s, req).store, Candidates(lineage, h, req);
    DetectedRuns(lineage, h, s, req);
    CallAddsOnly(h, s, req, candidates, 0);
    hide Detected, Accepted, Candidates, CollisionFree, Ordered, ValidStore, TypeMatched, FromMatch, EventFor,
         DetectFrom, NoneTwice, NamesItsRules, EachStored, WrittenFor;
    var added := later.events[|s.events|..];
    forall e | e in added
      ensures TypeMatched(req, e.eventType) && EventFor(req, e.eventType, e) && e.derivedAt == req.derivedAt
              && HoldsMatches(h, later, req, e.eventType, e)
    {
      NewEventHolds(lineage, h, s, req, e);
    }
    forall row | row in later.evidence[|s.evidence|..]
      ensures exists e | e in added :: RowOf(req, e, row) && FromMatch(h, req, e.eventType, row.content)
    {
      assert HasEvent(added, row);
      var e :| e in added && e.id == row.eventId;
      assert row in later.evidence && HoldsMatches(h, later, req, e.eventType, e);
    }
  }

  // --- The results ---

  /** The result names the event and lists its rows in the reader's order. */
  ghost predicate ResultFor(later: Store, req: Request, r: EventResult, e: EventRow) {
    && e in later.events && EventFor(req, r.eventType, e) && r.id == e.id && r.fingerprint == e.fingerprint
    && var rows := EvidenceOf(later, e.id);
    && |r.evidence| == |rows|
    && forall i | 0 <= i < |rows| ::
         r.evidence[i].id == rows[i].id && r.evidence[i].kind == rows[i].content.kind
         && r.evidence[i].ruleCode == rows[i].content.ruleCode
         && r.evidence[i].fingerprint == rows[i].content.fingerprint
  }

  /** The result of some type from n on with candidates. */
  ghost predicate StoredAs(s: Store, req: Request, candidates: seq<Candidate>, n: nat, r: EventResult) {
    exists k | n <= k < |TYPE_ORDER| ::
      && Ordered(candidates, TYPE_ORDER[k]) != []
      && var found := FindEvent(s.events, KeyFor(req, TYPE_ORDER[k]));
         found.Some? && r == ResultOf(found.value, EvidenceOf(s, found.value.id), false)
  }

  ghost predicate RanksIncrease(results: seq<EventResult>) {
    forall i, j | 0 <= i < j < |results| :: TypeRank(results[i].eventType) < TypeRank(results[j].eventType)
  }

  ghost predicate HasType(results: seq<EventResult>, type_: EventType) {
    exists r | r in results :: r.eventType == type_
  }

  lemma RankAt(k: nat)
    requires k < |TYPE_ORDER|
    ensures TypeRank(TYPE_ORDER[k]) == k
  {
  }

  lemma StoredAsRank(s: Store, req: Request, candidates: seq<Candidate>, n: nat, r: EventResult)
    requires StoredAs(s, req, candidates, n, r)
    ensures TypeRank(r.eventType) >= n
  {
    hide Ordered, EvidenceOf, FindEvent;
    var k :| n <= k < |TYPE_ORDER| && Ordered(candidates, TYPE_ORDER[k]) != []
             && FindEvent(s.events, KeyFor(req, TYPE_ORDER[k])).Some?
             && r == ResultOf(FindEvent(s.events, KeyFor(req, TYPE_ORDER[k])).value,
                              EvidenceOf(s, FindEvent(s.events, KeyFor(req, TYPE_ORDER[k])).value.id), false);
    RankAt(k);
  }

  lemma RanksPrepend(first: seq<EventResult>, rest: seq<EventResult>, n: nat)
    requires |first| <= 1 && RanksIncrease(rest)
    requires (forall r | r in first :: TypeRank(r.eventType) == n) && (forall r | r in rest :: TypeRank(r.eventType) > n)
    ensures RanksIncrease(first + rest)
    ensures forall t :: HasType(first + rest, t) <==> HasType(first, t) || HasType(rest, t)
  {
    hide TypeRank;
    var all := first + rest;
    forall i, j | 0 <= i < j < |all| ensures TypeRank(all[i].eventType) < TypeRank(all[j].eventType) {
      assert all[j] == rest[j - |first|] && all[j] in rest;
    }
    forall t ensures HasType(all, t) <==> HasType(first, t) || HasType(rest, t) {
      assert forall r :: r in all <==> r in first || r in rest;
    }
  }

  lemma StoredResultAs(s: Store, req: Request, candidates: seq<Candidate>, n: nat)
    requires n < |TYPE_ORDER|
    ensures var first := StoredResult(s, req, TYPE_ORDER[n], Ordered(candidates, TYPE_ORDER[n]));
            && |first| <= 1
            && (forall r | r in first :: r.eventType == TYPE_ORDER[n] && StoredAs(s, req, candidates, n, r))
            && (first != [] ==> HasType(first, TYPE_ORDER[n]))
            && (first == [] <==> Ordered(candidates, TYPE_ORDER[n]) == []
                                 || FindEvent(s.events, KeyFor(req, TYPE_ORDER[n])).None?)
  {
    hide Ordered, EvidenceOf, FindEvent;
    var first := StoredResult(s, req, TYPE_ORDER[n], Ordered(candidates, TYPE_ORDER[n]));
    if first != [] { assert first[0] in first && first[0].eventType == TYPE_ORDER[n]; }
  }

  lemma StoredAsLater(s: Store, req: Request, candidates: seq<Candidate>, n: nat, r: EventResult)
    requires StoredAs(s, req, candidates, n + 1, r)
    ensures StoredAs(s, req, candidates, n, r)
  {
    hide Ordered, EvidenceOf, FindEvent, ResultOf, KeyFor, TYPE_ORDER;
  }

  lemma {:induction false} StoredFromList(s: Store, req: Request, candidates: seq<Candidate>, n: nat)
    requires n <= |TYPE_ORDER|
    requires forall k | n <= k < |TYPE_ORDER| && Ordered(candidates, TYPE_ORDER[k]) != [] ::
               FindEvent(s.events, KeyFor(req, TYPE_ORDER[k])).Some?
    ensures var results := StoredFrom(s, req, candidates, n);
            && RanksIncrease(results) && (forall r | r in results :: StoredAs(s, req, candidates, n, r))
            && forall k | n <= k < |TYPE_ORDER| && Ordered(candidates, TYPE_ORDER[k]) != [] ::
                 HasType(results, TYPE_ORDER[k])
    decreases |TYPE_ORDER| - n
  {
    hide Ordered, EvidenceOf, FindEvent, StoredAs, StoredResult, TypeRank, KeyFor, HasType;
    if n < |TYPE_ORDER| {
      StoredFromList(s, req, candidates, n + 1);
      var first := StoredResult(s, req, TYPE_ORDER[n], Ordered(candidates, TYPE_ORDER[n]));
      var rest := StoredFrom(s, req, candidates, n + 1);
      RankAt(n);
      StoredResultAs(s, req, candidates, n);
      assert StoredFrom(s, req, candidates, n) == first + rest;
      hide StoredFrom;
      forall r | r in rest ensures TypeRank(r.eventType) > n && StoredAs(s, req, candidates, n, r) {
        StoredAsRank(s, req, candidates, n + 1, r);
        StoredAsLater(s, req, candidates, n, r);
      }
      hide RanksIncrease;
      RanksPrepend(first, rest, n);
    }
  }

  /** Results from position n on say whether their event was already in the table. */
  ghost predicate SaysCreated(s: Store, req: Request, n: nat, r: EventResult) {
    && (exists k | n <= k < |TYPE_ORDER| :: r.eventType == TYPE_ORDER[k])
    && (r.created <==> FindEvent(s.events, KeyFor(req, r.eventType)).None?)
  }

  lemma TypeSaysCreated(h: Hashes, s: Store, req: Request, n: nat, ordered: seq<Content>)
    requires n < |TYPE_ORDER|
    ensures var o := DetectType(h, s, req, TYPE_ORDER[n], ordered);
            o.results.Some? ==> forall r | r in o.results.value :: SaysCreated(s, req, n, r)
  {
    var t := TYPE_ORDER[n];
    assert NewEvent(h, req, t, ordered, s.nextId).eventType == t;
    assert FindEvent(s.events, KeyFor(req, t)).Some? ==> FindEvent(s.events, KeyFor(req, t)).value.eventType == t;
    hide Reusable, EventFingerprint, Taken, EvidenceOf, FindEvent, Written, NewEvent, NewEvidence, KeyFor, TYPE_ORDER;
  }

  /** Another type's event neither appears nor disappears. */
  lemma OtherTypeKept(h: Hashes, s: Store, req: Request, t: EventType, ordered: seq<Content>, other: EventType)
    requires other != t
    ensures FindEvent(DetectType(h, s, req, t, ordered).store.events, KeyFor(req, other))
            == FindEvent(s.events, KeyFor(req, other))
  {
    var event := NewEvent(h, req, t, ordered, s.nextId);
    assert KeyOf(event) == KeyFor(req, t) && KeyFor(req, t) != KeyFor(req, other);
    FirstWithAppend(s.events, [event], KeyOf, KeyFor(req, other));
    assert FindEvent([event], KeyFor(req, other)).None?;
    hide Reusable, EventFingerprint, Taken, EvidenceOf, NewEvent, NewEvidence, KeyFor, FirstWith, ResultOf;
  }

  lemma {:induction false} CallSaysCreated(h: Hashes, s: Store, req: Request, candidates: seq<Candidate>, n: nat)
    requires n <= |TYPE_ORDER|
    ensures var o := DetectFrom(h, s, req, candidates, n);
            o.results.Some? ==> forall r | r in o.results.value :: SaysCreated(s, req, n, r)
    decreases |TYPE_ORDER| - n
  {
    hide Ordered, DetectType, FindEvent, KeyFor;
    if n < |TYPE_ORDER| {
      var ordered := Ordered(candidates, TYPE_ORDER[n]);
      var first := DetectType(h, s, req, TYPE_ORDER[n], ordered);
      TypeSaysCreated(h, s, req, n, ordered);
      if first.results.Some? {
        CallSaysCreated(h, first.store, req, candidates, n + 1);
        forall r | SaysCreated(first.store, req, n + 1, r) ensures SaysCreated(s, req, n, r) {
          var k :| n + 1 <= k < |TYPE_ORDER| && r.eventType == TYPE_ORDER[k];
          RankAt(n);
          RankAt(k);
          OtherTypeKept(h, s, req, TYPE_ORDER[n], ordered, r.eventType);
        }
        hide SaysCreated;
      }
    }
  }

  /** Whether the table holds an event of this type for this announcement under this ruleset. */
  ghost predicate Stored(s: Store, req: Request, type_: EventType) {
    exists e | e in s.events ::
      e.announcementId == req.announcement.id && e.eventType == type_
      && e.rulesetCode == req.ruleset.code && e.rulesetVersion == req.ruleset.version
  }

  lemma StoredIff(s: Store, req: Request, type_: EventType)
    ensures Stored(s, req, type_) <==> FindEvent(s.events, KeyFor(req, type_)).Some?
  {
    hide FirstWith;
    if Stored(s, req, type_) {
      var e :| e in s.events && e.announcementId == req.announcement.id && e.eventType == type_
               && e.rulesetCode == req.ruleset.code && e.rulesetVersion == req.ruleset.version;
      assert KeyOf(e) == KeyFor(req, type_);
    }
  }

  lemma ResultOfNames(later: Store, req: Request, r: EventResult, e: EventRow)
    requires r.(created := false) == ResultOf(e, EvidenceOf(later, e.id), false)
    requires e in later.events && EventFor(req, e.eventType, e)
    ensures r.eventType == e.eventType && ResultFor(later, req, r, e)
  {
    hide EvidenceOf, EventFor;
    assert r.eventType == r.(created := false).eventType && r.evidence == r.(created := false).evidence
           && r.id == r.(created := false).id && r.fingerprint == r.(created := false).fingerprint;
  }

  lemma ResultNamesEvent(lineage: Lineage, h: Hashes, s: Store, req: Request, r: EventResult)
    requires ValidStore(s) && CollisionFree(h) && Detected(lineage, h, s, req).results.Some?
    requires StoredAs(Detected(lineage, h, s, req).store, req, Candidates(lineage, h, req), 0, r.(created := false))
    ensures TypeMatched(req, r.eventType)
    ensures exists e :: ResultFor(Detected(lineage, h, s, req).store, req, r, e)
  {
    var later, candidates := Detected(lineage, h, s, req).store, Candidates(lineage, h, req);
    DetectedRuns(lineage, h, s, req);
    CandidatesWellFormed(lineage, h, req);
    hide Detected, Accepted, Candidates, CollisionFree, AllWellFormed, Ordered, ValidStore, TypeMatched, FromMatch,
         FindEvent, EventFor, DetectFrom, HoldsMatches, EvidenceOf, OnlyEvent, ResultOf, ResultFor;
    var k :| 0 <= k < |TYPE_ORDER| && Ordered(candidates, TYPE_ORDER[k]) != []
             && FindEvent(later.events, KeyFor(req, TYPE_ORDER[k])).Some?
             && r.(created := false) == ResultOf(FindEvent(later.events, KeyFor(req, TYPE_ORDER[k])).value,
                              EvidenceOf(later, FindEvent(later.events, KeyFor(req, TYPE_ORDER[k])).value.id), false);
    var t := TYPE_ORDER[k];
    var some := Ordered(candidates, t)[0];
    OrderedMembers(h, req.announcement.id, candidates, t, some);
    CandidateIff(lineage, h, req, t, some);
    MatchedIff(lineage, h, req, t);
    var e := MatchesStored(lineage, h, s, req, t);
    assert e.eventType == t by { assert KeyOf(e) == KeyFor(req, t); }
    ResultOfNames(later, req, r, e);
  }

  /**
   * What a successful call returns: one result for each type with a match, in the order of the types, each naming
   * the type's event and its rows, and saying whether the event is new.
   */
  lemma ResultsAreMatches(lineage: Lineage, h: Hashes, s: Store, req: Request)
    requires ValidStore(s) && CollisionFree(h) && Detected(lineage, h, s, req).results.Some?
    ensures var later, results := Detected(lineage, h, s, req).store, Detected(lineage, h, s, req).results.value;
            && RanksIncrease(results)
            && (forall t :: HasType(results, t) <==> TypeMatched(req, t))
            && (forall r | r in results :: exists e :: ResultFor(later, req, r, e))
            && (forall r | r in results :: r.created <==> !Stored(s, req, r.eventType))
  {
    var later, results := Detected(lineage, h, s, req).store, Detected(lineage, h, s, req).results.value;
    ResultsReplayed(lineage, h, s, req);
    hide Detected, Candidates, CollisionFree, ValidStore, TypeMatched, ResultFor, StoredAs, Stored, RanksIncrease,
         SaysCreated;
    forall r | r in results
      ensures TypeMatched(req, r.eventType) && (exists e :: ResultFor(later, req, r, e))
              && (r.created <==> !Stored(s, req, r.eventType))
    {
      ResultNamesEvent(lineage, h, s, req, r);
      CreatedIff(s, req, 0, r);
    }
    forall t | TypeMatched(req, t) ensures HasType(results, t) { TypeHasResult(lineage, h, s, req, t); }
  }

  lemma CreatedIff(s: Store, req: Request, n: nat, r: EventResult)
    requires SaysCreated(s, req, n, r)
    ensures r.created <==> !Stored(s, req, r.eventType)
  {
    StoredIff(s, req, r.eventType);
    hide Stored, FindEvent, KeyFor;
  }

  lemma TypeHasResult(lineage: Lineage, h: Hashes, s: Store, req: Request, t: EventType)
    requires ValidStore(s) && CollisionFree(h) && Detected(lineage, h, s, req).results.Some? && TypeMatched(req, t)
    ensures HasType(Detected(lineage, h, s, req).results.value, t)
  {
    hide Detected, Candidates, CollisionFree, ValidStore, TypeMatched, Ordered, HoldsMatches, EventFor, OnlyEvent,
         FindEvent, HasType, StoredAs, SaysCreated, RanksIncrease;
    var e := MatchesStored(lineage, h, s, req, t);
    var k :| 0 <= k < |TYPE_ORDER| && TYPE_ORDER[k] == t;
    ResultsReplayed(lineage, h, s, req);
  }

  /** The results are those a replay reads from the store, and say which events are new. */
  lemma ResultsReplayed(lineage: Lineage, h: Hashes, s: Store, req: Request)
    requires ValidStore(s) && CollisionFree(h) && Detected(lineage, h, s, req).results.Some?
    ensures var o, candidates := Detected(lineage, h, s, req), Candidates(lineage, h, req);
            var results := o.results.value;
            && RanksIncrease(results)
            && (forall r | r in results ::
                  StoredAs(o.store, req, candidates, 0, r.(created := false)) && SaysCreated(s, req, 0, r))
            && (forall k | 0 <= k < |TYPE_ORDER| && Ordered(candidates, TYPE_ORDER[k]) != [] ::
                  HasType(results, TYPE_ORDER[k]))
  {
    var o, candidates := Detected(lineage, h, s, req), Candidates(lineage, h, req);
    var results := o.results.value;
    DetectedRuns(lineage, h, s, req);
    CandidatesWellFormed(lineage, h, req);
    DetectFromSettles(h, s, req, candidates, 0);
    CallSaysCreated(h, s, req, candidates, 0);
    hide Detected, Accepted, Candidates, CollisionFree, AllWellFormed, Ordered, ValidStore, FindEvent, DetectFrom,
         Extends, Settled, StoredAs, KeyFor, SaysCreated, TYPE_ORDER;
    forall k | 0 <= k < |TYPE_ORDER| && Ordered(candidates, TYPE_ORDER[k]) != []
      ensures FindEvent(o.store.events, KeyFor(req, TYPE_ORDER[k])).Some?
    {
      SettledAt(h, o.store, req, candidates, TYPE_ORDER[k]);
    }
    StoredFromList(o.store, req, candidates, 0);
    var replayed := StoredFrom(o.store, req, candidates, 0);
    assert Replayed(results) == replayed;
    hide StoredFrom, SettledFrom;
    ReplayedTypes(results);
    hide RanksIncrease, HasType;
    forall r | r in results ensures StoredAs(o.store, req, candidates, 0, r.(created := false)) {
      var i :| 0 <= i < |results| && results[i] == r;
      assert replayed[i] == r.(created := false) && replayed[i] in replayed;
    }
  }

  lemma ReplayedTypes(results: seq<EventResult>)
    ensures RanksIncrease(Replayed(results)) ==> RanksIncrease(results)
    ensures forall t :: HasType(Replayed(results), t) ==> HasType(results, t)
  {
    hide TypeRank;
    var replayed := Replayed(results);
    assert forall i | 0 <= i < |results| :: replayed[i].eventType == results[i].eventType;
    if RanksIncrease(replayed) {
      forall i, j | 0 <= i < j < |results| ensures TypeRank(results[i].eventType) < TypeRank(results[j].eventType) {
        assert TypeRank(replayed[i].eventType) < TypeRank(replayed[j].eventType);
      }
    }
    forall t | HasType(replayed, t) ensures HasType(results, t) {
      var r :| r in replayed && r.eventType == t;
      var i :| 0 <= i < |replayed| && replayed[i] == r;
      assert results[i] in results && results[i].eventType == t;
    }
  }

  // --- The order of the rules ---

  /** The rules of the event in order of first appearance among its rows as they are read. */
  ghost predicate RulesInOrder(s: Store, e: EventRow) {
    forall i, j | 0 <= i < j < |e.matchedRuleCodes| :: FirstSeen(EvidenceOf(s, e.id), e.matchedRuleCodes[i], e.matchedRuleCodes[j])
  }

  /** Some row names the one rule and no row up to it names the other. */
  ghost predicate FirstSeen(rows: seq<EvidenceRow>, code: string, other: string) {
    exists p | 0 <= p < |rows| ::
      rows[p].content.ruleCode == code && forall q | 0 <= q <= p :: rows[q].content.ruleCode != other
  }

  function RowContent(r: EvidenceRow): Content {
    r.content
  }

  /** The rows of a settled type's event are read in the order of its candidates. */
  lemma ReadAsOrdered(h: Hashes, s: Store, req: Request, type_: EventType, ordered: seq<Content>, e: EventRow)
    requires Settled(h, s, req, type_, ordered) && ordered != [] && DistinctFingerprints(ordered)
    requires FindEvent(s.events, KeyFor(req, type_)) == Some(e) && StrictlySorted(ordered, ContentKey)
    ensures Map(EvidenceOf(s, e.id), RowContent) == ordered
  {
    SettledSame(h, s, req, type_, ordered, e);
    ContentsStrict(s, e, ordered);
    hide *;
    StrictOrderUnique(Map(EvidenceOf(s, e.id), RowContent), ordered, ContentKey);
  }

  lemma SettledSame(h: Hashes, s: Store, req: Request, type_: EventType, ordered: seq<Content>, e: EventRow)
    requires Settled(h, s, req, type_, ordered) && ordered != [] && DistinctFingerprints(ordered)
    requires FindEvent(s.events, KeyFor(req, type_)) == Some(e)
    ensures SameElements(Map(EvidenceOf(s, e.id), RowContent), ordered)
    ensures multiset(RowFingerprints(EvidenceOf(s, e.id))) == multiset(Fingerprints(ordered))
  {
    var rows := EvidenceOf(s, e.id);
    var contents := Map(rows, RowContent);
    assert Reusable(h, s, req, type_, ordered, e);
    hide EvidenceOf, EventCanonical, FindEvent, KeyFor, DistinctFingerprints;
    forall c | c in ordered ensures c in contents {
      SettledContents(h, s, req, type_, ordered, c);
      var row :| row in rows && row.content == c;
      var i :| 0 <= i < |rows| && rows[i] == row;
      assert contents[i] == c;
    }
    hide Settled;
    forall c | c in contents ensures c in ordered {
      var i :| 0 <= i < |rows| && contents[i] == c;
      assert EvidenceCanonical(h, ordered, e, rows[i]);
    }
  }

  /** With pairwise different fingerprints the rows are read in strict order. */
  lemma ContentsStrict(s: Store, e: EventRow, ordered: seq<Content>)
    requires multiset(RowFingerprints(EvidenceOf(s, e.id))) == multiset(Fingerprints(ordered))
    requires DistinctFingerprints(ordered)
    ensures StrictlySorted(Map(EvidenceOf(s, e.id), RowContent), ContentKey)
  {
    var rows := EvidenceOf(s, e.id);
    var contents := Map(rows, RowContent);
    var fingerprint := (r: EvidenceRow) => r.content.fingerprint;
    SortAscending(Filter(s.evidence, (r: EvidenceRow) => r.eventId == e.id), EventStore.RowKey);
    assert RowFingerprints(rows) == Map(rows, fingerprint);
    hide EvidenceOf, LexLeq, ContentKey;
    DistinctByCount(ordered, ContentFingerprint, rows, fingerprint);
    forall i, j | 0 <= i < j < |contents|
      ensures LexLeq(ContentKey(contents[i]), ContentKey(contents[j])) && ContentKey(contents[i]) != ContentKey(contents[j])
    {
      assert LexLeq(EventStore.RowKey(rows[i]), EventStore.RowKey(rows[j]));
      KeyEndsWithFingerprint(contents[i]);
      KeyEndsWithFingerprint(contents[j]);
    }
  }

  lemma RulesOfOrdered(s: Store, e: EventRow, ordered: seq<Content>)
    requires Map(EvidenceOf(s, e.id), RowContent) == ordered && e.matchedRuleCodes == Unique(RuleCodes(ordered))
    ensures RulesInOrder(s, e)
  {
    var rows, codes := EvidenceOf(s, e.id), RuleCodes(ordered);
    forall i, j | 0 <= i < j < |e.matchedRuleCodes|
      ensures FirstSeen(rows, e.matchedRuleCodes[i], e.matchedRuleCodes[j])
    {
      UniqueInOrder(codes, i, j);
      var p :| 0 <= p < |codes| && codes[p] == e.matchedRuleCodes[i] && e.matchedRuleCodes[j] !in codes[..p + 1];
      hide EvidenceOf, Unique;
      assert rows[p].content == ordered[p];
      forall q | 0 <= q <= p ensures rows[q].content.ruleCode != e.matchedRuleCodes[j] {
        assert rows[q].content == ordered[q] && codes[..p + 1][q] == codes[q];
      }
    }
  }

  /** After a successful call the event of a type names its rules in the order in which its rows are read. */
  lemma RulesInReadingOrder(lineage: Lineage, h: Hashes, s: Store, req: Request, type_: EventType) returns (e: EventRow)
    requires ValidStore(s) && CollisionFree(h) && Detected(lineage, h, s, req).results.Some?
    requires TypeMatched(req, type_)
    ensures var later := Detected(lineage, h, s, req).store;
            && e in later.events && EventFor(req, type_, e) && OnlyEvent(later, req, type_, e)
            && RulesInOrder(later, e)
  {
    var later, candidates := Detected(lineage, h, s, req).store, Candidates(lineage, h, req);
    e := MatchesStored(lineage, h, s, req, type_);
    DetectedRuns(lineage, h, s, req);
    CandidatesWellFormed(lineage, h, req);
    var ordered := Ordered(candidates, type_);
    hide Detected, Accepted, Candidates, CollisionFree, AllWellFormed, Ordered, ValidStore, TypeMatched,
         FindEvent, DetectFrom, HoldsMatches, EvidenceOf, Extends, KeyFor, EventFor, OnlyEvent, StrictlySorted,
         DistinctFingerprints, StoredFrom, RulesInOrder;
    DetectFromSettles(h, s, req, candidates, 0);
    SettledAt(h, later, req, candidates, type_);
    OrderedProperties(h, req.announcement.id, candidates, type_);
    ReadAsOrdered(h, later, req, type_, ordered, e);
    assert EventCanonical(h, req, type_, ordered, e) by { hide EventCanonical, EvidenceCanonical; }
    hide Settled, SettledFrom, EventFingerprint, Unique;
    RulesOfOrdered(later, e, ordered);
  }

  // --- What a successful call has checked ---

  /** The announcement is persisted and accepted, with these fields and these documents. */
  ghost predicate Persisted(lineage: Lineage, a: Announcement) {
    && a.id in lineage.announcements && a.source.validation == "accepted"
    && var stored := lineage.announcements[a.id].announcement;
    && a.id == stored.id && a.companyId == stored.companyId && a.securityId == stored.securityId
    && a.datasetId == stored.datasetId && a.externalRecordId == stored.externalRecordId && a.category == stored.category
    && a.headline == stored.headline && a.date == stored.date && a.exchange == stored.exchange
    && a.availableAt == stored.availableAt && a.revisionAt == stored.revisionAt && a.ingestedAt == stored.ingestedAt
    && a.source.id == stored.source.id && a.source.sourceUri == stored.source.sourceUri
    && a.source.rawObjectKey == stored.source.rawObjectKey
    && a.source.rawPayloadReference == stored.source.rawPayloadReference
    && a.source.contentSha256 == stored.source.contentSha256
    && lineage.announcements[a.id].sourceDatasetId == a.datasetId
    && (forall d | d in a.documents ::
          exists x | x in lineage.announcements[a.id].documents ::
            x.document == d && d.source.validation == "accepted" && x.sourceDatasetId == a.datasetId)
    && (forall x | x in lineage.announcements[a.id].documents :: x.document in a.documents)
  }

  /** The text is of a document of the announcement, from the persisted extraction of an accepted asset. */
  ghost predicate Supported(lineage: Lineage, hash: string -> Digest, a: Announcement, t: SuppliedText) {
    && t.document in a.documents && t.document.companyId == a.companyId && t.document.securityId == a.securityId
    && t.document.datasetId == a.datasetId && t.document.availableAt == a.availableAt
    && t.sourceAvailableAt == a.availableAt
    && t.asset.documentId == t.document.id && t.extraction.assetId == t.asset.id
    && t.asset.id in lineage.assets && lineage.assets[t.asset.id] == t.asset
    && t.extraction.id in lineage.extractions && lineage.extractions[t.extraction.id].extraction == t.extraction
    && (t.asset.status == "verified" || t.asset.status == "accepted_unverified")
    && (t.extraction.status != "success" ==> t.text == None)
    && (t.extraction.status == "success" ==>
          && t.text.Some? && t.extraction.textDigest == Some(hash(t.text.value))
          && t.extraction.characterCount == Some(|t.text.value|) && t.extraction.pageCount == Some(|t.pages|)
          && lineage.extractions[t.extraction.id].pageMap == Entries(t.pages))
  }

  /** The match is in range of its text, of a known type and by a named rule. */
  ghost predicate InRange(m: Match, text: string) {
    0 <= m.start < m.end <= |text| && m.eventType in TYPE_ORDER && m.ruleCode != "" && m.ruleVersion != ""
  }

  /** A call that succeeds had a named ruleset, a persisted announcement, supported texts and matches in range. */
  lemma SuccessMeans(lineage: Lineage, h: Hashes, s: Store, req: Request)
    requires Detected(lineage, h, s, req).results.Some?
    ensures req.ruleset.code != "" && req.ruleset.version != "" && Persisted(lineage, req.announcement)
    ensures forall t | t in req.texts :: Supported(lineage, h.text, req.announcement, t)
    ensures forall m | HeadlineMatch(req, m) :: InRange(m, req.announcement.headline)
    ensures forall t, p, m | PageMatch(req, t, p, m) :: p.text.Some? && InRange(m, p.text.value)
  {
    DetectedRuns(lineage, h, s, req);
    hide Detected;
    PersistedAnnouncement(lineage, req.announcement);
    forall t | t in req.texts ensures Supported(lineage, h.text, req.announcement, t) {
      assert TextAccepted(lineage, h, req, t);
      SupportedText(lineage, h, req.announcement, t);
    }
    hide AnnouncementMatches, TextMatches, Persisted, Supported;
    forall m | HeadlineMatch(req, m) ensures InRange(m, req.announcement.headline) {
      assert SpanAccepted(HeadlineSource(req.announcement), m);
    }
    forall t, p, m | PageMatch(req, t, p, m) ensures p.text.Some? && InRange(m, p.text.value) {
      SuppliedPage(lineage, h, req, t, p, m);
      PageEntryFound(lineage, h, req.announcement, t, p);
    }
  }

  lemma PersistedAnnouncement(lineage: Lineage, a: Announcement)
    requires AnnouncementMatches(lineage, a)
    ensures Persisted(lineage, a)
  {
    var stored := lineage.announcements[a.id];
    assert Canonical(a) == stored.announcement;
    DocumentsPersisted(a, stored.documents);
    hide DocumentsMatch;
  }

  lemma DocumentsPersisted(a: Announcement, stored: seq<StoredDocument>)
    requires DocumentsMatch(a, stored)
    ensures forall x | x in stored :: x.document in a.documents
    ensures forall d | d in a.documents :: exists x | x in stored ::
              x.document == d && d.source.validation == "accepted" && x.sourceDatasetId == a.datasetId
  {
    forall d | d in a.documents
      ensures exists x | x in stored ::
                x.document == d && d.source.validation == "accepted" && x.sourceDatasetId == a.datasetId
    {
      var x :| x in stored && x.document.id == d.id;
      assert DocumentById(a.documents, x.document.id) == Some(x.document);
      var i :| 0 <= i < |a.documents| && a.documents[i] == d;
      assert Distinct(a.documents, DocumentId);
      LastWithSelf(a.documents, DocumentId, i);
    }
  }

  lemma SupportedText(lineage: Lineage, h: Hashes, a: Announcement, t: SuppliedText)
    requires TextMatches(lineage, h, a, t)
    ensures Supported(lineage, h.text, a, t)
  {
    hide PageCoherent;
  }
}
