/** What detection stores, the point-in-time reader accepts: the exact condition, and when it always holds. */
module DetectionReadBack {
  import opened Prelude
  import opened Sorting
  import opened Dictionaries
  import opened EventModel
  import opened Spans
  import opened EventStore
  import opened Detection
  import opened DetectionReplay

  /** The reader accepts a row with this content, written for this announcement. */
  predicate Readable(lineage: Lineage, h: Hashes, a: Announcement, c: Content) {
    && h.text(c.excerpt) == c.excerptDigest
    && 0 <= c.start < c.end
    && (c.kind == Headline || c.kind == DocumentText)
    && (c.kind == Headline ==> HeadlineAccepted(c, a))
    && (c.kind == DocumentText ==> DocumentAccepted(lineage, c, a))
  }

  lemma ReadableIsAccepted(lineage: Lineage, h: Hashes, a: Announcement, row: EvidenceRow, at: Instant)
    requires row.announcementId == a.id && row.sourceAvailableAt == at
    ensures RowAccepted(lineage, h.text, row, a, at) == Readable(lineage, h, a, row.content)
  {
    hide HeadlineAccepted, DocumentAccepted;
  }

  /** Headline evidence always reads back. */
  lemma HeadlineReadable(lineage: Lineage, h: Hashes, a: Announcement, m: Match)
    requires SpanAccepted(HeadlineSource(a), m)
    ensures Readable(lineage, h, a, ContentOf(h, a.id, HeadlineSource(a), m))
  {
    ContextNonEmpty(a.headline, Span(m.start, m.end), false);
    hide ContextBounds;
  }

  /** The page map of an accepted text holds each page under its number. */
  lemma PageEntryFound(lineage: Lineage, h: Hashes, a: Announcement, t: SuppliedText, p: Page)
    requires TextMatches(lineage, h, a, t) && HasPages(t) && p in t.pages
    ensures EntryFor(lineage.extractions[t.extraction.id].pageMap, p.number) == Some(Entry(p))
    ensures p.text.Some? && Slice(t.text.value, p.start, p.end) == p.text.value
    ensures p.start >= 0 && p.end >= 0 ==> p.start <= |t.text.value| && p.end <= |t.text.value|
  {
    var pageMap := lineage.extractions[t.extraction.id].pageMap;
    assert PagesCoherent(t.text.value, t.pages, pageMap, h.text);
    var i :| 0 <= i < |t.pages| && t.pages[i] == p;
    assert PageCoherent(t.text.value, t.pages, i, h.text);
    forall k | 0 <= k < i ensures pageMap[k].number != pageMap[i].number {
      assert PageCoherent(t.text.value, t.pages, k, h.text);
    }
    FirstWithAt(pageMap, EntryNumber, i);
    if p.start >= 0 && p.end >= 0 { PlainPageInside(t.text.value, t.pages, pageMap, h.text, i); }
  }

  /** Where a window of a page lies in the whole text, against the page's own offsets. */
  lemma PageWindow(t: SuppliedText, p: Page, m: Match)
    requires t.text.Some? && p.text.Some? && Slice(t.text.value, p.start, p.end) == p.text.value
    requires p.start >= 0 && p.end >= 0 ==> p.start <= |t.text.value| && p.end <= |t.text.value|
    requires MatchAccepted(m, |p.text.value|)
    ensures var window := Window(PageSource(t, p), m);
            && window.start < window.end
            && (p.start < 0 ==> window.start < 0)
            && (p.start >= 0 ==> 0 <= window.start)
            && (p.start >= 0 && p.end < 0 ==> window.end > p.end)
            && (p.start >= 0 && p.end >= 0 ==> p.start <= window.start && window.end <= p.end <= |t.text.value|)
  {
    ContextNonEmpty(p.text.value, Span(m.start, m.end), true);
    hide ContextBounds;
  }

  /** Document evidence reads back exactly when the offsets of its page are not negative. */
  lemma PageReadableIff(lineage: Lineage, h: Hashes, a: Announcement, t: SuppliedText, p: Page, m: Match)
    requires TextMatches(lineage, h, a, t) && HasPages(t) && p in t.pages && SpanAccepted(PageSource(t, p), m)
    ensures Readable(lineage, h, a, ContentOf(h, a.id, PageSource(t, p), m)) <==> p.start >= 0 && p.end >= 0
  {
    PageEntryFound(lineage, h, a, t, p);
    PageWindow(t, p, m);
    hide Slice, ContextBounds, EntryFor, PagesCoherent, DocumentById;
  }

  /** The page map entry a span refers to has no negative offset; headline spans refer to none. */
  predicate OnPlainPage(lineage: Lineage, c: Content) {
    c.kind == DocumentText && c.extractionId.Some? && c.extractionId.value in lineage.extractions && c.pageNumbers != []
    ==>
      var entry := EntryFor(lineage.extractions[c.extractionId.value].pageMap, c.pageNumbers[0]);
      entry.Some? ==> entry.value.start >= 0 && entry.value.end >= 0
  }

  lemma PageOnPlainPageIff(lineage: Lineage, h: Hashes, a: Announcement, t: SuppliedText, p: Page, m: Match)
    requires TextMatches(lineage, h, a, t) && HasPages(t) && p in t.pages && SpanAccepted(PageSource(t, p), m)
    ensures OnPlainPage(lineage, ContentOf(h, a.id, PageSource(t, p), m)) <==> p.start >= 0 && p.end >= 0
  {
    PageEntryFound(lineage, h, a, t, p);
    hide PagesCoherent, Window, EntryFor, Slice, DocumentById;
  }

  /** A candidate reads back exactly when its page has no negative offset. */
  lemma CandidateReadableIff(lineage: Lineage, h: Hashes, req: Request, c: Candidate)
    requires Accepted(lineage, h, req) && c in Candidates(lineage, h, req)
    ensures Readable(lineage, h, req.announcement, c.content) <==> OnPlainPage(lineage, c.content)
    ensures OffsetsNonNegative(req.texts) ==> OnPlainPage(lineage, c.content)
  {
    var a := req.announcement;
    CandidateOrigin(lineage, h, req, c);
    hide Candidates, Readable, AnnouncementMatches, TextMatches, SpanAccepted;
    if CandidateFrom(h, a.id, HeadlineSource(a), c) {
      var m :| SpanAccepted(HeadlineSource(a), m) && c == CandidateOf(h, a.id, HeadlineSource(a), m);
      HeadlineReadable(lineage, h, a, m);
    } else {
      hide ContentOf, OnPlainPage, PageSource, HeadlineSource;
      var t, p :| t in req.texts && p in t.pages && HasPages(t) && CandidateFrom(h, a.id, PageSource(t, p), c);
      assert TextAccepted(lineage, h, req, t);
      var m :| SpanAccepted(PageSource(t, p), m) && c == CandidateOf(h, a.id, PageSource(t, p), m);
      PageReadableIff(lineage, h, a, t, p, m);
      PageOnPlainPageIff(lineage, h, a, t, p, m);
    }
  }

  /** The supplied texts' pages have no negative offsets. */
  predicate OffsetsNonNegative(texts: seq<SuppliedText>) {
    forall t | t in texts && HasPages(t) :: forall p | p in t.pages :: p.start >= 0 && p.end >= 0
  }

  lemma CandidateType(lineage: Lineage, h: Hashes, req: Request, c: Candidate)
    requires Accepted(lineage, h, req) && c in Candidates(lineage, h, req)
    ensures c.eventType in TYPE_ORDER
  {
    CandidateOrigin(lineage, h, req, c);
    hide Candidates, Accepted, ContentOf, HeadlineSource, PageSource;
  }

  /** Stored rows and candidates of a settled event are the same contents. */
  lemma SettledContents(h: Hashes, s: Store, req: Request, t: EventType, ordered: seq<Content>, c: Content)
    requires Settled(h, s, req, t, ordered) && ordered != [] && DistinctFingerprints(ordered)
    ensures var rows := EvidenceOf(s, FindEvent(s.events, KeyFor(req, t)).value.id);
            && c in ordered <==> exists row | row in rows :: row.content == c
  {
    var e := FindEvent(s.events, KeyFor(req, t)).value;
    var rows := EvidenceOf(s, e.id);
    hide EvidenceOf, EventCanonical, FindEvent;
    if c in ordered {
      var i :| 0 <= i < |ordered| && ordered[i] == c;
      LastWithSelf(ordered, ContentFingerprint, i);
      assert Fingerprints(ordered)[i] == c.fingerprint;
      assert c.fingerprint in multiset(RowFingerprints(rows));
      var k :| 0 <= k < |rows| && RowFingerprints(rows)[k] == c.fingerprint;
      assert EvidenceCanonical(h, ordered, e, rows[k]);
      assert rows[k] in rows && rows[k].content == c;
    }
    if row :| row in rows && row.content == c {
      assert EvidenceCanonical(h, ordered, e, row);
    }
  }

  /** The event of a settled type reads back exactly when each of its candidates does. */
  lemma SettledAcceptedIff(lineage: Lineage, h: Hashes, s: Store, req: Request, t: EventType, ordered: seq<Content>)
    requires Settled(h, s, req, t, ordered) && ordered != [] && t in TYPE_ORDER && DistinctFingerprints(ordered)
    ensures EventAccepted(lineage, h.text, s, FindEvent(s.events, KeyFor(req, t)).value, req.announcement)
            <==> forall c | c in ordered :: Readable(lineage, h, req.announcement, c)
  {
    var a, e := req.announcement, FindEvent(s.events, KeyFor(req, t)).value;
    var rows := EvidenceOf(s, e.id);
    assert EventCanonical(h, req, t, ordered, e) && KeyOf(e) == KeyFor(req, t);
    forall c ensures c in ordered <==> exists row | row in rows :: row.content == c {
      SettledContents(h, s, req, t, ordered, c);
    }
    forall row | row in rows
      ensures RowAccepted(lineage, h.text, row, a, e.sourceAvailableAt) <==> Readable(lineage, h, a, row.content)
    {
      assert EvidenceCanonical(h, ordered, e, row);
      ReadableIsAccepted(lineage, h, a, row, e.sourceAvailableAt);
    }
    assert ordered[0] in ordered;
    hide Readable, RowAccepted, EvidenceOf, EventFingerprint, Unique, RuleCodes, FindEvent, Settled, ContentWith,
         DistinctFingerprints;
  }

  /** The result of each settled type names its event. */
  lemma {:induction false} StoredFromMembers(
      h: Hashes, s: Store, req: Request, candidates: seq<Candidate>, n: nat, r: EventResult)
    requires r in StoredFrom(s, req, candidates, n)
    ensures exists k | n <= k < |TYPE_ORDER| ::
              && Ordered(candidates, TYPE_ORDER[k]) != []
              && FindEvent(s.events, KeyFor(req, TYPE_ORDER[k])).Some?
              && r.id == FindEvent(s.events, KeyFor(req, TYPE_ORDER[k])).value.id
    decreases |TYPE_ORDER| - n
  {
    hide Ordered, FindEvent, KeyFor, EvidenceOf;
    if r !in StoredResult(s, req, TYPE_ORDER[n], Ordered(candidates, TYPE_ORDER[n])) {
      StoredFromMembers(h, s, req, candidates, n + 1, r);
    } else {
      assert n <= n < |TYPE_ORDER|;
    }
  }

  /**
   * The exact condition for reading back: after a successful call the event of a type with candidates is stored, and
   * the reader accepts it for the same announcement if and only if no candidate of the type lies on a page whose map
   * entry has a negative offset. It does not matter whether the call wrote the event or reused it.
   */
  lemma ReadsBackIff(lineage: Lineage, h: Hashes, s: Store, req: Request, t: EventType, some: Content)
    requires ValidStore(s) && CollisionFree(h) && Detected(lineage, h, s, req).results.Some?
    requires Candidate(t, some) in Candidates(lineage, h, req)
    ensures var later := Detected(lineage, h, s, req).store;
            var e := FindEvent(later.events, KeyFor(req, t));
            && e.Some?
            && (EventAccepted(lineage, h.text, later, e.value, req.announcement)
                <==> forall c | Candidate(t, c) in Candidates(lineage, h, req) :: OnPlainPage(lineage, c))
  {
    var later := Detected(lineage, h, s, req).store;
    var ordered := Ordered(Candidates(lineage, h, req), t);
    CallSettles(lineage, h, s, req, t, some);
    CandidateType(lineage, h, req, Candidate(t, some));
    hide Detected, Candidates, CollisionFree, EventAccepted, Readable, Ordered, KeyFor, ValidStore, OnPlainPage,
         DistinctFingerprints, Accepted, Reusable, FindEvent, Settled;
    SettledAcceptedIff(lineage, h, later, req, t, ordered);
    forall c | c in ordered ensures Readable(lineage, h, req.announcement, c) <==> OnPlainPage(lineage, c) {
      CandidateReadableIff(lineage, h, req, Candidate(t, c));
    }
  }

  /** After a successful call every type with candidates is settled. */
  lemma CallSettles(lineage: Lineage, h: Hashes, s: Store, req: Request, t: EventType, some: Content)
    requires ValidStore(s) && CollisionFree(h) && Detected(lineage, h, s, req).results.Some?
    requires Candidate(t, some) in Candidates(lineage, h, req)
    ensures var ordered := Ordered(Candidates(lineage, h, req), t);
            && Settled(h, Detected(lineage, h, s, req).store, req, t, ordered)
            && FindEvent(Detected(lineage, h, s, req).store.events, KeyFor(req, t)).Some?
            && some in ordered && ordered != [] && DistinctFingerprints(ordered)
            && forall c :: c in ordered <==> Candidate(t, c) in Candidates(lineage, h, req)
  {
    DetectedRuns(lineage, h, s, req);
    CandidatesWellFormed(lineage, h, req);
    CandidateType(lineage, h, req, Candidate(t, some));
    hide Detected, Accepted, Candidates, DetectFrom, CollisionFree, AllWellFormed, Ordered, KeyFor, ValidStore, Extends,
         DistinctFingerprints, StrictlySorted, ExcerptsDigested, FindEvent, Settled, SettledFrom, StoredFrom, Replayed;
    var candidates := Candidates(lineage, h, req);
    DetectFromSettles(h, s, req, candidates, 0);
    SettledAt(h, Detected(lineage, h, s, req).store, req, candidates, t);
    OrderedProperties(h, req.announcement.id, candidates, t);
    forall c ensures c in Ordered(candidates, t) <==> Candidate(t, c) in candidates {
      OrderedMembers(h, req.announcement.id, candidates, t, c);
    }
  }

  lemma DetectedRuns(lineage: Lineage, h: Hashes, s: Store, req: Request)
    requires Detected(lineage, h, s, req).results.Some?
    ensures Accepted(lineage, h, req)
    ensures Detected(lineage, h, s, req) == DetectFrom(h, s, req, Candidates(lineage, h, req), 0)
  {
    hide Accepted, Candidates, DetectFrom;
  }

  lemma SettledAt(h: Hashes, s: Store, req: Request, candidates: seq<Candidate>, t: EventType)
    requires SettledFrom(h, s, req, candidates, 0) && t in TYPE_ORDER
    ensures Settled(h, s, req, t, Ordered(candidates, t))
    ensures Ordered(candidates, t) != [] ==> FindEvent(s.events, KeyFor(req, t)).Some?
  {
    hide Reusable, Ordered, FindEvent, KeyFor;
    var k :| 0 <= k < |TYPE_ORDER| && TYPE_ORDER[k] == t;
    assert Settled(h, s, req, TYPE_ORDER[k], Ordered(candidates, TYPE_ORDER[k]));
  }

  /** Texts whose pages the extractor composed have none. */
  lemma ExtractedNonNegative(texts: seq<SuppliedText>, hash: string -> Digest)
    requires forall t | t in texts && HasPages(t) :: t.pages == ComposePages(TextsOf(t.pages), hash)
    ensures OffsetsNonNegative(texts)
  {
    forall t, p | t in texts && HasPages(t) && p in t.pages ensures p.start >= 0 && p.end >= 0 {
      ComposedPagesAccepted(TextsOf(t.pages), hash);
    }
  }

  /** Hence with non-negative page offsets every event a successful call returns is accepted by the reader. */
  lemma DetectedReadsBack(lineage: Lineage, h: Hashes, s: Store, req: Request, r: EventResult)
    requires ValidStore(s) && CollisionFree(h) && OffsetsNonNegative(req.texts)
    requires Detected(lineage, h, s, req).results.Some? && r in Detected(lineage, h, s, req).results.value
    ensures var later := Detected(lineage, h, s, req).store;
            exists e | e in later.events ::
              e.id == r.id && EventAccepted(lineage, h.text, later, e, req.announcement)
  {
    var candidates := Candidates(lineage, h, req);
    var o := DetectFrom(h, s, req, candidates, 0);
    CandidatesWellFormed(lineage, h, req);
    hide Accepted, Candidates, DetectFrom, CollisionFree, AllWellFormed, EventAccepted, Ordered, SettledFrom,
         KeyFor, ValidStore, Extends, OffsetsNonNegative, OnPlainPage;
    DetectFromSettles(h, s, req, candidates, 0);
    var i :| 0 <= i < |o.results.value| && o.results.value[i] == r;
    assert Replayed(o.results.value)[i] == r.(created := false);
    StoredFromMembers(h, o.store, req, candidates, 0, r.(created := false));
    var k :| 0 <= k < |TYPE_ORDER| && Ordered(candidates, TYPE_ORDER[k]) != []
             && FindEvent(o.store.events, KeyFor(req, TYPE_ORDER[k])).Some?
             && r.id == FindEvent(o.store.events, KeyFor(req, TYPE_ORDER[k])).value.id;
    var t := TYPE_ORDER[k];
    var some := Ordered(candidates, t)[0];
    OrderedMembers(h, req.announcement.id, candidates, t, some);
    forall c | Candidate(t, c) in candidates ensures OnPlainPage(lineage, c) {
      CandidateReadableIff(lineage, h, req, Candidate(t, c));
    }
    ReadsBackIff(lineage, h, s, req, t, some);
  }

  /**
   * The span of a candidate from a page with non-negative offsets: it quotes the document text, lies inside the
   * page, and contains the match when that is no longer than the window.
   */
  lemma PageSpanQuotes(lineage: Lineage, h: Hashes, a: Announcement, t: SuppliedText, p: Page, m: Match)
    requires TextMatches(lineage, h, a, t) && HasPages(t) && p in t.pages && SpanAccepted(PageSource(t, p), m)
    requires p.start >= 0 && p.end >= 0
    ensures var c := ContentOf(h, a.id, PageSource(t, p), m);
            && Within(Span(c.start, c.end), Span(p.start, p.end)) && p.end <= |t.text.value|
            && c.excerpt == t.text.value[c.start..c.end]
            && (Within(Span(p.start + m.start, p.start + m.end), Span(c.start, c.end))
                <==> m.end - m.start <= MAX_EVIDENCE_CONTEXT_CHARACTERS)
  {
    PageEntryFound(lineage, h, a, t, p);
    PageWindow(t, p, m);
    ContextWindow(p.text.value, Span(m.start, m.end), true);
    hide ContextBounds, PagesCoherent, TextMatches;
  }

  /** Detection does store such spans: a match on the second page of this text is accepted, the reader refuses it. */
  lemma NegativeOffsetsStored(lineage: Lineage, h: Hashes, a: Announcement, t: SuppliedText, m: Match)
    requires t.text == Some(TWO_PAGES) && t.pages == NegativePages(h.text)
    requires m.start == 0 && m.end == 2 && m.ruleCode != "" && m.ruleVersion != "" && m.eventType in TYPE_ORDER
    ensures var src := PageSource(t, t.pages[1]);
            && SpanAccepted(src, m)
            && ContentOf(h, a.id, src, m).excerpt == "cd"
            && !Readable(lineage, h, a, ContentOf(h, a.id, src, m))
  {
    var src := PageSource(t, t.pages[1]);
    assert src.text == "cd\nef" && src.text[2] == '\n';
    assert LineStart(src.text, 0) == 0 && LineEnd(src.text, 2) == 2;
    assert LocalWindow(src, m) == Span(0, 2) && Window(src, m) == Span(-5, -3);
    assert Slice(src.text, 0, 2) == "cd" && Slice(TWO_PAGES, -5, -3) == "cd";
  }
}
