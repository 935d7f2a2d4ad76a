/** A first call always succeeds once its input is accepted; and one that stores what the reader refuses. */
module DetectionExample {
  import opened Prelude
  import opened Sorting
  import opened EventModel
  import opened Spans
  import opened EventStore
  import opened Detection
  import opened DetectionReplay
  import opened DetectionReadBack

  // --- First calls ---

  /** Every stored event is one this request has written for an earlier type. */
  ghost predicate WrittenBefore(h: Hashes, s: Store, req: Request, candidates: seq<Candidate>, n: nat) {
    forall e | e in s.events :: exists k | 0 <= k < n && k < |TYPE_ORDER| ::
      && KeyOf(e) == KeyFor(req, TYPE_ORDER[k])
      && e.fingerprint == EventFingerprint(h, req, TYPE_ORDER[k], Ordered(candidates, TYPE_ORDER[k]))
  }

  lemma TypesDiffer(i: nat, j: nat)
    requires i < |TYPE_ORDER| && j < |TYPE_ORDER| && i != j
    ensures TYPE_ORDER[i] != TYPE_ORDER[j]
  {
    assert TypeRank(TYPE_ORDER[i]) == i && TypeRank(TYPE_ORDER[j]) == j;
  }

  lemma OrderedWellFormed(h: Hashes, announcementId: Uuid, candidates: seq<Candidate>, t: EventType)
    requires CollisionFree(h) && AllWellFormed(h, announcementId, candidates)
    ensures ContentsWellFormed(h, announcementId, Ordered(candidates, t))
  {
    hide CollisionFree, WellFormed, Ordered;
    forall c | c in Ordered(candidates, t) ensures WellFormed(h, announcementId, c) {
      OrderedMembers(h, announcementId, candidates, t, c);
      assert WellFormed(h, announcementId, Candidate(t, c).content);
    }
  }

  /** Nothing stands in the way of the next type. */
  lemma TypeIsFree(h: Hashes, s: Store, req: Request, candidates: seq<Candidate>, n: nat)
    requires n < |TYPE_ORDER| && WrittenBefore(h, s, req, candidates, n)
    requires CollisionFree(h) && EventCollisionFree(h) && AllWellFormed(h, req.announcement.id, candidates)
    ensures FindEvent(s.events, KeyFor(req, TYPE_ORDER[n])).None?
    ensures !Taken(s.events, EventFingerprint(h, req, TYPE_ORDER[n], Ordered(candidates, TYPE_ORDER[n])))
  {
    var t := TYPE_ORDER[n];
    hide CollisionFree, EventCollisionFree, AllWellFormed, Ordered, EventFingerprint, FindEvent;
    OrderedWellFormed(h, req.announcement.id, candidates, t);
    forall e | e in s.events
      ensures KeyOf(e) != KeyFor(req, t) && e.fingerprint != EventFingerprint(h, req, t, Ordered(candidates, t))
    {
      var k :| 0 <= k < n && KeyOf(e) == KeyFor(req, TYPE_ORDER[k])
               && e.fingerprint == EventFingerprint(h, req, TYPE_ORDER[k], Ordered(candidates, TYPE_ORDER[k]));
      TypesDiffer(k, n);
      OrderedWellFormed(h, req.announcement.id, candidates, TYPE_ORDER[k]);
      if e.fingerprint == EventFingerprint(h, req, t, Ordered(candidates, t)) {
        EventFingerprintDetermines(
          h, req, req, TYPE_ORDER[k], t, Ordered(candidates, TYPE_ORDER[k]), Ordered(candidates, t));
        assert false;
      }
    }
  }

  lemma WrittenNext(h: Hashes, s: Store, req: Request, candidates: seq<Candidate>, n: nat)
    requires n < |TYPE_ORDER| && WrittenBefore(h, s, req, candidates, n)
    requires FindEvent(s.events, KeyFor(req, TYPE_ORDER[n])).None?
    requires !Taken(s.events, EventFingerprint(h, req, TYPE_ORDER[n], Ordered(candidates, TYPE_ORDER[n])))
    ensures var o := DetectType(h, s, req, TYPE_ORDER[n], Ordered(candidates, TYPE_ORDER[n]));
            o.results.Some? && WrittenBefore(h, o.store, req, candidates, n + 1)
  {
    var t := TYPE_ORDER[n];
    var ordered := Ordered(candidates, t);
    var o := DetectType(h, s, req, t, ordered);
    var event := NewEvent(h, req, t, ordered, s.nextId);
    assert KeyOf(event) == KeyFor(req, t) && event.fingerprint == EventFingerprint(h, req, t, ordered);
    assert o.store.events == if ordered == [] then s.events else s.events + [event];
    hide DetectType, NewEvent, Ordered, EventFingerprint, KeyFor, FindEvent;
    forall e | e in o.store.events
      ensures exists k | 0 <= k < n + 1 && k < |TYPE_ORDER| ::
        && KeyOf(e) == KeyFor(req, TYPE_ORDER[k])
        && e.fingerprint == EventFingerprint(h, req, TYPE_ORDER[k], Ordered(candidates, TYPE_ORDER[k]))
    {
      if e !in s.events { assert e == event && n < n + 1; }
    }
  }

  lemma {:induction false} FirstPassSucceeds(h: Hashes, s: Store, req: Request, candidates: seq<Candidate>, n: nat)
    requires n <= |TYPE_ORDER| && WrittenBefore(h, s, req, candidates, n)
    requires CollisionFree(h) && EventCollisionFree(h) && AllWellFormed(h, req.announcement.id, candidates)
    ensures DetectFrom(h, s, req, candidates, n).results.Some?
    decreases |TYPE_ORDER| - n
  {
    if n < |TYPE_ORDER| {
      hide CollisionFree, EventCollisionFree, AllWellFormed, Ordered, WrittenBefore, EventFingerprint, FindEvent,
           DetectType;
      TypeIsFree(h, s, req, candidates, n);
      WrittenNext(h, s, req, candidates, n);
      FirstPassSucceeds(
        h, DetectType(h, s, req, TYPE_ORDER[n], Ordered(candidates, TYPE_ORDER[n])).store, req, candidates, n + 1);
    }
  }

  /** On a store without events a call succeeds if and only if its input is accepted. */
  lemma FirstCallSucceedsIff(lineage: Lineage, h: Hashes, s: Store, req: Request)
    requires s.events == [] && CollisionFree(h) && EventCollisionFree(h)
    ensures Detected(lineage, h, s, req).results.Some? <==> Accepted(lineage, h, req)
  {
    hide Accepted, Candidates, DetectFrom, AllWellFormed, CollisionFree, EventCollisionFree;
    if Accepted(lineage, h, req) {
      CandidatesWellFormed(lineage, h, req);
      FirstPassSucceeds(h, s, req, Candidates(lineage, h, req), 0);
    }
  }

  // --- A call whose event the reader refuses ---

  const SOURCE := SourceRecord(2, "external", "uri", "key", None, "digest", "accepted")
  const DOCUMENT := Document(3, 10, None, 20, "filing", "title", None, None, "uri", None, "primary", 0, None, 0, SOURCE)
  const ASSET := Asset(5, 3, 0, "key", 10, "uri", None, None, None, 0, "verified", [])
  const ANNOUNCEMENT :=
    Announcement(1, 10, None, 20, "external", None, "headline", None, None, 0, None, 0, SOURCE, [DOCUMENT])

  function ExampleExtraction(h: Hashes): Extraction {
    Extraction(6, 5, "code", "v1", "v1", Some("text"), Some(h.text(TWO_PAGES)), Some(10), Some(2), "success", [], 0)
  }

  /** The persisted page map counts the second page's start back from the end of the text. */
  function ExampleLineage(h: Hashes): Lineage {
    Lineage(
      map[1 := StoredAnnouncement(Canonical(ANNOUNCEMENT), 20, [StoredDocument(DOCUMENT, 20)])],
      map[5 := ASSET],
      map[6 := StoredExtraction(ExampleExtraction(h), Entries(NegativePages(h.text)))])
  }

  /** One rule, which finds one match on the second page. */
  function ExampleMatches(text: string): seq<Match> {
    if text == "cd\nef" then [Match(OrderAward, "rule", "v1", 0, 2)] else []
  }

  function ExampleText(h: Hashes): SuppliedText {
    SuppliedText(DOCUMENT, ASSET, ExampleExtraction(h), 0, Some(TWO_PAGES), NegativePages(h.text))
  }

  function ExampleRequest(h: Hashes): Request {
    Request(ANNOUNCEMENT, [ExampleText(h)], Ruleset("rules", "v1", ExampleMatches), 0)
  }

  lemma ExampleTextMatches(h: Hashes)
    ensures TextMatches(ExampleLineage(h), h, ANNOUNCEMENT, ExampleText(h))
  {
    NegativeOffsetsPass(h.text);
    hide PagesCoherent, NegativePages, Entries, Canonical;
    assert |TWO_PAGES| == 10;
    assert DocumentById([DOCUMENT], 3) == Some(DOCUMENT);
    assert |NegativePages(h.text)| == 2 by { NegativePagesCount(h); }
  }

  lemma NegativePagesCount(h: Hashes)
    ensures |NegativePages(h.text)| == 2
  {
  }

  lemma ExampleAnnouncementMatches(h: Hashes)
    ensures AnnouncementMatches(ExampleLineage(h), ANNOUNCEMENT)
  {
    hide ExampleExtraction, NegativePages, Entries;
    assert DocumentById([DOCUMENT], 3) == Some(DOCUMENT);
    var stored := [StoredDocument(DOCUMENT, 20)];
    assert stored[0] in stored;
  }

  lemma ExampleAccepted(h: Hashes)
    ensures Accepted(ExampleLineage(h), h, ExampleRequest(h))
    ensures var src := PageSource(ExampleText(h), NegativePages(h.text)[1]);
            var m := Match(OrderAward, "rule", "v1", 0, 2);
            && SpanAccepted(src, m)
            && CandidateOf(h, 1, src, m) in Candidates(ExampleLineage(h), h, ExampleRequest(h))
            && !Readable(ExampleLineage(h), h, ANNOUNCEMENT, ContentOf(h, 1, src, m))
  {
    var lineage, req, t := ExampleLineage(h), ExampleRequest(h), ExampleText(h);
    var m := Match(OrderAward, "rule", "v1", 0, 2);
    var pages := NegativePages(h.text);
    var src := PageSource(t, pages[1]);
    NegativeOffsetsStored(lineage, h, ANNOUNCEMENT, t, m);
    ExampleTextMatches(h);
    ExampleAnnouncementMatches(h);
    assert src.text == "cd\nef" && PageSource(t, pages[0]).text == "ab";
    assert ExampleMatches("cd\nef") == [m] && ExampleMatches("ab") == [] && ExampleMatches("headline") == [];
    hide SpanAccepted, TextMatches, AnnouncementMatches, Readable, ExampleMatches, CandidateOf, ContentOf;
    assert SourceAccepted(req.ruleset, src) && SourceAccepted(req.ruleset, PageSource(t, pages[0]));
    assert SourceAccepted(req.ruleset, HeadlineSource(ANNOUNCEMENT));
    assert forall p | p in pages :: SourceAccepted(req.ruleset, PageSource(t, p));
    assert TextAccepted(lineage, h, req, t);
    ExampleCandidate(h, m);
  }

  lemma OneMatch(h: Hashes, src: Source, m: Match)
    requires SpanAccepted(src, m)
    ensures FromMatches(h, 1, src, [m]) == [CandidateOf(h, 1, src, m)]
  {
    assert MatchAccepted(m, |src.text|);
    hide SpanAccepted, CandidateOf;
    assert [m][..0] == [] && [m][0] == m;
    assert FromMatches(h, 1, src, []) == [];
    assert [] + [CandidateOf(h, 1, src, m)] == [CandidateOf(h, 1, src, m)];
  }

  lemma ExampleCandidate(h: Hashes, m: Match)
    requires Accepted(ExampleLineage(h), h, ExampleRequest(h))
    requires ExampleMatches("cd\nef") == [m]
    requires SpanAccepted(PageSource(ExampleText(h), NegativePages(h.text)[1]), m)
    ensures CandidateOf(h, 1, PageSource(ExampleText(h), NegativePages(h.text)[1]), m)
            in Candidates(ExampleLineage(h), h, ExampleRequest(h))
  {
    var lineage, req, t := ExampleLineage(h), ExampleRequest(h), ExampleText(h);
    var pages := NegativePages(h.text);
    var src := PageSource(t, pages[1]);
    assert src.text == "cd\nef";
    hide SpanAccepted, CandidateOf, TextMatches, ExampleMatches;
    assert TextAccepted(lineage, h, req, t) by { assert t in req.texts; hide TextAccepted; }
    OneMatch(h, src, m);
    assert req.ruleset.find(src.text) == [m] && req.announcement.id == 1;
    var c := CandidateOf(h, 1, src, m);
    assert c in FromSource(h, req, src);
    assert pages[..|pages| - 1] == [pages[0]];
    assert c in FromPages(h, req, t, pages);
    assert c in FromText(lineage, h, req, t);
    FromTextsMembers(lineage, h, req, req.texts, c);
  }

  /**
   * A whole call: on an empty store it succeeds, stores its event, and the reader refuses that event for the very
   * announcement it was detected in.
   */
  lemma NegativeOffsetsWholeCall(h: Hashes)
    requires CollisionFree(h) && EventCollisionFree(h)
    ensures var o := Detected(ExampleLineage(h), h, Store([], [], 0), ExampleRequest(h));
            && o.results.Some?
            && exists e | e in o.store.events ::
                 KeyOf(e) == KeyFor(ExampleRequest(h), OrderAward)
                 && !EventAccepted(ExampleLineage(h), h.text, o.store, e, ANNOUNCEMENT)
  {
    var lineage, req, s := ExampleLineage(h), ExampleRequest(h), Store([], [], 0);
    var src, m := PageSource(ExampleText(h), NegativePages(h.text)[1]), Match(OrderAward, "rule", "v1", 0, 2);
    ExampleAccepted(h);
    var c := CandidateOf(h, 1, src, m);
    assert c == Candidate(OrderAward, ContentOf(h, 1, src, m));
    assert req.announcement == ANNOUNCEMENT && ANNOUNCEMENT.id == 1;
    hide Accepted, Candidates, ContentOf, CandidateOf, Readable, OnPlainPage, CollisionFree, EventCollisionFree,
         Detected, EventAccepted, ExampleLineage, ExampleRequest, KeyFor, FindEvent;
    FirstCallSucceedsIff(lineage, h, s, req);
    CandidateReadableIff(lineage, h, req, c);
    ReadsBackIff(lineage, h, s, req, OrderAward, c.content);
    assert Candidate(OrderAward, c.content) in Candidates(lineage, h, req) && !OnPlainPage(lineage, c.content);
  }
}
