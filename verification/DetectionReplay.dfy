/** Replaying detection: a second call reuses everything, and the order of the supplied texts never matters. */
module DetectionReplay {
  import opened Prelude
  import opened Sorting
  import opened Dictionaries
  import opened EventModel
  import opened Spans
  import opened EventStore
  import opened Detection

  // --- Candidates ---

  function PayloadOf(announcementId: Uuid, c: Content): EvidencePayload {
    EvidencePayload(
      announcementId, c.kind, c.documentId, c.assetId, c.extractionId, c.ruleCode, c.ruleVersion, c.start, c.end,
      c.excerptDigest, c.pageNumbers, c.pageDigests)
  }

  /** The digests of a candidate are those of its excerpt and payload. */
  ghost predicate WellFormed(h: Hashes, announcementId: Uuid, c: Content) {
    c.excerptDigest == h.text(c.excerpt) && c.fingerprint == h.evidence(PayloadOf(announcementId, c))
  }

  /** A fingerprint determines the whole candidate. */
  lemma FingerprintDetermines(h: Hashes, announcementId: Uuid, a: Content, b: Content)
    requires CollisionFree(h) && WellFormed(h, announcementId, a) && WellFormed(h, announcementId, b)
    requires a.fingerprint == b.fingerprint
    ensures a == b
  {
    assert PayloadOf(announcementId, a) == PayloadOf(announcementId, b);
    assert h.text(a.excerpt) == h.text(b.excerpt);
  }

  /** A candidate of some accepted match in a source. */
  ghost predicate CandidateFrom(h: Hashes, announcementId: Uuid, src: Source, c: Candidate) {
    exists m :: SpanAccepted(src, m) && c == CandidateOf(h, announcementId, src, m)
  }

  lemma {:induction false} FromMatchesMembers(h: Hashes, announcementId: Uuid, src: Source, matches: seq<Match>)
    requires forall m | m in matches :: SpanAccepted(src, m)
    ensures forall c | c in FromMatches(h, announcementId, src, matches) :: CandidateFrom(h, announcementId, src, c)
    decreases |matches|
  {
    hide SpanAccepted, CandidateOf;
    if matches != [] {
      var front, last := matches[..|matches| - 1], matches[|matches| - 1];
      FromMatchesMembers(h, announcementId, src, front);
      assert SpanAccepted(src, last);
    }
  }

  /** Some page of some supplied text. */
  ghost predicate PageCandidate(lineage: Lineage, h: Hashes, req: Request, c: Candidate) {
    exists t, p | t in req.texts && p in t.pages ::
      HasPages(t) && CandidateFrom(h, req.announcement.id, PageSource(t, p), c)
  }

  lemma {:induction false} FromPagesMembers(h: Hashes, req: Request, t: SuppliedText, pages: seq<Page>, c: Candidate)
    requires forall p | p in pages :: SourceAccepted(req.ruleset, PageSource(t, p))
    requires c in FromPages(h, req, t, pages)
    ensures exists p | p in pages :: CandidateFrom(h, req.announcement.id, PageSource(t, p), c)
    decreases |pages|
  {
    hide SpanAccepted, PageSource, CandidateFrom;
    var front, last := pages[..|pages| - 1], pages[|pages| - 1];
    var src := PageSource(t, last);
    if c in FromPages(h, req, t, front) {
      FromPagesMembers(h, req, t, front, c);
    } else {
      assert SourceAccepted(req.ruleset, src);
      FromMatchesMembers(h, req.announcement.id, src, req.ruleset.find(src.text));
      assert last in pages && CandidateFrom(h, req.announcement.id, PageSource(t, last), c);
    }
  }

  /** The candidates of a list of texts are those of its members. */
  lemma {:induction false} FromTextsMembers(lineage: Lineage, h: Hashes, req: Request, texts: seq<SuppliedText>, c: Candidate)
    requires forall t | t in texts :: TextAccepted(lineage, h, req, t)
    ensures c in FromTexts(lineage, h, req, texts) <==>
            exists t | t in texts :: TextAccepted(lineage, h, req, t) && c in FromText(lineage, h, req, t)
    decreases |texts|
  {
    hide TextAccepted, FromText;
    if texts != [] {
      var front, last := texts[..|texts| - 1], texts[|texts| - 1];
      FromTextsMembers(lineage, h, req, front, c);
      assert last in texts && TextAccepted(lineage, h, req, last);
      assert forall t :: t in texts <==> t in front || t == last;
    }
  }

  /** Where every candidate of a call comes from. */
  lemma CandidateOrigin(lineage: Lineage, h: Hashes, req: Request, c: Candidate)
    requires Accepted(lineage, h, req) && c in Candidates(lineage, h, req)
    ensures CandidateFrom(h, req.announcement.id, HeadlineSource(req.announcement), c)
            || PageCandidate(lineage, h, req, c)
  {
    hide SpanAccepted, CandidateFrom, TextMatches, AnnouncementMatches;
    var src := HeadlineSource(req.announcement);
    if c in FromSource(h, req, src) {
      FromMatchesMembers(h, req.announcement.id, src, req.ruleset.find(src.text));
    } else {
      FromTextsMembers(lineage, h, req, req.texts, c);
      var t :| t in req.texts && c in FromText(lineage, h, req, t);
      FromPagesMembers(h, req, t, t.pages, c);
    }
  }

  ghost predicate AllWellFormed(h: Hashes, announcementId: Uuid, candidates: seq<Candidate>) {
    forall c | c in candidates :: WellFormed(h, announcementId, c.content)
  }

  lemma CandidatesWellFormed(lineage: Lineage, h: Hashes, req: Request)
    requires Accepted(lineage, h, req)
    ensures AllWellFormed(h, req.announcement.id, Candidates(lineage, h, req))
  {
    hide Accepted, Candidates, SpanAccepted;
    forall c | c in Candidates(lineage, h, req) ensures WellFormed(h, req.announcement.id, c.content) {
      CandidateOrigin(lineage, h, req, c);
    }
  }

  // --- Deduplication ---

  /** With collision-free digests a bucket holds exactly the candidates of its type. */
  lemma {:induction false} BucketMembers(
      h: Hashes, announcementId: Uuid, candidates: seq<Candidate>, t: EventType, x: Content)
    requires CollisionFree(h) && AllWellFormed(h, announcementId, candidates)
    ensures x in Bucket(candidates, t) <==> Candidate(t, x) in candidates
    decreases |candidates|
  {
    if candidates != [] {
      var front, last := candidates[..|candidates| - 1], candidates[|candidates| - 1];
      assert last in candidates && forall c | c in front :: c in candidates;
      assert Candidate(t, x) in candidates <==> Candidate(t, x) in front || Candidate(t, x) == last;
      hide WellFormed, CollisionFree, Put;
      BucketMembers(h, announcementId, front, t, x);
      if last.eventType == t {
        var d := Bucket(front, t);
        forall y | y in d && y.fingerprint == last.content.fingerprint ensures y == last.content {
          BucketMembers(h, announcementId, front, t, y);
          assert Candidate(t, y).content == y;
          FingerprintDetermines(h, announcementId, y, last.content);
        }
        BucketDistinct(front, t);
        PutMembers(d, last.content, ContentFingerprint, x);
      }
    }
  }

  /** The ordered candidates depend on the set of candidates alone. */
  lemma OrderedIgnoresOrder(
      h: Hashes, announcementId: Uuid, a: seq<Candidate>, b: seq<Candidate>, t: EventType)
    requires CollisionFree(h) && AllWellFormed(h, announcementId, a) && AllWellFormed(h, announcementId, b)
    requires SameElements(a, b)
    ensures Ordered(a, t) == Ordered(b, t)
  {
    hide WellFormed, CollisionFree, ContentKey;
    BucketDistinct(a, t);
    BucketDistinct(b, t);
    DistinctKeys(Bucket(a, t));
    DistinctKeys(Bucket(b, t));
    forall x ensures x in Bucket(a, t) <==> x in Bucket(b, t) {
      BucketMembers(h, announcementId, a, t, x);
      BucketMembers(h, announcementId, b, t, x);
    }
    SortIgnoresOrder(Bucket(a, t), Bucket(b, t), ContentKey);
  }

  // --- The order of the supplied texts ---

  /** Requests about the same announcement under the same ruleset. */
  ghost predicate SameSubject(a: Request, b: Request) {
    a.announcement == b.announcement && a.ruleset == b.ruleset
  }

  lemma {:induction false} FromPagesSame(h: Hashes, req: Request, also: Request, t: SuppliedText, pages: seq<Page>)
    requires SameSubject(req, also) && forall p | p in pages :: SourceAccepted(req.ruleset, PageSource(t, p))
    ensures FromPages(h, req, t, pages) == FromPages(h, also, t, pages)
    decreases |pages|
  {
    hide SourceAccepted, PageSource;
    if pages != [] {
      FromPagesSame(h, req, also, t, pages[..|pages| - 1]);
      assert SourceAccepted(req.ruleset, PageSource(t, pages[|pages| - 1]));
    }
  }

  /** What one text contributes depends on the subject alone. */
  lemma FromTextSame(lineage: Lineage, h: Hashes, req: Request, also: Request, t: SuppliedText)
    requires SameSubject(req, also)
    ensures TextAccepted(lineage, h, req, t) == TextAccepted(lineage, h, also, t)
    ensures TextAccepted(lineage, h, req, t) ==> FromText(lineage, h, req, t) == FromText(lineage, h, also, t)
  {
    hide SourceAccepted, TextMatches, FromPages;
    if TextAccepted(lineage, h, req, t) && HasPages(t) { FromPagesSame(h, req, also, t, t.pages); }
  }

  lemma SameElementsSameCandidates(lineage: Lineage, h: Hashes, req: Request, also: Request)
    requires SameSubject(req, also) && SameElements(req.texts, also.texts)
    ensures Accepted(lineage, h, req) == Accepted(lineage, h, also)
    ensures Accepted(lineage, h, req) ==>
              SameElements(Candidates(lineage, h, req), Candidates(lineage, h, also))
  {
    forall t
      ensures TextAccepted(lineage, h, req, t) == TextAccepted(lineage, h, also, t)
      ensures TextAccepted(lineage, h, req, t) ==> FromText(lineage, h, req, t) == FromText(lineage, h, also, t)
    {
      FromTextSame(lineage, h, req, also, t);
    }
    if Accepted(lineage, h, req) {
      forall c ensures c in FromTexts(lineage, h, req, req.texts) <==> c in FromTexts(lineage, h, also, also.texts) {
        FromTextsMembers(lineage, h, req, req.texts, c);
        FromTextsMembers(lineage, h, also, also.texts, c);
        hide TextAccepted, FromText, FromTexts, Accepted;
      }
    }
    hide SourceAccepted, AnnouncementMatches, FromTexts, HeadlineSource, TextAccepted, FromText;
  }

  lemma DetectTypeIgnoresTexts(
      h: Hashes, s: Store, req: Request, other: seq<SuppliedText>, t: EventType, ordered: seq<Content>)
    ensures DetectType(h, s, req, t, ordered) == DetectType(h, s, req.(texts := other), t, ordered)
  {
    var also := req.(texts := other);
    assert EventFingerprint(h, req, t, ordered) == EventFingerprint(h, also, t, ordered);
    assert NewEvent(h, req, t, ordered, s.nextId) == NewEvent(h, also, t, ordered, s.nextId);
    assert NewEvidence(req, s.nextId, ordered, s.nextId + 1) == NewEvidence(also, s.nextId, ordered, s.nextId + 1);
    hide EventFingerprint, NewEvent, NewEvidence, EvidenceCanonical, EvidenceOf, Unique, RuleCodes, FindEvent, Taken;
  }

  ghost predicate SameOrdered(a: seq<Candidate>, b: seq<Candidate>) {
    forall t :: Ordered(a, t) == Ordered(b, t)
  }

  lemma {:induction false} DetectFromIgnoresTexts(
      h: Hashes, s: Store, req: Request, other: seq<SuppliedText>, a: seq<Candidate>, b: seq<Candidate>, n: nat)
    requires n <= |TYPE_ORDER| && SameOrdered(a, b)
    ensures DetectFrom(h, s, req, a, n) == DetectFrom(h, s, req.(texts := other), b, n)
    decreases |TYPE_ORDER| - n
  {
    if n < |TYPE_ORDER| {
      var t := TYPE_ORDER[n];
      var also := req.(texts := other);
      assert Ordered(a, t) == Ordered(b, t);
      hide DetectType, Ordered, SameOrdered, DetectFrom, Appended;
      DetectTypeIgnoresTexts(h, s, req, other, t, Ordered(a, t));
      DetectStep(h, s, req, a, n, []);
      DetectStep(h, s, also, b, n, []);
      AppendedNothing(DetectFrom(h, s, req, a, n));
      AppendedNothing(DetectFrom(h, s, also, b, n));
      var first := DetectType(h, s, req, t, Ordered(a, t));
      if first.results.Some? { DetectFromIgnoresTexts(h, first.store, req, other, a, b, n + 1); }
    }
  }

  /** Permuting or repeating the supplied texts changes nothing: not the outcome, not the stored rows. */
  lemma TextOrderIrrelevant(lineage: Lineage, h: Hashes, s: Store, req: Request, other: seq<SuppliedText>)
    requires CollisionFree(h) && SameElements(req.texts, other)
    ensures Detected(lineage, h, s, req) == Detected(lineage, h, s, req.(texts := other))
  {
    var also := req.(texts := other);
    SameElementsSameCandidates(lineage, h, req, also);
    if Accepted(lineage, h, req) {
      CandidatesWellFormed(lineage, h, req);
      CandidatesWellFormed(lineage, h, also);
      var a, b := Candidates(lineage, h, req), Candidates(lineage, h, also);
      hide Accepted, Candidates, DetectFrom, AllWellFormed;
      forall t ensures Ordered(a, t) == Ordered(b, t) {
        OrderedIgnoresOrder(h, req.announcement.id, a, b, t);
      }
      DetectFromIgnoresTexts(h, s, req, other, a, b, 0);
    }
  }

  // --- Replay ---

  /** The type has no candidates, or a stored event that these candidates reuse. */
  ghost predicate Settled(h: Hashes, s: Store, req: Request, t: EventType, ordered: seq<Content>) {
    ordered == [] ||
    var e := FindEvent(s.events, KeyFor(req, t));
    e.Some? && Reusable(h, s, req, t, ordered, e.value)
  }

  function StoredResult(s: Store, req: Request, t: EventType, ordered: seq<Content>): seq<EventResult> {
    var e := FindEvent(s.events, KeyFor(req, t));
    if ordered == [] || e.None? then [] else [ResultOf(e.value, EvidenceOf(s, e.value.id), false)]
  }

  /** Rows and events are only added, under ids not handed out before. */
  ghost predicate Extends(s: Store, later: Store) {
    && s.nextId <= later.nextId
    && |s.events| <= |later.events| && later.events[..|s.events|] == s.events
    && |s.evidence| <= |later.evidence| && later.evidence[..|s.evidence|] == s.evidence
    && forall r | r in later.evidence[|s.evidence|..] :: r.eventId >= s.nextId
  }

  lemma ExtendsTransitive(a: Store, b: Store, c: Store)
    requires Extends(a, b) && Extends(b, c)
    ensures Extends(a, c)
  {
    forall r | r in c.evidence[|a.evidence|..] ensures r.eventId >= a.nextId {
      var k :| 0 <= k < |c.evidence| - |a.evidence| && c.evidence[|a.evidence|..][k] == r;
      if |a.evidence| + k < |b.evidence| {
        assert r == c.evidence[..|b.evidence|][|a.evidence| + k] == b.evidence[|a.evidence|..][k];
      } else {
        assert r == c.evidence[|b.evidence|..][|a.evidence| + k - |b.evidence|];
      }
    }
    assert c.events[..|a.events|] == c.events[..|b.events|][..|a.events|];
    assert c.evidence[..|a.evidence|] == c.evidence[..|b.evidence|][..|a.evidence|];
  }

  /** Evidence of an event that was stored before stays what it was. */
  lemma EvidenceKept(s: Store, later: Store, eventId: Uuid)
    requires Extends(s, later) && eventId < s.nextId
    ensures EvidenceOf(later, eventId) == EvidenceOf(s, eventId)
  {
    var p := (r: EvidenceRow) => r.eventId == eventId;
    var more := later.evidence[|s.evidence|..];
    assert later.evidence == s.evidence + more;
    FilterAppend(s.evidence, more, p);
    FilterNone(more, p);
    assert Filter(s.evidence, p) + [] == Filter(s.evidence, p);
    hide Filter, Sort;
    assert Filter(later.evidence, p) == Filter(s.evidence, p);
    assert EvidenceOf(later, eventId) == Sort(Filter(later.evidence, p), EventStore.RowKey);
    assert EvidenceOf(s, eventId) == Sort(Filter(s.evidence, p), EventStore.RowKey);
  }

  lemma ReusableKept(
      h: Hashes, s: Store, later: Store, req: Request, t: EventType, ordered: seq<Content>, e: EventRow)
    requires EvidenceOf(later, e.id) == EvidenceOf(s, e.id)
    ensures Reusable(h, later, req, t, ordered, e) == Reusable(h, s, req, t, ordered, e)
  {
    hide EventCanonical, EvidenceCanonical, EvidenceOf;
  }

  lemma EventKept(s: Store, later: Store, key: EventKey)
    requires ValidStore(s) && Extends(s, later) && FindEvent(s.events, key).Some?
    ensures var e := FindEvent(s.events, key).value;
            FindEvent(later.events, key) == Some(e) && EvidenceOf(later, e.id) == EvidenceOf(s, e.id)
  {
    hide EvidenceOf;
    var more := later.events[|s.events|..];
    assert later.events == s.events + more;
    FirstWithAppend(s.events, more, KeyOf, key);
    var e := FindEvent(s.events, key).value;
    assert e.id < s.nextId;
    EvidenceKept(s, later, e.id);
    hide ValidStore, Extends, FindEvent;
  }

  lemma SettledKept(h: Hashes, s: Store, later: Store, req: Request, t: EventType, ordered: seq<Content>)
    requires ValidStore(s) && Extends(s, later) && Settled(h, s, req, t, ordered)
    ensures Settled(h, later, req, t, ordered)
    ensures StoredResult(later, req, t, ordered) == StoredResult(s, req, t, ordered)
  {
    hide ValidStore, Extends, EvidenceOf, FindEvent, Reusable, ResultOf, KeyFor;
    if ordered != [] {
      EventKept(s, later, KeyFor(req, t));
      ReusableKept(h, s, later, req, t, ordered, FindEvent(s.events, KeyFor(req, t)).value);
    }
  }

  lemma NewEvidenceSorted(req: Request, eventId: Uuid, contents: seq<Content>, firstId: nat)
    requires StrictlySorted(contents, ContentKey)
    ensures StrictlySorted(NewEvidence(req, eventId, contents, firstId), EventStore.RowKey)
  {
    var rows := NewEvidence(req, eventId, contents, firstId);
    hide ContentKey, LexLeq, NewEvidence;
    forall i, j | 0 <= i < j < |rows|
      ensures LexLeq(EventStore.RowKey(rows[i]), EventStore.RowKey(rows[j]))
              && EventStore.RowKey(rows[i]) != EventStore.RowKey(rows[j])
    {
      assert rows[i].content == contents[i] && rows[j].content == contents[j];
    }
  }

  lemma SortedAlready(s: Store, eventId: Uuid, rows: seq<EvidenceRow>)
    requires Filter(s.evidence, (r: EvidenceRow) => r.eventId == eventId) == rows
    requires StrictlySorted(rows, EventStore.RowKey)
    ensures EvidenceOf(s, eventId) == rows
  {
    hide StrictlySorted, Filter, Sort;
    SortOfStrict(rows, EventStore.RowKey);
  }

  /** The evidence of a freshly written event, read back in order. */
  lemma WrittenEvidence(h: Hashes, s: Store, req: Request, t: EventType, ordered: seq<Content>)
    requires ValidStore(s) && StrictlySorted(ordered, ContentKey)
    ensures EvidenceOf(Written(h, s, req, t, ordered), s.nextId) == NewEvidence(req, s.nextId, ordered, s.nextId + 1)
  {
    hide StrictlySorted, Filter, EvidenceOf, NewEvent;
    var rows := NewEvidence(req, s.nextId, ordered, s.nextId + 1);
    assert forall r | r in s.evidence :: r.eventId != s.nextId;
    hide ValidStore;
    FilterSplit(s.evidence, rows, (r: EvidenceRow) => r.eventId == s.nextId);
    NewEvidenceSorted(req, s.nextId, ordered, s.nextId + 1);
    hide NewEvidence;
    SortedAlready(Written(h, s, req, t, ordered), s.nextId, rows);
  }

  ghost predicate ExcerptsDigested(h: Hashes, contents: seq<Content>) {
    forall c | c in contents :: h.text(c.excerpt) == c.excerptDigest
  }

  lemma NewEventCanonical(h: Hashes, req: Request, t: EventType, ordered: seq<Content>, id: Uuid)
    ensures EventCanonical(h, req, t, ordered, NewEvent(h, req, t, ordered, id))
  {
    hide EventFingerprint, Unique, RuleCodes;
  }

  lemma NewEvidenceCanonical(h: Hashes, req: Request, t: EventType, ordered: seq<Content>, id: Uuid, firstId: nat)
    requires DistinctFingerprints(ordered) && ExcerptsDigested(h, ordered)
    ensures var event, rows := NewEvent(h, req, t, ordered, id), NewEvidence(req, id, ordered, firstId);
            && RowFingerprints(rows) == Fingerprints(ordered)
            && forall row | row in rows :: EvidenceCanonical(h, ordered, event, row)
  {
    var event, rows := NewEvent(h, req, t, ordered, id), NewEvidence(req, id, ordered, firstId);
    hide EventFingerprint, Unique, RuleCodes, NewEvidence;
    assert RowFingerprints(rows) == Fingerprints(ordered);
    forall row | row in rows ensures EvidenceCanonical(h, ordered, event, row) {
      var i :| 0 <= i < |rows| && rows[i] == row;
      LastWithSelf(ordered, ContentFingerprint, i);
      assert ordered[i] in ordered;
    }
  }

  /** What is written is what would be reused. */
  lemma WrittenReusable(h: Hashes, s: Store, req: Request, t: EventType, ordered: seq<Content>)
    requires ValidStore(s) && StrictlySorted(ordered, ContentKey) && DistinctFingerprints(ordered)
    requires ExcerptsDigested(h, ordered)
    ensures Reusable(h, Written(h, s, req, t, ordered), req, t, ordered, NewEvent(h, req, t, ordered, s.nextId))
  {
    WrittenEvidence(h, s, req, t, ordered);
    NewEventCanonical(h, req, t, ordered, s.nextId);
    NewEvidenceCanonical(h, req, t, ordered, s.nextId, s.nextId + 1);
    assert NewEvent(h, req, t, ordered, s.nextId).id == s.nextId;
    hide EvidenceOf, Written, NewEvent, NewEvidence, EventCanonical, EvidenceCanonical, ValidStore, StrictlySorted,
         RowFingerprints, Fingerprints;
  }

  lemma WrittenExtends(h: Hashes, s: Store, req: Request, t: EventType, ordered: seq<Content>)
    ensures Extends(s, Written(h, s, req, t, ordered))
  {
    hide NewEvent;
    var w := Written(h, s, req, t, ordered);
    assert w.evidence[|s.evidence|..] == NewEvidence(req, s.nextId, ordered, s.nextId + 1);
  }

  /** The same results, as a replay reports them. */
  function Replayed(results: seq<EventResult>): (r: seq<EventResult>)
    ensures |r| == |results| && forall i | 0 <= i < |r| :: r[i] == results[i].(created := false)
  {
    seq(|results|, i requires 0 <= i < |results| => results[i].(created := false))
  }

  /** A type that did not raise ends settled, with the results a replay will report. */
  ghost predicate TypeDone(h: Hashes, s: Store, req: Request, t: EventType, ordered: seq<Content>, o: Outcome) {
    && o.results.Some? && ValidStore(o.store) && Extends(s, o.store) && Settled(h, o.store, req, t, ordered)
    && Replayed(o.results.value) == StoredResult(o.store, req, t, ordered)
  }

  lemma ReuseDone(h: Hashes, s: Store, req: Request, t: EventType, ordered: seq<Content>)
    requires ValidStore(s) && Settled(h, s, req, t, ordered)
    ensures DetectType(h, s, req, t, ordered) == Outcome(s, Some(StoredResult(s, req, t, ordered)))
    ensures TypeDone(h, s, req, t, ordered, DetectType(h, s, req, t, ordered))
  {
    ExtendsSelf(s);
    hide ValidStore, Extends, Reusable, EvidenceOf, FindEvent, KeyFor, EventFingerprint, Written, NewEvent, NewEvidence,
         Taken;
  }

  lemma WriteDone(h: Hashes, s: Store, req: Request, t: EventType, ordered: seq<Content>)
    requires ValidStore(s) && StrictlySorted(ordered, ContentKey) && DistinctFingerprints(ordered)
    requires ExcerptsDigested(h, ordered) && ordered != [] && FindEvent(s.events, KeyFor(req, t)).None?
    requires DetectType(h, s, req, t, ordered).results.Some?
    ensures TypeDone(h, s, req, t, ordered, DetectType(h, s, req, t, ordered))
  {
    DetectTypeWrites(h, s, req, t, ordered);
    hide DetectType;
    WrittenSettles(h, s, req, t, ordered);
    WrittenValid(h, s, req, t, ordered);
    ReplayedOne(NewEvent(h, req, t, ordered, s.nextId), NewEvidence(req, s.nextId, ordered, s.nextId + 1));
    hide ValidStore, StrictlySorted, DistinctFingerprints, ExcerptsDigested, Extends, Settled, StoredResult, FindEvent,
         KeyFor, EventFingerprint, Written, NewEvent, NewEvidence, EvidenceOf, ResultOf, Replayed;
  }

  lemma DetectTypeWrites(h: Hashes, s: Store, req: Request, t: EventType, ordered: seq<Content>)
    requires ordered != [] && FindEvent(s.events, KeyFor(req, t)).None?
    requires DetectType(h, s, req, t, ordered).results.Some?
    ensures DetectType(h, s, req, t, ordered) ==
            Outcome(Written(h, s, req, t, ordered),
                    Some([ResultOf(NewEvent(h, req, t, ordered, s.nextId),
                                   NewEvidence(req, s.nextId, ordered, s.nextId + 1), true)]))
  {
    assert NewEvent(h, req, t, ordered, s.nextId).id == s.nextId;
    hide FindEvent, KeyFor, EventFingerprint, Taken, Written, NewEvent, NewEvidence, ResultOf;
  }

  lemma ReplayedOne(e: EventRow, rows: seq<EvidenceRow>)
    ensures Replayed([ResultOf(e, rows, true)]) == [ResultOf(e, rows, false)]
  {
  }

  lemma DetectTypeSettles(h: Hashes, s: Store, req: Request, t: EventType, ordered: seq<Content>)
    requires ValidStore(s) && StrictlySorted(ordered, ContentKey) && DistinctFingerprints(ordered)
    requires ExcerptsDigested(h, ordered) && DetectType(h, s, req, t, ordered).results.Some?
    ensures TypeDone(h, s, req, t, ordered, DetectType(h, s, req, t, ordered))
  {
    if ordered != [] && FindEvent(s.events, KeyFor(req, t)).None? {
      WriteDone(h, s, req, t, ordered);
    } else {
      assert Settled(h, s, req, t, ordered) by {
        hide Reusable, FindEvent, KeyFor, EvidenceOf;
      }
      ReuseDone(h, s, req, t, ordered);
    }
    hide *;
  }

  lemma ExtendsSelf(s: Store)
    ensures Extends(s, s)
  {
  }

  lemma WrittenSettles(h: Hashes, s: Store, req: Request, t: EventType, ordered: seq<Content>)
    requires ValidStore(s) && StrictlySorted(ordered, ContentKey) && DistinctFingerprints(ordered)
    requires ExcerptsDigested(h, ordered) && ordered != [] && FindEvent(s.events, KeyFor(req, t)).None?
    ensures var w, event := Written(h, s, req, t, ordered), NewEvent(h, req, t, ordered, s.nextId);
            && Extends(s, w) && Settled(h, w, req, t, ordered)
            && StoredResult(w, req, t, ordered)
               == [ResultOf(event, NewEvidence(req, s.nextId, ordered, s.nextId + 1), false)]
  {
    var event := NewEvent(h, req, t, ordered, s.nextId);
    WrittenExtends(h, s, req, t, ordered);
    WrittenReusable(h, s, req, t, ordered);
    WrittenEvidence(h, s, req, t, ordered);
    FirstWithAppend(s.events, [event], KeyOf, KeyFor(req, t));
    assert KeyOf(event) == KeyFor(req, t);
    assert FindEvent([event], KeyFor(req, t)) == Some(event);
    hide ValidStore, StrictlySorted, Reusable, NewEvidence, EventFingerprint, EvidenceOf, Extends, ResultOf;
  }

  // --- Whole calls ---

  lemma OrderedMembers(h: Hashes, announcementId: Uuid, candidates: seq<Candidate>, t: EventType, c: Content)
    requires CollisionFree(h) && AllWellFormed(h, announcementId, candidates)
    ensures c in Ordered(candidates, t) <==> Candidate(t, c) in candidates
  {
    hide CollisionFree, ContentKey, LexLeq, AllWellFormed, Bucket;
    MultisetElements(Ordered(candidates, t), Bucket(candidates, t));
    BucketMembers(h, announcementId, candidates, t, c);
    hide Ordered;
  }

  lemma OrderedProperties(h: Hashes, announcementId: Uuid, candidates: seq<Candidate>, t: EventType)
    requires CollisionFree(h) && AllWellFormed(h, announcementId, candidates)
    ensures var ordered := Ordered(candidates, t);
            StrictlySorted(ordered, ContentKey) && DistinctFingerprints(ordered) && ExcerptsDigested(h, ordered)
  {
    hide ContentKey, LexLeq, Bucket, StrictlySorted, DistinctFingerprints;
    BucketDistinct(candidates, t);
    SortKeepsDistinct(Bucket(candidates, t));
    var ordered := Ordered(candidates, t);
    hide Ordered, Sort, CollisionFree;
    forall c | c in ordered ensures h.text(c.excerpt) == c.excerptDigest {
      OrderedMembers(h, announcementId, candidates, t, c);
      assert WellFormed(h, announcementId, Candidate(t, c).content);
    }
  }

  ghost predicate SettledFrom(h: Hashes, s: Store, req: Request, candidates: seq<Candidate>, n: nat) {
    forall k | n <= k < |TYPE_ORDER| :: Settled(h, s, req, TYPE_ORDER[k], Ordered(candidates, TYPE_ORDER[k]))
  }

  function StoredFrom(s: Store, req: Request, candidates: seq<Candidate>, n: nat): seq<EventResult>
    decreases |TYPE_ORDER| - n
  {
    if n >= |TYPE_ORDER| then []
    else StoredResult(s, req, TYPE_ORDER[n], Ordered(candidates, TYPE_ORDER[n])) + StoredFrom(s, req, candidates, n + 1)
  }

  lemma ReplayedConcat(a: seq<EventResult>, b: seq<EventResult>)
    ensures Replayed(a + b) == Replayed(a) + Replayed(b)
  {
  }

  lemma DetectFromStep(h: Hashes, s: Store, req: Request, candidates: seq<Candidate>, n: nat)
    requires n < |TYPE_ORDER|
    ensures var first := DetectType(h, s, req, TYPE_ORDER[n], Ordered(candidates, TYPE_ORDER[n]));
            var o := DetectFrom(h, s, req, candidates, n);
            if first.results.None? then o.results.None?
            else
              var rest := DetectFrom(h, first.store, req, candidates, n + 1);
              && o.store == rest.store && (o.results.Some? <==> rest.results.Some?)
              && (o.results.Some? ==> o.results.value == first.results.value + rest.results.value)
  {
    hide DetectType, Ordered;
  }

  lemma {:induction false} DetectFromSettles(
      h: Hashes, s: Store, req: Request, candidates: seq<Candidate>, n: nat)
    requires n <= |TYPE_ORDER| && ValidStore(s)
    requires CollisionFree(h) && AllWellFormed(h, req.announcement.id, candidates)
    requires DetectFrom(h, s, req, candidates, n).results.Some?
    ensures var o := DetectFrom(h, s, req, candidates, n);
            && ValidStore(o.store) && Extends(s, o.store) && SettledFrom(h, o.store, req, candidates, n)
            && Replayed(o.results.value) == StoredFrom(o.store, req, candidates, n)
    decreases |TYPE_ORDER| - n
  {
    hide ValidStore, CollisionFree, AllWellFormed, Extends, Settled, StoredResult, Ordered, DetectType,
         StrictlySorted, DistinctFingerprints, ExcerptsDigested;
    if n == |TYPE_ORDER| {
      ExtendsSelf(s);
      assert Replayed([]) == [];
    } else {
      var t := TYPE_ORDER[n];
      var ordered := Ordered(candidates, t);
      var first := DetectType(h, s, req, t, ordered);
      DetectFromStep(h, s, req, candidates, n);
      OrderedProperties(h, req.announcement.id, candidates, t);
      DetectTypeSettles(h, s, req, t, ordered);
      DetectFromSettles(h, first.store, req, candidates, n + 1);
      var rest := DetectFrom(h, first.store, req, candidates, n + 1);
      hide DetectFrom;
      ExtendsTransitive(s, first.store, rest.store);
      SettledKept(h, first.store, rest.store, req, t, ordered);
      ReplayedConcat(first.results.value, rest.results.value);
      hide Replayed;
    }
  }

  lemma {:induction false} SettledReplays(
      h: Hashes, s: Store, req: Request, derivedAt: Instant, candidates: seq<Candidate>, n: nat)
    requires n <= |TYPE_ORDER| && ValidStore(s) && SettledFrom(h, s, req, candidates, n)
    ensures DetectFrom(h, s, req.(derivedAt := derivedAt), candidates, n)
            == Outcome(s, Some(StoredFrom(s, req, candidates, n)))
    decreases |TYPE_ORDER| - n
  {
    if n < |TYPE_ORDER| {
      var again := req.(derivedAt := derivedAt);
      var t := TYPE_ORDER[n];
      hide ValidStore, Settled, StoredResult, Ordered, DetectType;
      SettledAtAnyTime(h, s, req, derivedAt, t, Ordered(candidates, t));
      ReuseDone(h, s, again, t, Ordered(candidates, t));
      SettledReplays(h, s, req, derivedAt, candidates, n + 1);
    }
  }

  lemma SettledAtAnyTime(
      h: Hashes, s: Store, req: Request, derivedAt: Instant, t: EventType, ordered: seq<Content>)
    ensures Settled(h, s, req, t, ordered) == Settled(h, s, req.(derivedAt := derivedAt), t, ordered)
    ensures StoredResult(s, req, t, ordered) == StoredResult(s, req.(derivedAt := derivedAt), t, ordered)
  {
    var again := req.(derivedAt := derivedAt);
    assert KeyFor(req, t) == KeyFor(again, t);
    assert EventFingerprint(h, req, t, ordered) == EventFingerprint(h, again, t, ordered);
    hide KeyFor, EventFingerprint, EvidenceCanonical, EvidenceOf, FindEvent, Unique, RuleCodes, ResultOf;
  }

  lemma {:induction false} FromTextsSame(
      lineage: Lineage, h: Hashes, req: Request, also: Request, texts: seq<SuppliedText>)
    requires SameSubject(req, also)
    requires forall t | t in texts :: TextAccepted(lineage, h, req, t)
    requires forall t | t in texts :: TextAccepted(lineage, h, also, t)
    ensures FromTexts(lineage, h, req, texts) == FromTexts(lineage, h, also, texts)
    decreases |texts|
  {
    if texts != [] {
      var last := texts[|texts| - 1];
      FromTextsSame(lineage, h, req, also, texts[..|texts| - 1]);
      assert TextAccepted(lineage, h, req, last);
      FromTextSame(lineage, h, req, also, last);
      hide TextAccepted, FromText;
    }
  }

  lemma SameCandidatesAtAnyTime(lineage: Lineage, h: Hashes, req: Request, derivedAt: Instant)
    ensures var again := req.(derivedAt := derivedAt);
            && Accepted(lineage, h, req) == Accepted(lineage, h, again)
            && (Accepted(lineage, h, req) ==> Candidates(lineage, h, req) == Candidates(lineage, h, again))
  {
    var again := req.(derivedAt := derivedAt);
    forall t ensures TextAccepted(lineage, h, req, t) == TextAccepted(lineage, h, again, t) {
      FromTextSame(lineage, h, req, again, t);
    }
    if Accepted(lineage, h, req) { FromTextsSame(lineage, h, req, again, req.texts); }
    hide TextAccepted, SourceAccepted, AnnouncementMatches, FromTexts, HeadlineSource;
  }

  /**
   * Replay: once a call has succeeded, the same call at any later time succeeds, leaves the store unchanged, and
   * returns the same event ids, fingerprints and evidence in the same order, none of them created.
   */
  lemma ReplayReuses(lineage: Lineage, h: Hashes, s: Store, req: Request, derivedAt: Instant)
    requires ValidStore(s) && CollisionFree(h) && Detected(lineage, h, s, req).results.Some?
    ensures var first := Detected(lineage, h, s, req);
            && Detected(lineage, h, first.store, req.(derivedAt := derivedAt))
               == Outcome(first.store, Some(Replayed(first.results.value)))
            && ValidStore(first.store) && Extends(s, first.store)
  {
    CandidatesWellFormed(lineage, h, req);
    var candidates := Candidates(lineage, h, req);
    SameCandidatesAtAnyTime(lineage, h, req, derivedAt);
    hide Accepted, Candidates, DetectFrom, ValidStore, CollisionFree, AllWellFormed, SettledFrom, StoredFrom, Extends;
    DetectFromSettles(h, s, req, candidates, 0);
    var first := DetectFrom(h, s, req, candidates, 0);
    SettledReplays(h, first.store, req, derivedAt, candidates, 0);
  }

  // --- Drift under one ruleset version ---

  ghost predicate EventCollisionFree(h: Hashes) {
    forall a, b | h.event(a) == h.event(b) :: a == b
  }

  ghost predicate ContentsWellFormed(h: Hashes, announcementId: Uuid, contents: seq<Content>) {
    forall c | c in contents :: WellFormed(h, announcementId, c)
  }

  /** An event fingerprint determines the ordered candidates and everything the event says about them. */
  lemma EventFingerprintDetermines(
      h: Hashes, req: Request, also: Request, t: EventType, u: EventType, a: seq<Content>, b: seq<Content>)
    requires CollisionFree(h) && EventCollisionFree(h)
    requires ContentsWellFormed(h, req.announcement.id, a) && ContentsWellFormed(h, also.announcement.id, b)
    requires EventFingerprint(h, req, t, a) == EventFingerprint(h, also, u, b)
    ensures a == b && KeyFor(req, t) == KeyFor(also, u)
    ensures req.announcement.availableAt == also.announcement.availableAt
            && req.announcement.date == also.announcement.date
  {
    hide WellFormed, CollisionFree;
    assert Fingerprints(a) == Fingerprints(b);
    assert |a| == |b| by { assert |Fingerprints(a)| == |a| && |Fingerprints(b)| == |b|; }
    forall i | 0 <= i < |a| ensures a[i] == b[i] {
      assert Fingerprints(a)[i] == a[i].fingerprint && Fingerprints(b)[i] == b[i].fingerprint;
      assert a[i] in a && b[i] in b;
      FingerprintDetermines(h, req.announcement.id, a[i], b[i]);
    }
  }

  /**
   * Once an event is stored, rules that change under the same ruleset version are noticed: a later call for the same
   * announcement succeeds on that type if and only if the rules now find nothing or exactly the stored candidates.
   */
  lemma DriftIff(
      h: Hashes, s: Store, req: Request, also: Request, t: EventType, ordered: seq<Content>, other: seq<Content>)
    requires CollisionFree(h) && EventCollisionFree(h) && ordered != [] && Settled(h, s, req, t, ordered)
    requires also.announcement == req.announcement
    requires also.ruleset.code == req.ruleset.code && also.ruleset.version == req.ruleset.version
    requires ContentsWellFormed(h, req.announcement.id, ordered) && ContentsWellFormed(h, req.announcement.id, other)
    ensures DetectType(h, s, also, t, other).results.Some? <==> other == [] || other == ordered
  {
    assert KeyFor(also, t) == KeyFor(req, t);
    var e := FindEvent(s.events, KeyFor(req, t)).value;
    assert EventFingerprint(h, req, t, ordered) == EventFingerprint(h, also, t, ordered);
    hide EvidenceOf, EvidenceCanonical, FindEvent, EventFingerprint, Unique, RuleCodes, CollisionFree, WellFormed, KeyFor;
    if other != [] && Reusable(h, s, also, t, other, e) {
      EventFingerprintDetermines(h, req, also, t, t, ordered, other);
    }
  }
}
