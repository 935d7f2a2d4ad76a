/** The reader that supplies document texts to detection, and what its page checks guarantee. */
module DocumentTexts {
  import opened Prelude
  import opened Sorting
  import opened EventModel
  import opened Spans
  import opened EventStore
  import opened Detection
  import opened DetectionReplay
  import opened DetectionReadBack

  datatype Identity = Identity(extractorCode: string, semanticVersion: string, runtimeVersion: string)

  /** The stored bytes of an object: their digest, and their text if they are UTF-8. */
  datatype TextObject = TextObject(digest: Digest, text: Option<string>)

  /** The joined tables and the object store the reader sees. */
  datatype Texts = Texts(rows: seq<(Asset, StoredExtraction)>, objects: map<string, TextObject>)

  // --- Pages ---

  /** What the loop checks of one entry of the page map. */
  predicate EntryReadable(
      e: PageEntry, index: nat, start: int, text: Option<string>, status: string, hash: string -> Digest)
  {
    && e.number == index + 1 && e.start == start && e.end >= e.start
    && (text.Some? ==> hash(Slice(text.value, e.start, e.end)) == e.digest)
    && (text.None? && status == "no_extractable_text" ==> e.end == e.start && e.digest == hash(""))
  }

  function PageOf(e: PageEntry, text: Option<string>): Page {
    Page(e.number, e.start, e.end, e.digest,
         if text.Some? then Some(Slice(text.value, e.start, e.end)) else None)
  }

  function StartAt(pageMap: seq<PageEntry>, i: nat): int
    requires i <= |pageMap|
  {
    if i == 0 then 0 else pageMap[i - 1].end + |PAGE_SEPARATOR|
  }

  predicate EntryAccepted(x: StoredExtraction, i: nat, text: Option<string>, hash: string -> Digest)
    requires i < |x.pageMap|
  {
    EntryReadable(x.pageMap[i], i, StartAt(x.pageMap, i), text, x.extraction.status, hash)
  }

  /** When the reader accepts a page map. */
  predicate MapReadable(x: StoredExtraction, text: Option<string>, hash: string -> Digest) {
    && (forall i | 0 <= i < |x.pageMap| :: EntryAccepted(x, i, text, hash))
    && (x.extraction.pageCount.Some? ==> x.extraction.pageCount.value == |x.pageMap|)
    && (text.Some? && x.pageMap != [] ==> x.pageMap[|x.pageMap| - 1].end == |text.value|)
  }

  function PagesOf(pageMap: seq<PageEntry>, text: Option<string>): (r: seq<Page>)
    ensures |r| == |pageMap| && forall i | 0 <= i < |r| :: r[i] == PageOf(pageMap[i], text)
  {
    seq(|pageMap|, i requires 0 <= i < |pageMap| => PageOf(pageMap[i], text))
  }

  /** The loop with its expected start; None where it raises. */
  method PageViews(x: StoredExtraction, text: Option<string>, hash: string -> Digest) returns (r: Option<seq<Page>>)
    ensures r == if MapReadable(x, text, hash) then Some(PagesOf(x.pageMap, text)) else None
  {
    hide Slice, EntryReadable;
    var pages: seq<Page> := [];
    var expectedStart := 0;
    for i := 0 to |x.pageMap|
      invariant expectedStart == StartAt(x.pageMap, i)
      invariant pages == PagesOf(x.pageMap[..i], text)
      invariant forall k | 0 <= k < i :: EntryAccepted(x, k, text, hash)
    {
      var accepted := CheckEntry(x.pageMap[i], i, expectedStart, text, x.extraction.status, hash);
      assert accepted <==> EntryAccepted(x, i, text, hash);
      hide EntryAccepted, PageOf;
      if !accepted {
        return None;
      }
      PagesStep(x.pageMap, text, i);
      pages := pages + [PageOf(x.pageMap[i], text)];
      expectedStart := x.pageMap[i].end + |PAGE_SEPARATOR|;
    }
    assert x.pageMap[..|x.pageMap|] == x.pageMap;
    if x.extraction.pageCount.Some? && x.extraction.pageCount.value != |pages| {
      return None;
    }
    if text.Some? && pages != [] && pages[|pages| - 1].end != |text.value| {
      return None;
    }
    r := Some(pages);
  }

  lemma PagesStep(pageMap: seq<PageEntry>, text: Option<string>, i: nat)
    requires i < |pageMap|
    ensures PagesOf(pageMap[..i + 1], text) == PagesOf(pageMap[..i], text) + [PageOf(pageMap[i], text)]
  {
    hide PageOf;
  }

  /** The checks of one entry, one after the other. */
  method CheckEntry(
      e: PageEntry, index: nat, expectedStart: int, text: Option<string>, status: string, hash: string -> Digest)
    returns (ok: bool)
    ensures ok <==> EntryReadable(e, index, expectedStart, text, status, hash)
  {
    hide Slice;
    if e.number != index + 1 || e.start != expectedStart || e.end < e.start {
      return false;
    }
    if text.Some? && hash(Slice(text.value, e.start, e.end)) != e.digest {
      return false;
    }
    if text.None? && status == "no_extractable_text" && (e.end != e.start || e.digest != hash("")) {
      return false;
    }
    ok := true;
  }

  // --- The text ---

  predicate Selected(row: (Asset, StoredExtraction), documentId: Uuid, identity: Identity) {
    var x := row.1.extraction;
    && row.0.documentId == documentId && row.0.status in ACCEPTED_ASSETS && x.assetId == row.0.id
    && x.extractorCode == identity.extractorCode && x.semanticVersion == identity.semanticVersion
    && x.runtimeVersion == identity.runtimeVersion
  }

  /** The stored text of an extraction; the outer None is an error, the inner one an extraction without text. */
  function ReadText(objects: map<string, TextObject>, x: Extraction): Option<Option<string>> {
    if x.status != "success" then
      if x.textObjectKey.Some? || x.textDigest.Some? then None else Some(None)
    else if x.textObjectKey.None? || x.textDigest.None? || x.textObjectKey.value !in objects then None
    else
      var stored := objects[x.textObjectKey.value];
      if stored.digest != x.textDigest.value || stored.text.None? || x.characterCount != Some(|stored.text.value|)
      then None else Some(stored.text)
  }

  /** The outer None is an error; the inner one a document without this extraction. */
  function TextForDocument(t: Texts, document: Document, identity: Identity, hash: string -> Digest)
    : Option<Option<SuppliedText>>
  {
    var rows := Filter(t.rows, (row: (Asset, StoredExtraction)) => Selected(row, document.id, identity));
    if rows == [] then Some(None)
    else if |rows| != 1 then None
    else
      var asset, x := rows[0].0, rows[0].1;
      var text := ReadText(t.objects, x.extraction);
      if text.None? || !MapReadable(x, text.value, hash) then None
      else Some(Some(SuppliedText(
        document, asset, x.extraction, document.availableAt, text.value, PagesOf(x.pageMap, text.value))))
  }

  /** The reader returned this text. */
  ghost predicate FromReader(t: SuppliedText, hash: string -> Digest) {
    exists texts, document, identity :: TextForDocument(texts, document, identity, hash) == Some(Some(t))
  }

  // --- What it guarantees ---

  lemma {:induction false} ReadableStarts(x: StoredExtraction, text: Option<string>, hash: string -> Digest, i: nat)
    requires i < |x.pageMap| && forall k | 0 <= k < |x.pageMap| :: EntryAccepted(x, k, text, hash)
    ensures 0 <= x.pageMap[i].start <= x.pageMap[i].end
  {
    hide Slice;
    assert EntryAccepted(x, i, text, hash);
    if i > 0 { ReadableStarts(x, text, hash, i - 1); }
  }

  /** The pages of every text the reader returns have plain offsets. */
  lemma ReaderPagesPlain(t: SuppliedText, hash: string -> Digest)
    requires FromReader(t, hash)
    ensures PlainOffsets(t.pages) && OffsetsNonNegative([t])
  {
    var texts: Texts, document: Document, identity: Identity :|
      TextForDocument(texts, document, identity, hash) == Some(Some(t));
    var rows := Filter(texts.rows, (row: (Asset, StoredExtraction)) => Selected(row, document.id, identity));
    var x := rows[0].1;
    hide Selected, ReadText, Filter, EntryAccepted;
    forall i | 0 <= i < |t.pages| ensures 0 <= t.pages[i].start <= t.pages[i].end {
      ReadableStarts(x, t.text, hash, i);
    }
  }

  /** A separator stands between the page and the one before it. */
  predicate Separated(text: string, pages: seq<Page>, i: nat)
    requires i < |pages|
  {
    i > 0 ==> Slice(text, pages[i - 1].end, pages[i].start) == PAGE_SEPARATOR
  }

  /**
   * Detection's page check asks only one thing more of such a text than the reader has checked: that a separator
   * stands between each page and the next.
   */
  lemma ReaderPagesCoherentIff(x: StoredExtraction, text: string, hash: string -> Digest)
    requires MapReadable(x, Some(text), hash)
    ensures var pages := PagesOf(x.pageMap, Some(text));
            PagesCoherent(text, pages, x.pageMap, hash) <==>
            forall i | 0 <= i < |pages| :: Separated(text, pages, i)
  {
    var pages := PagesOf(x.pageMap, Some(text));
    assert Entries(pages) == x.pageMap;
    hide Separated, PageCoherent, EntryAccepted, Entries;
    forall i | 0 <= i < |pages|
      ensures PageCoherent(text, pages, i, hash) <==>
              Separated(text, pages, i)
    {
      ReaderPageCoherentIff(x, text, hash, i);
    }
    if pages != [] { assert pages[|pages| - 1].end == x.pageMap[|pages| - 1].end; }
  }

  lemma ReaderPageCoherentIff(x: StoredExtraction, text: string, hash: string -> Digest, i: nat)
    requires i < |x.pageMap| && EntryAccepted(x, i, Some(text), hash)
    ensures var pages := PagesOf(x.pageMap, Some(text));
            PageCoherent(text, pages, i, hash) <==> Separated(text, pages, i)
  {
    hide Slice;
    var pages := PagesOf(x.pageMap, Some(text));
    assert pages[i] == PageOf(x.pageMap[i], Some(text));
    if i > 0 { assert pages[i - 1] == PageOf(x.pageMap[i - 1], Some(text)); }
  }

  /** So over texts the reader supplies, every event a successful call returns is accepted by the event reader. */
  lemma ReaderTextsReadBack(lineage: Lineage, h: Hashes, s: Store, req: Request, r: EventResult)
    requires ValidStore(s) && CollisionFree(h) && forall t | t in req.texts :: FromReader(t, h.text)
    requires Detected(lineage, h, s, req).results.Some? && r in Detected(lineage, h, s, req).results.value
    ensures var later := Detected(lineage, h, s, req).store;
            exists e | e in later.events ::
              e.id == r.id && EventAccepted(lineage, h.text, later, e, req.announcement)
  {
    assert OffsetsNonNegative(req.texts) by {
      hide FromReader, HasPages;
      forall t, p | t in req.texts && HasPages(t) && p in t.pages ensures p.start >= 0 && p.end >= 0 {
        ReaderPagesPlain(t, h.text);
      }
    }
    hide Detected, FromReader, OffsetsNonNegative;
    DetectedReadsBack(lineage, h, s, req, r);
  }

  // --- What the reader returns ---

  /** The row of a document under an extractor's identity, on an accepted asset. */
  ghost predicate RowFor(asset: Asset, x: Extraction, documentId: Uuid, identity: Identity) {
    && asset.documentId == documentId && (asset.status == "verified" || asset.status == "accepted_unverified")
    && x.assetId == asset.id && x.extractorCode == identity.extractorCode
    && x.semanticVersion == identity.semanticVersion && x.runtimeVersion == identity.runtimeVersion
  }

  /** The text is the stored object's, as long as the extraction says and under its digest; or there is none. */
  ghost predicate StoredText(objects: map<string, TextObject>, x: Extraction, text: Option<string>) {
    if x.status == "success" then
      && x.textObjectKey.Some? && x.textObjectKey.value in objects
      && var stored := objects[x.textObjectKey.value];
      && x.textDigest == Some(stored.digest) && text.Some? && text == stored.text
      && x.characterCount == Some(|text.value|)
    else
      x.textObjectKey == None && x.textDigest == None && text == None
  }

  /** A page as the map places it, with its part of the text. */
  ghost predicate PageAt(p: Page, e: PageEntry, number: int, text: Option<string>) {
    && p.number == e.number == number && p.start == e.start && p.end == e.end && p.digest == e.digest
    && 0 <= p.start <= p.end
    && (text.None? ==> p.text == None)
    && (text.Some? ==> p.end <= |text.value| ==> p.text == Some(text.value[p.start..p.end]))
  }

  /**
   * The text of a document: the one row of its extraction, the stored text, and its pages by number from one, each
   * with its part of the text; available when the document is.
   */
  lemma ReaderText(t: Texts, document: Document, identity: Identity, hash: string -> Digest, r: SuppliedText)
    requires TextForDocument(t, document, identity, hash) == Some(Some(r))
    ensures r.document == document && r.sourceAvailableAt == document.availableAt
    ensures RowFor(r.asset, r.extraction, document.id, identity) && StoredText(t.objects, r.extraction, r.text)
    ensures exists x: StoredExtraction ::
              && (r.asset, x) in t.rows && x.extraction == r.extraction && |r.pages| == |x.pageMap|
              && forall i | 0 <= i < |r.pages| :: PageAt(r.pages[i], x.pageMap[i], i + 1, r.text)
    ensures forall row | row in t.rows && RowFor(row.0, row.1.extraction, document.id, identity) ::
              row.0 == r.asset && row.1.extraction == r.extraction
  {
    var p := (row: (Asset, StoredExtraction)) => Selected(row, document.id, identity);
    var rows := Filter(t.rows, p);
    assert rows[0] in rows && p(rows[0]);
    var x := rows[0].1;
    assert (r.asset, x) == rows[0];
    forall row | row in t.rows && RowFor(row.0, row.1.extraction, document.id, identity)
      ensures row == rows[0]
    {
      assert p(row) && row in rows;
    }
    hide Filter, Selected;
    forall i | 0 <= i < |r.pages| ensures PageAt(r.pages[i], x.pageMap[i], i + 1, r.text) {
      ReadableStarts(x, r.text, hash, i);
      assert EntryAccepted(x, i, r.text, hash);
      if r.text.Some? && x.pageMap[i].end <= |r.text.value| {
        SliceInside(r.text.value, x.pageMap[i].start, x.pageMap[i].end);
      }
    }
  }

  /** Nothing is returned exactly when no row is the document's under that identity. */
  lemma ReaderNothing(t: Texts, document: Document, identity: Identity, hash: string -> Digest)
    ensures TextForDocument(t, document, identity, hash) == Some(None) <==>
            forall row | row in t.rows :: !RowFor(row.0, row.1.extraction, document.id, identity)
  {
    var p := (row: (Asset, StoredExtraction)) => Selected(row, document.id, identity);
    var rows := Filter(t.rows, p);
    assert forall row :: p(row) <==> RowFor(row.0, row.1.extraction, document.id, identity);
    assert forall row :: row in rows <==> row in t.rows && p(row);
    if rows != [] { assert rows[0] in rows; }
    hide Filter, Selected, RowFor, MapReadable, ReadText, PagesOf;
  }
}
