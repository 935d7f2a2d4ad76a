/** Text spans of event evidence: the context window around a match and the page map of a document text. */
module Spans {
  import opened Prelude

  const MAX_EVIDENCE_CONTEXT_CHARACTERS: nat := 1000

  const PAGE_SEPARATOR: string := "\n\U{000C}\n"

  // --- Python slices ---

  /** Where a slice bound lands in a sequence of length n: negative bounds count from the end, all are clamped. */
  function Landing(bound: int, n: nat): (r: nat)
    ensures r <= n
  {
    if bound > n then n
    else if bound >= 0 then bound
    else if bound + n >= 0 then bound + n
    else 0
  }

  /** It is the position of the sequence nearest to the bound, or to the bound counted from the end. */
  lemma LandingNearest(bound: int, n: nat, p: nat)
    requires p <= n
    ensures var target := if bound < 0 then n + bound else bound;
            (target <= Landing(bound, n) <= p) || (p <= Landing(bound, n) <= target)
            || Landing(bound, n) == target
  {
  }

  /** `text[start:end]`. */
  function Slice(text: string, start: int, end: int): string {
    var lo, hi := Landing(start, |text|), Landing(end, |text|);
    if lo <= hi then text[lo..hi] else []
  }

  lemma SliceInside(text: string, a: nat, b: nat)
    requires a <= b <= |text|
    ensures Slice(text, a, b) == text[a..b]
  {
  }

  // --- The context window ---

  /** `text.rfind("\n", 0, end) + 1`. */
  function LineStart(text: string, end: nat): (r: nat)
    requires end <= |text|
    ensures r <= end && (r > 0 ==> text[r - 1] == '\n')
    ensures forall i | r <= i < end :: text[i] != '\n'
  {
    if end == 0 then 0 else if text[end - 1] == '\n' then end else LineStart(text, end - 1)
  }

  /** The first newline from `start` on, or the end of the text. */
  function LineEnd(text: string, start: nat): (r: nat)
    requires start <= |text|
    ensures start <= r <= |text| && (r < |text| ==> text[r] == '\n')
    ensures forall i | start <= i < r :: text[i] != '\n'
    decreases |text| - start
  {
    if start == |text| || text[start] == '\n' then start else LineEnd(text, start + 1)
  }

  datatype Span = Span(start: int, end: int)

  /** The lines a match lies on, or the whole text. */
  function Lines(text: string, matched: Span, lineLocal: bool): Span
    requires 0 <= matched.start <= matched.end <= |text|
  {
    if lineLocal then Span(LineStart(text, matched.start), LineEnd(text, matched.end)) else Span(0, |text|)
  }

  function ContextBounds(text: string, matched: Span, lineLocal: bool): Span
    requires 0 <= matched.start <= matched.end <= |text|
  {
    var lines := Lines(text, matched, lineLocal);
    if lines.end - lines.start <= MAX_EVIDENCE_CONTEXT_CHARACTERS then
      lines
    else
      var spare := (MAX_EVIDENCE_CONTEXT_CHARACTERS - (matched.end - matched.start)) / 2;
      var left := matched.start - (if spare > 0 then spare else 0);
      var inLine := if left > lines.start then left else lines.start;
      var last := lines.end - MAX_EVIDENCE_CONTEXT_CHARACTERS;
      var start := if inLine < last then inLine else last;
      Span(start, start + MAX_EVIDENCE_CONTEXT_CHARACTERS)
  }

  predicate Within(inner: Span, outer: Span) {
    outer.start <= inner.start <= inner.end <= outer.end
  }

  /**
   * The window lies inside the match's lines, is those lines entirely or exactly the maximum long, and contains
   * the match exactly when the match is no longer than the maximum.
   */
  lemma ContextWindow(text: string, matched: Span, lineLocal: bool)
    requires 0 <= matched.start <= matched.end <= |text|
    ensures var lines, window := Lines(text, matched, lineLocal), ContextBounds(text, matched, lineLocal);
            && Within(matched, lines) && Within(lines, Span(0, |text|)) && Within(window, lines)
            && (window == lines || window.end - window.start == MAX_EVIDENCE_CONTEXT_CHARACTERS)
            && (Within(matched, window) <==> matched.end - matched.start <= MAX_EVIDENCE_CONTEXT_CHARACTERS)
  {
  }

  /** The match's lines: from behind the last newline before it to the first newline after it. */
  ghost predicate OnLines(text: string, matched: Span, lines: Span)
    requires 0 <= matched.start <= matched.end <= |text|
  {
    && Within(matched, lines) && Within(lines, Span(0, |text|))
    && (lines.start > 0 ==> text[lines.start - 1] == '\n')
    && (lines.end < |text| ==> text[lines.end] == '\n')
    && (forall i | lines.start <= i < matched.start || matched.end <= i < lines.end :: text[i] != '\n')
  }

  /** The point of an interval that is nearest to a target. */
  predicate Nearest(x: int, target: int, least: int, greatest: int) {
    && least <= x <= greatest
    && (x < target ==> x == greatest)
    && (x > target ==> x == least)
  }

  /**
   * Where the window lies: all of the lines when they have at most 1000 characters; otherwise 1000 characters, as
   * near as the lines allow to having the match in the middle, with half of what the match leaves rounded down.
   */
  lemma ContextCentred(text: string, matched: Span, lineLocal: bool, lines: Span)
    requires 0 <= matched.start <= matched.end <= |text|
    requires if lineLocal then OnLines(text, matched, lines) else lines == Span(0, |text|)
    ensures var window, left := ContextBounds(text, matched, lineLocal), 1000 - (matched.end - matched.start);
            if lines.end - lines.start <= 1000 then window == lines
            else
              && window.end == window.start + 1000
              && exists spare :: (if left > 0 then 2 * spare <= left <= 2 * spare + 1 else spare == 0)
                                 && Nearest(window.start, matched.start - spare, lines.start, lines.end - 1000)
  {
    if lineLocal {
      var lo, hi := LineStart(text, matched.start), LineEnd(text, matched.end);
      assert lo == lines.start && hi == lines.end;
    }
    var left := 1000 - (matched.end - matched.start);
    var spare := if left > 0 then left / 2 else 0;
    assert if left > 0 then 2 * spare <= left <= 2 * spare + 1 else spare == 0;
  }

  /** A line-local window adds no newline to the match. */
  lemma ContextAddsNoNewline(text: string, matched: Span, i: int)
    requires 0 <= matched.start <= matched.end <= |text|
    requires var window := ContextBounds(text, matched, true); window.start <= i < window.end
    requires !(matched.start <= i < matched.end)
    ensures text[i] != '\n'
  {
    ContextWindow(text, matched, true);
  }

  /** A non-empty match leaves a non-empty window. */
  lemma ContextNonEmpty(text: string, matched: Span, lineLocal: bool)
    requires 0 <= matched.start < matched.end <= |text|
    ensures var window := ContextBounds(text, matched, lineLocal); 0 <= window.start < window.end <= |text|
  {
    ContextWindow(text, matched, lineLocal);
  }

  // --- The page map ---

  datatype PageEntry = PageEntry(number: int, start: int, end: int, digest: Digest)

  datatype Page = Page(number: int, start: int, end: int, digest: Digest, text: Option<string>)

  function Entry(p: Page): PageEntry {
    PageEntry(p.number, p.start, p.end, p.digest)
  }

  function Entries(pages: seq<Page>): (r: seq<PageEntry>)
    ensures |r| == |pages| && forall i | 0 <= i < |pages| :: r[i] == Entry(pages[i])
  {
    seq(|pages|, i requires 0 <= i < |pages| => Entry(pages[i]))
  }

  /** What the loop checks of one page. */
  predicate PageCoherent(text: string, pages: seq<Page>, i: nat, hash: string -> Digest)
    requires i < |pages|
  {
    var p := pages[i];
    && p.number == i + 1 && p.text.Some?
    && (i == 0 ==> p.start == 0)
    && Slice(text, p.start, p.end) == p.text.value
    && hash(p.text.value) == p.digest
    && (i > 0 ==> p.start == pages[i - 1].end + |PAGE_SEPARATOR|
                  && Slice(text, pages[i - 1].end, p.start) == PAGE_SEPARATOR)
  }

  /** What the whole check accepts. */
  predicate PagesCoherent(text: string, pages: seq<Page>, persisted: seq<PageEntry>, hash: string -> Digest) {
    && (forall i | 0 <= i < |pages| :: PageCoherent(text, pages, i, hash))
    && (pages != [] ==> pages[|pages| - 1].end == |text|)
    && persisted == Entries(pages)
  }

  method ValidatePages(text: string, pages: seq<Page>, persisted: seq<PageEntry>, hash: string -> Digest)
    returns (ok: bool)
    ensures ok <==> PagesCoherent(text, pages, persisted, hash)
  {
    var expected: seq<PageEntry> := [];
    for i := 0 to |pages|
      invariant forall k | 0 <= k < i :: PageCoherent(text, pages, k, hash)
      invariant expected == Entries(pages[..i])
    {
      var page := pages[i];
      assert PagesCoherent(text, pages, persisted, hash) ==> PageCoherent(text, pages, i, hash);
      if page.number != i + 1 || page.text.None? {
        return false;
      }
      if i == 0 && page.start != 0 {
        return false;
      }
      if Slice(text, page.start, page.end) != page.text.value {
        return false;
      }
      if hash(page.text.value) != page.digest {
        return false;
      }
      if i > 0 {
        var previousEnd := pages[i - 1].end;
        if page.start != previousEnd + |PAGE_SEPARATOR| || Slice(text, previousEnd, page.start) != PAGE_SEPARATOR {
          return false;
        }
      }
      expected := expected + [Entry(page)];
    }
    assert pages[..|pages|] == pages;
    ok := (pages != [] ==> pages[|pages| - 1].end == |text|) && persisted == expected;
  }

  /** `PAGE_SEPARATOR.join(texts)`. */
  function Join(texts: seq<string>): string {
    if texts == [] then []
    else if |texts| == 1 then texts[0]
    else texts[0] + PAGE_SEPARATOR + Join(texts[1..])
  }

  function TextsOf(pages: seq<Page>): (r: seq<string>)
    ensures |r| == |pages| && forall i | 0 <= i < |pages| :: r[i] == pages[i].text.GetOr([])
  {
    seq(|pages|, i requires 0 <= i < |pages| => pages[i].text.GetOr([]))
  }

  function StartOf(text: string, p: Page): nat {
    Landing(p.start, |text|)
  }

  function EndOf(text: string, p: Page): nat {
    Landing(p.end, |text|)
  }

  /** In landed positions a page starts one separator after the page before it, and the last one ends the text. */
  lemma PageLanding(text: string, pages: seq<Page>, persisted: seq<PageEntry>, hash: string -> Digest, i: nat)
    requires PagesCoherent(text, pages, persisted, hash) && i < |pages|
    ensures i == 0 ==> StartOf(text, pages[i]) == 0
    ensures i > 0 ==> StartOf(text, pages[i]) == EndOf(text, pages[i - 1]) + |PAGE_SEPARATOR|
                      && text[EndOf(text, pages[i - 1])..StartOf(text, pages[i])] == PAGE_SEPARATOR
    ensures i == |pages| - 1 ==> EndOf(text, pages[i]) == |text|
  {
    assert PageCoherent(text, pages, i, hash);
    if i > 0 { SeparatorLanding(text, pages[i - 1].end); }
  }

  lemma SeparatorLanding(text: string, end: int)
    requires Slice(text, end, end + |PAGE_SEPARATOR|) == PAGE_SEPARATOR
    ensures Landing(end + |PAGE_SEPARATOR|, |text|) == Landing(end, |text|) + |PAGE_SEPARATOR|
    ensures text[Landing(end, |text|)..Landing(end + |PAGE_SEPARATOR|, |text|)] == PAGE_SEPARATOR
    ensures (end >= 0 && end + |PAGE_SEPARATOR| <= |text|) || end + |PAGE_SEPARATOR| < 0
  {
    assert |Slice(text, end, end + |PAGE_SEPARATOR|)| == |PAGE_SEPARATOR|;
  }

  /** Every page ends no earlier than it starts, wherever its offsets land. */
  predicate PagesForward(text: string, pages: seq<Page>) {
    forall i | 0 <= i < |pages| :: StartOf(text, pages[i]) <= EndOf(text, pages[i])
  }

  /** The page text is what lies between its landed offsets, and is empty when they run backwards. */
  lemma PageTextLanded(text: string, pages: seq<Page>, persisted: seq<PageEntry>, hash: string -> Digest, i: nat)
    requires PagesCoherent(text, pages, persisted, hash) && i < |pages|
    ensures var start, end := StartOf(text, pages[i]), EndOf(text, pages[i]);
            TextsOf(pages)[i] == if start <= end then text[start..end] else []
  {
    hide Landing;
    assert PageCoherent(text, pages, i, hash);
  }

  lemma Recompose(text: string, a: nat, b: nat, c: nat, rest: string)
    requires a <= b <= c <= |text| && text[c..] == rest
    ensures text[a..] == text[a..b] + (text[b..c] + rest)
  {
  }

  lemma JoinStep(pages: seq<Page>, i: nat)
    requires i < |pages|
    ensures Join(TextsOf(pages[i..])) ==
            TextsOf(pages)[i]
            + if i + 1 < |pages| then PAGE_SEPARATOR + Join(TextsOf(pages[i + 1..])) else []
  {
    var texts := TextsOf(pages[i..]);
    assert texts[1..] == TextsOf(pages[i + 1..]);
    assert texts[0] == TextsOf(pages)[i];
    if i + 1 < |pages| {
      assert texts[0] + PAGE_SEPARATOR + Join(texts[1..]) == texts[0] + (PAGE_SEPARATOR + Join(texts[1..]));
    }
  }

  lemma {:induction false} ForwardPagesTile(
      text: string, pages: seq<Page>, persisted: seq<PageEntry>, hash: string -> Digest, i: nat)
    requires PagesCoherent(text, pages, persisted, hash) && PagesForward(text, pages) && i < |pages|
    ensures text[StartOf(text, pages[i])..] == Join(TextsOf(pages[i..]))
    decreases |pages| - i
  {
    var start, end := StartOf(text, pages[i]), EndOf(text, pages[i]);
    assert start <= end;
    PageLanding(text, pages, persisted, hash, i);
    PageTextLanded(text, pages, persisted, hash, i);
    JoinStep(pages, i);
    hide TextsOf, Join, StartOf, EndOf;
    if i + 1 < |pages| {
      PageLanding(text, pages, persisted, hash, i + 1);
      ForwardPagesTile(text, pages, persisted, hash, i + 1);
      hide PagesCoherent, PagesForward;
      Recompose(text, start, end, StartOf(text, pages[i + 1]), Join(TextsOf(pages[i + 1..])));
    }
  }

  lemma JoinLength(text: string, pages: seq<Page>, persisted: seq<PageEntry>, hash: string -> Digest, i: nat)
    requires PagesCoherent(text, pages, persisted, hash) && i < |pages|
    ensures var rest := if i + 1 < |pages| then |PAGE_SEPARATOR| + |Join(TextsOf(pages[i + 1..]))| else 0;
            && |Join(TextsOf(pages[i..]))| >= EndOf(text, pages[i]) - StartOf(text, pages[i]) + rest
            && |Join(TextsOf(pages[i..]))| >= rest
  {
    PageTextLanded(text, pages, persisted, hash, i);
    JoinStep(pages, i);
    hide Join, TextsOf, StartOf, EndOf, PagesCoherent;
  }

  /** Joined pages are at least as long as the landed offsets say, and longer once one page runs backwards. */
  lemma {:induction false} BackwardPageLengthens(
      text: string, pages: seq<Page>, persisted: seq<PageEntry>, hash: string -> Digest, i: nat)
    requires PagesCoherent(text, pages, persisted, hash) && i < |pages|
    ensures |Join(TextsOf(pages[i..]))| >= |text| - StartOf(text, pages[i])
    ensures (exists k | i <= k < |pages| :: StartOf(text, pages[k]) > EndOf(text, pages[k])) ==>
              |Join(TextsOf(pages[i..]))| > |text| - StartOf(text, pages[i])
    decreases |pages| - i
  {
    PageLanding(text, pages, persisted, hash, i);
    JoinLength(text, pages, persisted, hash, i);
    hide Join, TextsOf, StartOf, EndOf;
    if i + 1 < |pages| {
      PageLanding(text, pages, persisted, hash, i + 1);
      BackwardPageLengthens(text, pages, persisted, hash, i + 1);
      hide PagesCoherent;
    }
  }

  /** Coherent pages, joined, are the document text exactly when no page ends before it starts. */
  lemma PagesTileText(text: string, pages: seq<Page>, persisted: seq<PageEntry>, hash: string -> Digest)
    requires PagesCoherent(text, pages, persisted, hash) && pages != []
    ensures text == Join(TextsOf(pages)) <==> PagesForward(text, pages)
  {
    assert pages[0..] == pages;
    PageLanding(text, pages, persisted, hash, 0);
    if PagesForward(text, pages) {
      ForwardPagesTile(text, pages, persisted, hash, 0);
      assert text[0..] == text;
    } else {
      BackwardPageLengthens(text, pages, persisted, hash, 0);
    }
  }

  /** The offsets an extraction is meant to have: from the start of the text, in order. */
  predicate PlainOffsets(pages: seq<Page>) {
    forall i | 0 <= i < |pages| :: 0 <= pages[i].start <= pages[i].end
  }

  lemma PlainPageInside(text: string, pages: seq<Page>, persisted: seq<PageEntry>, hash: string -> Digest, i: nat)
    requires PagesCoherent(text, pages, persisted, hash) && i < |pages| && pages[i].start >= 0 && pages[i].end >= 0
    ensures pages[i].start <= |text| && pages[i].end <= |text|
  {
    assert PageCoherent(text, pages, i, hash);
    if i + 1 < |pages| {
      assert PageCoherent(text, pages, i + 1, hash);
      SeparatorLanding(text, pages[i].end);
    }
    if i > 0 {
      SeparatorLanding(text, pages[i - 1].end);
    }
  }

  /** With plain offsets pages are disjoint, increasing intervals of the text. */
  lemma {:induction false} PlainPagesIncrease(
      text: string, pages: seq<Page>, persisted: seq<PageEntry>, hash: string -> Digest, i: nat, j: nat)
    requires PagesCoherent(text, pages, persisted, hash) && PlainOffsets(pages) && i < j < |pages|
    ensures pages[i].start <= pages[i].end < pages[j].start <= pages[j].end <= |text|
    decreases j
  {
    PlainPageInside(text, pages, persisted, hash, j);
    assert PageCoherent(text, pages, j, hash);
    if i < j - 1 { PlainPagesIncrease(text, pages, persisted, hash, i, j - 1); }
  }

  lemma NestedSlice(text: string, a: nat, b: nat, c: nat, d: nat)
    requires a <= b <= |text| && c <= d <= b - a
    ensures text[a..b][c..d] == text[a + c..a + d]
  {
    assert forall k | 0 <= k < d - c :: text[a..b][c..d][k] == text[a + c..a + d][k];
  }

  /** With plain offsets a slice of a page is the slice of the text at the shifted offsets. */
  lemma PageSliceIsTextSlice(
      text: string, pages: seq<Page>, persisted: seq<PageEntry>, hash: string -> Digest, i: nat, s: Span)
    requires PagesCoherent(text, pages, persisted, hash) && PlainOffsets(pages) && i < |pages|
    requires pages[i].text.Some? && 0 <= s.start <= s.end <= |pages[i].text.value|
    ensures Within(Span(pages[i].start + s.start, pages[i].start + s.end), Span(pages[i].start, pages[i].end))
    ensures pages[i].end <= |text|
    ensures text[pages[i].start + s.start..pages[i].start + s.end] == pages[i].text.value[s.start..s.end]
  {
    PlainPageInside(text, pages, persisted, hash, i);
    assert PageCoherent(text, pages, i, hash);
    NestedSlice(text, pages[i].start, pages[i].end, s.start, s.end);
  }

  /** A text of two pages, and offsets that count back from its end. */
  const TWO_PAGES: string := "ab\n\U{000C}\ncd\nef"

  function NegativePages(hash: string -> Digest): seq<Page> {
    [Page(1, 0, -8, hash("ab"), Some("ab")), Page(2, -5, 10, hash("cd\nef"), Some("cd\nef"))]
  }

  /** The loop alone does not keep offsets from counting back from the end: this page map passes. */
  lemma NegativeOffsetsPass(hash: string -> Digest)
    ensures var pages := NegativePages(hash);
            && PagesCoherent(TWO_PAGES, pages, Entries(pages), hash)
            && PagesForward(TWO_PAGES, pages) && !PlainOffsets(pages)
  {
    var text, pages := TWO_PAGES, NegativePages(hash);
    assert text[0..2] == "ab" && text[2..5] == PAGE_SEPARATOR && text[5..10] == "cd\nef";
    assert pages[1].start < 0;
    assert Slice(text, 0, -8) == "ab" && Slice(text, -8, -5) == PAGE_SEPARATOR && Slice(text, -5, 10) == "cd\nef";
    forall i | 0 <= i < |pages| ensures PageCoherent(text, pages, i, hash) {
      if i == 1 { assert pages[i - 1] == pages[0]; }
    }
  }

  /** Nor from running backwards: the second page here is empty, and the joined pages are not the text. */
  lemma BackwardOffsetsPass(hash: string -> Digest)
    ensures var text := "ab\n\U{000C}\ncd";
            var pages := [Page(1, 0, 2, hash("ab"), Some("ab")), Page(2, 5, 2, hash(""), Some("")),
                          Page(3, 5, 7, hash("cd"), Some("cd"))];
            PagesCoherent(text, pages, Entries(pages), hash) && !PagesForward(text, pages)
  {
    var text := "ab\n\U{000C}\ncd";
    assert text[0..2] == "ab" && text[2..5] == PAGE_SEPARATOR && text[5..7] == "cd";
    var pages := [Page(1, 0, 2, hash("ab"), Some("ab")), Page(2, 5, 2, hash(""), Some("")),
                  Page(3, 5, 7, hash("cd"), Some("cd"))];
    assert Slice(text, 0, 2) == "ab" && Slice(text, 2, 5) == PAGE_SEPARATOR && Slice(text, 5, 7) == "cd";
    assert Slice(text, 5, 2) == "";
    forall i | 0 <= i < |pages| ensures PageCoherent(text, pages, i, hash) {
      if i > 0 { assert pages[i - 1] == pages[if i == 1 then 0 else 1]; }
    }
    assert StartOf(text, pages[1]) > EndOf(text, pages[1]);
  }

  // --- The extraction that writes the map ---

  /** Pages composed from `offset` on, numbered from `first`. */
  function ComposeFrom(texts: seq<string>, first: nat, offset: nat, hash: string -> Digest): (r: seq<Page>)
    ensures |r| == |texts|
    decreases |texts|
  {
    if texts == [] then []
    else
      var end := offset + |texts[0]|;
      [Page(first, offset, end, hash(texts[0]), Some(texts[0]))]
        + ComposeFrom(texts[1..], first + 1, end + |PAGE_SEPARATOR|, hash)
  }

  function ComposePages(texts: seq<string>, hash: string -> Digest): seq<Page> {
    ComposeFrom(texts, 1, 0, hash)
  }

  /** The extractor's loop, with its running offset, computes the composed pages and joins the texts. */
  method Compose(texts: seq<string>, hash: string -> Digest) returns (pages: seq<Page>, text: string)
    ensures pages == ComposePages(texts, hash) && text == Join(texts)
  {
    pages := [];
    var offset: nat := 0;
    assert texts[0..] == texts;
    for i := 0 to |texts|
      invariant |pages| == i
      invariant i == |texts| || ComposePages(texts, hash) == pages + ComposeFrom(texts[i..], i + 1, offset, hash)
      invariant i == |texts| ==> pages == ComposePages(texts, hash)
    {
      var start := offset;
      var end := start + |texts[i]|;
      pages := pages + [Page(i + 1, start, end, hash(texts[i]), Some(texts[i]))];
      offset := end + (if i < |texts| - 1 then |PAGE_SEPARATOR| else 0);
      assert texts[i..][1..] == texts[i + 1..];
    }
    text := Join(texts);
  }

  lemma JoinShift(head: string, rest: string, a: nat, b: nat)
    requires a <= b <= |rest|
    ensures var all, shift := head + PAGE_SEPARATOR + rest, |head| + |PAGE_SEPARATOR|;
            b + shift <= |all| && all[a + shift..b + shift] == rest[a..b]
  {
    var all, shift := head + PAGE_SEPARATOR + rest, |head| + |PAGE_SEPARATOR|;
    assert forall k | 0 <= k < b - a :: all[a + shift..b + shift][k] == rest[a..b][k];
  }

  lemma JoinLengthStep(texts: seq<string>)
    requires |texts| > 1
    ensures |Join(texts)| == |texts[0]| + |PAGE_SEPARATOR| + |Join(texts[1..])|
  {
  }

  /** Where the i-th composed page lies. */
  lemma {:induction false} ComposedPosition(
      texts: seq<string>, first: nat, offset: nat, hash: string -> Digest, i: nat)
    requires i < |texts|
    ensures var p := ComposeFrom(texts, first, offset, hash)[i];
            && p.number == first + i && p.text == Some(texts[i]) && p.digest == hash(texts[i])
            && offset <= p.start && p.end == p.start + |texts[i]|
            && p.end <= offset + |Join(texts)|
            && (i == 0 ==> p.start == offset)
            && (i == |texts| - 1 ==> p.end == offset + |Join(texts)|)
    decreases |texts|
  {
    var pages := ComposeFrom(texts, first, offset, hash);
    if |texts| > 1 { JoinLengthStep(texts); }
    if i > 0 {
      var rest := texts[1..];
      var inner := offset + |texts[0]| + |PAGE_SEPARATOR|;
      assert pages[i] == ComposeFrom(rest, first + 1, inner, hash)[i - 1];
      hide ComposeFrom, Join;
      ComposedPosition(rest, first + 1, inner, hash, i - 1);
    }
  }

  /** The i-th composed page selects its own text. */
  lemma {:induction false} ComposedAt(texts: seq<string>, first: nat, offset: nat, hash: string -> Digest, i: nat)
    requires i < |texts|
    ensures var p := ComposeFrom(texts, first, offset, hash)[i];
            && offset <= p.start <= p.end <= offset + |Join(texts)|
            && Join(texts)[p.start - offset..p.end - offset] == texts[i]
    decreases |texts|
  {
    hide ComposeFrom, Join;
    ComposedPosition(texts, first, offset, hash, i);
    if i > 0 {
      var rest := texts[1..];
      var inner := offset + |texts[0]| + |PAGE_SEPARATOR|;
      var p := ComposeFrom(rest, first + 1, inner, hash)[i - 1];
      ComposeStep(texts, first, offset, hash, i);
      ComposedAt(rest, first + 1, inner, hash, i - 1);
      JoinShift(texts[0], Join(rest), p.start - inner, p.end - inner);
    } else {
      JoinHead(texts);
    }
  }

  lemma JoinHead(texts: seq<string>)
    requires texts != []
    ensures |texts[0]| <= |Join(texts)| && Join(texts)[0..|texts[0]|] == texts[0]
  {
  }

  lemma ComposeStep(texts: seq<string>, first: nat, offset: nat, hash: string -> Digest, i: nat)
    requires 0 < i < |texts|
    ensures var inner := offset + |texts[0]| + |PAGE_SEPARATOR|;
            ComposeFrom(texts, first, offset, hash)[i] == ComposeFrom(texts[1..], first + 1, inner, hash)[i - 1]
    ensures Join(texts) == texts[0] + PAGE_SEPARATOR + Join(texts[1..])
  {
  }

  /** One separator lies between a composed page and the next. */
  lemma {:induction false} ComposedGap(texts: seq<string>, first: nat, offset: nat, hash: string -> Digest, i: nat)
    requires 0 < i < |texts|
    ensures var q, p := ComposeFrom(texts, first, offset, hash)[i - 1], ComposeFrom(texts, first, offset, hash)[i];
            && offset <= q.end && p.start == q.end + |PAGE_SEPARATOR| && p.start <= offset + |Join(texts)|
            && Join(texts)[q.end - offset..p.start - offset] == PAGE_SEPARATOR
    decreases |texts|
  {
    var rest := texts[1..];
    var inner := offset + |texts[0]| + |PAGE_SEPARATOR|;
    var tail := ComposeFrom(rest, first + 1, inner, hash);
    hide ComposeFrom, Join;
    ComposeStep(texts, first, offset, hash, i);
    if i > 1 {
      ComposeStep(texts, first, offset, hash, i - 1);
      ComposedGap(rest, first + 1, inner, hash, i - 1);
      JoinShift(texts[0], Join(rest), tail[i - 2].end - inner, tail[i - 1].start - inner);
    } else {
      ComposedPosition(rest, first + 1, inner, hash, 0);
      ComposedPosition(texts, first, offset, hash, 0);
      SeparatorAfter(texts[0], Join(rest));
    }
  }

  lemma SeparatorAfter(head: string, rest: string)
    ensures (head + PAGE_SEPARATOR + rest)[|head|..|head| + |PAGE_SEPARATOR|] == PAGE_SEPARATOR
  {
  }

  lemma ComposedCoherent(texts: seq<string>, hash: string -> Digest, i: nat)
    requires i < |texts|
    ensures var pages := ComposePages(texts, hash);
            && PageCoherent(Join(texts), pages, i, hash) && 0 <= pages[i].start <= pages[i].end
            && pages[i].text == Some(texts[i]) && (i == |texts| - 1 ==> pages[i].end == |Join(texts)|)
  {
    var pages := ComposePages(texts, hash);
    hide ComposeFrom, Join, Slice;
    ComposedPosition(texts, 1, 0, hash, i);
    ComposedAt(texts, 1, 0, hash, i);
    SliceInside(Join(texts), pages[i].start, pages[i].end);
    if i > 0 {
      ComposedGap(texts, 1, 0, hash, i);
      SliceInside(Join(texts), pages[i - 1].end, pages[i].start);
    }
  }

  /** What extraction writes, validation accepts, with plain offsets. */
  lemma ComposedPagesAccepted(texts: seq<string>, hash: string -> Digest)
    ensures var pages := ComposePages(texts, hash);
            && PagesCoherent(Join(texts), pages, Entries(pages), hash)
            && PlainOffsets(pages) && TextsOf(pages) == texts
  {
    hide PageCoherent, Join, ComposeFrom;
    forall i | 0 <= i < |texts|
      ensures var pages := ComposePages(texts, hash);
              && PageCoherent(Join(texts), pages, i, hash) && 0 <= pages[i].start <= pages[i].end
              && pages[i].text == Some(texts[i]) && (i == |texts| - 1 ==> pages[i].end == |Join(texts)|)
    {
      ComposedCoherent(texts, hash, i);
    }
  }
}
