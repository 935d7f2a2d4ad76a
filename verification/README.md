# Evidence to score: a verified model

This project models how the repository turns company announcements and attention counts into scores, and proves
what that pipeline promises. It follows the four places where most of the logic lives.

**Spans and events** (`Spans`, `EventStore`, `EventReading`, `Detection`, `DetectionComplete`, `DetectionReplay`,
`DetectionReadBack`, `DetectionExample`, `DocumentTexts`). A ruleset, taken as any function from text to matches, runs
on a headline and on the pages of extracted documents. Each match is widened to a context window, fingerprinted,
deduplicated, ordered and stored once per event type. The project proves that a call stores every match and nothing
else, that a replay reuses what is stored, that the order and repetition of the supplied texts never matter, and when
a point-in-time reader accepts what detection wrote.

**Quantities** (`Quantities`, `QuantityReading`, `QuantityComplete`). A second service cuts quantity facts out of the
stored spans, a second reader checks them again. What is read back is exactly the matches of the rules, field by field,
and every fact quotes its immutable source text at its absolute offsets.

**Point-in-time reads** (`AttentionPit`, `Announcements`, `AnnouncementLaws`). Grouping and picking the latest revision is proved equal to
a declarative reading over the whole table; errors that cannot happen are proved unreachable.

**Features and scores** (`AttentionFeatures`, `LowMarketAttention`, `AttentionLaws`, `CapacityGrowth`,
`CatalystFeatures`, `CatalystFeatureLaws`, `CatalystScoring`, `CatalystLaws`, over `Curves`, `WeightedMean`,
`Subfactors` and `Valuation`). What each feature and score is, from the fields it is computed from; what the assemblers
return is accepted by the scorers, with one exception that is stated exactly; materiality is fixed at event time and
scores only decay.

**Outcomes and audit** (`ForwardOutcomes`, `OutcomeLaws`, `BacktestBuild`, `BacktestLaws`, `BacktestResume`,
`ScoreAudit`). Forward returns solve their equation and are stable under later data; an outcome build that is stopped any number of times can be resumed under an exact condition on the
listing table, and then ends like an uninterrupted one; canonical texts read back.

`Prelude`, `Reals`, `Decimals`, `Sorting`, `Dictionaries`, `Text` and `EventModel` hold what the modules share: results, real
arithmetic, Python's stable sort over tuple keys, dictionaries with insertion order, and the records.

## How it is modelled

* Services, repositories and the run session are classes whose methods change their fields; each method is proved
  equal to a specification function of the old state, also on the paths that raise. Results about whole calls, replays
  and runs are lemmas about those functions.
* `Decimal` is `real`, and arithmetic is exact except where a rounded result decides something: the ratios of the
  catalyst features, the conversion of news windows between days and microseconds, and the canonical decimal texts.
  There every operation is rounded half-even to the 28 digits of the decimal context (`Decimals`).
* Times are microseconds on the UTC clock, dates are day numbers, UUIDs are their 128-bit numbers (whose order is the
  order of their texts), digests are numbers.
* SHA-256 over texts and canonical payloads is a parameter. Where a theorem needs it, the digest of texts and of
  evidence or fact payloads is assumed free of collisions (`CollisionFree`), for drift also that of event payloads
  (`EventCollisionFree`), and nothing else is assumed of it.
* The decimals of a quantity match have digits, which its fingerprint is taken over; a stored fact has the number.
* Tables are sequences of rows. Fresh ids come from a counter. Unique keys are those the migrations declare.
* Text columns sort by character code, as under a binary collation.

## What the code does not promise

* The page loop of detection (`business_event_detection.py:412-440`) does not check the sign or order of page offsets,
  and Python slices accept negative ones. `DetectionExample.NegativeOffsetsWholeCall` is a call that
  succeeds and stores an event its reader refuses. `DetectionReadBack.ReadsBackIff` is the exact condition; page maps
  that the extractor composes, and every text the document text reader supplies, always meet it
  (`DocumentTexts.ReaderTextsReadBack`).
* Pages whose end precedes their start pass too (`Spans.BackwardOffsetsPass`); `Spans.PagesTileText` says exactly when
  accepted pages do join to the text.
* A capacity expansion whose three quantities add up can be refused as conflicting, because two quotients rounded to 28
  digits are compared: 3 to 4 by 1 is (`CatalystFeatures.RoundingDecides`). `CatalystFeatures.CapacityChangeDefined` is
  the exact condition for all inputs, `CatalystFeatures.ConsistentChangeDefined` that for quantities that add up. In
  the other direction 3 to 4 by 0.999...9 (27 nines) is accepted.
* An expansion of less than half of the 27th decimal of its baseline gets the ratio zero without a warning, and the
  scorer then raises (`CatalystScoring.AssembledBundleAcceptedIff`).
* A required news duration that does not survive the conversion to microseconds and back passes the policy validators
  and blocks every news window (`LowMarketAttention.LongThirdNotKept`, `LowMarketAttention.DurationGateDeadIff`).
* The end of a listing is read from the live table, not as of a cutoff. If it changes between two attempts of an
  outcome build, stored horizons without an exit conflict and the run cannot be resumed
  (`BacktestResume.SymbolChangeBlocks`); `BacktestResume.ResumeIff` is the exact condition.
* An announcement read does not check when its documents became available (`Announcements.LateDocumentShown`); over what
  ingestion writes it never shows one too early (`Announcements.KnownIff`, `Announcements.IngestedNeverAhead`).
* A match longer than 1000 characters is not contained in its own window (`Spans.ContextWindow`).
* If the rules of one version find nothing any more for a type that is already stored, detection says nothing: neither
  an error nor a result (`DetectionReplay.DriftIff`).
* A replayed derivation reports the same facts, but not in the order of the first call
  (`QuantityReading.ReplayMayReorder`).

## Model

| member | source | states |
|---|---|---|
| Spans.ContextWindow | packages/data/inflector_data/business_event_detection.py:585-604 | the window lies in the match's lines and the text, is those lines entirely or exactly 1000 characters, and contains the match if and only if the match has at most 1000 characters |
| Spans.ContextAddsNoNewline | packages/data/inflector_data/business_event_detection.py:592-595 | a line-local window adds no newline outside the match: it stays on the match's own lines |
| Spans.ContextNonEmpty | packages/data/inflector_data/business_event_detection.py:585-604 | a non-empty match yields a non-empty window, which the reader's `end > start` check needs |
| Spans.ContextCentred | packages/data/inflector_data/business_event_detection.py:585-604 | where the window lies: all of the lines up to 1000 characters, otherwise 1000 characters starting as near as the lines allow to the match's start less half of what the match leaves, rounded down |
| Spans.LineStart | packages/data/inflector_data/business_event_detection.py:593 | `rfind` of a newline plus one: nothing between it and the match is a newline, and a newline precedes it unless it is 0 |
| Spans.LineEnd | packages/data/inflector_data/business_event_detection.py:594-595 | the first newline at or after the match, or the end of the text |
| Spans.LandingNearest | packages/data/inflector_data/business_event_detection.py:418 | where a Python slice bound lands: at the position of the text nearest to it, negative bounds counted from the end |
| Spans.ValidatePages | packages/data/inflector_data/business_event_detection.py:412-440 | the page loop with its running `expected_page_map` returns true exactly for coherent pages whose map equals the persisted one |
| Spans.PagesTileText | packages/data/inflector_data/business_event_detection.py:412-438 | coherent pages joined by the separator are the document text if and only if no page's landed end precedes its landed start |
| Spans.PlainPagesIncrease | packages/data/inflector_data/business_event_detection.py:412-438 | with 0 <= start <= end on every page, pages are disjoint, strictly increasing intervals inside the text |
| Spans.PageSliceIsTextSlice | packages/data/inflector_data/business_event_detection.py:117-129 | with 0 <= start <= end, a slice of a page equals the slice of the whole text at the shifted offsets, inside the page |
| Spans.PlainPageInside | packages/data/inflector_data/business_event_detection.py:412-438 | a coherent page with non-negative offsets starts and ends inside the text |
| Spans.NegativeOffsetsPass | packages/data/inflector_data/business_event_detection.py:412-440 | a concrete page map with negative offsets that the loop accepts: the loop does not check the sign |
| Spans.BackwardOffsetsPass | packages/data/inflector_data/business_event_detection.py:412-440 | a concrete page map with end < start that the loop accepts although its pages do not join to the text |
| Spans.Compose | packages/data/inflector_data/document_services.py:366-386 | the extractor's loop with its running offset computes exactly the composed pages |
| Spans.ComposedPagesAccepted | packages/data/inflector_data/document_services.py:366-386 | every page map the extractor composes passes the validation loop, with plain offsets and the original page texts |
| EventStore.Repository.AddEvent | packages/database/inflector_database/business_event_repository.py:108-142 | adds the row under a fresh id, or changes nothing when the key or the fingerprint is taken |
| EventStore.Repository.AddEvidence | packages/database/inflector_database/business_event_repository.py:144-183 | appends one evidence row under a fresh id, or changes nothing when the event already has the fingerprint |
| EventStore.FindEvent | packages/database/inflector_database/business_event_repository.py:29-44 | the event under (announcement, type, ruleset code, version), and None only when there is none |
| Detection.Service.ValidateText | packages/data/inflector_data/business_event_detection.py:329-440 | true exactly when the supplied text, asset and extraction match the persisted lineage and the pages are coherent |
| Detection.Service.CollectSource | packages/data/inflector_data/business_event_detection.py:112-147 | the matches of one text become candidates in order; refused exactly when some match is out of range, unnamed, of unknown type, or its window selects different text locally and in the whole |
| Detection.Service.CollectText | packages/data/inflector_data/business_event_detection.py:99-147 | all pages of one supplied text, refused exactly when the text or a page's match is |
| Detection.Service.Collect | packages/data/inflector_data/business_event_detection.py:84-147 | headline and document candidates in order, which `DetectionComplete.CandidateIff` says are exactly the contents of the matches; refused exactly when a lineage, text or match check fails, before anything is written |
| Detection.Service.Group | packages/data/inflector_data/business_event_detection.py:149-153 | the nested dictionaries hold, per event type, the last candidate of each fingerprint at the place of the first |
| Detection.Service.Persist | packages/data/inflector_data/business_event_detection.py:191-206 | writes one event and its evidence in order under fresh ids, or nothing when the fingerprint is taken |
| Detection.Service.StoreEvidence | packages/data/inflector_data/business_event_detection.py:554-582 | one evidence row per ordered candidate, appended in that order, events untouched |
| Detection.Service.DetectOne | packages/data/inflector_data/business_event_detection.py:157-206 | one event type: reuse what is stored, refuse a difference, or write |
| Detection.Service.Detect | packages/data/inflector_data/business_event_detection.py:70-207 | the whole call: result and new store equal the specification on the old store, also when it raises, and the store stays valid; what is then stored and returned is said match by match in `DetectionComplete` |
| Detection.WrittenValid | migrations/versions/20260928_0013_business_event_evidence.py:54-62 | writing an event under an unused key keeps every unique key of both tables |
| Detection.SortKeepsDistinct | packages/data/inflector_data/business_event_detection.py:160 | the sort key is total on deduplicated candidates: the sorted list is strictly ordered and has the same members |
| DetectionReplay.FingerprintDetermines | packages/data/inflector_data/business_event_detection.py:457-477 | with collision-free digests a fingerprint determines the whole candidate, excerpt included |
| DetectionReplay.CandidateOrigin | packages/data/inflector_data/business_event_detection.py:93-147 | every candidate comes from an accepted match in the headline or in a page of a supplied text |
| DetectionReplay.BucketMembers | packages/data/inflector_data/business_event_detection.py:149-153 | a bucket holds exactly the candidates of its type, each once |
| DetectionReplay.OrderedIgnoresOrder | packages/data/inflector_data/business_event_detection.py:160 | the ordered candidates depend on the set of candidates alone |
| DetectionReplay.TextOrderIrrelevant | packages/data/inflector_data/business_event_detection.py:99-207 | permuting or repeating `document_texts` changes neither the outcome nor any stored row |
| DetectionReplay.WrittenReusable | packages/data/inflector_data/business_event_detection.py:494-552 | what is written is what the reuse check accepts |
| DetectionReplay.DetectTypeSettles | packages/data/inflector_data/business_event_detection.py:156-206 | a type that did not raise leaves a reusable event, a valid store, only added rows, and the results a replay reports |
| DetectionReplay.SettledKept | packages/data/inflector_data/business_event_detection.py:173-206 | writing other events never makes a stored event unusable |
| DetectionReplay.ReplayReuses | packages/data/inflector_data/business_event_detection.py:149-207 | after a successful call the same call at any later time succeeds, leaves the store unchanged, and returns the same ids, fingerprints and evidence in the same order with `created` false |
| DetectionReplay.EventFingerprintDetermines | packages/data/inflector_data/business_event_detection.py:620-650 | with collision-free digests an event fingerprint determines the ordered candidates, the event's key, its date and its availability |
| DetectionReplay.DriftIff | packages/data/inflector_data/business_event_detection.py:494-526 | once an event is stored, a later call under the same ruleset version succeeds on that type if and only if the rules now find nothing or exactly the stored candidates; any other drift raises |
| DetectionComplete.CandidateIff | packages/data/inflector_data/business_event_detection.py:93-147 | the candidates of an accepted call are exactly the contents of its matches under their types, field by field: kind, document, asset, extraction, rule, absolute span, page number and digest, quoted text, digests and fingerprint |
| DetectionComplete.HeadlineMatchStored | packages/data/inflector_data/business_event_detection.py:93-98 | after a successful call every match of the headline has an evidence row, with those fields, under the event of its type for this announcement and ruleset |
| DetectionComplete.PageMatchStored | packages/data/inflector_data/business_event_detection.py:99-147 | so has every match on every page of every supplied text |
| DetectionComplete.MatchesStored | packages/data/inflector_data/business_event_detection.py:149-206 | after a successful call each type with a match has one event, written or reused, with the announcement's fields, and its rows are the type's matches: all, no other, none twice; it names their rules, each once |
| DetectionComplete.OnlyMatchesWritten | packages/data/inflector_data/business_event_detection.py:156-206 | a successful call only adds rows; each new event is of a type with a match, stamped with the call's time, and each new evidence row is a match of its event's type |
| DetectionComplete.ResultsAreMatches | packages/data/inflector_data/business_event_detection.py:155-207 | the results: one for each type with a match, in the order of the types, each with its event's id, fingerprint and rows, `created` exactly when the event was not stored before |
| DetectionComplete.RulesInReadingOrder | packages/data/inflector_data/business_event_detection.py:161 | an event names its rules in order of first appearance among its rows as they are read |
| DetectionComplete.SuccessMeans | packages/data/inflector_data/business_event_detection.py:209-440 | a call that succeeds had a named ruleset, an announcement and documents that agree with the persisted accepted lineage, texts of those documents from their persisted extractions under their digests, and every match in range, of a known type and by a named rule |
| DetectionReadBack.HeadlineReadable | packages/data/inflector_data/business_event_pit.py:252-262 | headline evidence always passes the reader's checks |
| DetectionReadBack.PageReadableIff | packages/data/inflector_data/business_event_pit.py:263-311 | document evidence passes the reader's checks if and only if its page's start and end offsets are non-negative |
| DetectionReadBack.CandidateReadableIff | packages/data/inflector_data/business_event_pit.py:232-311 | any candidate passes the reader's checks if and only if the page map entry it refers to, if any, has no negative offset |
| DetectionReadBack.SettledAcceptedIff | packages/data/inflector_data/business_event_pit.py:173-212 | a stored, reusable event is accepted if and only if each of its candidates is |
| DetectionReadBack.ReadsBackIff | packages/data/inflector_data/business_event_pit.py:173-311 | after a successful call each type with candidates has a stored event, accepted by the reader for the same announcement if and only if no candidate of the type lies on a page with a negative offset |
| DetectionReadBack.DetectedReadsBack | packages/data/inflector_data/business_event_pit.py:173-311 | with non-negative page offsets every event a successful call returns, written or reused, is accepted by the reader |
| DetectionReadBack.ExtractedNonNegative | packages/data/inflector_data/document_services.py:362-384 | texts whose pages the extractor composed meet that condition |
| DetectionReadBack.PageSpanQuotes | packages/data/inflector_data/business_event_detection.py:117-147 | a span from a page with non-negative offsets quotes the document text exactly, lies inside the page, and contains the match if and only if the match fits the window |
| EventReading.EventsListed | packages/data/inflector_data/business_event_pit.py:80-98 | the reader lists every event of the announcement under the ruleset and no other, by type and then id, each with the fields of its row and its evidence |
| EventReading.EvidenceInOrder | packages/data/inflector_data/business_event_detection.py:607-617 | evidence is read headline first, then by document, extraction, span, rule code as text, and fingerprint |
| EventReading.ReadVouched | packages/data/inflector_data/business_event_pit.py:173-311 | whatever is stored, each event the reader returns agrees with its announcement and has evidence; every span quotes the headline, or lies on the page it names of a successful extraction of an accepted asset of its document |
| DetectionReadBack.NegativeOffsetsStored | packages/data/inflector_data/business_event_detection.py:115-147 | a concrete match on a page with a negative offset whose span detection accepts and the reader refuses |
| DetectionExample.FirstCallSucceedsIff | packages/data/inflector_data/business_event_detection.py:149-207 | on a store without events a call succeeds if and only if its input passes the checks made before anything is written |
| DetectionExample.ExampleAccepted | packages/data/inflector_data/business_event_detection.py:209-440 | a concrete announcement, lineage, extraction and rule pass every check although a page offset is negative |
| DetectionExample.NegativeOffsetsWholeCall | packages/data/inflector_data/business_event_detection.py:70-207 | that whole call succeeds on an empty store and leaves an event the reader refuses for the same announcement |
| DocumentTexts.CheckEntry | packages/data/inflector_data/document_text.py:243-273 | the checks of one page map entry, one after the other |
| DocumentTexts.PageViews | packages/data/inflector_data/document_text.py:235-288 | the loop with its expected start returns the pages exactly when the map is readable |
| DocumentTexts.ReaderPagesPlain | packages/data/inflector_data/document_text.py:259-287 | every text the reader returns has pages with 0 <= start <= end |
| DocumentTexts.ReaderPagesCoherentIff | packages/data/inflector_data/business_event_detection.py:412-440 | of a map the reader accepts, detection's page check asks only one thing more: a separator between each page and the next |
| DocumentTexts.ReaderTextsReadBack | packages/data/inflector_data/business_event_pit.py:173-311 | over texts the reader supplies, every event a successful call returns is accepted by the event reader |
| DocumentTexts.ReaderText | packages/data/inflector_data/document_text.py:103-144 | the text of a document: the one row of its extraction on an accepted asset, the stored object's text under its digest and length, and its pages from one, each with its part of the text; available when the document is |
| DocumentTexts.ReaderNothing | packages/data/inflector_data/document_text.py:103-144 | nothing is returned if and only if no row is the document's under that extractor identity |
| Quantities.FactRepository.AddDerivation | packages/database/inflector_database/business_event_quantitative_repository.py:100-124 | adds the derivation under a fresh id, or changes nothing when the identity or the fingerprint is taken |
| Quantities.FactRepository.AddFact | packages/database/inflector_database/business_event_quantitative_repository.py:126-170 | adds the fact under a fresh id, or changes nothing when the fingerprint is taken |
| Quantities.Service.CollectOne | packages/data/inflector_data/business_event_quantitative.py:110-123 | one evidence span: refused exactly when its source text, excerpt or a match is; otherwise its facts enter the dictionary, and `QuantityComplete.FactIff` says which facts these are |
| Quantities.Service.Collect | packages/data/inflector_data/business_event_quantitative.py:108-123 | all spans: refused exactly when one of them is |
| Quantities.Service.Persist | packages/data/inflector_data/business_event_quantitative.py:158 | facts stored one by one; a violated key stops the loop with the earlier rows stored |
| Quantities.Service.Derive | packages/data/inflector_data/business_event_quantitative.py:92-159 | the whole call: result and new store equal the specification on the old store, also when it raises; what the reader then returns is said match by match in `QuantityComplete.MatchesReadBack` |
| QuantityReading.ReadFacts | packages/data/inflector_data/business_event_quantitative_pit.py:76-179 | the reader's sort-and-check loop returns exactly the specified view, None or error |
| QuantityReading.EvidenceFound | packages/data/inflector_data/business_event_quantitative_pit.py:110-138 | each piece of evidence of an event that was read is found again by its id, and its row belongs to the event |
| QuantityReading.FactsMembers | packages/data/inflector_data/business_event_quantitative.py:108-125 | the deduplicated facts have pairwise different fingerprints and each stands for an accepted match of some evidence |
| QuantityReading.CandidateAccepted | packages/data/inflector_data/business_event_quantitative_pit.py:129-157 | the reader accepts every candidate under whatever id it is stored |
| QuantityReading.ReusableHolds | packages/data/inflector_data/business_event_quantitative.py:415-452 | the reuse check accepts exactly the derivations whose stored facts are the candidates, each once, under ids |
| QuantityReading.DerivedHolds | packages/data/inflector_data/business_event_quantitative.py:92-159 | a successful call, writing or reusing, leaves the derivation in the store with exactly the reported facts |
| QuantityReading.DerivedReadsBack | packages/data/inflector_data/business_event_quantitative_pit.py:76-179 | after a successful derivation the reader returns it for the same event: same id, fingerprint and codes, and exactly the reported facts |
| QuantityReading.DerivedQuotesSource | packages/data/inflector_data/business_event_quantitative.py:319-335 | every fact read back equals the source text at its absolute offsets, inside its evidence span, which for a document is inside one page |
| QuantityReading.SourceIsExtractedText | packages/data/inflector_data/business_event_quantitative.py:258-277 | the text a document span is checked against is the text its extraction's digest was taken of |
| QuantityReading.ReplayReuses | packages/data/inflector_data/business_event_quantitative.py:141-159 | after a successful call the same call at any later time succeeds, leaves the store unchanged, and reports the same derivation and the same facts as a multiset, nothing created |
| QuantityReading.FactFingerprintDetermines | packages/data/inflector_data/business_event_quantitative.py:338-384 | a fact fingerprint determines the fact, the digits its values were written in, its event, its evidence and the ruleset, as long as the digests do not collide on the two facts compared |
| QuantityReading.ReplayMayReorder | packages/database/inflector_database/business_event_quantitative_repository.py:84-95 | a capacity_before and a capacity_after fact come back in the opposite order on replay: the repository sorts by code text, the writer by fact order |
| QuantityReading.DecimalTextReads | packages/data/inflector_data/business_event_quantitative.py:580-581 | the text a decimal is fingerprinted by reads back as its number |
| QuantityComplete.FactIff | packages/data/inflector_data/business_event_quantitative.py:108-125 | with collision-free digests the facts of a call are exactly those of the matches the rules find in the event's evidence |
| QuantityComplete.MatchesReadBack | packages/data/inflector_data/business_event_quantitative.py:108-159 | after a successful derivation the reader returns, for every match in every evidence of the event, a fact with that evidence and every field of the match (code, kind, rule, absolute span, text, reported value, scale, unit and currency, normalized value and unit, date, warnings) and a fingerprint over them; no other fact, none twice, in reading order, with the codes they carry |
| QuantityComplete.DerivedOnlyAdds | packages/data/inflector_data/business_event_quantitative.py:141-158 | a successful call writes exactly when no derivation of the event under the ruleset was stored: then one derivation with facts of its own, otherwise nothing |
| QuantityComplete.DerivedUnique | packages/database/inflector_database/business_event_quantitative_repository.py:126-170 | deriving keeps the facts' fingerprints pairwise different |
| QuantityComplete.ReadVouched | packages/data/inflector_data/business_event_quantitative_pit.py:110-179 | whatever is stored, the reader returns only compatible facts that quote an excerpt of the event's evidence inside its span, under the codes they carry |
| Announcements.Scan | packages/data/inflector_data/announcement_pit.py:137-140 | the `setdefault` scan keeps the first row of each external id, in order |
| Announcements.ReadViews | packages/data/inflector_data/announcement_pit.py:152 | views in order; the first that raises ends the read |
| Announcements.ReadList | packages/data/inflector_data/announcement_pit.py:125-152 | the list read computes the specified result, errors included |
| Announcements.SelectedIsLatest | packages/data/inflector_data/announcement_pit.py:82-87 | the point read selects a row if and only if no visible row of the same external id precedes it by (availability, revision, ingestion, id) |
| Announcements.NoneSelected | packages/data/inflector_data/announcement_pit.py:82-87 | it selects nothing if and only if no visible row has the id |
| Announcements.ScanKeepsLatest | packages/data/inflector_data/announcement_pit.py:137-140 | the scan keeps exactly the latest row of each external id |
| Announcements.ListedIsSelected | packages/data/inflector_data/announcement_pit.py:137-152 | a row is listed if and only if it is its id's selected row and passes the filters; once per id, in revision order |
| Announcements.ListAgreesWithPoint | packages/data/inflector_data/announcement_pit.py:72-152 | the list read returns exactly the point reads that pass the filters, once per external id, in revision order |
| Announcements.ListRaisesIff | packages/data/inflector_data/announcement_pit.py:125-152 | the list read raises if and only if the range is inverted or a selected row that passes the filters has no view |
| Announcements.OnlyVisibleRowsMatter | packages/data/inflector_data/announcement_pit.py:175-194 | nothing but the visible rows and the accepted documents of the latest of them matters to either read: not other rows, not their documents, not the order of rows or documents |
| Announcements.LaterIngestionInvisible | packages/data/inflector_data/service.py:922-955 | ingesting an announcement that becomes available after the cutoff, with its documents, changes no read at the cutoff |
| Announcements.ShownDocuments | packages/data/inflector_data/announcement_pit.py:219-263 | a view shows exactly the accepted documents attached to its row |
| Announcements.KnownIff | packages/data/inflector_data/announcement_pit.py:219-263 | what a point read shows was all available at the cutoff if and only if every accepted document attached to the selected row was; the read itself does not check documents |
| Announcements.IngestedNeverAhead | packages/data/inflector_data/service.py:941-949 | when documents carry their announcement's availability, as ingestion writes them, neither read shows anything from after the cutoff |
| Announcements.LateDocumentShown | packages/data/inflector_data/announcement_pit.py:219-263 | otherwise a read does show a document from after the cutoff |
| Announcements.CorrectionWithdraws | packages/data/inflector_data/announcement_pit.py:141-173 | filters apply after selection: a correction that no longer passes them withdraws every older revision |
| AnnouncementLaws.PointLaw | packages/data/inflector_data/announcement_pit.py:72-87 | the point read of an id shows every field of the known row that no known row of the id follows by availability, revision (or availability), ingestion and id, nothing exactly when there is none, and raises exactly when that row or an accepted document of it is foreign |
| AnnouncementLaws.ListLaw | packages/data/inflector_data/announcement_pit.py:125-194 | the list read shows, latest first, every field of exactly the latest known rows that pass the company, security and date bounds; a row without a date passes only without bounds |
| AnnouncementLaws.ListRaises | packages/data/inflector_data/announcement_pit.py:125-152 | it raises if and only if the dates are inverted or such a row cannot be shown |
| AnnouncementLaws.ViewLaw | packages/data/inflector_data/announcement_pit.py:196-263 | a view has every field of its row and the accepted documents attached to it, each once, by role and then id |
| AttentionPit.GroupBy | packages/data/inflector_data/attention_pit.py:88-107 | filling a dictionary of lists groups the rows by identity, in row order |
| AttentionPit.PickLatest | packages/data/inflector_data/attention_pit.py:203-210 | one row per group by the timestamps: no row of the group is available later, or as late and revised later (an unrevised row when it became available), or as late with a lesser id; None exactly when two such latest rows say different things |
| AttentionPit.ChooseEach | packages/data/inflector_data/attention_pit.py:88-116 | latest row of every group, or the ambiguity error |
| AttentionPit.Read | packages/data/inflector_data/attention_pit.py:77-116 | the two-stage loop computes the declarative result over the timestamps, order and error included |
| AttentionPit.LatestIsWinner | packages/data/inflector_data/attention_pit.py:203-210 | the row chosen in a group is the winner by those timestamps, and None means that two latest rows disagree |
| AttentionPit.WinnersAreChosen | packages/data/inflector_data/attention_pit.py:88-116 | keeping the latest of each group finds exactly the winners, each once |
| AttentionPit.ReturnedIff | packages/data/inflector_data/attention_pit.py:77-116 | a row is returned if and only if it is accepted, of the provider and available at the cutoff; no such row of its record is available later, or as late and revised later, or tied with a lesser id; its fields are those of the declared series; and the same holds among such rows of its measurement (window or date) |
| AttentionPit.OnlyVisibleRowsMatter | packages/data/inflector_data/attention_pit.py:77-116 | row order and rows that are unavailable at the cutoff or not accepted change neither the rows, their order nor the error |
| AttentionPit.CorrectionWithdraws | packages/data/inflector_data/attention_pit.py:88-107 | a correction that is known at the cutoff withdraws every row of its record that was available before it, also when the correction leaves the series |
| AttentionPit.OneRowPerMeasurement | packages/data/inflector_data/attention_pit.py:257-272 | one measurement is returned at most once |
| AttentionPit.ShownInOrder | packages/data/inflector_data/attention_pit.py:274-280 | the rows of a series come in time order: windows by start and end, snapshots by date, each once |
| AttentionPit.DisputedIff | packages/data/inflector_data/attention_pit.py:203-228 | the read of a declared series raises for an ambiguous record if and only if two equally latest known rows of one record differ in what they say, and for an ambiguous measurement if and only if two such latest records of one measurement do |
| AttentionPit.ShownRow | packages/data/inflector_data/attention_pit.py:229-249 | every returned row is visible, in the series and valid |
| AttentionPit.WindowNeverAmbiguous | packages/data/inflector_data/attention_pit.py:118-153 | the `ambiguous` error of the exact-window read cannot happen; it fails only as the series read does |
| AttentionPit.SnapshotNeverAmbiguous | packages/data/inflector_data/attention_pit.py:155-201 | nor can that of the latest-snapshot read, nor a maximum over no dates |
| AttentionPit.LatestDate | packages/data/inflector_data/attention_pit.py:189-201 | the greatest date of a collection, None only for an empty one |
| AttentionFeatures.ReaderRowsCoherent | packages/data/inflector_data/attention_features.py:314-427 | everything the assembler re-checks of the reader's rows already holds |
| AttentionFeatures.AssemblerFailsOnlyOnReads | packages/data/inflector_data/attention_features.py:93-192 | past the mode and window checks the assembler fails if and only if a series read fails: its own validation errors are dead code |
| AttentionLaws.FeaturesLaw | packages/data/inflector_data/attention_features.py:93-305 | each feature from the row its read returned: the count if its coverage is complete and otherwise its coverage as warning, the window's length and its age at the cutoff as rounded days, the snapshot's age in calendar days |
| LowMarketAttention.Collection.CollectNews | packages/core/inflector_core/low_market_attention_scoring.py:188-231 | the news subfactor: skipped, blocked with its gate warnings, or entered; the rest of the collection unchanged |
| LowMarketAttention.Collection.CollectAnalyst | packages/core/inflector_core/low_market_attention_scoring.py:233-267 | the analyst subfactor, likewise |
| LowMarketAttention.Score | packages/core/inflector_core/low_market_attention_scoring.py:125-186 | the scorer computes the specified component or the first objection |
| LowMarketAttention.AssembledBundleAccepted | packages/core/inflector_core/low_market_attention_scoring.py:293-325 | every bundle the assembler returns for a policy-aligned request passes the scorer's validation |
| LowMarketAttention.DurationGateDeadIff | packages/core/inflector_core/low_market_attention_scoring.py:203-219 | for those bundles a present news window is less than a day old, and the duration gate cannot fire if and only if the policy's duration survives the conversion to microseconds and back; the staleness gate cannot fire when the policy allows a day |
| LowMarketAttention.ExactDurationKept | packages/core/inflector_core/scoring_policy.py:506-518 | a duration that is exactly a whole number of microseconds and has at most 28 digits survives |
| LowMarketAttention.LongThirdNotKept | packages/core/inflector_core/low_market_attention_scoring.py:518-525 | 0.333...3 with 29 threes passes the validators and does not survive: the gate then blocks every window of the required length |
| LowMarketAttention.ComponentInRange | packages/core/inflector_core/low_market_attention_scoring.py:140-186 | an accepted bundle is scored, has a score if and only if coverage reaches the minimum, and the score is in 0..100 |
| LowMarketAttention.AlignedRequestScores | packages/core/inflector_core/low_market_attention_scoring.py:125-186 | end to end: over any table whose series reads succeed an aligned request is assembled, accepted and scored in range |
| LowMarketAttention.LessAttentionNeverScoresLower | packages/core/inflector_core/low_market_attention_scoring.py:188-267 | fewer mentions and fewer analysts never score lower at fixed availability |
| AttentionLaws.ComponentLaw | packages/core/inflector_core/low_market_attention_scoring.py:125-290 | each count is skipped at weight zero, reported with its own warning exactly when it is unknown, over a window of another length, or older than the policy allows, and otherwise scored on its own curve at minus its value; the score is the sum of the contributions, on enough weight |
| AttentionLaws.AcceptedBundle | packages/core/inflector_core/low_market_attention_scoring.py:293-517 | a bundle is scored only for the policy's own series and level, over a window that ends at the midnight at or before the cutoff and is as long as the policy asks, with features that retain the rows they state |
| CatalystFeatures.EventTimeRevenue | packages/data/inflector_data/business_event_features.py:360-397 | a selected revenue is coherent with the request, positive unless a warning says otherwise, and absent only with a warning |
| CatalystFeatures.ComputeCapacityChange | packages/data/inflector_data/business_event_features.py:466-517 | the running warning and list of rounded calculations compute the specified ratio or warning |
| CatalystFeatures.CapacityChangeDefined | packages/data/inflector_data/business_event_features.py:476-507 | a capacity ratio exists if and only if the baseline is positive, nothing conflicts, a change is usable, each usable one grows the baseline, and of two the half-even neighbour of after/before is one more than the rounded additional/before; it is never negative, and positive if and only if an additional capacity is usable or the expansion exceeds half of the 27th decimal of the baseline |
| CatalystFeatures.ConsistentChangeDefined | packages/data/inflector_data/business_event_features.py:495-506 | when after = before + additional a ratio exists if and only if the rounded growth has no digit beyond the last of the 28 digits of after/before |
| CatalystFeatures.ZeroIffVanishes | packages/data/inflector_data/business_event_features.py:489-507 | the ratio is zero if and only if only the pair is usable and expands the baseline by no more than that half digit |
| CatalystFeatures.RoundingDecides | packages/data/inflector_data/business_event_features.py:495-506 | 3 to 4 by 1 is reported as conflicting, 3 to 4 by 0.999...9 with 27 nines is accepted, 10^28 to 10^28 + 1 gives a zero ratio without a warning |
| CapacityGrowth.AgreeIff | packages/data/inflector_data/business_event_features.py:495-505 | for all inputs the two rounded quotients agree if and only if the half-even neighbour of after/before in its 28th digit is one more than the rounded additional/before (or equal to it, once a one no longer shows) |
| CapacityGrowth.ConsistentAgreeIff | packages/data/inflector_data/business_event_features.py:495-505 | for after = before + additional below 10^27 baselines, the quotients agree if and only if the rounded growth is a whole number of last places of after/before |
| CapacityGrowth.SmallGrowthAgreesIff | packages/data/inflector_data/business_event_features.py:495-505 | a growth below 100% that adds up is accepted if and only if the rounded growth has at most 27 decimals |
| CapacityGrowth.TerminatingGrowthAgrees | packages/data/inflector_data/business_event_features.py:495-505 | in particular every growth below 100% that itself has at most 27 decimals is |
| CapacityGrowth.MinusOne | packages/data/inflector_data/business_event_features.py:495 | taking one from a rounded quotient is exact up to 10^28 and changes nothing beyond |
| CapacityGrowth.GrowthPositiveIff | packages/data/inflector_data/business_event_features.py:495 | the growth of a pair is positive if and only if it exceeds half of the 27th decimal, else zero |
| Decimals.RoundIff | packages/core/inflector_core/score_audit.py:13-16 | a result under the decimal context is the half-even neighbour with 28 digits, and the only one |
| Decimals.Representable | packages/core/inflector_core/score_audit.py:13-16 | a number of at most 28 digits is returned as it is |
| CatalystFeatures.ResolvedMeansAgreement | packages/data/inflector_data/business_event_features.py:545-597 | an observation resolves if and only if there are facts under its code and all agree; its value, unit and currency are theirs |
| CatalystFeatures.MaterialityFrozen | packages/data/inflector_data/business_event_features.py:157-292 | at any later cutoff the assembler succeeds with the same values, warnings, availability and evidence; only the age differs |
| CatalystFeatureLaws.RevenueLaw | packages/data/inflector_data/business_event_features.py:360-397 | the revenue is the one with the strictly latest period end; the three warnings are for no revenue, a tie of the latest, and one that is not positive |
| CatalystFeatureLaws.FeaturesLaw | packages/data/inflector_data/business_event_features.py:157-290 | which facts feed which feature of which event type: a monetary ratio is the rounded quotient of the rupee amount all facts under its code state and that revenue, or has one warning that says why not; growth of capacity, stake; the others do not apply |
| CatalystFeatureLaws.BundleLaw | packages/data/inflector_data/business_event_features.py:260-292 | the bundle carries the event's fields and the selected revenue; its age in days is the time from the event's availability to the cutoff, which is not before it |
| CatalystScoring.ValidateEvidence | packages/core/inflector_core/business_catalyst_scoring.py:126-166 | the validation loop accepts exactly the coherent event sets |
| CatalystScoring.ScoreEvent | packages/core/inflector_core/business_catalyst_scoring.py:238-343 | the step-by-step event score equals its specification, which `CatalystLaws.EventScoreLaw` pins |
| CatalystScoring.Score | packages/core/inflector_core/business_catalyst_scoring.py:168-220 | the component is computed exactly for coherent sets and equals its specification, which `CatalystLaws.ComponentListsScores` and `CatalystLaws.ComponentReportsBest` pin |
| CatalystScoring.EventScoreInRange | packages/core/inflector_core/business_catalyst_scoring.py:238-343 | an event score is in 0..100: the range assertion cannot fire |
| CatalystScoring.SelectedIsMaximum | packages/core/inflector_core/business_catalyst_scoring.py:222-235 | the selected event beats every other scored event by (score, newer source, lower type rank, lower id); None only when nothing is scored |
| CatalystScoring.SelectionUnique | packages/core/inflector_core/business_catalyst_scoring.py:222-235 | there is at most one such event |
| CatalystScoring.ComponentSelectsBest | packages/core/inflector_core/business_catalyst_scoring.py:168-220 | the component reports that event's id, type and score |
| CatalystScoring.EvidenceOrderIrrelevant | packages/core/inflector_core/business_catalyst_scoring.py:168-220 | any order of the same evidence gives the same ordered scores and the same selection |
| CatalystScoring.AddingEventsNeverLowers | packages/core/inflector_core/business_catalyst_scoring.py:168-220 | adding compatible events never lowers the component (None below every score) |
| CatalystScoring.AssembledBundleAcceptedIff | packages/core/inflector_core/business_catalyst_scoring.py:346-405 | for every event type and fact pattern the assembled bundle passes the scorer's bundle checks at the same cutoff, if and only if it is not an expansion whose ratio is zero under the decimal context |
| CatalystScoring.EventScoreDecays | packages/core/inflector_core/business_catalyst_scoring.py:238-343 | waiting never raises an event's score; a score that is gone stays gone |
| CatalystScoring.CoherenceKept | packages/core/inflector_core/business_catalyst_scoring.py:126-166 | a coherent event set stays coherent as the cutoff moves |
| CatalystScoring.ComponentDecays | packages/core/inflector_core/business_catalyst_scoring.py:168-220 | for a fixed event set and policy, waiting never raises the component |
| CatalystLaws.EventScoreLaw | packages/core/inflector_core/business_catalyst_scoring.py:238-343 | a score exists if and only if the type is one of the four, the age is at most the maximum and the type's ratio is known; then score x 100 = strength x recency, recency is on the recency curve at minus the age, and strength is, type by type, on the order curve at the order ratio, on the capacity curve at the capacity ratio, or the base score |
| CatalystLaws.EventWarnings | packages/core/inflector_core/business_catalyst_scoring.py:247-309 | exactly which warnings an event score carries |
| CatalystLaws.DecaysWithRecency | packages/core/inflector_core/business_catalyst_scoring.py:313-317 | read at two cutoffs, an event with positive strength scores strictly lower if and only if its recency is strictly lower |
| CatalystLaws.ComponentListsScores | packages/core/inflector_core/business_catalyst_scoring.py:186-201 | the component lists the score of each event and no other, by type, availability and id |
| CatalystLaws.ComponentReportsBest | packages/core/inflector_core/business_catalyst_scoring.py:202-235 | its score, id and type are those of the one listed event that beats all others; there is none if and only if no event has a score |
| CatalystLaws.CoherentMeans | packages/core/inflector_core/business_catalyst_scoring.py:126-166 | an accepted event set is not empty, its events are different, of one company, provider, scope, cutoff and security, and each has the pinned identities, materiality at event time, and features stated only where they apply and in their range |
| Curves.ScorePiecewiseLinear | packages/core/inflector_core/component_scoring.py:41-61 | the scan always returns, for every validated curve and input: the trailing raise is dead |
| Curves.AnySegmentAgrees | packages/core/inflector_core/component_scoring.py:41-61 | every segment that contains the input gives the curve's value, so the pieces join up |
| Curves.ScoreBounds | packages/core/inflector_core/component_scoring.py:41-61 | the score lies between the first and the last score of the curve, in 0..100 |
| Curves.ScoreAtBreakpoint | packages/core/inflector_core/component_scoring.py:41-61 | at a breakpoint the score is the breakpoint's |
| Curves.ScoreMonotone | packages/core/inflector_core/scoring_policy.py:154-166 | a larger input never scores lower, across segments and both clamps |
| Curves.ScoreOnCurve | packages/core/inflector_core/component_scoring.py:41-61 | a value is the score of an input if and only if it lies on the straight line between the breakpoints around it, or on the flat ends |
| WeightedMean.ScoreIsMean | packages/core/inflector_core/component_scoring.py:146-195 | a covered component is the exact weighted mean of its factors' scores |
| WeightedMean.EffectiveWeightsSumToOne | packages/core/inflector_core/component_scoring.py:197-216 | the effective weights of a covered component sum to one |
| WeightedMean.ScoreBetween | packages/core/inflector_core/component_scoring.py:146-195 | a score exists if and only if available weight reaches the minimum, and lies between the least and greatest score that carries weight |
| WeightedMean.ScoreMonotone | packages/core/inflector_core/component_scoring.py:146-195 | at fixed availability higher factor scores never lower the mean |
| WeightedMean.NewFactorPulls | packages/core/inflector_core/component_scoring.py:146-195 | a newly available factor moves a covered score toward its own score, never past it |
| Subfactors.ScoreInRange | packages/core/inflector_core/component_scoring.py:146-195 | the assembled component has a score if and only if coverage suffices, and it is in 0..100 |
| Subfactors.StrongerSignals | packages/core/inflector_core/component_scoring.py:146-216 | stronger signals on the same subfactors never lower the component |
| Subfactors.AssembleLaw | packages/core/inflector_core/component_scoring.py:146-216 | each input is scored on its own curve with weight over available weight as its share; the score is the sum of the contributions and exists if and only if the available weight reaches the minimum |
| Valuation.Score | packages/core/inflector_core/valuation_scoring.py:122-202 | the loop over the configured codes, with its dictionary and list, computes the specified component |
| Valuation.WeightConserved | packages/core/inflector_core/valuation_scoring.py:134-202 | available weight plus the weight reported missing is the whole configured weight |
| Valuation.CheaperNeverScoresLower | packages/core/inflector_core/valuation_scoring.py:134-228 | a lower multiple never lowers the valuation component |
| Valuation.ComponentLaw | packages/core/inflector_core/valuation_scoring.py:134-228 | in the fixed order each known multiple with a weight is scored on its own curve at minus its value, each unknown one is reported with its warnings; the score is the sum of the contributions |
| ForwardOutcomes.LaterDataChangesNothing | packages/data/inflector_data/backtest_outcomes.py:55-173 | once a horizon has its exit bar, appended bars, other benchmark dates, actions outside the interval and later listing data never change the outcome |
| ForwardOutcomes.PriceBasisIrrelevant | packages/data/inflector_data/backtest_outcomes.py:55-173 | rescaling all closes by a positive factor rescales the two prices and leaves status, dates and returns unchanged; what the returns are is said in `OutcomeLaws.SecurityReturn` and `OutcomeLaws.BenchmarkReturn` |
| ForwardOutcomes.ExitDatesIncrease | packages/data/inflector_data/backtest_outcomes.py:69-105 | exit dates strictly increase with the horizon and are after the cutoff's day |
| ForwardOutcomes.UnsupportedPersists | packages/data/inflector_data/backtest_outcomes.py:105-128 | an unsupported action state is inherited by every longer horizon that has an exit |
| ForwardOutcomes.ShortfallPersists | packages/data/inflector_data/backtest_outcomes.py:82-104 | a horizon without an exit leaves every longer horizon without one, under the same status |
| OutcomeLaws.SecurityReturn | packages/data/inflector_data/backtest_outcomes.py:105-173 | with the first bar of the entry id, the horizon-th bar after the cutoff's day, no uncovered action and a positive entry price, entry x (1 + return) = exit; dates, prices and provenance are those bars' |
| OutcomeLaws.BenchmarkReturn | packages/data/inflector_data/backtest_outcomes.py:132-172 | the benchmark return exists if and only if both dates have a bar and the first is positive; it solves the same equation with the last bar of each date, excess + benchmark = security, and the status is available exactly then and security-only otherwise |
| OutcomeLaws.UncoveredOutcome | packages/data/inflector_data/backtest_outcomes.py:105-128 | unsupported if and only if a rights issue or security replacement is anchored after entry and not after exit; then no return, and those actions in order |
| OutcomeLaws.NonPositiveOutcome | packages/data/inflector_data/backtest_outcomes.py:129-130 | without such an action the status is non-positive entry if and only if the entry price is not positive, and nothing else is reported |
| OutcomeLaws.ShortOutcomeLaw | packages/data/inflector_data/backtest_outcomes.py:82-104 | with fewer bars after the cutoff's day than the horizon: delisted if and only if the listing's end lies after that day and not after the data's day, else insufficient history |
| OutcomeLaws.NoEntryOutcome | packages/data/inflector_data/backtest_outcomes.py:70-81 | without an entry bar, or with one the series lacks, the outcome says that and nothing else |
| OutcomeLaws.OutcomeCases | packages/data/inflector_data/backtest_outcomes.py:68-105 | these are all the cases of a positive horizon |
| BacktestBuild.Session.Commit | packages/data/inflector_data/backtest_outcomes.py:280-291 | a commit makes the working state durable and records it |
| BacktestBuild.Session.Store | packages/database/inflector_database/backtest_repository.py:172-201 | one outcome: an equal stored row is reused, a different one refused, otherwise it is appended; then counted |
| BacktestBuild.Session.StoreAll | packages/data/inflector_data/backtest_outcomes.py:217-279 | all outcomes of one observation, in horizon order |
| BacktestBuild.Session.FreezeCutoff | packages/database/inflector_database/backtest_repository.py:203-209 | the data cutoff is set once; another value is refused and changes nothing |
| BacktestBuild.Session.SetStatus | packages/database/inflector_database/backtest_repository.py:211-233 | the status changes only along the lifecycle's transitions; otherwise nothing changes |
| BacktestBuild.Session.ObserveAll | packages/data/inflector_data/backtest_outcomes.py:213-280 | the loop commits after each observation: durable states, working state and counts equal the specified trace, also when it raises |
| BacktestBuild.Session.BuildOutcomes | packages/data/inflector_data/backtest_outcomes.py:176-300 | a whole attempt: its result and the sequence of durable states equal the specification; the rows and counts it leaves are pinned in `BacktestLaws.StoredRows` and `BacktestLaws.AttemptReports` |
| BacktestBuild.AddOutcomesCompletes | packages/data/inflector_data/backtest_outcomes.py:249-279 | storing an observation's outcomes completes its rows and counts every outcome once, whether stored before or not |
| BacktestBuild.LoopCompletes | packages/data/inflector_data/backtest_outcomes.py:213-280 | from an atomic state the loop cannot fail and every state it commits is atomic again |
| BacktestBuild.AttemptFinishes | packages/data/inflector_data/backtest_outcomes.py:176-300 | an uninterrupted attempt from any state whose rows are current ends with exactly the expected rows, and created + reused = the three status counts together = observations x horizons; every earlier commit is resumable |
| BacktestLaws.StoredRows | packages/data/inflector_data/backtest_outcomes.py:213-248 | a finished run holds one row per observation and horizon, in order: the outcome computed from prices and benchmark at the data cutoff, the entry bar and the earliest covering listing end at the observation's own cutoff; unavailable without a research snapshot |
| BacktestLaws.StoredReturn | packages/data/inflector_data/backtest_outcomes.py:131-172 | the stored return of an observation solves entry x (1 + return) = exit over the prices at the data cutoff |
| BacktestLaws.ListingEndLaw | packages/data/inflector_data/backtest_outcomes.py:319-334 | the earliest end of the main-exchange listings that cover the day, None if none has one |
| BacktestLaws.AttemptReports | packages/data/inflector_data/backtest_outcomes.py:272-300 | the reported counts are the numbers of stored rows of each status; created are exactly the rows of the observations that had none |
| BacktestLaws.CommitsInOrder | packages/data/inflector_data/backtest_outcomes.py:213-280 | an attempt commits after each observation, taken by knowledge cutoff, symbol and id: after the k-th commit the run holds rows of what it held before and of the first k observations |
| BacktestResume.EndShows | packages/data/inflector_data/backtest_outcomes.py:82-104 | a listing's end shows in an outcome if and only if its horizon has no exit |
| BacktestResume.AtomicIff | packages/data/inflector_data/backtest_outcomes.py:237-248 | stored rows are those a build would now write if and only if no stored horizon without an exit names another listing end |
| BacktestResume.ObserveConflicts | packages/database/inflector_database/backtest_repository.py:181-184 | an observation stored under another listing end that shows makes the attempt raise the conflict |
| BacktestResume.ResumeIff | packages/data/inflector_data/backtest_outcomes.py:192-300 | an attempt succeeds if and only if no stored horizon without an exit has a changed listing end; it fails only with that conflict, commits only states that can be taken up again, and never alters a stored row |
| BacktestResume.InterruptionsKeep | packages/data/inflector_data/backtest_outcomes.py:192-300 | after any number of attempts stopped at any commit, each under the listings of its moment, the run can be taken up again or is finished, and no stored row has changed |
| BacktestResume.ResumedEqualsUninterrupted | packages/data/inflector_data/backtest_outcomes.py:192-300 | after any such run one more attempt succeeds if and only if those listing ends are unchanged, and then leaves the rows, status, cutoff and status counts of an uninterrupted build under the same listings |
| BacktestResume.FinishedLikeUninterrupted | packages/data/inflector_data/backtest_outcomes.py:192-300 | however it got there, a finished run holds what an uninterrupted build under its last listings leaves |
| BacktestResume.SymbolChangeEndsListing | packages/database/inflector_database/ingestion_repository.py:655-673 | a symbol change gives a security with one open listing an end where it had none |
| BacktestResume.ListingChangeBlocks | packages/data/inflector_data/backtest_outcomes.py:319-334 | an attempt stopped after its first observation, one of whose horizons has no exit, cannot be resumed once that listing's end has changed |
| BacktestResume.StaysBlocked | packages/data/inflector_data/backtest_outcomes.py:249-272 | nor can any later attempt while the end stays changed |
| BacktestResume.SymbolChangeBlocks | packages/data/inflector_data/backtest_outcomes.py:319-334 | a concrete plan whose run is blocked by a symbol change between two attempts |
| BacktestBuild.FinishedReportsAgain | packages/data/inflector_data/backtest_outcomes.py:361-374 | a later call on a finished run changes nothing and reports the same three status counts, none created |
| BacktestBuild.FinishedUnique | migrations/versions/20261003_0018_historical_backtesting.py:132-136 | two finished runs of one plan and cutoff hold the same rows, one per observation and horizon |
| BacktestBuild.OtherCutoffRefused | packages/database/inflector_database/backtest_repository.py:203-209 | once an observation is durable an attempt at another data cutoff changes nothing |
| ScoreAudit.CanonicalReadsBack | packages/core/inflector_core/score_audit.py:13-16 | reading a canonical decimal text back gives the value rounded half-even to 28 digits, and the value itself when it has no more |
| ScoreAudit.RoundedIsContextRound | packages/core/inflector_core/score_audit.py:16 | rounding the digits of a decimal is the decimal context's rounding of its number |
| ScoreAudit.CanonicalTextIff | packages/core/inflector_core/score_audit.py:13-16 | two decimals share a text if and only if they are numerically equal after that rounding |
| ScoreAudit.StrippedUnique | packages/core/inflector_core/score_audit.py:16 | a coefficient without trailing zero and its exponent are determined by the number |
| ScoreAudit.FixedRead | packages/core/inflector_core/score_audit.py:16 | fixed-point notation, leading and trailing zeros included, reads back as the same number |
| ScoreAudit.CanonicalIsCanonical | packages/core/inflector_core/score_audit.py:19-44 | what the conversion returns is made of JSON values whose mappings have strictly increasing keys |
| ScoreAudit.CanonicalIdempotent | packages/core/inflector_core/score_audit.py:19-44 | converting a converted value changes nothing |
| ScoreAudit.CanonicalKeeps | packages/core/inflector_core/score_audit.py:35-41 | of a list every item is kept in its place, of a mapping the converted last value under each key and no other; it fails exactly where a part does |
| ScoreAudit.CanonicalLeaf | packages/core/inflector_core/score_audit.py:22-44 | what each single value becomes: a decimal a text that reads back as its rounded value, identifiers and times their ISO texts, texts, numbers and truth values themselves; anything else is refused |
| ScoreAudit.InsertionOrderIrrelevant | packages/core/inflector_core/score_audit.py:35-39 | with distinct key texts the insertion order of a mapping does not matter |
| Sorting.StrictOrderUnique | packages/data/inflector_data/business_event_detection.py:160 | a strict order on the same elements is one sequence: sorting by a total key forgets the input order |

## Left out

- SQLAlchemy sessions, queries and JSON columns: rows are sequences with the filters the code states; a JSON page map holds integers.
- Regular expressions of the two rule engines: a ruleset is any function, so the theorems hold for every engine.
- Detection.Service.Detect: does not say which exception is raised nor its message, only that the call raises and what is stored by then; every refusal is one outcome.
- CatalystScoring.Score: likewise says when it raises, not which of the messages; the component's own `available_at` and security and its constant result fields are not modelled.
- BacktestResume.ResumedEqualsUninterrupted: does not model that stored decimals pass through a `Numeric(50, 28)` column, so an equal recomputed outcome is assumed to compare equal to its stored row.
- BacktestBuild.Session.BuildOutcomes: does not model the checksum bindings of a run, the choice of provider datasets, or the provenance fields that are the same for every row.
- ForwardOutcomes.PriceBasisIrrelevant: does not model division rounding at 28 digits.
- OutcomeLaws.SecurityReturn: likewise exact; with rounded quotients the equation holds up to the last of 28 digits. The same goes for OutcomeLaws.BenchmarkReturn and BacktestLaws.StoredReturn.
- CatalystLaws.EventScoreLaw: exact arithmetic in the curves and in the product of strength and recency.
- Subfactors.AssembleLaw: exact shares and contributions, without rounding at 28 digits; so are Valuation.ComponentLaw and AttentionLaws.ComponentLaw.
- CatalystFeatureLaws.BundleLaw: the age is exact, where the code adds three rounded quotients.
- WeightedMean.EffectiveWeightsSumToOne: exact weights; with rounded quotients the sum may differ from one in the last digits.
- QuantityReading.ReplayReuses: does not model that stored decimals pass through a `Numeric(50, 28)` column, so a value with more than 28 decimals is assumed to compare equal to its stored row.
- CatalystScoring.EventScoreDecays: exact arithmetic in the age, the curves and the product of strength and recency.
- Valuation.Score: starts from a bundle that has passed the validation at the head of the source's `score`.
- ScoreAudit.CanonicalReadsBack: exponents beyond the context's limits, infinities and NaN are not modelled.
- ScoreAudit.Canonical: the ISO texts of dates and times and the texts of UUIDs are parameters.
- Text.NotBlank: `strip` removes the ASCII white space only; other Unicode white space is a character here.
- Timezone handling: naive date-times and their refusal are not modelled, every instant is UTC.
- Trailing-twelve-month, price adjustment, corporate action and benchmark readers: functions from their query to their rows, with the fields their callers check.
- The financial inflection extraction and the balance sheet, business quality, cash flow and market structure scorers: the same weighted-mean template over other features.
- FinancialContextPolicyResolver, EligibilityEvaluator and ConfidenceEvaluator: selections and sums over one record each.
- Deriving a quantity does not tie a fact's kind to its code; the feature assembler checks it and raises. The model keeps both as they are.
- Document retrieval, media detection, deployment, operator and backtest command lines, migrations, the HTTP API, the web interface, CSV export and settings: input and output.
