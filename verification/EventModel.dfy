/** Records shared by event detection, quantity derivation, feature assembly and scoring. */
module EventModel {
  import opened Prelude

  const RULESET_CODE := "business_event_rules"
  const RULESET_VERSION := "business_event_rules_v1"
  const QUANT_RULESET_CODE := "business_event_quantitative_rules"
  const QUANT_RULESET_VERSION := "business_event_quantitative_rules_v1"

  datatype EventType =
    | OrderAward | CapacityExpansion | CommercialCommencement
    | CapexAnnouncement | AcquisitionAgreement | RegulatoryApproval
    | UnknownType(name: string)

  const TYPE_ORDER: seq<EventType> :=
    [OrderAward, CapacityExpansion, CommercialCommencement, CapexAnnouncement, AcquisitionAgreement,
     RegulatoryApproval]

  /** Position in TYPE_ORDER. */
  function TypeRank(t: EventType): nat {
    match t
    case OrderAward => 0
    case CapacityExpansion => 1
    case CommercialCommencement => 2
    case CapexAnnouncement => 3
    case AcquisitionAgreement => 4
    case RegulatoryApproval => 5
    case UnknownType(_) => 99
  }

  datatype FactCode =
    | OrderValue | CapexValue | CapacityBefore | CapacityAfter | AdditionalCapacity
    | AcquisitionConsideration | AcquisitionStake | CommencementDate
    | UnknownCode(name: string)

  const FACT_ORDER: seq<FactCode> :=
    [OrderValue, CapexValue, CapacityBefore, CapacityAfter, AdditionalCapacity,
     AcquisitionConsideration, AcquisitionStake, CommencementDate]

  function FactRank(c: FactCode): nat {
    match c
    case OrderValue => 0
    case CapexValue => 1
    case CapacityBefore => 2
    case CapacityAfter => 3
    case AdditionalCapacity => 4
    case AcquisitionConsideration => 5
    case AcquisitionStake => 6
    case CommencementDate => 7
    case UnknownCode(_) => 99
  }

  datatype FactKind = Monetary | Capacity | Fraction | Dated | UnknownKind(name: string)

  /** Which fact codes an event type may carry. */
  function Compatible(t: EventType): set<FactCode> {
    match t
    case OrderAward => {OrderValue}
    case CapexAnnouncement => {CapexValue}
    case CapacityExpansion => {CapacityBefore, CapacityAfter, AdditionalCapacity}
    case AcquisitionAgreement => {AcquisitionConsideration, AcquisitionStake}
    case CommercialCommencement => {CommencementDate}
    case RegulatoryApproval => {}
    case UnknownType(_) => {}
  }

  datatype SourceRecord = SourceRecord(
    id: Uuid, externalRecordId: string, sourceUri: string, rawObjectKey: string,
    rawPayloadReference: Option<string>, contentSha256: string, validation: string)

  datatype Document = Document(
    id: Uuid, companyId: Uuid, securityId: Option<Uuid>, datasetId: Uuid, documentType: string, title: string,
    language: Option<string>, mediaType: Option<string>, uri: string, contentSha256: Option<string>, role: string,
    availableAt: Instant, revisionAt: Option<Instant>, ingestedAt: Instant, source: SourceRecord)

  /** An announcement revision as a point-in-time read selects it. */
  datatype Announcement = Announcement(
    id: Uuid, companyId: Uuid, securityId: Option<Uuid>, datasetId: Uuid, externalRecordId: string,
    category: Option<string>, headline: string, date: Option<Date>, exchange: Option<string>,
    availableAt: Instant, revisionAt: Option<Instant>, ingestedAt: Instant,
    source: SourceRecord, documents: seq<Document>)

  datatype Asset = Asset(
    id: Uuid, documentId: Uuid, contentDigest: Digest, objectKey: string, sizeBytes: int, requestedUri: string,
    resolvedUri: Option<string>, declaredMediaType: Option<string>, detectedMediaType: Option<string>,
    retrievedAt: Instant, status: string, warnings: seq<string>)

  datatype Extraction = Extraction(
    id: Uuid, assetId: Uuid, extractorCode: string, semanticVersion: string, runtimeVersion: string,
    textObjectKey: Option<string>, textDigest: Option<Digest>, characterCount: Option<int>,
    pageCount: Option<int>, status: string, warnings: seq<string>, extractedAt: Instant)

  datatype EvidenceKind = Headline | DocumentText | UnknownEvidence(name: string)

  datatype EvidenceView = EvidenceView(
    id: Uuid, kind: EvidenceKind, document: Option<Document>, asset: Option<Asset>, extraction: Option<Extraction>,
    ruleCode: string, ruleVersion: string, start: int, end: int,
    pageNumbers: seq<int>, pageDigests: seq<Digest>, excerpt: string, excerptDigest: Digest,
    sourceAvailableAt: Instant, fingerprint: Digest)

  /** A detected event together with the announcement revision it was read through. */
  datatype Event = Event(
    id: Uuid, announcement: Announcement, companyId: Uuid, securityId: Option<Uuid>, datasetId: Uuid,
    eventType: EventType, date: Option<Date>, sourceAvailableAt: Instant,
    rulesetCode: string, rulesetVersion: string, matchedRuleCodes: seq<string>, status: string,
    warnings: seq<string>, fingerprint: Digest, derivedAt: Instant, evidence: seq<EvidenceView>)

  datatype Fact = Fact(
    id: Uuid, evidenceId: Uuid, code: FactCode, kind: FactKind, ruleCode: string, ruleVersion: string,
    start: int, end: int, rawText: string, rawTextDigest: Digest,
    reportedValue: Option<real>, reportedScale: Option<string>, reportedUnit: Option<string>,
    reportedCurrency: Option<string>, normalizedValue: Option<real>, normalizedUnit: Option<string>,
    date: Option<Date>, sourceAvailableAt: Instant, warnings: seq<string>, fingerprint: Digest)

  datatype Derivation = Derivation(
    id: Uuid, event: Event, rulesetCode: string, rulesetVersion: string, sourceAvailableAt: Instant,
    availableCodes: seq<FactCode>, warnings: seq<string>, fingerprint: Digest, derivedAt: Instant,
    facts: seq<Fact>)

  /** The codes of FACT_ORDER that some fact carries, in that order. */
  function CodesFrom(codes: set<FactCode>, n: nat): seq<FactCode>
    requires n <= |FACT_ORDER|
    decreases |FACT_ORDER| - n
  {
    if n == |FACT_ORDER| then []
    else (if FACT_ORDER[n] in codes then [FACT_ORDER[n]] else []) + CodesFrom(codes, n + 1)
  }

  function AvailableCodes(codes: set<FactCode>): seq<FactCode> {
    CodesFrom(codes, 0)
  }
}
