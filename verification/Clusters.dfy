/** The clustering engine's data: its inputs, its contract and what it returns. */
module Clusters {
  import opened Texts
  import opened Tokens
  import opened Similarity
  import opened Blocking

  /** One classified row. `tokens` are the tokens of its assembled text and `postedAt` its parsed instant. */
  datatype Input = Input(
    sourceRowId: Text,
    rowHash: Text,
    classificationResultId: Text,
    classificationRunId: Text,
    batchId: Text,
    dataOrigin: Text,
    decision: Text,
    urlGroupId: Option<Text>,
    postedAt: Option<int>,
    tokens: seq<Text>)

  datatype SizeUnit = Rows | DuplicateGroups
  datatype OversizedGroupBehaviour = RejectRun | AdmitAndRecord
  datatype MissingTimestampBehaviour = Allow | KeepSeparate
  datatype ConflictingSignalBehaviour = RecordAmbiguous | LeaveApart
  datatype RepresentativeRule = EarliestThenLowestId | LowestId

  /** The behaviour contract, with the two digests the engine computes as functions of their input. */
  datatype Contract = Contract(
    eligibleDecisions: set<Text>,
    tokenRules: TokenRules,
    measure: Measure,
    syndicationThreshold: real,
    incidentThreshold: real,
    ambiguousMargin: real,
    blocking: BlockingRules,
    minimumSharedDistinctiveTokens: nat,
    minimumSharedRareTokens: nat,
    rareTokenDocumentFrequencyRatio: real,
    timeWindowHours: real,
    missingTimestampBehaviour: MissingTimestampBehaviour,
    conflictingSignalBehaviour: ConflictingSignalBehaviour,
    representativeRule: RepresentativeRule,
    maximumInputs: nat,
    maximumClusterSize: nat,
    clusterSizeUnit: SizeUnit,
    oversizedGroupBehaviour: OversizedGroupBehaviour,
    maximumAmbiguousLinks: nat,
    hash32: Text -> int,
    fingerprintOf: seq<Text> -> Text)

  datatype ReasonCode =
    | SingletonSource
    | ExactUrlDuplicate
    | SyndicatedText
    | SharedIncidentSignals
    | TimeProximity
    | TimestampAbsent
    | AmbiguousBelowThreshold
    | AmbiguousOutsideTimeWindow
    | ClusterBoundReached

  datatype ClusterKind = Singleton | DuplicateGroup | SyndicatedGroup | MultiReportIncident

  datatype ClusterMember = ClusterMember(
    sourceRowId: Text,
    rowHash: Text,
    classificationResultId: Text,
    decision: Text,
    duplicateFingerprint: Text,
    syndicationFingerprint: Text)

  datatype IncidentCluster = IncidentCluster(
    fingerprint: Text,
    kind: ClusterKind,
    reasonCodes: seq<ReasonCode>,
    representativeSourceRowId: Text,
    duplicateGroupCount: nat,
    syndicationGroupCount: nat,
    members: seq<ClusterMember>)

  datatype AmbiguousLink = AmbiguousLink(
    leftFingerprint: Text,
    rightFingerprint: Text,
    reasonCodes: seq<ReasonCode>,
    similarity: real,
    sharedSignals: nat,
    sharedRareSignals: nat)

  datatype Stats = Stats(
    eligibleInputs: nat,
    ineligibleInputs: nat,
    duplicateGroups: nat,
    syndicationGroups: nat,
    incidentClusters: nat,
    singletonIncidents: nat,
    multiSourceIncidents: nat,
    largestClusterSize: nat,
    ambiguousLinks: nat,
    comparisons: nat,
    pairIterations: nat,
    boundsReached: nat)

  datatype Clustering = Clustering(clusters: seq<IncidentCluster>, ambiguousLinks: seq<AmbiguousLink>, stats: Stats)

  /** Why a run produces nothing: an input list refused at the boundary, or a duplicate group over the bound. */
  datatype Refusal =
    | InputBoundExceeded
    | InvalidIdentifier
    | InvalidDecision
    | DuplicateSourceRow
    | MixedProvenance
    | ExactDuplicateGroupExceedsLimit(bound: nat)

  /** An exact-URL duplicate group. */
  datatype Unit = Unit(
    key: Text,
    fingerprint: Text,
    members: seq<Input>,
    representative: Input,
    distinctive: seq<Text>,
    shingleHashes: seq<int>,
    postedAt: Option<int>)

  /** A syndication group: one report, carried by one or more duplicate groups. */
  datatype Report = Report(
    fingerprint: Text,
    unitIndexes: seq<nat>,
    distinctive: seq<Text>,
    shingleHashes: seq<int>,
    earliest: Option<int>,
    latest: Option<int>)

  const INCLUDE := Literal("include")
  const EXCLUDE := Literal("exclude")
  const REVIEW := Literal("review")
  const DECISIONS: set<Text> := {INCLUDE, EXCLUDE, REVIEW}

  const ROW_PREFIX := Literal("row:")
  const URL_PREFIX := Literal("url:")
  const DUPLICATE_TAG := Literal("duplicate")
  const SYNDICATION_TAG := Literal("syndication")
  const INCIDENT_TAG := Literal("incident")
}
