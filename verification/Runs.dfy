/** One whole run of the engine as a function of the eligible rows, and the clustering it returns. */
module Runs {
  import opened Texts
  import opened Sorting
  import opened Sequences
  import opened Partitions
  import opened Components
  import opened Merging
  import opened Blocking
  import BlockingLaws
  import opened Clusters
  import opened Stages

  /** Everything the three stages leave behind. */
  datatype Run = Run(
    rows: seq<Input>,
    units: seq<Unit>,
    weights: seq<nat>,
    stage2: Candidates,
    syndication: Merge,
    reports: seq<Report>,
    reportWeights: seq<nat>,
    stage3: Candidates,
    incidents: Merge,
    links: Links)

  lemma CandidatesWithin(items: seq<seq<Text>>, rules: BlockingRules, hash: Text -> int)
    ensures Within(CandidatesOf(items, rules, hash).pairs, |items|)
  {
    BlockingLaws.CandidatesShare(items, rules, hash);
    var pairs := CandidatesOf(items, rules, hash).pairs;
    forall k | 0 <= k < |pairs| ensures pairs[k].0 < |items| && pairs[k].1 < |items| {
      assert pairs[k] in pairs;
    }
  }

  function UnitCandidates(units: seq<Unit>, c: Contract): (r: Candidates)
    ensures Within(r.pairs, |units|)
  {
    CandidatesWithin(UnitItems(units), c.blocking, c.hash32);
    CandidatesOf(UnitItems(units), c.blocking, c.hash32)
  }

  function ReportCandidates(reports: seq<Report>, c: Contract): (r: Candidates)
    ensures Within(r.pairs, |reports|)
  {
    CandidatesWithin(ReportItems(reports), c.blocking, c.hash32);
    CandidatesOf(ReportItems(reports), c.blocking, c.hash32)
  }

  /** Stage 2: syndicated candidate pairs merged under the bound. */
  function Syndicate(units: seq<Unit>, c: Contract): (m: Merge)
    ensures |m.root| == |units| && IsPartition(m.root)
  {
    var pairs := SyndicatedPairs(units, UnitCandidates(units, c).pairs, c);
    UnionsStayInside(UnitWeights(units, c), c.maximumClusterSize, pairs);
    MergeAll(UnitWeights(units, c), c.maximumClusterSize, pairs)
  }

  /** Stage 3: supported candidate pairs merged under the bound. */
  function Incidents(reports: seq<Report>, weights: seq<nat>, c: Contract): (m: Merge)
    requires |weights| == |reports|
    ensures |m.root| == |reports| && IsPartition(m.root)
  {
    var pairs := SupportedPairs(reports, ReportCandidates(reports, c).pairs, c);
    UnionsStayInside(weights, c.maximumClusterSize, pairs);
    MergeAll(weights, c.maximumClusterSize, pairs)
  }

  function RunOf(rows: seq<Input>, c: Contract): Run {
    var units := UnitsOf(rows, c);
    var weights := UnitWeights(units, c);
    var syndication := Syndicate(units, c);
    var reports := ReportsOf(units, syndication.root, c);
    var reportWeights := ReportWeightsOf(units, syndication.root, weights);
    var stage3 := ReportCandidates(reports, c);
    Run(rows, units, weights, UnitCandidates(units, c), syndication, reports, reportWeights, stage3,
        Incidents(reports, reportWeights, c), LinksOf(reports, stage3.pairs, c))
  }

  /** The shape every run has; the assembly below reads nothing else of it. */
  ghost predicate WellShaped(r: Run) {
    && |r.weights| == |r.units| == |r.syndication.root|
    && IsPartition(r.syndication.root)
    && |r.reports| == |Roots(r.syndication.root)| == |r.incidents.root|
    && IsPartition(r.incidents.root)
    && (forall k :: 0 <= k < |r.units| ==> r.units[k].members != [])
    && forall k :: 0 <= k < |r.reports| ==>
         r.reports[k].unitIndexes == Members(r.syndication.root, Roots(r.syndication.root)[k])
  }

  lemma UnitsAreInhabited(rows: seq<Input>, c: Contract)
    ensures forall k :: 0 <= k < |UnitsOf(rows, c)| ==> UnitsOf(rows, c)[k].members != []
  {
    forall k | 0 <= k < |UnitsOf(rows, c)| ensures UnitsOf(rows, c)[k].members != [] {
      KeyHasRows(rows, UnitKeys(rows)[k]);
    }
  }

  lemma RunIsWellShaped(rows: seq<Input>, c: Contract)
    ensures WellShaped(RunOf(rows, c))
  {
    UnitsAreInhabited(rows, c);
  }

  /** How the incident stage of a run follows from its reports. */
  ghost predicate IncidentStage(r: Run, c: Contract) {
    && WellShaped(r)
    && r.reportWeights == ReportWeightsOf(r.units, r.syndication.root, r.weights)
    && r.stage3 == CandidatesOf(ReportItems(r.reports), c.blocking, c.hash32)
    && Within(r.stage3.pairs, |r.reports|)
    && r.incidents == MergeAll(r.reportWeights, c.maximumClusterSize, SupportedPairs(r.reports, r.stage3.pairs, c))
    && r.links == LinksOf(r.reports, r.stage3.pairs, c)
  }

  /** How the stages of a run follow from one another. */
  ghost predicate IsRun(r: Run, c: Contract) {
    && IncidentStage(r, c)
    && r.units == UnitsOf(r.rows, c)
    && r.weights == UnitWeights(r.units, c)
    && r.stage2 == CandidatesOf(UnitItems(r.units), c.blocking, c.hash32)
    && Within(r.stage2.pairs, |r.units|)
    && r.syndication == MergeAll(r.weights, c.maximumClusterSize, SyndicatedPairs(r.units, r.stage2.pairs, c))
    && r.reports == ReportsOf(r.units, r.syndication.root, c)
  }

  lemma RunOfIsRun(rows: seq<Input>, c: Contract)
    ensures IsRun(RunOf(rows, c), c)
  {
    RunIsWellShaped(rows, c);
  }

  // ---------------------------------------------------------------- assembly

  function ReportUnits(r: Run): (lists: seq<seq<nat>>)
    requires WellShaped(r)
    ensures |lists| == |r.reports|
  {
    ComponentLists(r.syndication.root)
  }

  lemma ReportUnitsIndexUnits(r: Run, idx: seq<nat>)
    requires WellShaped(r) && IndexesInto(idx, |r.reports|)
    ensures IndexesInto(Gather<nat>(ReportUnits(r), idx), |r.units|)
  {
    var lists: seq<seq<nat>> := ReportUnits(r);
    var all: seq<nat> := Gather<nat>(lists, idx);
    forall k: nat | k < |all| ensures all[k] < |r.units| {
      assert all[k] in all;
      GatherMembers<nat>(lists, idx, all[k]);
      var j :| 0 <= j < |idx| && all[k] in lists[idx[j]];
      MembersLaws(r.syndication.root, Roots(r.syndication.root)[idx[j]]);
    }
  }

  /** The reports of cluster `k`, ascending. */
  function ClusterReports(r: Run, k: nat): (idx: seq<nat>)
    requires WellShaped(r) && k < |Roots(r.incidents.root)|
    ensures IndexesInto(idx, |r.reports|)
  {
    MembersLaws(r.incidents.root, Roots(r.incidents.root)[k]);
    ComponentLists(r.incidents.root)[k]
  }

  /** The duplicate groups of cluster `k`, report by report. */
  function ClusterUnits(r: Run, k: nat): (idx: seq<nat>)
    requires WellShaped(r) && k < |Roots(r.incidents.root)|
    ensures IndexesInto(idx, |r.units|)
  {
    ReportUnitsIndexUnits(r, ClusterReports(r, k));
    Gather<nat>(ReportUnits(r), ClusterReports(r, k))
  }

  function MemberOf(row: Input, duplicate: Text, syndication: Text): ClusterMember {
    ClusterMember(row.sourceRowId, row.rowHash, row.classificationResultId, row.decision, duplicate, syndication)
  }

  function MembersOfUnit(unit: Unit, syndication: Text): (m: seq<ClusterMember>)
    ensures |m| == |unit.members|
  {
    seq(|unit.members|, i requires 0 <= i < |unit.members| => MemberOf(unit.members[i], unit.fingerprint, syndication))
  }

  /** Every unit's rows as cluster members, carrying the fingerprint of the report the unit is in. */
  function MemberBlocks(r: Run): (blocks: seq<seq<ClusterMember>>)
    requires WellShaped(r)
    ensures |blocks| == |r.units|
  {
    seq(|r.units|, u requires 0 <= u < |r.units| =>
      PositionLaws(r.syndication.root, u);
      MembersOfUnit(r.units[u], r.reports[PositionOf(r.syndication.root, u)].fingerprint))
  }

  function ByMemberId(): (ClusterMember, ClusterMember) -> bool {
    (a: ClusterMember, b: ClusterMember) => AtMost(a.sourceRowId, b.sourceRowId)
  }

  function ClusterMembers(r: Run, k: nat): seq<ClusterMember>
    requires WellShaped(r) && k < |Roots(r.incidents.root)|
  {
    Sort(Gather<ClusterMember>(MemberBlocks(r), ClusterUnits(r, k)), ByMemberId())
  }

  function MemberIds(members: seq<ClusterMember>): (ids: seq<Text>)
    ensures |ids| == |members|
  {
    seq(|members|, i requires 0 <= i < |members| => members[i].sourceRowId)
  }

  function Representatives(units: seq<Unit>, idx: seq<nat>): (rows: seq<Input>)
    requires IndexesInto(idx, |units|)
    ensures |rows| == |idx|
  {
    seq(|idx|, i requires 0 <= i < |idx| => units[idx[i]].representative)
  }

  predicate AnyIn(idx: seq<nat>, marked: set<nat>) {
    exists i :: 0 <= i < |idx| && idx[i] in marked
  }

  predicate AnyDuplicated(units: seq<Unit>, idx: seq<nat>)
    requires IndexesInto(idx, |units|)
  {
    exists i :: 0 <= i < |idx| && |units[idx[i]].members| > 1
  }

  /** The units whose merge the bound refused, or that were over it before any merge. */
  function RefusedUnits(r: Run, c: Contract): set<nat> {
    Oversized(r.weights, c.maximumClusterSize) + r.syndication.refused
  }

  function KindOf(rows: nat, units: nat, reports: nat): ClusterKind {
    if rows == 1 then Singleton
    else if reports > 1 then MultiReportIncident
    else if units > 1 then SyndicatedGroup
    else DuplicateGroup
  }

  function ShapeCodes(r: Run, k: nat): seq<ReasonCode>
    requires WellShaped(r) && k < |Roots(r.incidents.root)|
  {
    (if |ClusterMembers(r, k)| == 1 then [SingletonSource] else [])
    + (if AnyDuplicated(r.units, ClusterUnits(r, k)) then [ExactUrlDuplicate] else [])
    + (if |ClusterUnits(r, k)| > |ClusterReports(r, k)| then [SyndicatedText] else [])
  }

  /** The codes of a cluster joining more than one report; the time codes are read under its final root. */
  function SignalCodes(r: Run, k: nat): seq<ReasonCode>
    requires WellShaped(r) && k < |Roots(r.incidents.root)|
  {
    var root := Roots(r.incidents.root)[k];
    if |ClusterReports(r, k)| > 1 then
      [SharedIncidentSignals]
      + (if root in RootsRecorded(r.reports, r.incidents.unions, true) then [TimeProximity] else [])
      + (if root in RootsRecorded(r.reports, r.incidents.unions, false) then [TimestampAbsent] else [])
    else []
  }

  function BoundCodes(r: Run, k: nat, c: Contract): seq<ReasonCode>
    requires WellShaped(r) && k < |Roots(r.incidents.root)|
  {
    if AnyIn(ClusterReports(r, k), r.incidents.refused) || AnyIn(ClusterUnits(r, k), RefusedUnits(r, c))
    then [ClusterBoundReached] else []
  }

  function CodesOf(r: Run, k: nat, c: Contract): seq<ReasonCode>
    requires WellShaped(r) && k < |Roots(r.incidents.root)|
  {
    ShapeCodes(r, k) + SignalCodes(r, k) + BoundCodes(r, k, c)
  }

  lemma ClusterIsInhabited(r: Run, k: nat)
    requires WellShaped(r) && k < |Roots(r.incidents.root)|
    ensures ClusterReports(r, k) != [] && ClusterUnits(r, k) != []
  {
    var root := Roots(r.incidents.root)[k];
    RootsUpToLaws(r.incidents.root, |r.incidents.root|);
    MembersLaws(r.incidents.root, root);
    assert root in Roots(r.incidents.root);
    assert root in ClusterReports(r, k);
    var first := ClusterReports(r, k)[0];
    var head := Roots(r.syndication.root)[first];
    RootsUpToLaws(r.syndication.root, |r.syndication.root|);
    MembersLaws(r.syndication.root, head);
    assert head in Roots(r.syndication.root);
    assert head in ReportUnits(r)[first];
    GatherMembers<nat>(ReportUnits(r), ClusterReports(r, k), head);
  }

  /** Chosen among the representatives of the cluster's duplicate groups. */
  function ClusterRepresentative(r: Run, k: nat, c: Contract): Input
    requires WellShaped(r) && k < |Roots(r.incidents.root)|
  {
    ClusterIsInhabited(r, k);
    var rows := Representatives(r.units, ClusterUnits(r, k));
    assert rows != [];
    Representative(rows, c.representativeRule)
  }

  function ClusterAt(r: Run, k: nat, c: Contract): IncidentCluster
    requires WellShaped(r) && k < |Roots(r.incidents.root)|
  {
    var members := ClusterMembers(r, k);
    var units, reports := |ClusterUnits(r, k)|, |ClusterReports(r, k)|;
    IncidentCluster(
      c.fingerprintOf([INCIDENT_TAG] + MemberIds(members)),
      KindOf(|members|, units, reports),
      CodesOf(r, k, c),
      ClusterRepresentative(r, k, c).sourceRowId,
      units, reports, members)
  }

  function ClustersOf(r: Run, c: Contract): (clusters: seq<IncidentCluster>)
    requires WellShaped(r)
    ensures |clusters| == |Roots(r.incidents.root)|
  {
    seq(|Roots(r.incidents.root)|, k requires 0 <= k < |Roots(r.incidents.root)| => ClusterAt(r, k, c))
  }

  function ByFingerprint(): (IncidentCluster, IncidentCluster) -> bool {
    (a: IncidentCluster, b: IncidentCluster) => AtMost(a.fingerprint, b.fingerprint)
  }

  function ByEnds(): (AmbiguousLink, AmbiguousLink) -> bool {
    (a: AmbiguousLink, b: AmbiguousLink) =>
      Less(a.leftFingerprint, b.leftFingerprint)
      || (a.leftFingerprint == b.leftFingerprint && AtMost(a.rightFingerprint, b.rightFingerprint))
  }

  function CountSize(clusters: seq<IncidentCluster>, single: bool): nat {
    if clusters == [] then 0
    else
      var members := |clusters[|clusters| - 1].members|;
      CountSize(clusters[..|clusters| - 1], single) + if (if single then members == 1 else members > 1) then 1 else 0
  }

  function Largest(clusters: seq<IncidentCluster>): nat {
    if clusters == [] then 0
    else Max(Largest(clusters[..|clusters| - 1]), |clusters[|clusters| - 1].members|)
  }

  function BoundsReached(r: Run, c: Contract): nat {
    |Oversized(r.weights, c.maximumClusterSize)|
    + r.stage2.bounds + r.syndication.refusals + r.stage3.bounds + r.incidents.refusals + r.links.full
  }

  function ClusteringOf(r: Run, received: nat, c: Contract): Clustering
    requires WellShaped(r) && |r.rows| <= received
  {
    var clusters := Sort(ClustersOf(r, c), ByFingerprint());
    Clustering(
      clusters,
      Sort(r.links.links, ByEnds()),
      Stats(|r.rows|, received - |r.rows|, |r.units|, |r.reports|, |clusters|,
            CountSize(clusters, true), CountSize(clusters, false), Largest(clusters), |r.links.links|,
            r.stage2.comparisons + r.stage3.comparisons,
            r.stage2.iterations + r.stage3.iterations,
            BoundsReached(r, c)))
  }

  lemma {:induction false} EligibleAreFewer(inputs: seq<Input>, c: Contract)
    ensures |EligibleRows(inputs, c)| <= |inputs|
  {
    if inputs != [] { EligibleAreFewer(inputs[..|inputs| - 1], c); }
  }

  /** What the engine returns for an accepted list. */
  function OutcomeOf(inputs: seq<Input>, c: Contract): Result<Clustering, Refusal> {
    var rows := EligibleSorted(inputs, c);
    var r := RunOf(rows, c);
    RunIsWellShaped(rows, c);
    EligibleAreFewer(inputs, c);
    if Oversized(r.weights, c.maximumClusterSize) != {} && c.oversizedGroupBehaviour == RejectRun
    then Err(ExactDuplicateGroupExceedsLimit(c.maximumClusterSize))
    else Ok(ClusteringOf(r, |inputs|, c))
  }
}
