/** The cluster bound holds over both merge stages and every chain of merges. */
module SizeLaws {
  import opened Sorting
  import opened Sequences
  import opened Partitions
  import opened Components
  import opened Merging
  import opened Clusters
  import opened Stages
  import opened Runs

  /** What the contract counts of a cluster. */
  function ClusterWeight(cluster: IncidentCluster, c: Contract): nat {
    if c.clusterSizeUnit == Rows then |cluster.members| else cluster.duplicateGroupCount
  }

  lemma UnitMembersWeigh(r: Run, c: Contract, k: nat)
    requires IsRun(r, c) && k < |Roots(r.incidents.root)|
    ensures ClusterWeight(ClusterAt(r, k, c), c) == SumAt(r.weights, ClusterUnits(r, k))
  {
    if c.clusterSizeUnit == Rows {
      MembersWeigh(r, c, k);
    } else {
      GroupsWeigh(r, c, k);
    }
  }

  lemma MembersWeigh(r: Run, c: Contract, k: nat)
    requires IsRun(r, c) && k < |Roots(r.incidents.root)| && c.clusterSizeUnit == Rows
    ensures |ClusterAt(r, k, c).members| == SumAt(r.weights, ClusterUnits(r, k))
  {
    BlocksWeighUnits(r, c);
    GatherLength<ClusterMember>(MemberBlocks(r), r.weights, ClusterUnits(r, k));
  }

  lemma GroupsWeigh(r: Run, c: Contract, k: nat)
    requires IsRun(r, c) && k < |Roots(r.incidents.root)| && c.clusterSizeUnit != Rows
    ensures ClusterAt(r, k, c).duplicateGroupCount == SumAt(r.weights, ClusterUnits(r, k))
  {
    GroupsWeighOne(r, c);
    SumAtOnes(r.weights, ClusterUnits(r, k));
  }

  lemma GroupsWeighOne(r: Run, c: Contract)
    requires IsRun(r, c) && c.clusterSizeUnit != Rows
    ensures |r.weights| == |r.units| && forall k :: 0 <= k < |r.weights| ==> r.weights[k] == 1
  {}

  lemma BlocksWeighUnits(r: Run, c: Contract)
    requires IsRun(r, c) && c.clusterSizeUnit == Rows
    ensures |MemberBlocks(r)| == |r.weights|
    ensures forall u :: 0 <= u < |r.weights| ==> r.weights[u] == |MemberBlocks(r)[u]|
  {
    forall u | 0 <= u < |r.weights| ensures r.weights[u] == |MemberBlocks(r)[u]| {
      PositionLaws(r.syndication.root, u);
    }
  }

  lemma ReportWeighsItsUnits(r: Run, c: Contract, i: nat)
    requires IsRun(r, c) && i < |r.reports|
    ensures var list := Members(r.syndication.root, Roots(r.syndication.root)[i]);
            && IndexesInto(list, |r.weights|)
            && r.reportWeights[i] == SumAt(r.weights, list)
            && r.reportWeights[i] == Weight(r.syndication.root, r.weights, Roots(r.syndication.root)[i])
  {
    MembersLaws(r.syndication.root, Roots(r.syndication.root)[i]);
    MembersWeight(r.syndication.root, r.weights, Roots(r.syndication.root)[i], |r.weights|);
  }

  /** A cluster weighs what its component of reports weighs in the incident stage. */
  lemma ClusterWeighsItsComponent(r: Run, c: Contract, k: nat)
    requires IsRun(r, c) && k < |Roots(r.incidents.root)|
    ensures ClusterWeight(ClusterAt(r, k, c), c)
         == Weight(r.incidents.root, r.reportWeights, Roots(r.incidents.root)[k])
  {
    UnitMembersWeigh(r, c, k);
    var lists: seq<seq<nat>> := ReportUnits(r);
    forall i: nat | i < |lists|
      ensures IndexesInto(lists[i], |r.weights|) && r.reportWeights[i] == SumAt(r.weights, lists[i])
    {
      ReportWeighsItsUnits(r, c, i);
    }
    SumAtGathered(r.weights, lists, r.reportWeights, ClusterReports(r, k));
    MembersWeight(r.incidents.root, r.reportWeights, Roots(r.incidents.root)[k], |r.incidents.root|);
  }

  lemma SingletonList(s: seq<nat>, x: nat)
    requires x in s && forall i :: i in s ==> i == x
    requires forall i, j :: 0 <= i < j < |s| ==> s[i] < s[j]
    ensures s == [x]
  {
    assert s[0] in s && s[|s| - 1] in s;
  }

  /** A component heavier than the bound is its root alone. */
  lemma HeavyComponentIsAlone(root: seq<nat>, weights: seq<nat>, maximum: nat, k: nat)
    requires IsPartition(root) && |root| == |weights| && Bounded(root, weights, maximum) && k < |Roots(root)|
    requires Weight(root, weights, Roots(root)[k]) > maximum
    ensures var r := Roots(root)[k];
            r < |root| && Members(root, r) == [r] && weights[r] == Weight(root, weights, r)
  {
    var r := Roots(root)[k];
    RootsUpToLaws(root, |root|);
    assert r in Roots(root);
    MembersLaws(root, r);
    SingletonList(Members(root, r), r);
    MembersWeight(root, weights, r, |root|);
    assert [r][..0] == [];
  }

  lemma OversizedClusterIsOneReport(r: Run, c: Contract, k: nat) returns (report: nat)
    requires IsRun(r, c) && k < |Roots(r.incidents.root)|
    requires ClusterWeight(ClusterAt(r, k, c), c) > c.maximumClusterSize
    ensures report < |r.reports| && ClusterReports(r, k) == [report] && r.reportWeights[report] > c.maximumClusterSize
  {
    ClusterWeighsItsComponent(r, c, k);
    MergeStaysBounded(r.reportWeights, c.maximumClusterSize, SupportedPairs(r.reports, r.stage3.pairs, c));
    HeavyComponentIsAlone(r.incidents.root, r.reportWeights, c.maximumClusterSize, k);
    report := Roots(r.incidents.root)[k];
  }

  lemma OversizedReportIsOneUnit(r: Run, c: Contract, report: nat) returns (u: nat)
    requires IsRun(r, c) && report < |r.reports| && r.reportWeights[report] > c.maximumClusterSize
    ensures ReportUnits(r)[report] == [u] && u < |r.weights| && r.weights[u] > c.maximumClusterSize
  {
    ReportWeighsItsUnits(r, c, report);
    MergeStaysBounded(r.weights, c.maximumClusterSize, SyndicatedPairs(r.units, r.stage2.pairs, c));
    HeavyComponentIsAlone(r.syndication.root, r.weights, c.maximumClusterSize, report);
    u := Roots(r.syndication.root)[report];
  }

  /** A cluster over the bound is a single report carried by a single duplicate group that was over it already. */
  lemma OversizedClusterIsOneGroup(r: Run, c: Contract, k: nat) returns (u: nat)
    requires IsRun(r, c) && k < |Roots(r.incidents.root)|
    requires ClusterWeight(ClusterAt(r, k, c), c) > c.maximumClusterSize
    ensures u in Oversized(r.weights, c.maximumClusterSize) && ClusterUnits(r, k) == [u]
  {
    var report := OversizedClusterIsOneReport(r, c, k);
    u := OversizedReportIsOneUnit(r, c, report);
    OneReportOneUnit(r, k, report, u);
  }

  lemma OneReportOneUnit(r: Run, k: nat, report: nat, u: nat)
    requires WellShaped(r) && k < |Roots(r.incidents.root)| && report < |r.reports|
    requires ClusterReports(r, k) == [report] && ReportUnits(r)[report] == [u]
    ensures ClusterUnits(r, k) == [u]
  {
    var one: seq<nat> := [report];
    assert one[..0] == [];
    assert IndexesInto(one, |ReportUnits(r)|);
    assert Gather<nat>(ReportUnits(r), one) == [] + ReportUnits(r)[report];
  }

  /** Main result: under `RejectRun` no cluster is over the bound; under `AdmitAndRecord` an over-bound cluster is
      exactly one duplicate group and says so. */
  lemma ClusterBoundHolds(inputs: seq<Input>, c: Contract, cluster: IncidentCluster)
    requires OutcomeOf(inputs, c).Ok? && cluster in OutcomeOf(inputs, c).value.clusters
    requires ClusterWeight(cluster, c) > c.maximumClusterSize
    ensures c.oversizedGroupBehaviour == AdmitAndRecord
    ensures cluster.duplicateGroupCount == 1 && ClusterBoundReached in cluster.reasonCodes
  {
    var r := RunOf(EligibleSorted(inputs, c), c);
    RunOfIsRun(EligibleSorted(inputs, c), c);
    var k := ClusterPosition(r, c, cluster);
    OverIsSaid(r, c, k);
    OverIsAdmitted(inputs, c);
  }

  lemma OverIsSaid(r: Run, c: Contract, k: nat)
    requires IsRun(r, c) && k < |Roots(r.incidents.root)| && ClusterWeight(ClusterAt(r, k, c), c) > c.maximumClusterSize
    ensures Oversized(r.weights, c.maximumClusterSize) != {}
    ensures ClusterAt(r, k, c).duplicateGroupCount == 1 && ClusterBoundReached in ClusterAt(r, k, c).reasonCodes
  {
    var u := OversizedClusterIsOneGroup(r, c, k);
    OversizedGroupIsSaid(r, c, k, u);
  }

  lemma OverIsAdmitted(inputs: seq<Input>, c: Contract)
    requires OutcomeOf(inputs, c).Ok?
    requires Oversized(RunOf(EligibleSorted(inputs, c), c).weights, c.maximumClusterSize) != {}
    ensures c.oversizedGroupBehaviour == AdmitAndRecord
  {}

  lemma OversizedGroupIsSaid(r: Run, c: Contract, k: nat, u: nat)
    requires WellShaped(r) && k < |Roots(r.incidents.root)|
    requires u in Oversized(r.weights, c.maximumClusterSize) && ClusterUnits(r, k) == [u]
    ensures ClusterAt(r, k, c).duplicateGroupCount == 1 && ClusterBoundReached in ClusterAt(r, k, c).reasonCodes
  {
    assert ClusterUnits(r, k)[0] in RefusedUnits(r, c);
    LastCode(r, k, c);
  }

  lemma LastCode(r: Run, k: nat, c: Contract)
    requires WellShaped(r) && k < |Roots(r.incidents.root)|
    ensures ClusterBoundReached in CodesOf(r, k, c) <==>
            AnyIn(ClusterReports(r, k), r.incidents.refused) || AnyIn(ClusterUnits(r, k), RefusedUnits(r, c))
  {
    ShapeSaysNoBound(r, k);
    SignalsSayNoBound(r, k);
  }

  lemma ShapeSaysNoBound(r: Run, k: nat)
    requires WellShaped(r) && k < |Roots(r.incidents.root)|
    ensures ClusterBoundReached !in ShapeCodes(r, k)
  {}

  lemma SignalsSayNoBound(r: Run, k: nat)
    requires WellShaped(r) && k < |Roots(r.incidents.root)|
    ensures ClusterBoundReached !in SignalCodes(r, k)
  {}

  /** Every cluster returned is the cluster of some component. */
  lemma ClusterPosition(r: Run, c: Contract, cluster: IncidentCluster) returns (k: nat)
    requires WellShaped(r) && cluster in Sort(ClustersOf(r, c), ByFingerprint())
    ensures k < |Roots(r.incidents.root)| && cluster == ClusterAt(r, k, c)
  {
    MultisetMembers(ClustersOf(r, c), Sort(ClustersOf(r, c), ByFingerprint()));
    k :| 0 <= k < |ClustersOf(r, c)| && ClustersOf(r, c)[k] == cluster;
  }
}
