/** Merging is exactly what the evidence supports: nothing else joins two reports, and nothing it supports is dropped
    unsaid. */
module EvidenceLaws {
  import opened Sequences
  import opened Partitions
  import opened Components
  import opened UnionFinds
  import opened Merging
  import opened Blocking
  import opened Clusters
  import opened Stages
  import opened Runs
  import BlockingLaws
  import SizeLaws

  // ---------------------------------------------------------- the links

  ghost function SyndicatedLinks(r: Run, c: Contract): set<Pair>
    requires IsRun(r, c)
  {
    PairSet(SyndicatedPairs(r.units, r.stage2.pairs, c))
  }

  ghost function SupportedLinks(r: Run, c: Contract): set<Pair>
    requires IsRun(r, c)
  {
    PairSet(SupportedPairs(r.reports, r.stage3.pairs, c))
  }

  /** The report a duplicate group is in. */
  function ReportOfUnit(r: Run, u: nat): (report: nat)
    requires WellShaped(r) && u < |r.units|
    ensures report < |r.reports|
  {
    PositionLaws(r.syndication.root, u);
    PositionOf(r.syndication.root, u)
  }

  /** Two duplicate groups are joined directly: they are a syndicated pair, or their reports a supported one. */
  ghost predicate Joined(r: Run, c: Contract, u: nat, v: nat)
    requires IsRun(r, c) && u < |r.units| && v < |r.units|
  {
    (u, v) in SyndicatedLinks(r, c) || (ReportOfUnit(r, u), ReportOfUnit(r, v)) in SupportedLinks(r, c)
  }

  ghost function EvidenceLinks(r: Run, c: Contract): set<Pair>
    requires IsRun(r, c)
  {
    set u: nat, v: nat | u < |r.units| && v < |r.units| && Joined(r, c, u, v) :: (u, v)
  }

  /** The component of reports a duplicate group ends in. */
  function ClusterOfUnit(r: Run, u: nat): nat
    requires WellShaped(r) && u < |r.units|
  {
    r.incidents.root[ReportOfUnit(r, u)]
  }

  lemma {:induction false} SyndicatedPairsMembers(units: seq<Unit>, pairs: seq<Pair>, c: Contract, p: Pair)
    requires Within(pairs, |units|)
    ensures p in SyndicatedPairs(units, pairs, c) <==>
            p in pairs && p.0 < |units| && p.1 < |units| && Syndicated(units[p.0], units[p.1], c)
  {
    if pairs != [] {
      var init, last := pairs[..|pairs| - 1], pairs[|pairs| - 1];
      assert pairs == init + [last];
      SyndicatedPairsMembers(units, init, c, p);
    }
  }

  lemma {:induction false} SupportedPairsMembers(reports: seq<Report>, pairs: seq<Pair>, c: Contract, p: Pair)
    requires Within(pairs, |reports|)
    ensures p in SupportedPairs(reports, pairs, c) <==>
            p in pairs && p.0 < |reports| && p.1 < |reports| && EvidenceOf(reports, p.0, p.1, c).Supported()
  {
    if pairs != [] {
      var init, last := pairs[..|pairs| - 1], pairs[|pairs| - 1];
      assert pairs == init + [last];
      SupportedPairsMembers(reports, init, c, p);
    }
  }

  lemma PairSetMembers(pairs: seq<Pair>, p: Pair)
    ensures p in PairSet(pairs) <==> p in pairs
  {}

  // ----------------------------------------------------------- soundness

  lemma SyndicatedIsEvidence(r: Run, c: Contract, p: Pair)
    requires IsRun(r, c) && p.0 < |r.units| && p.1 < |r.units| && p in SyndicatedLinks(r, c)
    ensures p in EvidenceLinks(r, c)
  {}

  lemma SyndicationIsEvidence(r: Run, c: Contract)
    requires IsRun(r, c)
    ensures SyndicatedLinks(r, c) <= EvidenceLinks(r, c)
  {
    forall p | p in SyndicatedLinks(r, c) ensures p in EvidenceLinks(r, c) {
      LinkInRange(SyndicatedPairs(r.units, r.stage2.pairs, c), |r.units|, p);
      SyndicatedIsEvidence(r, c, p);
    }
  }

  lemma SameReportIsLinked(r: Run, c: Contract, u: nat, v: nat)
    requires IsRun(r, c) && u < |r.units| && v < |r.units| && ReportOfUnit(r, u) == ReportOfUnit(r, v)
    ensures Linked(EvidenceLinks(r, c), u, v)
  {
    PositionLaws(r.syndication.root, u);
    PositionLaws(r.syndication.root, v);
    var pairs := SyndicatedPairs(r.units, r.stage2.pairs, c);
    MergedOnlyBySupport(r.weights, c.maximumClusterSize, pairs, u, v);
    SyndicationIsEvidence(r, c);
    LinkedMonotone(SyndicatedLinks(r, c), EvidenceLinks(r, c), u, v);
  }

  /** Some duplicate group of a report. */
  lemma AUnitOf(r: Run, report: nat) returns (u: nat)
    requires WellShaped(r) && report < |r.reports|
    ensures u < |r.units| && ReportOfUnit(r, u) == report
  {
    u := Roots(r.syndication.root)[report];
    RootsUpToLaws(r.syndication.root, |r.syndication.root|);
    assert u in Roots(r.syndication.root);
    PositionLaws(r.syndication.root, u);
    MembersLaws(r.syndication.root, u);
    assert u in ComponentLists(r.syndication.root)[report];
  }

  /** A chain of supported reports lifts to a chain of duplicate groups. */
  lemma {:induction false} ChainOfReportsLifts(r: Run, c: Contract, p: seq<nat>, u: nat, v: nat)
    requires IsRun(r, c) && u < |r.units| && v < |r.units|
    requires ChainFrom(SupportedLinks(r, c), p, ReportOfUnit(r, u), ReportOfUnit(r, v))
    ensures Linked(EvidenceLinks(r, c), u, v)
    decreases |p|
  {
    if |p| == 1 {
      SameReportIsLinked(r, c, u, v);
    } else {
      assert Adjacent(SupportedLinks(r, c), p[0], p[0 + 1]);
      var w := NextUnit(r, c, p[0], p[1]);
      var q := p[1..];
      forall k | 0 <= k < |q| - 1 ensures Adjacent(SupportedLinks(r, c), q[k], q[k + 1]) {
        assert Adjacent(SupportedLinks(r, c), p[k + 1], p[k + 1 + 1]);
      }
      ChainOfReportsLifts(r, c, q, w, v);
      assert Adjacent(EvidenceLinks(r, c), u, w) by { assert Joined(r, c, u, w) || Joined(r, c, w, u); }
      LinkedStep(EvidenceLinks(r, c), u, w);
      LinkedTransitive(EvidenceLinks(r, c), u, w, v);
    }
  }

  lemma LinkInRange(pairs: seq<Pair>, n: nat, l: Pair)
    requires Within(pairs, n) && l in PairSet(pairs)
    ensures l.0 < n && l.1 < n
  {
    var k :| 0 <= k < |pairs| && pairs[k] == l;
  }

  lemma NextUnit(r: Run, c: Contract, a: nat, b: nat) returns (w: nat)
    requires IsRun(r, c) && Adjacent(SupportedLinks(r, c), a, b)
    ensures w < |r.units| && ReportOfUnit(r, w) == b
  {
    var pairs := SupportedPairs(r.reports, r.stage3.pairs, c);
    var l: Pair := if (a, b) in PairSet(pairs) then (a, b) else (b, a);
    LinkInRange(pairs, |r.reports|, l);
    w := AUnitOf(r, b);
  }

  /** Main result, soundness: duplicate groups share a cluster only through a chain of syndicated and supported
      pairs. */
  lemma ClusteredOnlyOnEvidence(r: Run, c: Contract, u: nat, v: nat)
    requires IsRun(r, c) && u < |r.units| && v < |r.units| && ClusterOfUnit(r, u) == ClusterOfUnit(r, v)
    ensures Linked(EvidenceLinks(r, c), u, v)
  {
    var pairs := SupportedPairs(r.reports, r.stage3.pairs, c);
    MergedOnlyBySupport(r.reportWeights, c.maximumClusterSize, pairs, ReportOfUnit(r, u), ReportOfUnit(r, v));
    var p :| ChainFrom(PairSet(pairs), p, ReportOfUnit(r, u), ReportOfUnit(r, v));
    ChainOfReportsLifts(r, c, p, u, v);
  }

  // -------------------------------------------------------- completeness

  /** The cluster a duplicate group is assembled into. */
  lemma UnitIsInItsCluster(r: Run, u: nat) returns (k: nat)
    requires WellShaped(r) && u < |r.units|
    ensures k < |Roots(r.incidents.root)| && Roots(r.incidents.root)[k] == ClusterOfUnit(r, u)
    ensures u in ClusterUnits(r, k) && ReportOfUnit(r, u) in ClusterReports(r, k)
  {
    var report := ReportOfUnit(r, u);
    PositionLaws(r.incidents.root, report);
    PositionLaws(r.syndication.root, u);
    k := PositionOf(r.incidents.root, report);
    assert report in ClusterReports(r, k);
    assert u in ReportUnits(r)[report];
    GatherMembers<nat>(ReportUnits(r), ClusterReports(r, k), u);
  }

  lemma UnitInOneCluster(r: Run, u: nat, k: nat)
    requires WellShaped(r) && u < |r.units| && k < |Roots(r.incidents.root)| && u in ClusterUnits(r, k)
    ensures ClusterOfUnit(r, u) == Roots(r.incidents.root)[k]
  {
    GatherMembers<nat>(ReportUnits(r), ClusterReports(r, k), u);
    var j :| 0 <= j < |ClusterReports(r, k)| && u in ReportUnits(r)[ClusterReports(r, k)[j]];
    PositionLaws(r.syndication.root, u);
    MembersLaws(r.incidents.root, Roots(r.incidents.root)[k]);
    assert ClusterReports(r, k)[j] in ClusterReports(r, k);
  }

  /** The cluster at position `k` says the bound stopped it from growing. */
  ghost predicate SaysBoundReached(r: Run, k: nat, c: Contract)
    requires WellShaped(r) && k < |Roots(r.incidents.root)|
  {
    ClusterBoundReached in ClusterAt(r, k, c).reasonCodes
  }

  lemma RefusedUnitSaysSo(r: Run, c: Contract, u: nat)
    requires WellShaped(r) && u < |r.units|
    requires u in RefusedUnits(r, c) || ReportOfUnit(r, u) in r.incidents.refused
    ensures exists k: nat :: k < |Roots(r.incidents.root)| && Roots(r.incidents.root)[k] == ClusterOfUnit(r, u)
                             && u in ClusterUnits(r, k) && SaysBoundReached(r, k, c)
  {
    var k := UnitIsInItsCluster(r, u);
    var idx, reports := ClusterUnits(r, k), ClusterReports(r, k);
    if u in RefusedUnits(r, c) {
      var i :| 0 <= i < |idx| && idx[i] == u;
      assert AnyIn(idx, RefusedUnits(r, c));
    } else {
      var i :| 0 <= i < |reports| && reports[i] == ReportOfUnit(r, u);
      assert AnyIn(reports, r.incidents.refused);
    }
    SizeLaws.LastCode(r, k, c);
    assert SaysBoundReached(r, k, c);
  }

  /** Main result, completeness: a directly joined pair left in two clusters puts `ClusterBoundReached` on both. */
  lemma UnmergedSupportIsSaid(r: Run, c: Contract, u: nat, v: nat, w: nat)
    requires IsRun(r, c) && u < |r.units| && v < |r.units| && Joined(r, c, u, v)
    requires ClusterOfUnit(r, u) != ClusterOfUnit(r, v) && (w == u || w == v)
    ensures exists k: nat :: k < |Roots(r.incidents.root)| && Roots(r.incidents.root)[k] == ClusterOfUnit(r, w)
                             && w in ClusterUnits(r, k) && SaysBoundReached(r, k, c)
  {
    if (u, v) in SyndicatedLinks(r, c) {
      var pairs := SyndicatedPairs(r.units, r.stage2.pairs, c);
      var i :| 0 <= i < |pairs| && pairs[i] == (u, v);
      NoHiddenRefusal(r.weights, c.maximumClusterSize, pairs, i);
      assert u in r.syndication.refused && v in r.syndication.refused;
    } else {
      var pairs := SupportedPairs(r.reports, r.stage3.pairs, c);
      var i :| 0 <= i < |pairs| && pairs[i] == (ReportOfUnit(r, u), ReportOfUnit(r, v));
      NoHiddenRefusal(r.reportWeights, c.maximumClusterSize, pairs, i);
    }
    RefusedUnitSaysSo(r, c, w);
  }

  /** What a report weighs is part of what its cluster weighs. */
  lemma ReportWithinCluster(r: Run, c: Contract, u: nat, k: nat)
    requires IsRun(r, c) && u < |r.units| && k < |Roots(r.incidents.root)|
    requires ClusterOfUnit(r, u) == Roots(r.incidents.root)[k]
    ensures SizeLaws.ClusterWeight(ClusterAt(r, k, c), c)
            >= Weight(r.syndication.root, r.weights, r.syndication.root[u])
  {
    var report := ReportOfUnit(r, u);
    PositionLaws(r.syndication.root, u);
    SizeLaws.ReportWeighsItsUnits(r, c, report);
    SizeLaws.ClusterWeighsItsComponent(r, c, k);
    WeightOfMember(r.incidents.root, r.reportWeights, report, |r.reports|);
  }

  lemma SyndicatedApartAreTooHeavy(r: Run, c: Contract, u: nat, v: nat)
    requires IsRun(r, c) && u < |r.units| && v < |r.units| && (u, v) in SyndicatedLinks(r, c)
    requires ClusterOfUnit(r, u) != ClusterOfUnit(r, v)
    ensures Weight(r.syndication.root, r.weights, r.syndication.root[u])
            + Weight(r.syndication.root, r.weights, r.syndication.root[v]) > c.maximumClusterSize
  {
    var pairs := SyndicatedPairs(r.units, r.stage2.pairs, c);
    var i :| 0 <= i < |pairs| && pairs[i] == (u, v);
    ApartOnlyByTheBound(r.weights, c.maximumClusterSize, pairs, i);
  }

  lemma SupportedApartAreTooHeavy(r: Run, c: Contract, a: nat, b: nat)
    requires IsRun(r, c) && a < |r.reports| && b < |r.reports| && (a, b) in SupportedLinks(r, c)
    requires r.incidents.root[a] != r.incidents.root[b]
    ensures Weight(r.incidents.root, r.reportWeights, r.incidents.root[a])
            + Weight(r.incidents.root, r.reportWeights, r.incidents.root[b]) > c.maximumClusterSize
  {
    var pairs := SupportedPairs(r.reports, r.stage3.pairs, c);
    var i :| 0 <= i < |pairs| && pairs[i] == (a, b);
    ApartOnlyByTheBound(r.reportWeights, c.maximumClusterSize, pairs, i);
  }

  /** Main result: the bound is the only reason a directly joined pair is left in two clusters: together they are over
      it. */
  lemma JoinedApartAreTooHeavy(r: Run, c: Contract, u: nat, v: nat, k: nat, j: nat)
    requires IsRun(r, c) && u < |r.units| && v < |r.units| && Joined(r, c, u, v)
    requires k < |Roots(r.incidents.root)| && j < |Roots(r.incidents.root)|
    requires ClusterOfUnit(r, u) == Roots(r.incidents.root)[k] && ClusterOfUnit(r, v) == Roots(r.incidents.root)[j]
    requires ClusterOfUnit(r, u) != ClusterOfUnit(r, v)
    ensures SizeLaws.ClusterWeight(ClusterAt(r, k, c), c) + SizeLaws.ClusterWeight(ClusterAt(r, j, c), c)
            > c.maximumClusterSize
  {
    if (u, v) in SyndicatedLinks(r, c) {
      SyndicatedApartAreTooHeavy(r, c, u, v);
      ReportWithinCluster(r, c, u, k);
      ReportWithinCluster(r, c, v, j);
    } else {
      SupportedApartAreTooHeavy(r, c, ReportOfUnit(r, u), ReportOfUnit(r, v));
      SizeLaws.ClusterWeighsItsComponent(r, c, k);
      SizeLaws.ClusterWeighsItsComponent(r, c, j);
    }
  }

  /** A joined pair with one side in the cluster at `k` and the other in another. */
  ghost predicate CutAt(r: Run, c: Contract, k: nat, u: nat, v: nat)
    requires IsRun(r, c) && k < |Roots(r.incidents.root)|
  {
    && u < |r.units| && v < |r.units| && Joined(r, c, u, v)
    && (ClusterOfUnit(r, u) == Roots(r.incidents.root)[k]) != (ClusterOfUnit(r, v) == Roots(r.incidents.root)[k])
  }

  ghost predicate SomeCutAt(r: Run, c: Contract, k: nat)
    requires IsRun(r, c) && k < |Roots(r.incidents.root)|
  {
    exists u, v :: CutAt(r, c, k, u, v)
  }

  /** Two reports that are together over the bound never end in one cluster. */
  lemma HeavyReportsEndApart(r: Run, c: Contract, a: nat, b: nat)
    requires IsRun(r, c) && a < b < |r.reports| && r.reportWeights[a] + r.reportWeights[b] > c.maximumClusterSize
    ensures r.incidents.root[a] != r.incidents.root[b]
  {
    MergeStaysBounded(r.reportWeights, c.maximumClusterSize, SupportedPairs(r.reports, r.stage3.pairs, c));
    HeavyPairIsApart(r.incidents.root, r.reportWeights, c.maximumClusterSize, a, b);
  }

  lemma HeavyPairIsApart(root: seq<nat>, weights: seq<nat>, maximum: nat, a: nat, b: nat)
    requires |root| == |weights| && IsPartition(root) && Bounded(root, weights, maximum)
    requires a < b < |root| && weights[a] + weights[b] > maximum
    ensures root[a] != root[b]
  {
    TogetherWeigh(root, weights, a, b);
  }

  lemma TogetherWeigh(root: seq<nat>, weights: seq<nat>, a: nat, b: nat)
    requires a < b < |root| == |weights|
    ensures root[a] == root[b] ==> Weight(root, weights, root[a]) >= weights[a] + weights[b]
  {
    if root[a] == root[b] { WeightOfTwo(root, weights, a, b, |root|); }
  }

  lemma ReportWeighsItsComponent(r: Run, c: Contract, u: nat)
    requires IsRun(r, c) && u < |r.units|
    ensures r.reportWeights[ReportOfUnit(r, u)] == Weight(r.syndication.root, r.weights, r.syndication.root[u])
  {
    PositionLaws(r.syndication.root, u);
    SizeLaws.ReportWeighsItsUnits(r, c, ReportOfUnit(r, u));
  }

  /** A pair refused when syndicating ends in two clusters, whatever is joined after. */
  lemma RefusedUnitsEndApart(r: Run, c: Contract, u: nat, v: nat)
    requires IsRun(r, c) && u < |r.units| && v < |r.units|
    requires !MayJoin(r.syndication.root, r.weights, u, v, c.maximumClusterSize)
    ensures ClusterOfUnit(r, u) != ClusterOfUnit(r, v)
  {
    var a, b := ReportOfUnit(r, u), ReportOfUnit(r, v);
    PositionLaws(r.syndication.root, u);
    PositionLaws(r.syndication.root, v);
    ReportWeighsItsComponent(r, c, u);
    ReportWeighsItsComponent(r, c, v);
    if a < b { HeavyReportsEndApart(r, c, a, b); } else { HeavyReportsEndApart(r, c, b, a); }
  }

  lemma RefusedUnitIsCut(r: Run, c: Contract, k: nat, u: nat)
    requires IsRun(r, c) && k < |Roots(r.incidents.root)| && u in r.syndication.refused && u < |r.units|
    requires ClusterOfUnit(r, u) == Roots(r.incidents.root)[k]
    ensures SomeCutAt(r, c, k)
  {
    var pairs := SyndicatedPairs(r.units, r.stage2.pairs, c);
    var i := RefusedStaysApart(r.weights, c.maximumClusterSize, pairs, u);
    RefusedUnitsEndApart(r, c, pairs[i].0, pairs[i].1);
    PairSetMembers(pairs, pairs[i]);
    assert Joined(r, c, pairs[i].0, pairs[i].1);
    assert CutAt(r, c, k, pairs[i].0, pairs[i].1);
  }

  lemma RefusedReportIsCut(r: Run, c: Contract, k: nat, report: nat)
    requires IsRun(r, c) && k < |Roots(r.incidents.root)| && report in r.incidents.refused && report < |r.reports|
    requires r.incidents.root[report] == Roots(r.incidents.root)[k]
    ensures SomeCutAt(r, c, k)
  {
    var pairs := SupportedPairs(r.reports, r.stage3.pairs, c);
    var i := RefusedStaysApart(r.reportWeights, c.maximumClusterSize, pairs, report);
    var u := AUnitOf(r, pairs[i].0);
    var v := AUnitOf(r, pairs[i].1);
    PairSetMembers(pairs, pairs[i]);
    assert Joined(r, c, u, v);
    assert CutAt(r, c, k, u, v);
  }

  lemma OversizedUnitWeighs(r: Run, c: Contract, k: nat, u: nat)
    requires IsRun(r, c) && k < |Roots(r.incidents.root)| && u in Oversized(r.weights, c.maximumClusterSize)
    requires ClusterOfUnit(r, u) == Roots(r.incidents.root)[k]
    ensures SizeLaws.ClusterWeight(ClusterAt(r, k, c), c) > c.maximumClusterSize
  {
    WeightOfMember(r.syndication.root, r.weights, u, |r.units|);
    ReportWithinCluster(r, c, u, k);
  }

  /** Main result: the code is carried only for cause: the cluster is over the bound, or the bound cut a joined pair of
      it off. */
  lemma BoundReachedHasItsCause(r: Run, c: Contract, k: nat)
    requires IsRun(r, c) && k < |Roots(r.incidents.root)| && SaysBoundReached(r, k, c)
    ensures SizeLaws.ClusterWeight(ClusterAt(r, k, c), c) > c.maximumClusterSize || SomeCutAt(r, c, k)
  {
    SizeLaws.LastCode(r, k, c);
    if AnyIn(ClusterReports(r, k), r.incidents.refused) {
      var i :| 0 <= i < |ClusterReports(r, k)| && ClusterReports(r, k)[i] in r.incidents.refused;
      MembersLaws(r.incidents.root, Roots(r.incidents.root)[k]);
      assert ClusterReports(r, k)[i] in ClusterReports(r, k);
      RefusedReportIsCut(r, c, k, ClusterReports(r, k)[i]);
    } else {
      var i :| 0 <= i < |ClusterUnits(r, k)| && ClusterUnits(r, k)[i] in RefusedUnits(r, c);
      var u := ClusterUnits(r, k)[i];
      assert u in ClusterUnits(r, k);
      UnitInOneCluster(r, u, k);
      if u in r.syndication.refused { RefusedUnitIsCut(r, c, k, u); } else { OversizedUnitWeighs(r, c, k, u); }
    }
  }

  // ------------------------------------------------------------ exactness

  /** The clusters as a labelling of duplicate groups. */
  function ClusterLabels(r: Run): (labels: seq<nat>)
    requires WellShaped(r)
    ensures |labels| == |r.units|
  {
    seq(|r.units|, u requires 0 <= u < |r.units| => ClusterOfUnit(r, u))
  }

  lemma UnrefusedLinkStays(r: Run, c: Contract, u: nat, v: nat)
    requires IsRun(r, c) && u < |r.units| && v < |r.units| && Joined(r, c, u, v)
    requires r.syndication.refusals == 0 && r.incidents.refusals == 0
    ensures ClusterOfUnit(r, u) == ClusterOfUnit(r, v)
  {
    if (u, v) in SyndicatedLinks(r, c) {
      var pairs := SyndicatedPairs(r.units, r.stage2.pairs, c);
      var i :| 0 <= i < |pairs| && pairs[i] == (u, v);
      NoHiddenRefusal(r.weights, c.maximumClusterSize, pairs, i);
      RefusalsAreSupported(r.weights, c.maximumClusterSize, pairs);
      assert ReportOfUnit(r, u) == ReportOfUnit(r, v);
    } else {
      var pairs := SupportedPairs(r.reports, r.stage3.pairs, c);
      var i :| 0 <= i < |pairs| && pairs[i] == (ReportOfUnit(r, u), ReportOfUnit(r, v));
      NoHiddenRefusal(r.reportWeights, c.maximumClusterSize, pairs, i);
      RefusalsAreSupported(r.reportWeights, c.maximumClusterSize, pairs);
    }
  }

  /** Main result: with no refusal the clusters are exactly the equivalence closure of the evidence. */
  lemma UnrefusedClustersAreClosure(r: Run, c: Contract, u: nat, v: nat)
    requires IsRun(r, c) && u < |r.units| && v < |r.units|
    requires r.syndication.refusals == 0 && r.incidents.refusals == 0
    ensures ClusterOfUnit(r, u) == ClusterOfUnit(r, v) <==> Linked(EvidenceLinks(r, c), u, v)
  {
    if ClusterOfUnit(r, u) == ClusterOfUnit(r, v) { ClusteredOnlyOnEvidence(r, c, u, v); }
    if Linked(EvidenceLinks(r, c), u, v) {
      forall l | l in EvidenceLinks(r, c)
        ensures l.0 < |r.units| && l.1 < |r.units| && ClusterLabels(r)[l.0] == ClusterLabels(r)[l.1]
      {
        UnrefusedLinkStays(r, c, l.0, l.1);
      }
      LinkedTogether(ClusterLabels(r), EvidenceLinks(r, c), u, v);
    }
  }

  /** The same joining with all pairs compared: blocking keys shared, whether or not the pair became a candidate. */
  ghost predicate JoinedByAllPairs(r: Run, c: Contract, u: nat, v: nat)
    requires IsRun(r, c) && u < |r.units| && v < |r.units|
  {
    var a, b := ReportOfUnit(r, u), ReportOfUnit(r, v);
    || (BlockingLaws.Share(ChosenKeys(UnitItems(r.units), c.blocking, c.hash32), u, v)
        && Syndicated(r.units[u], r.units[v], c))
    || (BlockingLaws.Share(ChosenKeys(ReportItems(r.reports), c.blocking, c.hash32), a, b)
        && EvidenceOf(r.reports, a, b, c).Supported())
  }

  /** A run that reached no bound left no pair out: what it joined is what comparing all sharing pairs would join. */
  lemma UnboundedRunJoinsAllPairs(r: Run, c: Contract, u: nat, v: nat)
    requires IsRun(r, c) && u < |r.units| && v < |r.units| && BoundsReached(r, c) == 0
    ensures Joined(r, c, u, v) <==> JoinedByAllPairs(r, c, u, v)
  {
    var a, b := ReportOfUnit(r, u), ReportOfUnit(r, v);
    BlockingLaws.BlockingRefinesAllPairs(UnitItems(r.units), c.blocking, c.hash32, u, v);
    BlockingLaws.BlockingRefinesAllPairs(ReportItems(r.reports), c.blocking, c.hash32, a, b);
    SyndicatedPairsMembers(r.units, r.stage2.pairs, c, (u, v));
    SupportedPairsMembers(r.reports, r.stage3.pairs, c, (a, b));
    PairSetMembers(SyndicatedPairs(r.units, r.stage2.pairs, c), (u, v));
    PairSetMembers(SupportedPairs(r.reports, r.stage3.pairs, c), (a, b));
  }

  ghost function AllPairsLinks(r: Run, c: Contract): set<Pair>
    requires IsRun(r, c)
  {
    set u: nat, v: nat | u < |r.units| && v < |r.units| && JoinedByAllPairs(r, c, u, v) :: (u, v)
  }

  /** Main result: a run with `boundsReached` zero clusters exactly as exhaustive comparison would. */
  lemma UnboundedRunIsExhaustive(r: Run, c: Contract, u: nat, v: nat)
    requires IsRun(r, c) && u < |r.units| && v < |r.units| && BoundsReached(r, c) == 0
    ensures ClusterOfUnit(r, u) == ClusterOfUnit(r, v) <==> Linked(AllPairsLinks(r, c), u, v)
  {
    forall p ensures p in EvidenceLinks(r, c) <==> p in AllPairsLinks(r, c) { PairIsEvidence(r, c, p); }
    SameSet(EvidenceLinks(r, c), AllPairsLinks(r, c));
    UnrefusedClustersAreClosure(r, c, u, v);
  }

  lemma PairIsEvidence(r: Run, c: Contract, p: Pair)
    requires IsRun(r, c) && BoundsReached(r, c) == 0
    ensures p in EvidenceLinks(r, c) <==> p in AllPairsLinks(r, c)
  {
    if p.0 < |r.units| && p.1 < |r.units| { UnboundedRunJoinsAllPairs(r, c, p.0, p.1); }
  }

  lemma SameSet<T(!new)>(a: set<T>, b: set<T>)
    requires forall x :: x in a <==> x in b
    ensures a == b
  {}
}
