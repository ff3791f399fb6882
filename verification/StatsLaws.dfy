/** The stats of a run equal what the database recomputes from the stored clusters, and bound the work done. */
module StatsLaws {
  import opened Texts
  import opened Sorting
  import opened Sequences
  import opened Components
  import opened Clusters
  import opened Stages
  import opened Runs
  import opened ConservationLaws
  import BlockingLaws
  import SizeLaws

  // ------------------------------------------------------------------- sums

  lemma {:induction false} SumOfUnits(clusters: seq<IncidentCluster>, lists: seq<seq<nat>>)
    requires |clusters| == |lists|
    requires forall k :: 0 <= k < |lists| ==> clusters[k].duplicateGroupCount == |lists[k]|
    ensures SumMap(clusters, DuplicateGroupCount()) == |Flatten<nat>(lists)|
  {
    if lists != [] { SumOfUnits(clusters[..|lists| - 1], lists[..|lists| - 1]); }
  }

  lemma {:induction false} SumOfReports(clusters: seq<IncidentCluster>, lists: seq<seq<nat>>)
    requires |clusters| == |lists|
    requires forall k :: 0 <= k < |lists| ==> clusters[k].syndicationGroupCount == |lists[k]|
    ensures SumMap(clusters, SyndicationGroupCount()) == |Flatten<nat>(lists)|
  {
    if lists != [] { SumOfReports(clusters[..|lists| - 1], lists[..|lists| - 1]); }
  }

  lemma {:induction false} SumOfMembers(clusters: seq<IncidentCluster>)
    ensures SumMap(clusters, MemberCount()) == |FlatMap(clusters, MembersOf())|
  {
    if clusters != [] { SumOfMembers(clusters[..|clusters| - 1]); }
  }

  lemma RunSumOfUnits(r: Run, c: Contract)
    requires IsRun(r, c)
    ensures SumMap(ClustersOf(r, c), DuplicateGroupCount()) == |r.units|
  {
    var units: seq<seq<nat>> := ClusterUnitLists(r);
    SumOfUnits(ClustersOf(r, c), units);
    ClustersHoldEveryUnitOnce(r);
    MultisetMembers<nat>(Flatten<nat>(units), Range(|r.units|));
  }

  lemma RunSumOfReports(r: Run, c: Contract)
    requires IsRun(r, c)
    ensures SumMap(ClustersOf(r, c), SyndicationGroupCount()) == |r.reports|
  {
    var reports: seq<seq<nat>> := ComponentLists(r.incidents.root);
    SumOfReports(ClustersOf(r, c), reports);
    ListsHoldEveryNodeOnce(r.incidents.root);
    MultisetMembers<nat>(Flatten<nat>(reports), Range(|r.reports|));
  }

  lemma RunSumOfMembers(r: Run, c: Contract)
    requires IsRun(r, c)
    ensures SumMap(ClustersOf(r, c), MemberCount()) == |r.rows|
  {
    SumOfMembers(ClustersOf(r, c));
    RunKeepsRows(r, c);
    MultisetMembers<Text>(MemberIds(FlatMap(ClustersOf(r, c), MembersOf())), RowIds(r.rows));
  }

  // -------------------------------------------------------- sizes of clusters

  lemma ClustersHaveMembers(r: Run, c: Contract, k: nat)
    requires WellShaped(r) && k < |Roots(r.incidents.root)|
    ensures |ClusterAt(r, k, c).members| >= 1
  {
    ClusterIsInhabited(r, k);
    var idx := ClusterUnits(r, k);
    var blocks := MemberBlocks(r);
    var u := idx[0];
    PositionLaws(r.syndication.root, u);
    assert |blocks[u]| >= 1;
    GatherMembers<ClusterMember>(blocks, idx, blocks[u][0]);
    assert blocks[u][0] in Gather<ClusterMember>(blocks, idx);
  }

  predicate HasSize(cluster: IncidentCluster, single: bool) {
    if single then |cluster.members| == 1 else |cluster.members| > 1
  }

  function SizeFlag(single: bool): IncidentCluster -> nat {
    (k: IncidentCluster) => if HasSize(k, single) then 1 else 0
  }

  lemma {:induction false} CountSizeIsSum(clusters: seq<IncidentCluster>, single: bool)
    ensures CountSize(clusters, single) == SumMap(clusters, SizeFlag(single))
  {
    if clusters != [] { CountSizeIsSum(clusters[..|clusters| - 1], single); }
  }

  lemma {:induction false} SinglesAndMultis(clusters: seq<IncidentCluster>)
    requires forall k :: 0 <= k < |clusters| ==> |clusters[k].members| >= 1
    ensures CountSize(clusters, true) + CountSize(clusters, false) == |clusters|
  {
    if clusters != [] { SinglesAndMultis(clusters[..|clusters| - 1]); }
  }

  /** `coalesce(max(member_count), 0)`. */
  ghost predicate IsLargest(n: nat, clusters: seq<IncidentCluster>) {
    && (forall cluster :: cluster in clusters ==> |cluster.members| <= n)
    && (if clusters == [] then n == 0 else exists cluster :: cluster in clusters && |cluster.members| == n)
  }

  lemma {:induction false} LargestIsLargest(clusters: seq<IncidentCluster>)
    ensures IsLargest(Largest(clusters), clusters)
  {
    if clusters != [] {
      var init, last := clusters[..|clusters| - 1], clusters[|clusters| - 1];
      assert clusters == init + [last];
      LargestIsLargest(init);
      if |last.members| < Largest(init) {
        var best :| best in init && |best.members| == Largest(init);
        assert best in clusters;
      } else {
        assert last in clusters;
      }
    }
  }

  // ------------------------------------------------------------ main results

  /** What the database derives from the stored rows of a run, in whatever order it reads them. */
  ghost predicate DerivedCounts(s: Stats, stored: seq<IncidentCluster>, links: seq<AmbiguousLink>) {
    && s.incidentClusters == |stored|
    && s.singletonIncidents == SumMap(stored, SizeFlag(true))
    && s.multiSourceIncidents == SumMap(stored, SizeFlag(false))
    && IsLargest(s.largestClusterSize, stored)
    && s.duplicateGroups == SumMap(stored, DuplicateGroupCount())
    && s.syndicationGroups == SumMap(stored, SyndicationGroupCount())
    && s.ambiguousLinks == |links|
  }

  lemma StoredInAnyOrder(clusters: seq<IncidentCluster>, stored: seq<IncidentCluster>)
    requires multiset(clusters) == multiset(stored)
    ensures |stored| == |clusters|
    ensures SumMap(stored, SizeFlag(true)) == CountSize(clusters, true)
    ensures SumMap(stored, SizeFlag(false)) == CountSize(clusters, false)
    ensures IsLargest(Largest(clusters), stored)
    ensures SumMap(stored, DuplicateGroupCount()) == SumMap(clusters, DuplicateGroupCount())
    ensures SumMap(stored, SyndicationGroupCount()) == SumMap(clusters, SyndicationGroupCount())
    ensures SumMap(stored, MemberCount()) == SumMap(clusters, MemberCount())
  {
    MultisetMembers(clusters, stored);
    CountSizeIsSum(clusters, true);
    CountSizeIsSum(clusters, false);
    SumMapIgnoresOrder(clusters, stored, SizeFlag(true));
    SumMapIgnoresOrder(clusters, stored, SizeFlag(false));
    SumMapIgnoresOrder(clusters, stored, DuplicateGroupCount());
    SumMapIgnoresOrder(clusters, stored, SyndicationGroupCount());
    SumMapIgnoresOrder(clusters, stored, MemberCount());
    LargestIsLargest(clusters);
  }

  /** Main result: the stats returned equal the counts derived from the stored clusters and links, the rows of the
      clusters are the eligible rows, and singletons and multi-source incidents are all the clusters there are. */
  lemma StatsMatchStoredRows(inputs: seq<Input>, c: Contract, stored: seq<IncidentCluster>, links: seq<AmbiguousLink>)
    requires OutcomeOf(inputs, c).Ok?
    requires multiset(stored) == multiset(OutcomeOf(inputs, c).value.clusters)
    requires multiset(links) == multiset(OutcomeOf(inputs, c).value.ambiguousLinks)
    ensures var s := OutcomeOf(inputs, c).value.stats;
            && DerivedCounts(s, stored, links)
            && s.eligibleInputs == SumMap(stored, MemberCount())
            && s.eligibleInputs + s.ineligibleInputs == |inputs|
            && s.singletonIncidents + s.multiSourceIncidents == s.incidentClusters
  {
    var rows := EligibleSorted(inputs, c);
    RunOfIsRun(rows, c);
    var r := RunOf(rows, c);
    var clusters := Sort(ClustersOf(r, c), ByFingerprint());
    EligibleAreFewer(inputs, c);
    RunSumOfUnits(r, c);
    RunSumOfReports(r, c);
    RunSumOfMembers(r, c);
    StoredInAnyOrder(ClustersOf(r, c), clusters);
    StoredInAnyOrder(clusters, stored);
    LinksInAnyOrder(r.links.links, links);
    forall k | 0 <= k < |clusters| ensures |clusters[k].members| >= 1 {
      var at := SizeLaws.ClusterPosition(r, c, clusters[k]);
      ClustersHaveMembers(r, c, at);
    }
    SinglesAndMultis(clusters);
  }

  lemma LinksInAnyOrder(recorded: seq<AmbiguousLink>, links: seq<AmbiguousLink>)
    requires multiset(links) == multiset(Sort(recorded, ByEnds()))
    ensures |links| == |recorded|
  {
    assert |multiset(links)| == |multiset(recorded)|;
  }

  lemma {:induction false} FewerRoots(root: seq<nat>)
    ensures |Roots(root)| <= |root|
  {
    RootsUpToLaws(root, |root|);
  }

  lemma TwoPasses(first: nat, second: nat, g: nat, reports: nat, k: nat, b: nat)
    requires 2 * first <= g * k * b && 2 * second <= reports * k * b && reports <= g
    ensures first + second <= g * k * b
  {
    BlockingLaws.MultiplyBoth(reports, g, k);
    BlockingLaws.MultiplyBoth(reports * k, g * k, b);
  }

  lemma PassesAreBounded(r: Run, c: Contract)
    requires IsRun(r, c)
    ensures r.stage2.comparisons + r.stage3.comparisons <= r.stage2.iterations + r.stage3.iterations
    ensures r.stage2.iterations + r.stage3.iterations
            <= |r.units| * c.blocking.keysPerItem * BlockingLaws.LessOne(c.blocking.maximumBlockSize)
  {
    var units, reports := UnitItems(r.units), ReportItems(r.reports);
    BlockingLaws.PairWorkIsBounded(units, c.blocking, c.hash32);
    BlockingLaws.PairWorkIsBounded(reports, c.blocking, c.hash32);
    BlockingLaws.CandidatesKeepBudget(units, c.blocking, c.hash32, 0);
    BlockingLaws.CandidatesKeepBudget(reports, c.blocking, c.hash32, 0);
    FewerRoots(r.syndication.root);
    TwoPasses(r.stage2.iterations, r.stage3.iterations, |r.units|, |r.reports|, c.blocking.keysPerItem,
              BlockingLaws.LessOne(c.blocking.maximumBlockSize));
  }

  /** Main result: over both passes, comparisons <= iterations <= G * K * (B - 1), with G the duplicate groups. */
  lemma RunWorkIsBounded(inputs: seq<Input>, c: Contract)
    requires OutcomeOf(inputs, c).Ok?
    ensures var s := OutcomeOf(inputs, c).value.stats;
            && s.comparisons <= s.pairIterations
            && s.pairIterations
               <= s.duplicateGroups * c.blocking.keysPerItem * BlockingLaws.LessOne(c.blocking.maximumBlockSize)
  {
    var rows := EligibleSorted(inputs, c);
    RunOfIsRun(rows, c);
    PassesAreBounded(RunOf(rows, c), c);
  }
}
