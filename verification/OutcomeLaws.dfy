/** The laws of evidence and time, said of the clusters a run returns. */
module OutcomeLaws {
  import opened Texts
  import opened Sorting
  import opened Sequences
  import opened Partitions
  import opened Components
  import opened Clusters
  import opened Stages
  import LinkLaws
  import opened Runs
  import opened EvidenceLaws
  import opened RowLaws
  import opened TimeLaws
  import SizeLaws
  import ConservationLaws

  /** The run an accepted list gives rise to. */
  function RunOn(inputs: seq<Input>, c: Contract): (r: Run)
    ensures IsRun(r, c)
  {
    RunOfIsRun(EligibleSorted(inputs, c), c);
    RunOf(EligibleSorted(inputs, c), c)
  }

  /** A list with no duplicate group over the bound is not refused for its size. */
  lemma OutcomeIsOfTheRun(inputs: seq<Input>, c: Contract)
    requires Oversized(RunOn(inputs, c).weights, c.maximumClusterSize) == {}
    ensures OutcomeOf(inputs, c).Ok?
    ensures OutcomeOf(inputs, c).value.clusters == Sort(ClustersOf(RunOn(inputs, c), c), ByFingerprint())
  {}

  ghost predicate Returned(inputs: seq<Input>, c: Contract, cluster: IncidentCluster) {
    OutcomeOf(inputs, c).Ok? && cluster in OutcomeOf(inputs, c).value.clusters
  }

  lemma ReturnedAt(inputs: seq<Input>, c: Contract, cluster: IncidentCluster) returns (k: nat)
    requires Returned(inputs, c, cluster)
    ensures k < |Roots(RunOn(inputs, c).incidents.root)| && cluster == ClusterAt(RunOn(inputs, c), k, c)
  {
    k := SizeLaws.ClusterPosition(RunOn(inputs, c), c, cluster);
  }

  lemma AtIsReturned(inputs: seq<Input>, c: Contract, k: nat)
    requires OutcomeOf(inputs, c).Ok? && k < |Roots(RunOn(inputs, c).incidents.root)|
    ensures Returned(inputs, c, ClusterAt(RunOn(inputs, c), k, c))
  {
    var all := ClustersOf(RunOn(inputs, c), c);
    assert all[k] == ClusterAt(RunOn(inputs, c), k, c);
    MultisetMembers(all, Sort(all, ByFingerprint()));
  }

  // ------------------------------------------------------- rows and clusters

  ghost predicate Holds(cluster: IncidentCluster, row: Input) { row.sourceRowId in MemberIds(cluster.members) }

  /** Some returned cluster holds both rows. */
  ghost predicate ShareCluster(inputs: seq<Input>, c: Contract, x: Input, y: Input) {
    exists cluster :: Returned(inputs, c, cluster) && Holds(cluster, x) && Holds(cluster, y)
  }

  /** `x` is a row of duplicate group `u`. */
  ghost predicate RowOf(r: Run, u: nat, x: Input) { u < |r.units| && x in r.units[u].members }

  lemma SameIdIsSameRow(inputs: seq<Input>, c: Contract, x: Input, y: Input)
    requires Accepted(inputs, c) && x in EligibleSorted(inputs, c) && y in EligibleSorted(inputs, c)
    requires x.sourceRowId == y.sourceRowId
    ensures x == y
  {
    ConservationLaws.EligibleIdsDistinct(inputs, c);
    var rows, sorted := EligibleRows(inputs, c), EligibleSorted(inputs, c);
    MultisetMembers(rows, sorted);
    DistinctIdsDistinguish(rows);
    LessIsTotal(x.sourceRowId, y.sourceRowId);
    assert ById()(x, y) && ById()(y, x);
  }

  lemma RowInOneUnit(r: Run, c: Contract, u: nat, v: nat, x: Input)
    requires IsRun(r, c) && RowOf(r, u, x) && RowOf(r, v, x)
    ensures u == v
  {
    MembersCarryKey(r, c, u, x);
    MembersCarryKey(r, c, v, x);
    UnitKeysMembers(r.rows);
    assert r.units[u] == UnitAt(r.rows, u, c) && r.units[v] == UnitAt(r.rows, v, c);
  }

  lemma SameRootSamePosition(root: seq<nat>, k: nat, j: nat)
    requires k < |Roots(root)| && j < |Roots(root)| && Roots(root)[k] == Roots(root)[j]
    ensures k == j
  {
    RootsUpToLaws(root, |root|);
  }

  /** The cluster at `k` holds a row exactly when the row's duplicate group ended there. */
  lemma HoldsExactly(inputs: seq<Input>, c: Contract, u: nat, x: Input, k: nat)
    requires Accepted(inputs, c) && RowOf(RunOn(inputs, c), u, x) && k < |Roots(RunOn(inputs, c).incidents.root)|
    ensures var r := RunOn(inputs, c);
            Holds(ClusterAt(r, k, c), x) <==> ClusterOfUnit(r, u) == Roots(r.incidents.root)[k]
  {
    var r := RunOn(inputs, c);
    MembersAreTheRows(r, c, k, x.sourceRowId);
    MembersCarryKey(r, c, u, x);
    if Holds(ClusterAt(r, k, c), x) {
      var row :| RowIn(r, row, k) && row.sourceRowId == x.sourceRowId;
      var w := UnitWithin(r, row, k);
      MembersCarryKey(r, c, w, row);
      SameIdIsSameRow(inputs, c, row, x);
      RowInOneUnit(r, c, u, w, x);
      UnitInOneCluster(r, u, k);
    }
    if ClusterOfUnit(r, u) == Roots(r.incidents.root)[k] {
      var j := UnitIsInItsCluster(r, u);
      SameRootSamePosition(r.incidents.root, j, k);
      var i :| 0 <= i < |ClusterUnits(r, k)| && ClusterUnits(r, k)[i] == u;
      assert RowIn(r, x, k);
    }
  }

  lemma UnitWithin(r: Run, row: Input, k: nat) returns (w: nat)
    requires WellShaped(r) && k < |Roots(r.incidents.root)| && RowIn(r, row, k)
    ensures RowOf(r, w, row) && w in ClusterUnits(r, k)
  {
    var i :| 0 <= i < |ClusterUnits(r, k)| && row in r.units[ClusterUnits(r, k)[i]].members;
    w := ClusterUnits(r, k)[i];
  }

  /** Two rows are returned in one cluster exactly when their duplicate groups ended in one component. */
  lemma ShareExactly(inputs: seq<Input>, c: Contract, u: nat, v: nat, x: Input, y: Input)
    requires Accepted(inputs, c) && OutcomeOf(inputs, c).Ok?
    requires RowOf(RunOn(inputs, c), u, x) && RowOf(RunOn(inputs, c), v, y)
    ensures var r := RunOn(inputs, c);
            ShareCluster(inputs, c, x, y) <==> ClusterOfUnit(r, u) == ClusterOfUnit(r, v)
  {
    var r := RunOn(inputs, c);
    if ShareCluster(inputs, c, x, y) {
      var cluster :| Returned(inputs, c, cluster) && Holds(cluster, x) && Holds(cluster, y);
      var k := ReturnedAt(inputs, c, cluster);
      HoldsExactly(inputs, c, u, x, k);
      HoldsExactly(inputs, c, v, y, k);
    }
    if ClusterOfUnit(r, u) == ClusterOfUnit(r, v) {
      var k := UnitIsInItsCluster(r, u);
      HoldsExactly(inputs, c, u, x, k);
      HoldsExactly(inputs, c, v, y, k);
      AtIsReturned(inputs, c, k);
    }
  }

  // ----------------------------------------------------------- main results

  /** Rows are returned in one cluster only through a chain of syndicated and supported pairs of their duplicate
      groups. */
  lemma ReturnedOnlyOnEvidence(inputs: seq<Input>, c: Contract, u: nat, v: nat, x: Input, y: Input)
    requires Accepted(inputs, c) && OutcomeOf(inputs, c).Ok? && ShareCluster(inputs, c, x, y)
    requires RowOf(RunOn(inputs, c), u, x) && RowOf(RunOn(inputs, c), v, y)
    ensures Linked(EvidenceLinks(RunOn(inputs, c), c), u, v)
  {
    ShareExactly(inputs, c, u, v, x, y);
    ClusteredOnlyOnEvidence(RunOn(inputs, c), c, u, v);
  }

  /** A pair the evidence joins, returned apart, puts `ClusterBoundReached` on every cluster that holds a row of
      either. */
  lemma ReturnedApartIsSaid(inputs: seq<Input>, c: Contract, u: nat, v: nat, x: Input, y: Input,
                            cluster: IncidentCluster)
    requires Accepted(inputs, c) && RowOf(RunOn(inputs, c), u, x) && RowOf(RunOn(inputs, c), v, y)
    requires Joined(RunOn(inputs, c), c, u, v) && !ShareCluster(inputs, c, x, y)
    requires Returned(inputs, c, cluster) && (Holds(cluster, x) || Holds(cluster, y))
    ensures ClusterBoundReached in cluster.reasonCodes
  {
    var r := RunOn(inputs, c);
    var k := ReturnedAt(inputs, c, cluster);
    HoldsExactly(inputs, c, u, x, k);
    HoldsExactly(inputs, c, v, y, k);
    ShareExactly(inputs, c, u, v, x, y);
    var w := if Holds(cluster, x) then u else v;
    UnmergedSupportIsSaid(r, c, u, v, w);
    var j: nat :| j < |Roots(r.incidents.root)| && Roots(r.incidents.root)[j] == ClusterOfUnit(r, w)
                  && w in ClusterUnits(r, j) && SaysBoundReached(r, j, c);
    SameRootSamePosition(r.incidents.root, j, k);
  }

  /** And the bound is the only reason: the two clusters are together over it. */
  lemma ReturnedApartAreTooHeavy(inputs: seq<Input>, c: Contract, u: nat, v: nat, x: Input, y: Input,
                                 left: IncidentCluster, right: IncidentCluster)
    requires Accepted(inputs, c) && RowOf(RunOn(inputs, c), u, x) && RowOf(RunOn(inputs, c), v, y)
    requires Joined(RunOn(inputs, c), c, u, v) && !ShareCluster(inputs, c, x, y)
    requires Returned(inputs, c, left) && Returned(inputs, c, right) && Holds(left, x) && Holds(right, y)
    ensures SizeLaws.ClusterWeight(left, c) + SizeLaws.ClusterWeight(right, c) > c.maximumClusterSize
  {
    var r := RunOn(inputs, c);
    var k := ReturnedAt(inputs, c, left);
    var j := ReturnedAt(inputs, c, right);
    HoldsExactly(inputs, c, u, x, k);
    HoldsExactly(inputs, c, v, y, j);
    ShareExactly(inputs, c, u, v, x, y);
    JoinedApartAreTooHeavy(r, c, u, v, k, j);
  }

  /** A joined pair with a row of one side in the cluster and a row of the other outside it. */
  ghost predicate CutsOff(inputs: seq<Input>, c: Contract, cluster: IncidentCluster, x: Input, y: Input) {
    exists u: nat, v: nat :: SplitsPair(inputs, c, cluster, x, y, u, v)
  }

  ghost predicate SplitsPair(inputs: seq<Input>, c: Contract, cluster: IncidentCluster, x: Input, y: Input,
                             u: nat, v: nat)
  {
    && RowOf(RunOn(inputs, c), u, x) && RowOf(RunOn(inputs, c), v, y) && Joined(RunOn(inputs, c), c, u, v)
    && Holds(cluster, x) != Holds(cluster, y)
  }

  lemma CutIsSaid(inputs: seq<Input>, c: Contract, k: nat, x: Input, y: Input, u: nat, v: nat)
    requires Accepted(inputs, c) && k < |Roots(RunOn(inputs, c).incidents.root)|
    requires SplitsPair(inputs, c, ClusterAt(RunOn(inputs, c), k, c), x, y, u, v)
    ensures ClusterBoundReached in ClusterAt(RunOn(inputs, c), k, c).reasonCodes
  {
    var r := RunOn(inputs, c);
    HoldsExactly(inputs, c, u, x, k);
    HoldsExactly(inputs, c, v, y, k);
    var w := if Holds(ClusterAt(r, k, c), x) then u else v;
    UnmergedSupportIsSaid(r, c, u, v, w);
    var j: nat :| j < |Roots(r.incidents.root)| && Roots(r.incidents.root)[j] == ClusterOfUnit(r, w)
                  && w in ClusterUnits(r, j) && SaysBoundReached(r, j, c);
    SameRootSamePosition(r.incidents.root, j, k);
  }

  lemma CutHasRows(inputs: seq<Input>, c: Contract, k: nat, u: nat, v: nat)
    requires Accepted(inputs, c) && k < |Roots(RunOn(inputs, c).incidents.root)| && CutAt(RunOn(inputs, c), c, k, u, v)
    ensures exists x, y :: CutsOff(inputs, c, ClusterAt(RunOn(inputs, c), k, c), x, y)
  {
    var r := RunOn(inputs, c);
    var x, y := r.units[u].members[0], r.units[v].members[0];
    HoldsExactly(inputs, c, u, x, k);
    HoldsExactly(inputs, c, v, y, k);
    assert SplitsPair(inputs, c, ClusterAt(r, k, c), x, y, u, v);
    assert CutsOff(inputs, c, ClusterAt(r, k, c), x, y);
  }

  /** Main result: a returned cluster carries `ClusterBoundReached` exactly when it is over the bound itself, or the
      bound cut a joined pair of it off. */
  lemma BoundReachedExactly(inputs: seq<Input>, c: Contract, cluster: IncidentCluster)
    requires Accepted(inputs, c) && Returned(inputs, c, cluster)
    ensures ClusterBoundReached in cluster.reasonCodes <==>
            || SizeLaws.ClusterWeight(cluster, c) > c.maximumClusterSize
            || exists x, y :: CutsOff(inputs, c, cluster, x, y)
  {
    var k := ReturnedAt(inputs, c, cluster);
    if SizeLaws.ClusterWeight(cluster, c) > c.maximumClusterSize { SizeLaws.ClusterBoundHolds(inputs, c, cluster); }
    if x, y :| CutsOff(inputs, c, cluster, x, y) {
      var u: nat, v: nat :| SplitsPair(inputs, c, cluster, x, y, u, v);
      CutIsSaid(inputs, c, k, x, y, u, v);
    }
    if ClusterBoundReached in cluster.reasonCodes {
      BoundReachedHasItsCause(RunOn(inputs, c), c, k);
      if u, v :| CutAt(RunOn(inputs, c), c, k, u, v) { CutHasRows(inputs, c, k, u, v); }
    }
  }

  /** With `boundsReached` zero, two rows are returned in one cluster exactly when comparing all pairs links them. */
  lemma ReturnedExhaustively(inputs: seq<Input>, c: Contract, u: nat, v: nat, x: Input, y: Input)
    requires Accepted(inputs, c) && OutcomeOf(inputs, c).Ok? && OutcomeOf(inputs, c).value.stats.boundsReached == 0
    requires RowOf(RunOn(inputs, c), u, x) && RowOf(RunOn(inputs, c), v, y)
    ensures ShareCluster(inputs, c, x, y) <==> Linked(AllPairsLinks(RunOn(inputs, c), c), u, v)
  {
    ShareExactly(inputs, c, u, v, x, y);
    UnboundedRunIsExhaustive(RunOn(inputs, c), c, u, v);
  }

  lemma CountsReports(inputs: seq<Input>, c: Contract, cluster: IncidentCluster) returns (k: nat)
    requires Returned(inputs, c, cluster) && cluster.syndicationGroupCount > 1
    ensures k < |Roots(RunOn(inputs, c).incidents.root)| && cluster == ClusterAt(RunOn(inputs, c), k, c)
    ensures |ClusterReports(RunOn(inputs, c), k)| > 1
  {
    k := ReturnedAt(inputs, c, cluster);
  }

  /** A returned cluster joining more than one report says how its times relate. */
  lemma ReturnedSaysItsTimes(inputs: seq<Input>, c: Contract, cluster: IncidentCluster)
    requires Returned(inputs, c, cluster) && cluster.syndicationGroupCount > 1
    ensures TimeProximity in cluster.reasonCodes || TimestampAbsent in cluster.reasonCodes
  {
    var k := CountsReports(inputs, c, cluster);
    JoinedClusterHasTimeCode(RunOn(inputs, c), c, k);
  }

  /** It says that they met, and only that, under a contract that keeps rows without a timestamp apart, and whenever
      every eligible row has one. */
  lemma ReturnedIsTimed(inputs: seq<Input>, c: Contract, cluster: IncidentCluster)
    requires Returned(inputs, c, cluster) && cluster.syndicationGroupCount > 1
    requires c.missingTimestampBehaviour == KeepSeparate
             || forall row :: row in EligibleRows(inputs, c) ==> row.postedAt.Some?
    ensures TimeProximity in cluster.reasonCodes && TimestampAbsent !in cluster.reasonCodes
  {
    var r := RunOn(inputs, c);
    var k := CountsReports(inputs, c, cluster);
    if c.missingTimestampBehaviour == KeepSeparate {
      SeparatedIsTimed(r, c, k);
    } else {
      MultisetMembers(EligibleRows(inputs, c), r.rows);
      TimedRowsTimeReports(r, c);
      TimedReportsAreTimed(r, c, k);
    }
  }

  // -------------------------------------------------------------------- links

  /** The near misses of a run, as links in the order of its candidates. */
  ghost function NearMissesOf(r: Run, c: Contract): seq<AmbiguousLink> {
    LinkLaws.NearMissLinks(r.reports, r.stage3.pairs, c)
  }

  /** The links returned are the first near misses, as many as the contract allows, sorted by their ends; all of them
      when `boundsReached` is zero. */
  lemma ReturnedLinksAreTheFirst(inputs: seq<Input>, c: Contract)
    requires OutcomeOf(inputs, c).Ok?
    ensures var r, returned := RunOn(inputs, c), OutcomeOf(inputs, c).value;
            && returned.ambiguousLinks == Sort(Take(NearMissesOf(r, c), c.maximumAmbiguousLinks), ByEnds())
            && (returned.stats.boundsReached == 0 ==> multiset(returned.ambiguousLinks) == multiset(NearMissesOf(r, c)))
  {
    var r := RunOn(inputs, c);
    LinkLaws.LinksAreTheFirst(r.reports, r.stage3.pairs, c);
    if r.links.full == 0 { LinkLaws.AllAreRecorded(r.reports, r.stage3.pairs, c); }
  }

  // --------------------------------------------------------------------- rows

  /** The duplicate group an eligible row is in. */
  lemma UnitOfRow(inputs: seq<Input>, c: Contract, x: Input) returns (u: nat)
    requires x in EligibleRows(inputs, c)
    ensures RowOf(RunOn(inputs, c), u, x)
  {
    MultisetMembers(EligibleRows(inputs, c), RunOn(inputs, c).rows);
    u := RowHasUnit(RunOn(inputs, c), c, x);
  }

  /** Every eligible row is held by exactly one of the clusters returned. */
  lemma EachRowInOneCluster(inputs: seq<Input>, c: Contract, x: Input) returns (cluster: IncidentCluster)
    requires Accepted(inputs, c) && OutcomeOf(inputs, c).Ok? && x in EligibleRows(inputs, c)
    ensures Returned(inputs, c, cluster) && Holds(cluster, x)
    ensures forall other :: Returned(inputs, c, other) && Holds(other, x) ==> other == cluster
  {
    var r := RunOn(inputs, c);
    var u := UnitOfRow(inputs, c, x);
    var k := UnitIsInItsCluster(r, u);
    cluster := ClusterAt(r, k, c);
    HoldsExactly(inputs, c, u, x, k);
    AtIsReturned(inputs, c, k);
    forall other | Returned(inputs, c, other) && Holds(other, x) ensures other == cluster {
      var j := ReturnedAt(inputs, c, other);
      HoldsExactly(inputs, c, u, x, j);
      SameRootSamePosition(r.incidents.root, j, k);
    }
  }

  /** A row the cluster at `k` holds is a row of one of its duplicate groups. */
  lemma HeldIsIn(inputs: seq<Input>, c: Contract, x: Input, k: nat)
    requires Accepted(inputs, c) && x in EligibleRows(inputs, c) && k < |Roots(RunOn(inputs, c).incidents.root)|
    requires Holds(ClusterAt(RunOn(inputs, c), k, c), x)
    ensures RowIn(RunOn(inputs, c), x, k)
  {
    var r := RunOn(inputs, c);
    var u := UnitOfRow(inputs, c, x);
    HoldsExactly(inputs, c, u, x, k);
    var j := UnitIsInItsCluster(r, u);
    SameRootSamePosition(r.incidents.root, j, k);
    var i :| 0 <= i < |ClusterUnits(r, k)| && ClusterUnits(r, k)[i] == u;
  }

  /** Rows are returned in one cluster only through a chain of shared URL groups, syndicated pairs and supported
      pairs. */
  lemma ReturnedRowsAreTied(inputs: seq<Input>, c: Contract, x: Input, y: Input)
    requires Accepted(inputs, c) && x in EligibleRows(inputs, c) && y in EligibleRows(inputs, c)
    requires ShareCluster(inputs, c, x, y)
    ensures Linked(RowLinks(RunOn(inputs, c), c), x, y)
  {
    var cluster :| Returned(inputs, c, cluster) && Holds(cluster, x) && Holds(cluster, y);
    var k := ReturnedAt(inputs, c, cluster);
    HeldIsIn(inputs, c, x, k);
    HeldIsIn(inputs, c, y, k);
    RowsClusteredOnlyOnEvidence(RunOn(inputs, c), c, k, x, y);
  }

  lemma RowInIsEligible(inputs: seq<Input>, c: Contract, x: Input, k: nat)
    requires k < |Roots(RunOn(inputs, c).incidents.root)| && RowIn(RunOn(inputs, c), x, k)
    ensures x in EligibleRows(inputs, c)
  {
    var r := RunOn(inputs, c);
    var u := UnitWithin(r, x, k);
    MembersCarryKey(r, c, u, x);
    MultisetMembers(EligibleRows(inputs, c), r.rows);
  }

  lemma RowInIsGathered(r: Run, x: Input, k: nat)
    requires WellShaped(r) && k < |Roots(r.incidents.root)|
    ensures x in Gather<Input>(ConservationLaws.GroupedRows(r.units), ClusterUnits(r, k)) <==> RowIn(r, x, k)
  {
    GatherMembers<Input>(ConservationLaws.GroupedRows(r.units), ClusterUnits(r, k), x);
  }

  /** The representative a returned cluster names is one of its rows, and the first of them all under the contract's
      rule. */
  lemma ReturnedRepresentativeIsFirst(inputs: seq<Input>, c: Contract, cluster: IncidentCluster) returns (best: Input)
    requires Accepted(inputs, c) && Returned(inputs, c, cluster)
    ensures best in EligibleRows(inputs, c) && Holds(cluster, best)
    ensures cluster.representativeSourceRowId == best.sourceRowId
    ensures forall y :: y in EligibleRows(inputs, c) && Holds(cluster, y) ==> Before(best, y, c.representativeRule)
  {
    var r := RunOn(inputs, c);
    var k := ReturnedAt(inputs, c, cluster);
    best := ClusterRepresentative(r, k, c);
    ClusterRepresentativeIsFirst(r, c, k);
    RowInIsGathered(r, best, k);
    RowInIsEligible(inputs, c, best, k);
    MembersAreTheRows(r, c, k, best.sourceRowId);
    forall y | y in EligibleRows(inputs, c) && Holds(cluster, y) ensures Before(best, y, c.representativeRule) {
      HeldIsIn(inputs, c, y, k);
      RowInIsGathered(r, y, k);
    }
  }

  /** A member record of a returned cluster is that of the eligible row it names. */
  lemma ReturnedMembersAreTheRows(inputs: seq<Input>, c: Contract, cluster: IncidentCluster, m: ClusterMember)
    returns (row: Input)
    requires Returned(inputs, c, cluster) && m in cluster.members
    ensures row in EligibleRows(inputs, c)
    ensures Records(m, row)
    ensures m.duplicateFingerprint == c.fingerprintOf([DUPLICATE_TAG, DuplicateKey(row)])
  {
    var r := RunOn(inputs, c);
    var k := ReturnedAt(inputs, c, cluster);
    var u;
    row, u := MemberHasRow(r, c, k, m);
    RowInIsEligible(inputs, c, row, k);
    MembersCarryKey(r, c, u, row);
    assert r.units[u] == UnitAt(r.rows, u, c);
  }

  // ------------------------------------------------------- the report of a member

  /** The key of some duplicate group syndicated with group `u`. */
  ghost predicate IsReportKey(r: Run, u: nat, key: Text)
    requires u < |r.units| == |r.syndication.root|
  {
    exists v :: 0 <= v < |r.units| && r.syndication.root[v] == r.syndication.root[u] && r.units[v].key == key
  }

  /** The keys of the duplicate groups syndicated with group `u`, each once and in order. */
  ghost predicate AreReportKeys(r: Run, u: nat, keys: seq<Text>)
    requires u < |r.units| == |r.syndication.root|
  {
    && Sorted(keys, TextOrder()) && NoDuplicates(keys)
    && forall key :: key in keys <==> IsReportKey(r, u, key)
  }

  lemma DifferentUnitsDifferentKeys(r: Run, c: Contract, u: nat, v: nat)
    requires IsRun(r, c) && u < v < |r.units|
    ensures r.units[u].key != r.units[v].key
  {
    UnitKeysMembers(r.rows);
    assert r.units[u] == UnitAt(r.rows, u, c) && r.units[v] == UnitAt(r.rows, v, c);
  }

  lemma KeysDiffer(r: Run, c: Contract, idx: seq<nat>)
    requires IsRun(r, c) && IndexesInto(idx, |r.units|)
    requires forall i, j :: 0 <= i < j < |idx| ==> idx[i] < idx[j]
    ensures NoDuplicates(KeysOfUnits(r.units, idx))
  {
    var keys := KeysOfUnits(r.units, idx);
    forall i, j | 0 <= i < j < |keys| ensures keys[i] != keys[j] {
      DifferentUnitsDifferentKeys(r, c, idx[i], idx[j]);
    }
  }

  lemma KeyIsOfUnit(r: Run, u: nat, idx: seq<nat>, key: Text)
    requires u < |r.units| == |r.syndication.root| && IndexesInto(idx, |r.units|)
    requires idx == Members(r.syndication.root, r.syndication.root[u])
    ensures key in KeysOfUnits(r.units, idx) <==> IsReportKey(r, u, key)
  {
    var keys := KeysOfUnits(r.units, idx);
    MembersLaws(r.syndication.root, r.syndication.root[u]);
    if key in keys {
      var i :| 0 <= i < |keys| && keys[i] == key;
      assert idx[i] in idx;
    }
    if IsReportKey(r, u, key) {
      var v :| 0 <= v < |r.units| && r.syndication.root[v] == r.syndication.root[u] && r.units[v].key == key;
      var i :| 0 <= i < |idx| && idx[i] == v;
      assert keys[i] == key;
    }
  }

  lemma SortedKeys(r: Run, c: Contract, idx: seq<nat>, keys: seq<Text>)
    requires IsRun(r, c) && IndexesInto(idx, |r.units|)
    requires forall i, j :: 0 <= i < j < |idx| ==> idx[i] < idx[j]
    requires keys == Sort(KeysOfUnits(r.units, idx), TextOrder())
    ensures Sorted(keys, TextOrder()) && NoDuplicates(keys)
    ensures forall key :: key in keys <==> key in KeysOfUnits(r.units, idx)
  {
    var unsorted := KeysOfUnits(r.units, idx);
    TextOrderIsTotal();
    SortSorted(unsorted, TextOrder());
    MultisetMembers(unsorted, keys);
    KeysDiffer(r, c, idx);
    MultisetNoDuplicates(unsorted, keys);
  }

  lemma KeysInOrder(r: Run, c: Contract, u: nat, idx: seq<nat>, keys: seq<Text>)
    requires IsRun(r, c) && u < |r.units| && idx == Members(r.syndication.root, r.syndication.root[u])
    requires IndexesInto(idx, |r.units|) && keys == Sort(KeysOfUnits(r.units, idx), TextOrder())
    ensures AreReportKeys(r, u, keys)
  {
    MembersLaws(r.syndication.root, r.syndication.root[u]);
    SortedKeys(r, c, idx, keys);
    forall key ensures key in keys <==> IsReportKey(r, u, key) {
      KeyIsOfUnit(r, u, idx, key);
    }
  }

  lemma ReportIsNamed(r: Run, c: Contract, u: nat) returns (keys: seq<Text>)
    requires IsRun(r, c) && u < |r.units| && PositionOf(r.syndication.root, u) < |r.reports|
    ensures AreReportKeys(r, u, keys)
    ensures r.reports[PositionOf(r.syndication.root, u)].fingerprint == c.fingerprintOf([SYNDICATION_TAG] + keys)
  {
    var root, at := r.syndication.root, PositionOf(r.syndication.root, u);
    PositionLaws(root, u);
    MembersLaws(root, root[u]);
    assert r.reports[at] == ReportAt(r.units, root, at, c);
    keys := Sort(KeysOfUnits(r.units, Members(root, root[u])), TextOrder());
    KeysInOrder(r, c, u, Members(root, root[u]), keys);
  }

  /** A member record of a returned cluster names the report of its row: every duplicate group syndicated with the
      row's own, by key. */
  lemma ReturnedMembersNameTheirReport(inputs: seq<Input>, c: Contract, cluster: IncidentCluster, m: ClusterMember)
    returns (u: nat, row: Input, keys: seq<Text>)
    requires Returned(inputs, c, cluster) && m in cluster.members
    ensures Records(m, row) && RowOf(RunOn(inputs, c), u, row) && AreReportKeys(RunOn(inputs, c), u, keys)
    ensures m.syndicationFingerprint == c.fingerprintOf([SYNDICATION_TAG] + keys)
  {
    var r := RunOn(inputs, c);
    var k := ReturnedAt(inputs, c, cluster);
    row, u := MemberHasReport(r, c, k, m);
    keys := ReportIsNamed(r, c, u);
  }
}
