/** What the time codes of a cluster say about the merges inside it. */
module TimeLaws {
  import opened Partitions
  import opened Components
  import opened Sequences
  import opened Merging
  import opened Clusters
  import opened Stages
  import opened Runs
  import opened EvidenceLaws
  import RowLaws

  lemma TimeCodes(r: Run, k: nat, c: Contract)
    requires WellShaped(r) && k < |Roots(r.incidents.root)|
    ensures var root := Roots(r.incidents.root)[k];
            var joined := |ClusterReports(r, k)| > 1;
            && (TimeProximity in CodesOf(r, k, c) <==>
                  joined && root in RootsRecorded(r.reports, r.incidents.unions, true))
            && (TimestampAbsent in CodesOf(r, k, c) <==>
                  joined && root in RootsRecorded(r.reports, r.incidents.unions, false))
  {
    OnlySignalCodes(r, k, c, TimeProximity);
    OnlySignalCodes(r, k, c, TimestampAbsent);
    SignalsSayTimes(r, k);
  }

  lemma SignalsSayTimes(r: Run, k: nat)
    requires WellShaped(r) && k < |Roots(r.incidents.root)|
    ensures var root := Roots(r.incidents.root)[k];
            var joined := |ClusterReports(r, k)| > 1;
            && (TimeProximity in SignalCodes(r, k) <==>
                  joined && root in RootsRecorded(r.reports, r.incidents.unions, true))
            && (TimestampAbsent in SignalCodes(r, k) <==>
                  joined && root in RootsRecorded(r.reports, r.incidents.unions, false))
  {}

  lemma OnlySignalCodes(r: Run, k: nat, c: Contract, code: ReasonCode)
    requires WellShaped(r) && k < |Roots(r.incidents.root)|
    requires code == TimeProximity || code == TimestampAbsent
    ensures code in CodesOf(r, k, c) <==> code in SignalCodes(r, k)
  {
    ShapeSaysNoTime(r, k, code);
    BoundSaysNoTime(r, k, c, code);
  }

  lemma ShapeSaysNoTime(r: Run, k: nat, code: ReasonCode)
    requires WellShaped(r) && k < |Roots(r.incidents.root)| && (code == TimeProximity || code == TimestampAbsent)
    ensures code !in ShapeCodes(r, k)
  {}

  lemma BoundSaysNoTime(r: Run, k: nat, c: Contract, code: ReasonCode)
    requires WellShaped(r) && k < |Roots(r.incidents.root)| && (code == TimeProximity || code == TimestampAbsent)
    ensures code !in BoundCodes(r, k, c)
  {}

  /** A component of several reports holds one that is not its root. */
  lemma AnotherReport(r: Run, k: nat) returns (i: nat)
    requires WellShaped(r) && k < |Roots(r.incidents.root)| && |ClusterReports(r, k)| > 1
    ensures i < |r.reports| && i != Roots(r.incidents.root)[k] && r.incidents.root[i] == Roots(r.incidents.root)[k]
  {
    var root, list := Roots(r.incidents.root)[k], ClusterReports(r, k);
    MembersLaws(r.incidents.root, root);
    i := if list[0] == root then list[1] else list[0];
    assert list[0] in list && list[1] in list && list[0] < list[1];
  }

  lemma RecordedUnion(reports: seq<Report>, unions: seq<Union>, u: Union)
    requires u in unions
    ensures u.root in RootsRecorded(reports, unions, TimedPair(reports, u))
  {
    var at :| 0 <= at < |unions| && unions[at] == u;
  }

  /** Main result: a cluster joining more than one report says how its times relate. */
  lemma JoinedClusterHasTimeCode(r: Run, c: Contract, k: nat)
    requires IsRun(r, c) && k < |Roots(r.incidents.root)| && |ClusterReports(r, k)| > 1
    ensures TimeProximity in ClusterAt(r, k, c).reasonCodes || TimestampAbsent in ClusterAt(r, k, c).reasonCodes
  {
    var i := AnotherReport(r, k);
    JoinedComponentIsRecorded(r.reportWeights, c.maximumClusterSize, SupportedPairs(r.reports, r.stage3.pairs, c), i);
    var u :| u in r.incidents.unions && u.root == Roots(r.incidents.root)[k];
    RecordedUnion(r.reports, r.incidents.unions, u);
    TimeCodes(r, k, c);
  }

  /** A union of the run that is recorded under the root of cluster `k` joined two of its reports on their evidence. */
  lemma UnionOfCluster(r: Run, c: Contract, k: nat, at: nat)
    requires IsRun(r, c) && k < |Roots(r.incidents.root)| && at < |r.incidents.unions|
    requires r.incidents.unions[at].root == Roots(r.incidents.root)[k]
    ensures var u := r.incidents.unions[at];
            && u.left in ClusterReports(r, k) && u.right in ClusterReports(r, k)
            && u.left < |r.reports| && u.right < |r.reports|
            && (u.left, u.right) in r.stage3.pairs && EvidenceOf(r.reports, u.left, u.right, c).Supported()
  {
    var u, root := r.incidents.unions[at], Roots(r.incidents.root)[k];
    var pairs := SupportedPairs(r.reports, r.stage3.pairs, c);
    UnionsStayInside(r.reportWeights, c.maximumClusterSize, pairs);
    assert u in r.incidents.unions;
    PairSetMembers(pairs, (u.left, u.right));
    SupportedPairsMembers(r.reports, r.stage3.pairs, c, (u.left, u.right));
    RootsUpToLaws(r.incidents.root, |r.incidents.root|);
    assert root in Roots(r.incidents.root);
    MembersLaws(r.incidents.root, root);
  }

  /** Main result: a time code is never said without a merge to show for it: `TimeProximity` needs two reports of the
      cluster that were united with both timestamps inside the window, `TimestampAbsent` two that were united without
      one under a contract that allows it. */
  lemma TimeCodeHasItsMerge(r: Run, c: Contract, k: nat, timed: bool) returns (a: nat, b: nat)
    requires IsRun(r, c) && k < |Roots(r.incidents.root)|
    requires (if timed then TimeProximity else TimestampAbsent) in ClusterAt(r, k, c).reasonCodes
    ensures a in ClusterReports(r, k) && b in ClusterReports(r, k) && a < |r.reports| && b < |r.reports|
    ensures (a, b) in UnionPairs(r.incidents.unions)
    ensures (a, b) in r.stage3.pairs && EvidenceOf(r.reports, a, b, c).Supported()
    ensures EvidenceOf(r.reports, a, b, c).bothTimed == timed
    ensures timed ==>
              Apart(r.reports[a].earliest.value, r.reports[b].earliest.value) as real
              <= c.timeWindowHours * 3600.0 * 1000.0
    ensures !timed ==> c.missingTimestampBehaviour == Allow
  {
    TimeCodes(r, k, c);
    var at := RecordedAt(r, Roots(r.incidents.root)[k], timed);
    a, b := r.incidents.unions[at].left, r.incidents.unions[at].right;
    UnionOfCluster(r, c, k, at);
    assert UnionPairs(r.incidents.unions)[at] == (a, b);
  }

  lemma RecordedAt(r: Run, root: nat, timed: bool) returns (at: nat)
    requires root in RootsRecorded(r.reports, r.incidents.unions, timed)
    ensures at < |r.incidents.unions| && r.incidents.unions[at].root == root
    ensures TimedPair(r.reports, r.incidents.unions[at]) == timed
  {
    at :| 0 <= at < |r.incidents.unions| && TimedPair(r.reports, r.incidents.unions[at]) == timed
          && r.incidents.unions[at].root == root;
  }

  // ------------------------------------------------- when the times are said in full

  /** What a cluster of reports that all met in time should say, and only that. */
  ghost predicate SaysTimed(codes: seq<ReasonCode>) { TimeProximity in codes && TimestampAbsent !in codes }

  /** Under a contract that keeps reports without a timestamp apart, every joined cluster says its times met. */
  lemma SeparatedIsTimed(r: Run, c: Contract, k: nat)
    requires IsRun(r, c) && k < |Roots(r.incidents.root)| && |ClusterReports(r, k)| > 1
    requires c.missingTimestampBehaviour == KeepSeparate
    ensures SaysTimed(ClusterAt(r, k, c).reasonCodes)
  {
    JoinedClusterHasTimeCode(r, c, k);
    if TimestampAbsent in ClusterAt(r, k, c).reasonCodes { var a, b := TimeCodeHasItsMerge(r, c, k, false); }
  }

  /** So does every joined cluster of a run whose reports all have a timestamp. */
  lemma TimedReportsAreTimed(r: Run, c: Contract, k: nat)
    requires IsRun(r, c) && k < |Roots(r.incidents.root)| && |ClusterReports(r, k)| > 1
    requires forall i :: 0 <= i < |r.reports| ==> r.reports[i].earliest.Some?
    ensures SaysTimed(ClusterAt(r, k, c).reasonCodes)
  {
    JoinedClusterHasTimeCode(r, c, k);
    if TimestampAbsent in ClusterAt(r, k, c).reasonCodes { var a, b := TimeCodeHasItsMerge(r, c, k, false); }
  }

  lemma {:induction false} EarliestOfTimed(units: seq<Unit>, idx: seq<nat>)
    requires IndexesInto(idx, |units|) && idx != []
    requires forall i :: 0 <= i < |units| ==> units[i].postedAt.Some?
    ensures EarliestTime(units, idx).Some?
  {
    var init := idx[..|idx| - 1];
    assert IndexesInto(init, |units|);
    if init != [] { EarliestOfTimed(units, init); }
  }

  /** Rows that all have a timestamp make reports that all have one. */
  lemma TimedRowsTimeReports(r: Run, c: Contract)
    requires IsRun(r, c) && forall row :: row in r.rows ==> row.postedAt.Some?
    ensures forall i :: 0 <= i < |r.reports| ==> r.reports[i].earliest.Some?
  {
    forall u | 0 <= u < |r.units| ensures r.units[u].postedAt.Some? { TimedUnit(r, c, u); }
    forall i | 0 <= i < |r.reports| ensures r.reports[i].earliest.Some? {
      var root := Roots(r.syndication.root)[i];
      MembersLaws(r.syndication.root, root);
      RootsUpToLaws(r.syndication.root, |r.syndication.root|);
      assert root in Roots(r.syndication.root);
      assert root in Members(r.syndication.root, root);
      assert r.reports[i] == ReportAt(r.units, r.syndication.root, i, c);
      EarliestOfTimed(r.units, Members(r.syndication.root, root));
    }
  }

  lemma TimedUnit(r: Run, c: Contract, u: nat)
    requires IsRun(r, c) && u < |r.units| && forall row :: row in r.rows ==> row.postedAt.Some?
    ensures r.units[u].postedAt.Some?
  {
    RowLaws.UnitRepresentativeIsFirst(r, c, u);
    RowLaws.MembersCarryKey(r, c, u, r.units[u].representative);
    assert r.units[u] == UnitAt(r.rows, u, c);
  }

  /** Exactly when it is said: some timed merge happened after, or by, joining in the least report of the cluster. */
  lemma TimeProximityExactly(r: Run, c: Contract, k: nat)
    requires IsRun(r, c) && k < |Roots(r.incidents.root)|
    ensures TimeProximity in ClusterAt(r, k, c).reasonCodes <==>
            exists i :: 0 <= i < |r.incidents.unions| && TimedPair(r.reports, r.incidents.unions[i])
                        && Linked(PairSet(UnionPairs(r.incidents.unions[..i + 1])), r.incidents.unions[i].left,
                                  Roots(r.incidents.root)[k])
  {
    RootIsItsOwn(r, k);
    TimeCodes(r, k, c);
    RecordedExactly(r, c, Roots(r.incidents.root)[k]);
    if Roots(r.incidents.root)[k] in RootsRecorded(r.reports, r.incidents.unions, true) { RecordedIsJoined(r, c, k); }
  }

  lemma RootIsItsOwn(r: Run, k: nat)
    requires WellShaped(r) && k < |Roots(r.incidents.root)|
    ensures var root := Roots(r.incidents.root)[k]; root < |r.incidents.root| && r.incidents.root[root] == root
  {
    RootsUpToLaws(r.incidents.root, |r.incidents.root|);
    assert Roots(r.incidents.root)[k] in Roots(r.incidents.root);
  }

  /** A timed union is recorded under a final root exactly when by then its component had reached that root. */
  lemma RecordedExactly(r: Run, c: Contract, root: nat)
    requires IsRun(r, c) && root < |r.incidents.root| && r.incidents.root[root] == root
    ensures root in RootsRecorded(r.reports, r.incidents.unions, true) <==>
            exists i :: 0 <= i < |r.incidents.unions| && TimedPair(r.reports, r.incidents.unions[i])
                        && Linked(PairSet(UnionPairs(r.incidents.unions[..i + 1])), r.incidents.unions[i].left, root)
  {
    var unions, pairs := r.incidents.unions, SupportedPairs(r.reports, r.stage3.pairs, c);
    forall i: nat | i < |unions|
      ensures unions[i].root == root <==> Linked(PairSet(UnionPairs(unions[..i + 1])), unions[i].left, root)
    {
      RecordedUnderFinalRoot(r.reportWeights, c.maximumClusterSize, pairs, i, root);
    }
  }

  lemma RecordedIsJoined(r: Run, c: Contract, k: nat)
    requires IsRun(r, c) && k < |Roots(r.incidents.root)|
    requires Roots(r.incidents.root)[k] in RootsRecorded(r.reports, r.incidents.unions, true)
    ensures |ClusterReports(r, k)| > 1
  {
    var i := RecordedAt(r, Roots(r.incidents.root)[k], true);
    RecordedClusterIsJoined(r, c, k, i);
  }

  lemma RecordedClusterIsJoined(r: Run, c: Contract, k: nat, i: nat)
    requires IsRun(r, c) && k < |Roots(r.incidents.root)| && i < |r.incidents.unions|
    requires r.incidents.unions[i].root == Roots(r.incidents.root)[k]
    ensures |ClusterReports(r, k)| > 1
  {
    var root, u := Roots(r.incidents.root)[k], r.incidents.unions[i];
    var pairs := SupportedPairs(r.reports, r.stage3.pairs, c);
    UnionsStayInside(r.reportWeights, c.maximumClusterSize, pairs);
    assert u in r.incidents.unions;
    RootsUpToLaws(r.incidents.root, |r.incidents.root|);
    assert root in Roots(r.incidents.root);
    assert r.incidents.root[u.left] == root && r.incidents.root[u.right] == root;
    UnionsJoinDifferentNodes(r.reportWeights, c.maximumClusterSize, pairs, i);
    TwoReports(r, k, u.left, u.right);
  }

  lemma TwoReports(r: Run, k: nat, a: nat, b: nat)
    requires WellShaped(r) && k < |Roots(r.incidents.root)| && a < |r.reports| && b < |r.reports| && a != b
    requires r.incidents.root[a] == r.incidents.root[b] == Roots(r.incidents.root)[k]
    ensures |ClusterReports(r, k)| > 1
  {
    MembersLaws(r.incidents.root, Roots(r.incidents.root)[k]);
    assert a in ClusterReports(r, k) && b in ClusterReports(r, k);
  }

  lemma {:induction false} UnionsJoinDifferentNodes(weights: seq<nat>, maximum: nat, pairs: seq<Pair>, i: nat)
    requires Within(pairs, |weights|) && i < |MergeAll(weights, maximum, pairs).unions|
    ensures var u := MergeAll(weights, maximum, pairs).unions[i]; u.left != u.right
  {
    var init := pairs[..|pairs| - 1];
    if i < |MergeAll(weights, maximum, init).unions| {
      UnionsJoinDifferentNodes(weights, maximum, init, i);
    }
  }
}
