/** What the fields of a returned cluster and of a returned link say about the rows. */
module ClusterLaws {
  import opened Texts
  import opened Sorting
  import opened Sequences
  import opened Partitions
  import opened Components
  import opened Blocking
  import opened Similarity
  import opened Clusters
  import opened Stages
  import opened Runs
  import opened EvidenceLaws
  import opened RowLaws
  import opened SupportLaws
  import opened OutcomeLaws
  import BlockingLaws
  import ConservationLaws
  import LinkLaws

  // ---------------------------------------------------------------- why rows meet

  ghost function TiedPairs(r: Run, c: Contract): set<Pair>
    requires WellShaped(r)
  {
    set u: nat, v: nat | u < |r.units| && v < |r.units| && Tied(r, c, u, v) :: (u, v)
  }

  lemma EvidenceIsTied(r: Run, c: Contract)
    requires IsRun(r, c)
    ensures EvidenceLinks(r, c) == TiedPairs(r, c)
  {
    forall p ensures p in EvidenceLinks(r, c) <==> p in TiedPairs(r, c) {
      if p.0 < |r.units| && p.1 < |r.units| { JoinedExactly(r, c, p.0, p.1); }
    }
    SameSet(EvidenceLinks(r, c), TiedPairs(r, c));
  }

  /** Main result: rows are returned in one cluster only through a chain of duplicate groups, each alike in shingles
      with the next, or in a report that has enough tokens, enough rare ones and its time in common with the next. */
  lemma ReturnedOnlyOnSharedSignals(inputs: seq<Input>, c: Contract, u: nat, v: nat, x: Input, y: Input)
    requires Accepted(inputs, c) && OutcomeOf(inputs, c).Ok? && ShareCluster(inputs, c, x, y)
    requires RowOf(RunOn(inputs, c), u, x) && RowOf(RunOn(inputs, c), v, y)
    ensures Linked(TiedPairs(RunOn(inputs, c), c), u, v)
  {
    ReturnedOnlyOnEvidence(inputs, c, u, v, x, y);
    EvidenceIsTied(RunOn(inputs, c), c);
  }

  /** The rows of two duplicate groups whose reports have enough in common. */
  ghost predicate ReportsMeet(r: Run, c: Contract, u: nat, v: nat)
    requires WellShaped(r) && u < |r.units| && v < |r.units|
  {
    ReportOfUnit(r, u) != ReportOfUnit(r, v) && Supports(r.reports, ReportOfUnit(r, u), ReportOfUnit(r, v), c)
  }

  /** Main result: in a returned cluster of several reports, every row meets a row of another report of it: their
      reports share enough tokens and enough rare ones, are alike, and are near in time. */
  lemma EachRowMeetsAnother(inputs: seq<Input>, c: Contract, cluster: IncidentCluster, u: nat, x: Input)
    returns (v: nat, y: Input)
    requires Accepted(inputs, c) && Returned(inputs, c, cluster) && cluster.syndicationGroupCount > 1
    requires RowOf(RunOn(inputs, c), u, x) && Holds(cluster, x)
    ensures RowOf(RunOn(inputs, c), v, y) && Holds(cluster, y) && ReportsMeet(RunOn(inputs, c), c, u, v)
  {
    var k := CountsReports(inputs, c, cluster);
    HoldsExactly(inputs, c, u, x, k);
    v := AnotherGroupMet(RunOn(inputs, c), c, k, u);
    y := FirstRowIsHeld(inputs, c, k, v);
  }

  lemma FirstRowIsHeld(inputs: seq<Input>, c: Contract, k: nat, v: nat) returns (y: Input)
    requires Accepted(inputs, c) && k < |Roots(RunOn(inputs, c).incidents.root)| && v < |RunOn(inputs, c).units|
    requires ClusterOfUnit(RunOn(inputs, c), v) == Roots(RunOn(inputs, c).incidents.root)[k]
    ensures RowOf(RunOn(inputs, c), v, y) && Holds(ClusterAt(RunOn(inputs, c), k, c), y)
  {
    y := RunOn(inputs, c).units[v].members[0];
    HoldsExactly(inputs, c, v, y, k);
  }

  lemma AnotherGroupMet(r: Run, c: Contract, k: nat, u: nat) returns (v: nat)
    requires IsRun(r, c) && k < |Roots(r.incidents.root)| && |ClusterReports(r, k)| > 1
    requires u < |r.units| && ClusterOfUnit(r, u) == Roots(r.incidents.root)[k]
    ensures v < |r.units| && ClusterOfUnit(r, v) == Roots(r.incidents.root)[k] && ReportsMeet(r, c, u, v)
  {
    MembersLaws(r.incidents.root, Roots(r.incidents.root)[k]);
    var b := EachReportMeetsAnother(r, c, k, ReportOfUnit(r, u));
    v := AUnitOf(r, b);
  }

  // ------------------------------------------------------------------- counts

  lemma ClusterUnitsOnce(r: Run, k: nat)
    requires WellShaped(r) && k < |Roots(r.incidents.root)|
    ensures NoDuplicates(ClusterUnits(r, k))
    ensures forall u: nat :: u in ClusterUnits(r, k) <==>
              u < |r.units| && ClusterOfUnit(r, u) == Roots(r.incidents.root)[k]
  {
    var lists: seq<seq<nat>> := ConservationLaws.ClusterUnitLists(r);
    ConservationLaws.ClustersHoldEveryUnitOnce(r);
    RangeLaws(|r.units|);
    MultisetNoDuplicates<nat>(Range(|r.units|), Flatten<nat>(lists));
    PartOnce<nat>(lists, k);
    forall u: nat
      ensures u in ClusterUnits(r, k) <==> u < |r.units| && ClusterOfUnit(r, u) == Roots(r.incidents.root)[k]
    {
      if u in ClusterUnits(r, k) { UnitInOneCluster(r, u, k); }
      if u < |r.units| && ClusterOfUnit(r, u) == Roots(r.incidents.root)[k] {
        var j := UnitIsInItsCluster(r, u);
        SameRootSamePosition(r.incidents.root, j, k);
      }
    }
  }

  lemma {:induction false} PartOnce<T>(lists: seq<seq<T>>, k: nat)
    requires k < |lists| && NoDuplicates(Flatten(lists))
    ensures NoDuplicates(lists[k])
  {
    var init, last := lists[..|lists| - 1], lists[|lists| - 1];
    var before := Flatten(init);
    if k < |init| {
      assert NoDuplicates(before) by {
        forall i, j | 0 <= i < j < |before| ensures before[i] != before[j] {
          assert Flatten(lists)[i] == before[i] && Flatten(lists)[j] == before[j];
        }
      }
      PartOnce(init, k);
    } else {
      forall i, j | 0 <= i < j < |last| ensures last[i] != last[j] {
        assert Flatten(lists)[|before| + i] == last[i] && Flatten(lists)[|before| + j] == last[j];
      }
    }
  }

  /** The duplicate keys of the rows a cluster holds. */
  ghost function KeysHeld(inputs: seq<Input>, c: Contract, cluster: IncidentCluster): set<Text> {
    set x | x in EligibleRows(inputs, c) && Holds(cluster, x) :: DuplicateKey(x)
  }

  /** The reports of the duplicate groups a cluster holds. */
  ghost function ReportsHeld(r: Run, cluster: IncidentCluster): set<nat>
    requires WellShaped(r)
  {
    set u: nat | u < |r.units| && Holds(cluster, r.units[u].members[0]) :: ReportOfUnit(r, u)
  }

  function KeysAt(rows: seq<Input>, idx: seq<nat>): (keys: seq<Text>)
    requires IndexesInto(idx, |UnitKeys(rows)|)
    ensures |keys| == |idx|
  {
    seq(|idx|, i requires 0 <= i < |idx| => UnitKeys(rows)[idx[i]])
  }

  lemma KeysAtOnce(rows: seq<Input>, idx: seq<nat>)
    requires IndexesInto(idx, |UnitKeys(rows)|) && NoDuplicates(idx)
    ensures |set key | key in KeysAt(rows, idx)| == |idx|
  {
    UnitKeysMembers(rows);
    NoDuplicatesCardinality(KeysAt(rows, idx));
  }

  /** The duplicate groups counted are the different duplicate keys among the rows held. */
  lemma GroupsAreCounted(inputs: seq<Input>, c: Contract, cluster: IncidentCluster)
    requires Accepted(inputs, c) && Returned(inputs, c, cluster)
    ensures cluster.duplicateGroupCount == |KeysHeld(inputs, c, cluster)|
  {
    var r := RunOn(inputs, c);
    var k := ReturnedAt(inputs, c, cluster);
    var idx := ClusterUnits(r, k);
    ClusterUnitsOnce(r, k);
    KeysAtOnce(r.rows, idx);
    forall key ensures key in KeysHeld(inputs, c, cluster) <==> key in KeysAt(r.rows, idx) {
      KeyIsHeldExactly(inputs, c, k, key);
    }
    assert KeysHeld(inputs, c, cluster) == set key | key in KeysAt(r.rows, idx);
  }

  /** The rows of the duplicate groups of a cluster are the eligible rows it holds. */
  lemma GroupRowIsHeld(inputs: seq<Input>, c: Contract, k: nat, u: nat, x: Input)
    requires Accepted(inputs, c) && k < |Roots(RunOn(inputs, c).incidents.root)|
    requires u in ClusterUnits(RunOn(inputs, c), k) && x in RunOn(inputs, c).units[u].members
    ensures x in EligibleRows(inputs, c) && Holds(ClusterAt(RunOn(inputs, c), k, c), x)
  {
    var r := RunOn(inputs, c);
    UnitInOneCluster(r, u, k);
    HoldsExactly(inputs, c, u, x, k);
    MembersCarryKey(r, c, u, x);
    MultisetMembers(EligibleRows(inputs, c), r.rows);
  }

  lemma HeldRowHasGroup(inputs: seq<Input>, c: Contract, k: nat, x: Input) returns (u: nat)
    requires Accepted(inputs, c) && k < |Roots(RunOn(inputs, c).incidents.root)|
    requires x in EligibleRows(inputs, c) && Holds(ClusterAt(RunOn(inputs, c), k, c), x)
    ensures u in ClusterUnits(RunOn(inputs, c), k) && x in RunOn(inputs, c).units[u].members
  {
    HeldIsIn(inputs, c, x, k);
    u := UnitWithin(RunOn(inputs, c), x, k);
  }

  lemma GroupKey(r: Run, c: Contract, u: nat, x: Input)
    requires IsRun(r, c) && u < |r.units| && x in r.units[u].members
    ensures u < |UnitKeys(r.rows)| && DuplicateKey(x) == UnitKeys(r.rows)[u]
  {
    MembersCarryKey(r, c, u, x);
    assert r.units[u] == UnitAt(r.rows, u, c);
  }

  lemma KeyIsHeldExactly(inputs: seq<Input>, c: Contract, k: nat, key: Text)
    requires Accepted(inputs, c) && k < |Roots(RunOn(inputs, c).incidents.root)|
    ensures var r := RunOn(inputs, c);
            key in KeysHeld(inputs, c, ClusterAt(r, k, c)) <==> key in KeysAt(r.rows, ClusterUnits(r, k))
  {
    var r := RunOn(inputs, c);
    var cluster := ClusterAt(r, k, c);
    if x :| x in EligibleRows(inputs, c) && Holds(cluster, x) && DuplicateKey(x) == key { HeldKey(inputs, c, k, x); }
    if key in KeysAt(r.rows, ClusterUnits(r, k)) { KeyHeld(inputs, c, k, key); }
  }

  lemma HeldKey(inputs: seq<Input>, c: Contract, k: nat, x: Input)
    requires Accepted(inputs, c) && k < |Roots(RunOn(inputs, c).incidents.root)|
    requires x in EligibleRows(inputs, c) && Holds(ClusterAt(RunOn(inputs, c), k, c), x)
    ensures DuplicateKey(x) in KeysAt(RunOn(inputs, c).rows, ClusterUnits(RunOn(inputs, c), k))
  {
    var u := HeldRowHasGroup(inputs, c, k, x);
    GroupKey(RunOn(inputs, c), c, u, x);
    KeyAt(RunOn(inputs, c).rows, ClusterUnits(RunOn(inputs, c), k), u);
  }

  lemma KeyHeld(inputs: seq<Input>, c: Contract, k: nat, key: Text)
    requires Accepted(inputs, c) && k < |Roots(RunOn(inputs, c).incidents.root)|
    requires key in KeysAt(RunOn(inputs, c).rows, ClusterUnits(RunOn(inputs, c), k))
    ensures key in KeysHeld(inputs, c, ClusterAt(RunOn(inputs, c), k, c))
  {
    var r := RunOn(inputs, c);
    var i := KeyFrom(r.rows, ClusterUnits(r, k), key);
    var u := ClusterUnits(r, k)[i];
    assert u in ClusterUnits(r, k);
    GroupRowIsHeld(inputs, c, k, u, r.units[u].members[0]);
    GroupKey(r, c, u, r.units[u].members[0]);
  }

  lemma KeyFrom(rows: seq<Input>, idx: seq<nat>, key: Text) returns (i: nat)
    requires IndexesInto(idx, |UnitKeys(rows)|) && key in KeysAt(rows, idx)
    ensures i < |idx| && UnitKeys(rows)[idx[i]] == key
  {
    i :| 0 <= i < |idx| && KeysAt(rows, idx)[i] == key;
  }

  lemma KeyAt(rows: seq<Input>, idx: seq<nat>, u: nat)
    requires IndexesInto(idx, |UnitKeys(rows)|) && u in idx
    ensures UnitKeys(rows)[u] in KeysAt(rows, idx)
  {
    var i :| 0 <= i < |idx| && idx[i] == u;
    assert KeysAt(rows, idx)[i] == UnitKeys(rows)[u];
  }

  /** The syndication groups counted are the different reports of the duplicate groups held. */
  lemma ReportsAreCounted(inputs: seq<Input>, c: Contract, cluster: IncidentCluster)
    requires Accepted(inputs, c) && Returned(inputs, c, cluster)
    ensures cluster.syndicationGroupCount == |ReportsHeld(RunOn(inputs, c), cluster)|
  {
    var r := RunOn(inputs, c);
    var k := ReturnedAt(inputs, c, cluster);
    ReportsOnce(r, k);
    forall report: nat ensures report in ReportsHeld(r, cluster) <==> report in ClusterReports(r, k) {
      ReportIsHeldExactly(inputs, c, k, report);
    }
    SameSet(ReportsHeld(r, cluster), Elements<nat>(ClusterReports(r, k)));
  }

  lemma ReportsOnce(r: Run, k: nat)
    requires WellShaped(r) && k < |Roots(r.incidents.root)|
    ensures |Elements<nat>(ClusterReports(r, k))| == |ClusterReports(r, k)|
  {
    var list: seq<nat> := ClusterReports(r, k);
    MembersLaws(r.incidents.root, Roots(r.incidents.root)[k]);
    forall i, j | 0 <= i < j < |list| ensures list[i] != list[j] { assert list[i] < list[j]; }
    NoDuplicatesCardinality<nat>(list);
  }

  lemma ReportIsHeldExactly(inputs: seq<Input>, c: Contract, k: nat, report: nat)
    requires Accepted(inputs, c) && k < |Roots(RunOn(inputs, c).incidents.root)|
    ensures var r := RunOn(inputs, c);
            report in ReportsHeld(r, ClusterAt(r, k, c)) <==> report in ClusterReports(r, k)
  {
    var r := RunOn(inputs, c);
    forall u: nat | u < |r.units|
      ensures HoldsGroup(r, c, k, u) <==> ClusterOfUnit(r, u) == Roots(r.incidents.root)[k]
    {
      HoldsExactly(inputs, c, u, r.units[u].members[0], k);
    }
    ReportsOfGroups(r, c, k, report);
  }

  /** The cluster at `k` holds the first row of the duplicate group. */
  ghost predicate HoldsGroup(r: Run, c: Contract, k: nat, u: nat)
    requires WellShaped(r) && k < |Roots(r.incidents.root)| && u < |r.units|
  {
    Holds(ClusterAt(r, k, c), r.units[u].members[0])
  }

  lemma ReportsOfGroups(r: Run, c: Contract, k: nat, report: nat)
    requires WellShaped(r) && k < |Roots(r.incidents.root)|
    requires forall u: nat :: u < |r.units| ==>
               (HoldsGroup(r, c, k, u) <==> ClusterOfUnit(r, u) == Roots(r.incidents.root)[k])
    ensures report in ReportsHeld(r, ClusterAt(r, k, c)) <==> report in ClusterReports(r, k)
  {
    MembersLaws(r.incidents.root, Roots(r.incidents.root)[k]);
    if report in ClusterReports(r, k) {
      var u := AUnitOf(r, report);
      assert HoldsGroup(r, c, k, u);
    }
    if report in ReportsHeld(r, ClusterAt(r, k, c)) {
      var u: nat :| u < |r.units| && Holds(ClusterAt(r, k, c), r.units[u].members[0]) && ReportOfUnit(r, u) == report;
      assert HoldsGroup(r, c, k, u);
    }
  }

  // ----------------------------------------------------------- kind and codes

  /** The kind is the first that fits: one row, several reports, several duplicate groups, one. */
  lemma KindExactly(inputs: seq<Input>, c: Contract, cluster: IncidentCluster)
    requires Returned(inputs, c, cluster)
    ensures cluster.kind == Singleton <==> |cluster.members| == 1
    ensures cluster.kind == MultiReportIncident <==> |cluster.members| != 1 && cluster.syndicationGroupCount > 1
    ensures cluster.kind == SyndicatedGroup <==>
            |cluster.members| != 1 && cluster.syndicationGroupCount <= 1 && cluster.duplicateGroupCount > 1
  {
    var k := ReturnedAt(inputs, c, cluster);
  }

  /** Two different rows of the cluster have this one canonical URL. */
  ghost predicate HaveUrl(cluster: IncidentCluster, x: Input, y: Input) {
    Holds(cluster, x) && Holds(cluster, y) && x != y && x.urlGroupId.Some? && x.urlGroupId == y.urlGroupId
  }

  ghost predicate HoldsUrlTwice(inputs: seq<Input>, c: Contract, cluster: IncidentCluster) {
    exists x, y :: x in EligibleRows(inputs, c) && y in EligibleRows(inputs, c) && HaveUrl(cluster, x, y)
  }

  /** Main result: the codes of a cluster say what its rows are. */
  lemma CodesExactly(inputs: seq<Input>, c: Contract, cluster: IncidentCluster)
    requires Accepted(inputs, c) && Returned(inputs, c, cluster)
    ensures SingletonSource in cluster.reasonCodes <==> |cluster.members| == 1
    ensures ExactUrlDuplicate in cluster.reasonCodes <==> HoldsUrlTwice(inputs, c, cluster)
    ensures SyndicatedText in cluster.reasonCodes <==> cluster.duplicateGroupCount > cluster.syndicationGroupCount
    ensures SharedIncidentSignals in cluster.reasonCodes <==> cluster.syndicationGroupCount > 1
  {
    var r := RunOn(inputs, c);
    var k := ReturnedAt(inputs, c, cluster);
    CodesByShape(r, k, c);
    UrlTwiceExactly(inputs, c, k);
  }

  lemma CodesByShape(r: Run, k: nat, c: Contract)
    requires WellShaped(r) && k < |Roots(r.incidents.root)|
    ensures SingletonSource in CodesOf(r, k, c) <==> |ClusterMembers(r, k)| == 1
    ensures ExactUrlDuplicate in CodesOf(r, k, c) <==> AnyDuplicated(r.units, ClusterUnits(r, k))
    ensures SyndicatedText in CodesOf(r, k, c) <==> |ClusterUnits(r, k)| > |ClusterReports(r, k)|
    ensures SharedIncidentSignals in CodesOf(r, k, c) <==> |ClusterReports(r, k)| > 1
  {
    CodeIn(r, k, c, SingletonSource);
    CodeIn(r, k, c, ExactUrlDuplicate);
    CodeIn(r, k, c, SyndicatedText);
    CodeIn(r, k, c, SharedIncidentSignals);
    SignalsAreNoShape(r, k);
    ShapesExactly(r, k);
  }

  lemma CodeIn(r: Run, k: nat, c: Contract, code: ReasonCode)
    requires WellShaped(r) && k < |Roots(r.incidents.root)| && code != ClusterBoundReached
    ensures code in CodesOf(r, k, c) <==> code in ShapeCodes(r, k) || code in SignalCodes(r, k)
  {
    NoBoundCode(r, k, c, code);
    InConcat(ShapeCodes(r, k) + SignalCodes(r, k), BoundCodes(r, k, c), code);
    InConcat(ShapeCodes(r, k), SignalCodes(r, k), code);
  }

  lemma NoBoundCode(r: Run, k: nat, c: Contract, code: ReasonCode)
    requires WellShaped(r) && k < |Roots(r.incidents.root)| && code != ClusterBoundReached
    ensures code !in BoundCodes(r, k, c)
  {}

  lemma ShapesExactly(r: Run, k: nat)
    requires WellShaped(r) && k < |Roots(r.incidents.root)|
    ensures SingletonSource in ShapeCodes(r, k) <==> |ClusterMembers(r, k)| == 1
    ensures ExactUrlDuplicate in ShapeCodes(r, k) <==> AnyDuplicated(r.units, ClusterUnits(r, k))
    ensures SyndicatedText in ShapeCodes(r, k) <==> |ClusterUnits(r, k)| > |ClusterReports(r, k)|
    ensures SharedIncidentSignals !in ShapeCodes(r, k)
  {
    ThreeCodes(|ClusterMembers(r, k)| == 1, AnyDuplicated(r.units, ClusterUnits(r, k)),
               |ClusterUnits(r, k)| > |ClusterReports(r, k)|, ShapeCodes(r, k));
  }

  lemma ThreeCodes(single: bool, twice: bool, copied: bool, codes: seq<ReasonCode>)
    requires codes == (if single then [SingletonSource] else []) + (if twice then [ExactUrlDuplicate] else [])
                      + (if copied then [SyndicatedText] else [])
    ensures SingletonSource in codes <==> single
    ensures ExactUrlDuplicate in codes <==> twice
    ensures SyndicatedText in codes <==> copied
    ensures SharedIncidentSignals !in codes
  {}

  lemma SignalsAreNoShape(r: Run, k: nat)
    requires WellShaped(r) && k < |Roots(r.incidents.root)|
    ensures SingletonSource !in SignalCodes(r, k) && ExactUrlDuplicate !in SignalCodes(r, k)
    ensures SyndicatedText !in SignalCodes(r, k)
    ensures SharedIncidentSignals in SignalCodes(r, k) <==> |ClusterReports(r, k)| > 1
  {}

  lemma UrlTwiceExactly(inputs: seq<Input>, c: Contract, k: nat)
    requires Accepted(inputs, c) && k < |Roots(RunOn(inputs, c).incidents.root)|
    ensures var r := RunOn(inputs, c);
            AnyDuplicated(r.units, ClusterUnits(r, k)) <==> HoldsUrlTwice(inputs, c, ClusterAt(r, k, c))
  {
    var r := RunOn(inputs, c);
    var idx, cluster := ClusterUnits(r, k), ClusterAt(r, k, c);
    if i :| 0 <= i < |idx| && |r.units[idx[i]].members| > 1 { GroupHoldsUrlTwice(inputs, c, k, i); }
    if x, y :| x in EligibleRows(inputs, c) && y in EligibleRows(inputs, c) && HaveUrl(cluster, x, y) {
      UrlTwiceIsOneGroup(inputs, c, k, x, y);
    }
  }

  lemma GroupHoldsUrlTwice(inputs: seq<Input>, c: Contract, k: nat, i: nat)
    requires Accepted(inputs, c) && k < |Roots(RunOn(inputs, c).incidents.root)|
    requires var r := RunOn(inputs, c); i < |ClusterUnits(r, k)| && |r.units[ClusterUnits(r, k)[i]].members| > 1
    ensures HoldsUrlTwice(inputs, c, ClusterAt(RunOn(inputs, c), k, c))
  {
    var r := RunOn(inputs, c);
    var u := ClusterUnits(r, k)[i];
    var x, y := r.units[u].members[0], r.units[u].members[1];
    assert u in ClusterUnits(r, k);
    GroupRowIsHeld(inputs, c, k, u, x);
    GroupRowIsHeld(inputs, c, k, u, y);
    GroupKey(r, c, u, x);
    GroupKey(r, c, u, y);
    MembersDiffer(inputs, c, u);
    RowsOfOneKey(inputs, c, x, y);
    assert HaveUrl(ClusterAt(r, k, c), x, y);
  }

  lemma RowsOfOneKey(inputs: seq<Input>, c: Contract, x: Input, y: Input)
    requires Accepted(inputs, c) && x in EligibleRows(inputs, c) && y in EligibleRows(inputs, c) && x != y
    requires DuplicateKey(x) == DuplicateKey(y)
    ensures x.urlGroupId.Some? && x.urlGroupId == y.urlGroupId
  {
    ConservationLaws.SameKeyMeaning(x, y);
    if x.sourceRowId == y.sourceRowId {
      MultisetMembers(EligibleRows(inputs, c), EligibleSorted(inputs, c));
      SameIdIsSameRow(inputs, c, x, y);
    }
  }

  lemma MembersDiffer(inputs: seq<Input>, c: Contract, u: nat)
    requires Accepted(inputs, c) && u < |RunOn(inputs, c).units| && |RunOn(inputs, c).units[u].members| > 1
    ensures RunOn(inputs, c).units[u].members[0] != RunOn(inputs, c).units[u].members[1]
  {
    var r := RunOn(inputs, c);
    var members, x := r.units[u].members, r.units[u].members[0];
    ConservationLaws.EligibleIdsDistinct(inputs, c);
    RowsOnce(EligibleRows(inputs, c));
    MultisetNoDuplicates(EligibleRows(inputs, c), r.rows);
    OccursOnce(r.rows, x);
    assert r.units[u] == UnitAt(r.rows, u, c);
    ConservationLaws.RowsWithKeyCount(r.rows, UnitKeys(r.rows)[u], x);
    if members[1] == x { TwiceCounts(members); }
  }

  lemma RowsOnce(rows: seq<Input>)
    requires NoDuplicates(RowIds(rows))
    ensures NoDuplicates(rows)
  {
    forall i, j | 0 <= i < j < |rows| ensures rows[i] != rows[j] { assert RowIds(rows)[i] != RowIds(rows)[j]; }
  }

  lemma TwiceCounts(members: seq<Input>)
    requires |members| > 1 && members[0] == members[1]
    ensures multiset(members)[members[0]] >= 2
  {
    assert members == [members[0], members[1]] + members[2..];
  }

  lemma UrlTwiceIsOneGroup(inputs: seq<Input>, c: Contract, k: nat, x: Input, y: Input)
    requires Accepted(inputs, c) && k < |Roots(RunOn(inputs, c).incidents.root)|
    requires x in EligibleRows(inputs, c) && y in EligibleRows(inputs, c) && x != y
    requires Holds(ClusterAt(RunOn(inputs, c), k, c), x) && DuplicateKey(x) == DuplicateKey(y)
    ensures AnyDuplicated(RunOn(inputs, c).units, ClusterUnits(RunOn(inputs, c), k))
  {
    var r := RunOn(inputs, c);
    var u := HeldRowHasGroup(inputs, c, k, x);
    GroupKey(r, c, u, x);
    GroupHoldsKey(inputs, c, u, y);
    TwoMembers(r.units[u].members, x, y);
    var i :| 0 <= i < |ClusterUnits(r, k)| && ClusterUnits(r, k)[i] == u;
    assert |r.units[ClusterUnits(r, k)[i]].members| > 1;
  }

  lemma GroupHoldsKey(inputs: seq<Input>, c: Contract, u: nat, y: Input)
    requires u < |RunOn(inputs, c).units| && y in EligibleRows(inputs, c)
    requires u < |UnitKeys(RunOn(inputs, c).rows)| && DuplicateKey(y) == UnitKeys(RunOn(inputs, c).rows)[u]
    ensures y in RunOn(inputs, c).units[u].members
  {
    var r := RunOn(inputs, c);
    assert r.units[u] == UnitAt(r.rows, u, c);
    RowsWithKeyMembers(r.rows, UnitKeys(r.rows)[u]);
    MultisetMembers(EligibleRows(inputs, c), r.rows);
  }

  lemma TwoMembers(members: seq<Input>, x: Input, y: Input)
    requires x in members && y in members && x != y
    ensures |members| > 1
  {}

  // -------------------------------------------------------------- order and names

  function Rank(code: ReasonCode): nat {
    match code
    case SingletonSource => 0
    case ExactUrlDuplicate => 1
    case SyndicatedText => 2
    case SharedIncidentSignals => 3
    case TimeProximity => 4
    case TimestampAbsent => 5
    case AmbiguousBelowThreshold => 6
    case AmbiguousOutsideTimeWindow => 7
    case ClusterBoundReached => 8
  }

  /** Each code once, in the order of their ranks, from one rank up to another. */
  ghost predicate Ranked(codes: seq<ReasonCode>, from: nat, to: nat) {
    && (forall i :: 0 <= i < |codes| ==> from <= Rank(codes[i]) < to)
    && forall i, j :: 0 <= i < j < |codes| ==> Rank(codes[i]) < Rank(codes[j])
  }

  lemma RankedConcat(a: seq<ReasonCode>, b: seq<ReasonCode>, from: nat, mid: nat, to: nat)
    requires Ranked(a, from, mid) && Ranked(b, mid, to) && from <= mid <= to
    ensures Ranked(a + b, from, to)
  {}

  lemma ShapesRanked(r: Run, k: nat)
    requires WellShaped(r) && k < |Roots(r.incidents.root)|
    ensures Ranked(ShapeCodes(r, k), 0, 3)
  {
    ThreeRanked(|ClusterMembers(r, k)| == 1, AnyDuplicated(r.units, ClusterUnits(r, k)),
                |ClusterUnits(r, k)| > |ClusterReports(r, k)|, ShapeCodes(r, k));
  }

  lemma ThreeRanked(single: bool, twice: bool, copied: bool, codes: seq<ReasonCode>)
    requires codes == (if single then [SingletonSource] else []) + (if twice then [ExactUrlDuplicate] else [])
                      + (if copied then [SyndicatedText] else [])
    ensures Ranked(codes, 0, 3)
  {}

  lemma SignalsRanked(r: Run, k: nat)
    requires WellShaped(r) && k < |Roots(r.incidents.root)|
    ensures Ranked(SignalCodes(r, k), 3, 6)
  {
    var root := Roots(r.incidents.root)[k];
    if |ClusterReports(r, k)| > 1 {
      ThreeSignalsRanked(root in RootsRecorded(r.reports, r.incidents.unions, true),
                         root in RootsRecorded(r.reports, r.incidents.unions, false), SignalCodes(r, k));
    }
  }

  lemma ThreeSignalsRanked(timed: bool, untimed: bool, codes: seq<ReasonCode>)
    requires codes == [SharedIncidentSignals] + (if timed then [TimeProximity] else [])
                      + (if untimed then [TimestampAbsent] else [])
    ensures Ranked(codes, 3, 6)
  {}

  lemma RankedParts(shape: seq<ReasonCode>, signals: seq<ReasonCode>, bound: seq<ReasonCode>)
    requires Ranked(shape, 0, 3) && Ranked(signals, 3, 6) && (bound == [] || bound == [ClusterBoundReached])
    ensures Ranked(shape + signals + bound, 0, 9)
  {
    RankedConcat(shape, signals, 0, 3, 6);
    RankedConcat(shape + signals, bound, 0, 6, 9);
  }

  /** The codes of a returned cluster come each once, in the declared order. */
  lemma CodesInOrder(inputs: seq<Input>, c: Contract, cluster: IncidentCluster)
    requires Returned(inputs, c, cluster)
    ensures Ranked(cluster.reasonCodes, 0, 9)
  {
    var k := ReturnedAt(inputs, c, cluster);
    CodesRanked(RunOn(inputs, c), k, c);
  }

  lemma CodesRanked(r: Run, k: nat, c: Contract)
    requires WellShaped(r) && k < |Roots(r.incidents.root)|
    ensures Ranked(CodesOf(r, k, c), 0, 9)
  {
    ShapesRanked(r, k);
    SignalsRanked(r, k);
    RankedParts(ShapeCodes(r, k), SignalCodes(r, k), BoundCodes(r, k, c));
  }

  lemma ByMemberIdIsTotal()
    ensures TotalPreorder(ByMemberId())
  {
    var leq := ByMemberId();
    forall x: ClusterMember, y: ClusterMember ensures leq(x, y) || leq(y, x) {
      LessIsTotal(x.sourceRowId, y.sourceRowId);
    }
    forall x: ClusterMember, y: ClusterMember, z: ClusterMember | leq(x, y) && leq(y, z) ensures leq(x, z) {
      AtMostIsTransitive(x.sourceRowId, y.sourceRowId, z.sourceRowId);
    }
  }

  lemma ByFingerprintIsTotal()
    ensures TotalPreorder(ByFingerprint())
  {
    var leq := ByFingerprint();
    forall x: IncidentCluster, y: IncidentCluster ensures leq(x, y) || leq(y, x) {
      LessIsTotal(x.fingerprint, y.fingerprint);
    }
    forall x: IncidentCluster, y: IncidentCluster, z: IncidentCluster | leq(x, y) && leq(y, z) ensures leq(x, z) {
      AtMostIsTransitive(x.fingerprint, y.fingerprint, z.fingerprint);
    }
  }

  ghost predicate InIdOrder(members: seq<ClusterMember>) {
    forall i, j :: 0 <= i <= j < |members| ==> AtMost(members[i].sourceRowId, members[j].sourceRowId)
  }

  /** The members come in the order of their row identifiers, and the cluster is named by them. */
  lemma NamedByItsMembers(inputs: seq<Input>, c: Contract, cluster: IncidentCluster)
    requires Returned(inputs, c, cluster)
    ensures InIdOrder(cluster.members)
    ensures cluster.fingerprint == c.fingerprintOf([INCIDENT_TAG] + MemberIds(cluster.members))
  {
    var k := ReturnedAt(inputs, c, cluster);
    MembersInOrder(Gather<ClusterMember>(MemberBlocks(RunOn(inputs, c)), ClusterUnits(RunOn(inputs, c), k)));
  }

  lemma MembersInOrder(raw: seq<ClusterMember>)
    ensures InIdOrder(Sort(raw, ByMemberId()))
  {
    var members, leq := Sort(raw, ByMemberId()), ByMemberId();
    ByMemberIdIsTotal();
    SortSorted(raw, leq);
    forall i, j | 0 <= i <= j < |members| ensures AtMost(members[i].sourceRowId, members[j].sourceRowId) {
      assert leq(members[i], members[j]);
    }
  }

  /** The clusters come in the order of their fingerprints. */
  lemma ClustersInOrder(inputs: seq<Input>, c: Contract)
    requires OutcomeOf(inputs, c).Ok?
    ensures var clusters := OutcomeOf(inputs, c).value.clusters;
            forall i, j :: 0 <= i <= j < |clusters| ==> AtMost(clusters[i].fingerprint, clusters[j].fingerprint)
  {
    var clusters, leq := OutcomeOf(inputs, c).value.clusters, ByFingerprint();
    ByFingerprintIsTotal();
    SortSorted(ClustersOf(RunOn(inputs, c), c), leq);
    forall i, j | 0 <= i <= j < |clusters| ensures AtMost(clusters[i].fingerprint, clusters[j].fingerprint) {
      assert leq(clusters[i], clusters[j]);
    }
  }

  // -------------------------------------------------------------------- links

  lemma LeftFirst(a: Text, b: Text, d: Text, x: Text, y: Text, z: Text)
    requires Less(a, b) || (a == b && AtMost(x, y))
    requires Less(b, d) || (b == d && AtMost(y, z))
    ensures Less(a, d) || (a == d && AtMost(x, z))
  {
    LessIsTotal(a, b);
    LessIsTotal(b, d);
    LessIsTotal(a, d);
    AtMostIsTransitive(a, b, d);
    if a == b == d { AtMostIsTransitive(x, y, z); }
  }

  lemma EndsAreTotal(a: AmbiguousLink, b: AmbiguousLink)
    ensures ByEnds()(a, b) || ByEnds()(b, a)
  {
    LessIsTotal(a.leftFingerprint, b.leftFingerprint);
    LessIsTotal(a.rightFingerprint, b.rightFingerprint);
  }

  lemma ByEndsIsTotal()
    ensures TotalPreorder(ByEnds())
  {
    var leq := ByEnds();
    forall a: AmbiguousLink, b: AmbiguousLink ensures leq(a, b) || leq(b, a) { EndsAreTotal(a, b); }
    forall a: AmbiguousLink, b: AmbiguousLink, d: AmbiguousLink | leq(a, b) && leq(b, d) ensures leq(a, d) {
      LeftFirst(a.leftFingerprint, b.leftFingerprint, d.leftFingerprint,
                a.rightFingerprint, b.rightFingerprint, d.rightFingerprint);
    }
  }

  /** The links come in the order of their left ends, and those with one left end in the order of their right ends. */
  lemma LinksInOrder(inputs: seq<Input>, c: Contract)
    requires OutcomeOf(inputs, c).Ok?
    ensures var links := OutcomeOf(inputs, c).value.ambiguousLinks;
            forall i, j :: 0 <= i <= j < |links| ==>
              || Less(links[i].leftFingerprint, links[j].leftFingerprint)
              || (links[i].leftFingerprint == links[j].leftFingerprint
                  && AtMost(links[i].rightFingerprint, links[j].rightFingerprint))
  {
    var links, leq := OutcomeOf(inputs, c).value.ambiguousLinks, ByEnds();
    ByEndsIsTotal();
    SortSorted(RunOn(inputs, c).links.links, leq);
    forall i, j | 0 <= i <= j < |links|
      ensures || Less(links[i].leftFingerprint, links[j].leftFingerprint)
              || (links[i].leftFingerprint == links[j].leftFingerprint
                  && AtMost(links[i].rightFingerprint, links[j].rightFingerprint))
    {
      assert leq(links[i], links[j]);
    }
  }

  /** The link is of this pair of reports, compared and nearly supported, and says so. */
  ghost predicate LinkOfPair(r: Run, c: Contract, link: AmbiguousLink, i: nat, j: nat) {
    && i < |r.reports| && j < |r.reports| && (i, j) in r.stage3.pairs
    && NearlySupports(r.reports, i, j, c) && LinkSays(r.reports, i, j, c, link)
  }

  /** Main result: every returned link is of a pair of reports that was compared and nearly supported, and says what the
      pair has in common and what it lacks. */
  lemma ReturnedLinkSaysWhy(inputs: seq<Input>, c: Contract, link: AmbiguousLink)
    requires OutcomeOf(inputs, c).Ok? && link in OutcomeOf(inputs, c).value.ambiguousLinks
    ensures exists i: nat, j: nat :: LinkOfPair(RunOn(inputs, c), c, link, i, j)
  {
    var r := RunOn(inputs, c);
    ReturnedLinksAreTheFirst(inputs, c);
    var some := Take(NearMissesOf(r, c), c.maximumAmbiguousLinks);
    MultisetMembers(some, Sort(some, ByEnds()));
    LinkLaws.NearMissLinksMembers(r.reports, r.stage3.pairs, c, link);
    var p: Pair :| p in r.stage3.pairs && LinkLaws.NearMiss(r.reports, p, c)
                   && link == LinkLaws.LinkFor(r.reports, p, c);
    RunTokensAreDistinct(r, c);
    NearMissExactly(r.reports, p.0, p.1, c);
    assert LinkOfPair(r, c, link, p.0, p.1);
  }

  /** With `boundsReached` zero every such pair has its link returned. */
  lemma EveryNearMissIsReturned(inputs: seq<Input>, c: Contract, i: nat, j: nat)
    requires OutcomeOf(inputs, c).Ok? && OutcomeOf(inputs, c).value.stats.boundsReached == 0
    requires i < |RunOn(inputs, c).reports| && j < |RunOn(inputs, c).reports|
    requires (i, j) in RunOn(inputs, c).stage3.pairs && NearlySupports(RunOn(inputs, c).reports, i, j, c)
    ensures exists link :: link in OutcomeOf(inputs, c).value.ambiguousLinks
                           && LinkSays(RunOn(inputs, c).reports, i, j, c, link)
  {
    var r := RunOn(inputs, c);
    RunTokensAreDistinct(r, c);
    NearMissExactly(r.reports, i, j, c);
    var link := LinkLaws.LinkFor(r.reports, (i, j), c);
    LinkLaws.NearMissLinksMembers(r.reports, r.stage3.pairs, c, link);
    ReturnedLinksAreTheFirst(inputs, c);
    assert link in multiset(NearMissesOf(r, c));
    assert link in OutcomeOf(inputs, c).value.ambiguousLinks;
  }
}
