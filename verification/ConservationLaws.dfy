/** No row is discarded and none is counted twice, from the input to the stats. */
module ConservationLaws {
  import opened Texts
  import opened Sorting
  import opened Sequences
  import opened Components
  import opened Clusters
  import opened Stages
  import opened Runs

  // --------------------------------------------------------------- stage 1

  /** Two rows fall into one duplicate group exactly when they carry the same canonical URL group, or are one
      URL-less row. */
  lemma SameKeyMeaning(a: Input, b: Input)
    ensures DuplicateKey(a) == DuplicateKey(b) <==>
            (a.urlGroupId.Some? && b.urlGroupId.Some? && a.urlGroupId == b.urlGroupId)
            || (a.urlGroupId.None? && b.urlGroupId.None? && a.sourceRowId == b.sourceRowId)
  {
    assert |ROW_PREFIX| == 4 && |URL_PREFIX| == 4;
    assert ROW_PREFIX[0] == 'r' as int && URL_PREFIX[0] == 'u' as int;
    var x, y := DuplicateKey(a), DuplicateKey(b);
    var p := (if a.urlGroupId == None then a.sourceRowId else a.urlGroupId.value);
    var q := (if b.urlGroupId == None then b.sourceRowId else b.urlGroupId.value);
    assert x[4..] == p && y[4..] == q;
    assert x[0] == (if a.urlGroupId == None then 'r' as int else 'u' as int);
    assert y[0] == (if b.urlGroupId == None then 'r' as int else 'u' as int);
  }

  /** The rows of every duplicate group, in unit order. */
  function GroupedRows(units: seq<Unit>): (blocks: seq<seq<Input>>)
    ensures |blocks| == |units|
  {
    seq(|units|, i requires 0 <= i < |units| => units[i].members)
  }

  lemma RowsWithKeySnoc(rows: seq<Input>, key: Text)
    requires rows != []
    ensures var last := rows[|rows| - 1];
            RowsWithKey(rows, key)
            == RowsWithKey(rows[..|rows| - 1], key) + if DuplicateKey(last) == key then [last] else []
  {}

  lemma CountSnoc<T>(s: seq<T>, x: T)
    requires s != []
    ensures multiset(s)[x] == multiset(s[..|s| - 1])[x] + if s[|s| - 1] == x then 1 else 0
  {
    assert s == s[..|s| - 1] + [s[|s| - 1]];
  }

  lemma CountOne<T>(s: seq<T>, last: T, kept: bool, x: T)
    ensures multiset(s + if kept then [last] else [])[x] == multiset(s)[x] + if kept && last == x then 1 else 0
  {
    assert s + [] == s;
  }

  lemma {:induction false} RowsWithKeyCount(rows: seq<Input>, key: Text, row: Input)
    ensures multiset(RowsWithKey(rows, key))[row] == if DuplicateKey(row) == key then multiset(rows)[row] else 0
  {
    if rows != [] {
      var init, last := rows[..|rows| - 1], rows[|rows| - 1];
      RowsWithKeyCount(init, key, row);
      RowsWithKeySnoc(rows, key);
      CountSnoc<Input>(rows, row);
      CountOne<Input>(RowsWithKey(init, key), last, DuplicateKey(last) == key, row);
    }
  }

  lemma AddCounts<T>(a: seq<T>, b: seq<T>, x: T)
    ensures multiset(a + b)[x] == multiset(a)[x] + multiset(b)[x]
  {}

  lemma InSnoc<T>(s: seq<T>, x: T)
    requires s != []
    ensures x in s <==> x in s[..|s| - 1] || x == s[|s| - 1]
  {
    assert s == s[..|s| - 1] + [s[|s| - 1]];
  }

  lemma {:induction false} GroupedCount(rows: seq<Input>, keys: seq<Text>, blocks: seq<seq<Input>>, row: Input,
                                        key: Text)
    requires |blocks| == |keys| && forall k :: 0 <= k < |keys| ==> blocks[k] == RowsWithKey(rows, keys[k])
    requires NoDuplicates(keys) && key == DuplicateKey(row)
    ensures multiset(Flatten<Input>(blocks))[row] == if key in keys then multiset(rows)[row] else 0
  {
    if keys != [] {
      var n := |keys| - 1;
      GroupedCount(rows, keys[..n], blocks[..n], row, key);
      RowsWithKeyCount(rows, keys[n], row);
      AddCounts<Input>(Flatten<Input>(blocks[..n]), blocks[n], row);
      InSnoc(keys, key);
      LastIsNew(keys);
    }
  }

  lemma LastIsNew<T>(s: seq<T>)
    requires s != [] && NoDuplicates(s)
    ensures s[|s| - 1] !in s[..|s| - 1]
  {}

  /** Grouping by URL keeps every row exactly once. */
  lemma GroupingKeepsRows(rows: seq<Input>, c: Contract)
    ensures multiset(Flatten<Input>(GroupedRows(UnitsOf(rows, c)))) == multiset(rows)
  {
    var keys, blocks := UnitKeys(rows), GroupedRows(UnitsOf(rows, c));
    UnitKeysMembers(rows);
    forall k | 0 <= k < |keys| ensures blocks[k] == RowsWithKey(rows, keys[k]) {
      KeyHasRows(rows, keys[k]);
    }
    forall row ensures multiset(Flatten<Input>(blocks))[row] == multiset(rows)[row] {
      GroupedCount(rows, keys, blocks, row, DuplicateKey(row));
      if row in rows {
        var i :| 0 <= i < |rows| && rows[i] == row;
        assert DuplicateKey(rows[i]) in keys;
      } else {
        assert row !in multiset(rows);
      }
    }
  }

  // ------------------------------------------------------------ the clusters

  /** The duplicate groups of every cluster, in cluster order. */
  function ClusterUnitLists(r: Run): (lists: seq<seq<nat>>)
    requires WellShaped(r)
    ensures |lists| == |Roots(r.incidents.root)|
  {
    seq(|Roots(r.incidents.root)|, k requires 0 <= k < |Roots(r.incidents.root)| => ClusterUnits(r, k))
  }

  /** Every duplicate group is in exactly one cluster. */
  lemma ClustersHoldEveryUnitOnce(r: Run)
    requires WellShaped(r)
    ensures multiset(Flatten<nat>(ClusterUnitLists(r))) == multiset(Range(|r.units|))
    ensures IndexesInto(Flatten<nat>(ClusterUnitLists(r)), |r.units|)
  {
    var reportLists: seq<seq<nat>> := ReportUnits(r);
    var clusterLists: seq<seq<nat>> := ComponentLists(r.incidents.root);
    forall k | 0 <= k < |clusterLists|
      ensures IndexesInto(clusterLists[k], |reportLists|)
              && ClusterUnitLists(r)[k] == Gather<nat>(reportLists, clusterLists[k])
    {
      MembersLaws(r.incidents.root, Roots(r.incidents.root)[k]);
    }
    GatherFlattened<nat>(reportLists, clusterLists, ClusterUnitLists(r));
    ListsHoldEveryNodeOnce(r.incidents.root);
    GatherRange<nat>(reportLists, |reportLists|);
    assert reportLists[..|reportLists|] == reportLists;
    GatherIgnoresOrder<nat>(reportLists, Flatten<nat>(clusterLists), Range(|reportLists|));
    ListsHoldEveryNodeOnce(r.syndication.root);
    RangeIndexes(Flatten<nat>(ClusterUnitLists(r)), |r.units|);
  }

  lemma RangeIndexes(flat: seq<nat>, n: nat)
    requires multiset(flat) == multiset(Range(n))
    ensures IndexesInto(flat, n)
  {
    RangeLaws(n);
    MultisetMembers<nat>(flat, Range(n));
    forall k: nat | k < |flat| ensures flat[k] < n { assert flat[k] in flat; }
  }

  /** The members of every cluster before they are sorted. */
  function RawMembers(r: Run): (lists: seq<seq<ClusterMember>>)
    requires WellShaped(r)
    ensures |lists| == |Roots(r.incidents.root)|
  {
    seq(|Roots(r.incidents.root)|, k requires 0 <= k < |Roots(r.incidents.root)| =>
      Gather<ClusterMember>(MemberBlocks(r), ClusterUnits(r, k)))
  }

  /** Together the clusters hold the member records of every duplicate group, each once. */
  lemma RawMembersAreAllBlocks(r: Run)
    requires WellShaped(r)
    ensures multiset(Flatten<ClusterMember>(RawMembers(r))) == multiset(Flatten<ClusterMember>(MemberBlocks(r)))
  {
    var blocks, lists := MemberBlocks(r), ClusterUnitLists(r);
    ClustersHoldEveryUnitOnce(r);
    forall k | 0 <= k < |lists|
      ensures IndexesInto(lists[k], |blocks|) && RawMembers(r)[k] == Gather<ClusterMember>(blocks, lists[k])
    {
      assert lists[k] == ClusterUnits(r, k);
    }
    GatherFlattened<ClusterMember>(blocks, lists, RawMembers(r));
    GatherRange<ClusterMember>(blocks, |blocks|);
    assert blocks[..|blocks|] == blocks;
    GatherIgnoresOrder<ClusterMember>(blocks, Flatten<nat>(lists), Range(|blocks|));
  }

  lemma {:induction false} FlattenedMemberIds(blocks: seq<seq<ClusterMember>>, units: seq<Unit>)
    requires |blocks| == |units|
    requires forall u :: 0 <= u < |units| ==> MemberIds(blocks[u]) == RowIds(units[u].members)
    ensures MemberIds(Flatten<ClusterMember>(blocks)) == RowIds(Flatten<Input>(GroupedRows(units)))
  {
    if units != [] {
      var n := |units| - 1;
      FlattenedMemberIds(blocks[..n], units[..n]);
      assert GroupedRows(units)[..n] == GroupedRows(units[..n]);
      assert MemberIds(Flatten<ClusterMember>(blocks[..n]) + blocks[n])
             == MemberIds(Flatten<ClusterMember>(blocks[..n])) + MemberIds(blocks[n]);
      assert RowIds(Flatten<Input>(GroupedRows(units[..n])) + units[n].members)
             == RowIds(Flatten<Input>(GroupedRows(units[..n]))) + RowIds(units[n].members);
    }
  }

  lemma BlocksCarryTheRows(r: Run)
    requires WellShaped(r)
    ensures MemberIds(Flatten<ClusterMember>(MemberBlocks(r))) == RowIds(Flatten<Input>(GroupedRows(r.units)))
  {
    forall u | 0 <= u < |r.units| ensures MemberIds(MemberBlocks(r)[u]) == RowIds(r.units[u].members) {
      PositionLaws(r.syndication.root, u);
    }
    FlattenedMemberIds(MemberBlocks(r), r.units);
  }

  // ------------------------------------------------------------ main results

  function MembersOf(): IncidentCluster -> seq<ClusterMember> { (k: IncidentCluster) => k.members }
  function MemberCount(): IncidentCluster -> nat { (k: IncidentCluster) => |k.members| }
  function DuplicateGroupCount(): IncidentCluster -> nat { (k: IncidentCluster) => k.duplicateGroupCount }
  function SyndicationGroupCount(): IncidentCluster -> nat { (k: IncidentCluster) => k.syndicationGroupCount }

  lemma {:induction false} ClusterMembersAreRaw(r: Run, c: Contract, n: nat)
    requires WellShaped(r) && n <= |Roots(r.incidents.root)|
    ensures multiset(FlatMap(ClustersOf(r, c)[..n], MembersOf()))
         == multiset(Flatten<ClusterMember>(RawMembers(r)[..n]))
  {
    if n > 0 {
      ClusterMembersAreRaw(r, c, n - 1);
      ClusterIsRaw(r, c, n - 1);
      OneMoreCluster(ClustersOf(r, c), RawMembers(r), n - 1);
    }
  }

  lemma ClusterIsRaw(r: Run, c: Contract, k: nat)
    requires WellShaped(r) && k < |Roots(r.incidents.root)|
    ensures multiset(ClustersOf(r, c)[k].members) == multiset(RawMembers(r)[k])
  {
    assert ClustersOf(r, c)[k] == ClusterAt(r, k, c);
  }

  lemma OneMoreCluster(all: seq<IncidentCluster>, raw: seq<seq<ClusterMember>>, n: nat)
    requires n < |all| && n < |raw| && multiset(all[n].members) == multiset(raw[n])
    requires multiset(FlatMap(all[..n], MembersOf())) == multiset(Flatten<ClusterMember>(raw[..n]))
    ensures multiset(FlatMap(all[..n + 1], MembersOf())) == multiset(Flatten<ClusterMember>(raw[..n + 1]))
  {
    TakeOneMore(all, n);
    TakeOneMore<seq<ClusterMember>>(raw, n);
  }

  lemma MemberIdsMultiset(a: seq<ClusterMember>, b: seq<ClusterMember>)
    requires multiset(a) == multiset(b)
    ensures multiset(MemberIds(a)) == multiset(MemberIds(b))
  {
    IdsFlatMap(a);
    IdsFlatMap(b);
    FlatMapIgnoresOrder(a, b, IdOf());
  }

  function IdOf(): ClusterMember -> seq<Text> { (m: ClusterMember) => [m.sourceRowId] }

  lemma {:induction false} IdsFlatMap(a: seq<ClusterMember>)
    ensures MemberIds(a) == FlatMap(a, IdOf())
  {
    if a != [] {
      IdsFlatMap(a[..|a| - 1]);
      assert MemberIds(a) == MemberIds(a[..|a| - 1]) + [a[|a| - 1].sourceRowId];
    }
  }

  function RowIdOf(): Input -> seq<Text> { (m: Input) => [m.sourceRowId] }

  lemma {:induction false} RowIdsFlatMap(a: seq<Input>)
    ensures RowIds(a) == FlatMap(a, RowIdOf())
  {
    if a != [] {
      RowIdsFlatMap(a[..|a| - 1]);
      assert RowIds(a) == RowIds(a[..|a| - 1]) + [a[|a| - 1].sourceRowId];
    }
  }

  lemma ClustersCarryTheBlocks(r: Run, c: Contract)
    requires WellShaped(r)
    ensures multiset(FlatMap(ClustersOf(r, c), MembersOf())) == multiset(Flatten<ClusterMember>(MemberBlocks(r)))
  {
    var all, raw := ClustersOf(r, c), RawMembers(r);
    ClusterMembersAreRaw(r, c, |all|);
    assert all[..|all|] == all && raw[..|raw|] == raw;
    RawMembersAreAllBlocks(r);
  }

  lemma RunKeepsRows(r: Run, c: Contract)
    requires IsRun(r, c)
    ensures multiset(MemberIds(FlatMap(ClustersOf(r, c), MembersOf()))) == multiset(RowIds(r.rows))
  {
    ClustersCarryTheBlocks(r, c);
    MemberIdsMultiset(FlatMap(ClustersOf(r, c), MembersOf()), Flatten<ClusterMember>(MemberBlocks(r)));
    BlocksCarryTheRows(r);
    GroupingKeepsRows(r.rows, c);
    RowIdsMultiset(Flatten<Input>(GroupedRows(r.units)), r.rows);
  }

  lemma RowIdsMultiset(a: seq<Input>, b: seq<Input>)
    requires multiset(a) == multiset(b)
    ensures multiset(RowIds(a)) == multiset(RowIds(b))
  {
    RowIdsFlatMap(a);
    RowIdsFlatMap(b);
    FlatMapIgnoresOrder(a, b, RowIdOf());
  }

  lemma SortedClustersKeepMembers(clusters: seq<IncidentCluster>)
    ensures multiset(MemberIds(FlatMap(Sort(clusters, ByFingerprint()), MembersOf())))
            == multiset(MemberIds(FlatMap(clusters, MembersOf())))
  {
    var sorted := Sort(clusters, ByFingerprint());
    FlatMapIgnoresOrder(sorted, clusters, MembersOf());
    MemberIdsMultiset(FlatMap(sorted, MembersOf()), FlatMap(clusters, MembersOf()));
  }

  /** Main result: the members of the clusters returned are the eligible rows, each exactly as often as received. */
  lemma EveryRowInOneCluster(inputs: seq<Input>, c: Contract)
    requires OutcomeOf(inputs, c).Ok?
    ensures var ids := MemberIds(FlatMap(OutcomeOf(inputs, c).value.clusters, MembersOf()));
            && multiset(ids) == multiset(RowIds(EligibleRows(inputs, c)))
            && (NoDuplicates(RowIds(inputs)) ==> NoDuplicates(ids))
  {
    var rows := EligibleSorted(inputs, c);
    RunOfIsRun(rows, c);
    var r := RunOf(rows, c);
    assert OutcomeOf(inputs, c).value.clusters == Sort(ClustersOf(r, c), ByFingerprint());
    SortedClustersKeepMembers(ClustersOf(r, c));
    RunKeepsRows(r, c);
    RowIdsMultiset(rows, EligibleRows(inputs, c));
    if NoDuplicates(RowIds(inputs)) {
      EligibleIdsDistinct(inputs, c);
      MultisetNoDuplicates(RowIds(EligibleRows(inputs, c)),
                           MemberIds(FlatMap(OutcomeOf(inputs, c).value.clusters, MembersOf())));
    }
  }

  lemma {:induction false} EligibleIdsDistinct(inputs: seq<Input>, c: Contract)
    requires NoDuplicates(RowIds(inputs))
    ensures NoDuplicates(RowIds(EligibleRows(inputs, c)))
    ensures forall id :: id in RowIds(EligibleRows(inputs, c)) ==> id in RowIds(inputs)
  {
    if inputs != [] {
      var init, last := inputs[..|inputs| - 1], inputs[|inputs| - 1];
      assert RowIds(inputs) == RowIds(init) + [last.sourceRowId];
      assert NoDuplicates(RowIds(init)) by {
        forall i, j | 0 <= i < j < |init| ensures RowIds(init)[i] != RowIds(init)[j] {
          assert RowIds(inputs)[i] != RowIds(inputs)[j];
        }
      }
      assert last.sourceRowId !in RowIds(init) by {
        forall i | 0 <= i < |init| ensures RowIds(init)[i] != last.sourceRowId {
          assert RowIds(inputs)[i] != RowIds(inputs)[|init|];
        }
      }
      EligibleIdsDistinct(init, c);
      if last.decision in c.eligibleDecisions {
        assert RowIds(EligibleRows(inputs, c)) == RowIds(EligibleRows(init, c)) + [last.sourceRowId];
      } else {
        assert EligibleRows(inputs, c) == EligibleRows(init, c);
      }
    }
  }
}
