/** The engine's promises at the level of rows: representatives, membership, evidence, and indifference to order. */
module RowLaws {
  import opened Texts
  import opened Sorting
  import opened Sequences
  import opened Partitions
  import opened Components
  import opened Clusters
  import opened Stages
  import opened Runs
  import opened EvidenceLaws
  import opened ConservationLaws

  // -------------------------------------------------------- representatives

  /** Earliest timestamp first, absent ones last, ties by lowest identity; or lowest identity alone. */
  predicate Before(a: Input, b: Input, rule: RepresentativeRule) {
    if rule == LowestId then AtMost(a.sourceRowId, b.sourceRowId)
    else if a.postedAt == b.postedAt then AtMost(a.sourceRowId, b.sourceRowId)
    else a.postedAt.Some? && (b.postedAt.Some? ==> a.postedAt.value < b.postedAt.value)
  }

  ghost predicate IsFirst(best: Input, rows: seq<Input>, rule: RepresentativeRule) {
    best in rows && forall row :: row in rows ==> Before(best, row, rule)
  }

  lemma BeforeIsTransitive(a: Input, b: Input, d: Input, rule: RepresentativeRule)
    requires Before(a, b, rule) && Before(b, d, rule)
    ensures Before(a, d, rule)
  {
    if AtMost(a.sourceRowId, b.sourceRowId) && AtMost(b.sourceRowId, d.sourceRowId) {
      AtMostIsTransitive(a.sourceRowId, b.sourceRowId, d.sourceRowId);
    }
  }

  lemma ByIdIsTotal()
    ensures TotalPreorder(ById())
  {
    var leq := ById();
    forall x: Input, y: Input ensures leq(x, y) || leq(y, x) { LessIsTotal(x.sourceRowId, y.sourceRowId); }
    forall x: Input, y: Input, z: Input | leq(x, y) && leq(y, z) ensures leq(x, z) {
      AtMostIsTransitive(x.sourceRowId, y.sourceRowId, z.sourceRowId);
    }
  }

  lemma {:induction false} EarliestIsFirst(rows: seq<Input>)
    requires rows != [] && Sorted(rows, ById())
    ensures IsFirst(EarliestOf(rows), rows, EarliestThenLowestId)
  {
    var n := |rows| - 1;
    if n == 0 {
      LessIsTotal(rows[0].sourceRowId, rows[0].sourceRowId);
    } else {
      var init, last := rows[..n], rows[n];
      assert Sorted(init, ById()) by {
        forall i, j | 0 <= i <= j < |init| ensures ById()(init[i], init[j]) { assert ById()(rows[i], rows[j]); }
      }
      EarliestIsFirst(init);
      var best := EarliestOf(init);
      var at :| 0 <= at < |init| && init[at] == best;
      assert ById()(rows[at], rows[n]);
      LessIsTotal(last.sourceRowId, last.sourceRowId);
      forall row | row in rows ensures Before(EarliestOf(rows), row, EarliestThenLowestId) {
        assert row in init || row == last;
      }
    }
  }

  /** The representative is the first of the rows under the contract's rule. */
  lemma RepresentativeIsFirst(rows: seq<Input>, rule: RepresentativeRule)
    requires rows != []
    ensures IsFirst(Representative(rows, rule), rows, rule)
  {
    var sorted := Sort(rows, ById());
    ByIdIsTotal();
    SortSorted(rows, ById());
    MultisetMembers(rows, sorted);
    if rule == LowestId {
      forall row | row in rows ensures Before(sorted[0], row, rule) { HeadIsLeast(sorted, row, ById()); }
      assert sorted[0] in sorted;
    } else {
      EarliestIsFirst(sorted);
    }
  }

  lemma UnitRepresentativeIsFirst(r: Run, c: Contract, u: nat)
    requires IsRun(r, c) && u < |r.units|
    ensures IsFirst(r.units[u].representative, r.units[u].members, c.representativeRule)
  {
    KeyHasRows(r.rows, UnitKeys(r.rows)[u]);
    assert r.units[u] == UnitAt(r.rows, u, c);
    RepresentativeIsFirst(r.units[u].members, c.representativeRule);
  }

  /** Main result: the representative of a cluster, chosen among the representatives of its duplicate groups, is the
      first over all the rows of the cluster. */
  lemma ClusterRepresentativeIsFirst(r: Run, c: Contract, k: nat)
    requires IsRun(r, c) && k < |Roots(r.incidents.root)|
    ensures IsFirst(ClusterRepresentative(r, k, c), Gather<Input>(GroupedRows(r.units), ClusterUnits(r, k)),
                    c.representativeRule)
  {
    ClusterIsInhabited(r, k);
    var idx, blocks := ClusterUnits(r, k), GroupedRows(r.units);
    var heads, best := Representatives(r.units, idx), ClusterRepresentative(r, k, c);
    RepresentativeIsFirst(heads, c.representativeRule);
    var at :| 0 <= at < |heads| && heads[at] == best;
    UnitRepresentativeIsFirst(r, c, idx[at]);
    GatherMembers<Input>(blocks, idx, best);
    forall row | row in Gather<Input>(blocks, idx) ensures Before(best, row, c.representativeRule) {
      FirstHeadIsFirst(r, c, idx, best, row);
    }
  }

  lemma FirstHeadIsFirst(r: Run, c: Contract, idx: seq<nat>, best: Input, row: Input)
    requires IsRun(r, c) && IndexesInto(idx, |r.units|) && row in Gather<Input>(GroupedRows(r.units), idx)
    requires IsFirst(best, Representatives(r.units, idx), c.representativeRule)
    ensures Before(best, row, c.representativeRule)
  {
    var heads := Representatives(r.units, idx);
    GatherMembers<Input>(GroupedRows(r.units), idx, row);
    var j :| 0 <= j < |idx| && row in GroupedRows(r.units)[idx[j]];
    UnitRepresentativeIsFirst(r, c, idx[j]);
    assert heads[j] in heads;
    BeforeIsTransitive(best, heads[j], row, c.representativeRule);
  }

  // ------------------------------------------------------- rows and clusters

  lemma MembersCarryKey(r: Run, c: Contract, u: nat, row: Input)
    requires IsRun(r, c) && u < |r.units| && row in r.units[u].members
    ensures row in r.rows && DuplicateKey(row) == r.units[u].key
  {
    KeyHasRows(r.rows, UnitKeys(r.rows)[u]);
    assert r.units[u] == UnitAt(r.rows, u, c);
    RowsWithKeyMembers(r.rows, UnitKeys(r.rows)[u]);
  }

  lemma RowHasKey(rows: seq<Input>, row: Input) returns (u: nat)
    requires row in rows
    ensures u < |UnitKeys(rows)| && UnitKeys(rows)[u] == DuplicateKey(row)
    ensures row in RowsWithKey(rows, UnitKeys(rows)[u])
  {
    UnitKeysMembers(rows);
    var i :| 0 <= i < |rows| && rows[i] == row;
    assert DuplicateKey(rows[i]) in UnitKeys(rows);
    u :| 0 <= u < |UnitKeys(rows)| && UnitKeys(rows)[u] == DuplicateKey(row);
    RowsWithKeyMembers(rows, UnitKeys(rows)[u]);
  }

  /** Every row of a run is in some duplicate group. */
  lemma RowHasUnit(r: Run, c: Contract, row: Input) returns (u: nat)
    requires IsRun(r, c) && row in r.rows
    ensures u < |r.units| && row in r.units[u].members
  {
    u := RowHasKey(r.rows, row);
    assert r.units[u] == UnitAt(r.rows, u, c);
  }

  /** A row sits in the cluster at position `k`. */
  ghost predicate RowIn(r: Run, row: Input, k: nat)
    requires WellShaped(r) && k < |Roots(r.incidents.root)|
  {
    exists i :: 0 <= i < |ClusterUnits(r, k)| && row in r.units[ClusterUnits(r, k)[i]].members
  }

  /** Two rows are tied directly: one canonical URL group, or duplicate groups joined by the evidence. */
  ghost predicate RowsTied(r: Run, c: Contract, x: Input, y: Input)
    requires IsRun(r, c)
  {
    || DuplicateKey(x) == DuplicateKey(y)
    || exists u: nat, v: nat :: u < |r.units| && v < |r.units| && Joined(r, c, u, v)
                                && x in r.units[u].members && y in r.units[v].members
  }

  ghost function RowLinks(r: Run, c: Contract): set<(Input, Input)>
    requires IsRun(r, c)
  {
    set x, y | x in r.rows && y in r.rows && RowsTied(r, c, x, y) :: (x, y)
  }

  /** A chain of duplicate groups lifts to a chain of rows. */
  lemma {:induction false} ChainOfUnitsLifts(r: Run, c: Contract, p: seq<nat>, u: nat, v: nat, x: Input, y: Input)
    requires IsRun(r, c) && u < |r.units| && v < |r.units|
    requires ChainFrom(EvidenceLinks(r, c), p, u, v)
    requires x in r.units[u].members && y in r.units[v].members
    ensures Linked(RowLinks(r, c), x, y)
    decreases |p|
  {
    MembersCarryKey(r, c, u, x);
    MembersCarryKey(r, c, v, y);
    if |p| == 1 {
      assert RowsTied(r, c, x, y);
      LinkedStep(RowLinks(r, c), x, y);
    } else {
      assert Adjacent(EvidenceLinks(r, c), p[0], p[0 + 1]);
      var w: nat := p[1];
      var z := r.units[w].members[0];
      MembersCarryKey(r, c, w, z);
      assert Joined(r, c, u, w) || Joined(r, c, w, u);
      assert RowsTied(r, c, x, z) || RowsTied(r, c, z, x);
      var q := p[1..];
      forall k | 0 <= k < |q| - 1 ensures Adjacent(EvidenceLinks(r, c), q[k], q[k + 1]) {
        assert Adjacent(EvidenceLinks(r, c), p[k + 1], p[k + 1 + 1]);
      }
      ChainOfUnitsLifts(r, c, q, w, v, z, y);
      LinkedStep(RowLinks(r, c), x, z);
      LinkedTransitive(RowLinks(r, c), x, z, y);
    }
  }

  /** Main result: rows share a cluster only if joined by a chain of shared URL groups, syndicated pairs and supported
      pairs. */
  lemma RowsClusteredOnlyOnEvidence(r: Run, c: Contract, k: nat, x: Input, y: Input)
    requires IsRun(r, c) && k < |Roots(r.incidents.root)| && RowIn(r, x, k) && RowIn(r, y, k)
    ensures Linked(RowLinks(r, c), x, y)
  {
    var idx := ClusterUnits(r, k);
    var i :| 0 <= i < |idx| && x in r.units[idx[i]].members;
    var j :| 0 <= j < |idx| && y in r.units[idx[j]].members;
    assert idx[i] in idx && idx[j] in idx;
    UnitInOneCluster(r, idx[i], k);
    UnitInOneCluster(r, idx[j], k);
    ClusteredOnlyOnEvidence(r, c, idx[i], idx[j]);
    var p :| ChainFrom(EvidenceLinks(r, c), p, idx[i], idx[j]);
    ChainOfUnitsLifts(r, c, p, idx[i], idx[j], x, y);
  }

  /** The fields a member record takes from its row. */
  predicate Records(m: ClusterMember, row: Input) {
    && m.sourceRowId == row.sourceRowId && m.rowHash == row.rowHash
    && m.classificationResultId == row.classificationResultId && m.decision == row.decision
  }

  lemma BlockRows(r: Run, u: nat, m: ClusterMember) returns (row: Input)
    requires WellShaped(r) && u < |r.units| && m in MemberBlocks(r)[u]
    ensures row in r.units[u].members && Records(m, row) && m.duplicateFingerprint == r.units[u].fingerprint
  {
    PositionLaws(r.syndication.root, u);
    var block := MemberBlocks(r)[u];
    var at :| 0 <= at < |block| && block[at] == m;
    row := r.units[u].members[at];
  }

  lemma RowBlock(r: Run, u: nat, row: Input) returns (m: ClusterMember)
    requires WellShaped(r) && u < |r.units| && row in r.units[u].members
    ensures m in MemberBlocks(r)[u] && row.sourceRowId == m.sourceRowId
  {
    PositionLaws(r.syndication.root, u);
    var at :| 0 <= at < |r.units[u].members| && r.units[u].members[at] == row;
    m := MemberBlocks(r)[u][at];
  }

  lemma MemberHasRow(r: Run, c: Contract, k: nat, m: ClusterMember) returns (row: Input, u: nat)
    requires WellShaped(r) && k < |Roots(r.incidents.root)| && m in ClusterAt(r, k, c).members
    ensures RowIn(r, row, k) && Records(m, row)
    ensures u < |r.units| && row in r.units[u].members && m.duplicateFingerprint == r.units[u].fingerprint
  {
    var idx, blocks := ClusterUnits(r, k), MemberBlocks(r);
    MultisetMembers<ClusterMember>(Gather<ClusterMember>(blocks, idx), ClusterMembers(r, k));
    GatherMembers<ClusterMember>(blocks, idx, m);
    var j :| 0 <= j < |idx| && m in blocks[idx[j]];
    u := idx[j];
    row := BlockRows(r, u, m);
  }

  lemma BlockNamesReport(r: Run, u: nat, m: ClusterMember)
    requires WellShaped(r) && u < |r.units| && m in MemberBlocks(r)[u]
    ensures PositionOf(r.syndication.root, u) < |r.reports|
    ensures m.syndicationFingerprint == r.reports[PositionOf(r.syndication.root, u)].fingerprint
  {
    PositionLaws(r.syndication.root, u);
    var block := MemberBlocks(r)[u];
    var at :| 0 <= at < |block| && block[at] == m;
  }

  lemma MemberIsInBlock(r: Run, c: Contract, k: nat, m: ClusterMember) returns (u: nat)
    requires WellShaped(r) && k < |Roots(r.incidents.root)| && m in ClusterAt(r, k, c).members
    ensures u < |r.units| && m in MemberBlocks(r)[u]
  {
    var idx, blocks := ClusterUnits(r, k), MemberBlocks(r);
    MultisetMembers<ClusterMember>(Gather<ClusterMember>(blocks, idx), ClusterMembers(r, k));
    GatherMembers<ClusterMember>(blocks, idx, m);
    var j :| 0 <= j < |idx| && m in blocks[idx[j]];
    u := idx[j];
  }

  /** As above, with the report the row's group is in. */
  lemma MemberHasReport(r: Run, c: Contract, k: nat, m: ClusterMember) returns (row: Input, u: nat)
    requires WellShaped(r) && k < |Roots(r.incidents.root)| && m in ClusterAt(r, k, c).members
    ensures u < |r.units| && row in r.units[u].members && Records(m, row)
    ensures PositionOf(r.syndication.root, u) < |r.reports|
    ensures m.syndicationFingerprint == r.reports[PositionOf(r.syndication.root, u)].fingerprint
  {
    u := MemberIsInBlock(r, c, k, m);
    BlockNamesReport(r, u, m);
    row := BlockRows(r, u, m);
  }

  lemma RowHasMember(r: Run, c: Contract, k: nat, row: Input) returns (m: ClusterMember)
    requires WellShaped(r) && k < |Roots(r.incidents.root)| && RowIn(r, row, k)
    ensures m in ClusterAt(r, k, c).members && row.sourceRowId == m.sourceRowId
  {
    var idx, blocks := ClusterUnits(r, k), MemberBlocks(r);
    var j :| 0 <= j < |idx| && row in r.units[idx[j]].members;
    m := RowBlock(r, idx[j], row);
    GatherMembers<ClusterMember>(blocks, idx, m);
    MultisetMembers<ClusterMember>(Gather<ClusterMember>(blocks, idx), ClusterMembers(r, k));
  }

  /** The member records of the cluster at `k` are those of the rows in it, and nothing else. */
  lemma MembersAreTheRows(r: Run, c: Contract, k: nat, id: Text)
    requires WellShaped(r) && k < |Roots(r.incidents.root)|
    ensures id in MemberIds(ClusterAt(r, k, c).members) <==> exists row :: RowIn(r, row, k) && row.sourceRowId == id
  {
    if id in MemberIds(ClusterAt(r, k, c).members) {
      var m := MemberWithId(ClusterAt(r, k, c).members, id);
      var row, u := MemberHasRow(r, c, k, m);
    }
    if row :| RowIn(r, row, k) && row.sourceRowId == id {
      var m := RowHasMember(r, c, k, row);
      IdOfMember(ClusterAt(r, k, c).members, m);
    }
  }

  lemma MemberWithId(members: seq<ClusterMember>, id: Text) returns (m: ClusterMember)
    requires id in MemberIds(members)
    ensures m in members && m.sourceRowId == id
  {
    var i :| 0 <= i < |members| && MemberIds(members)[i] == id;
    m := members[i];
  }

  lemma IdOfMember(members: seq<ClusterMember>, m: ClusterMember)
    requires m in members
    ensures m.sourceRowId in MemberIds(members)
  {
    var i :| 0 <= i < |members| && members[i] == m;
    assert MemberIds(members)[i] == m.sourceRowId;
  }

  // ----------------------------------------------------------------- order

  function EligibleOf(c: Contract): Input -> seq<Input> {
    (row: Input) => if row.decision in c.eligibleDecisions then [row] else []
  }

  lemma {:induction false} EligibleFlatMap(inputs: seq<Input>, c: Contract)
    ensures EligibleRows(inputs, c) == FlatMap(inputs, EligibleOf(c))
  {
    if inputs != [] { EligibleFlatMap(inputs[..|inputs| - 1], c); }
  }

  lemma DistinctIdsDistinguish(rows: seq<Input>)
    requires NoDuplicates(RowIds(rows))
    ensures Distinguishes(rows, ById())
  {
    forall x, y | x in rows && y in rows && ById()(x, y) && ById()(y, x) ensures x == y {
      LessIsTotal(x.sourceRowId, y.sourceRowId);
      var i :| 0 <= i < |rows| && rows[i] == x;
      var j :| 0 <= j < |rows| && rows[j] == y;
      assert RowIds(rows)[i] == RowIds(rows)[j];
    }
  }

  lemma AcceptedInAnyOrder(a: seq<Input>, b: seq<Input>, c: Contract)
    requires Accepted(a, c) && multiset(a) == multiset(b)
    ensures Accepted(b, c)
  {
    MultisetMembers(a, b);
    RowIdsMultiset(a, b);
    MultisetNoDuplicates(RowIds(a), RowIds(b));
    forall i | 0 <= i < |b| ensures FieldsValid(b[i]) { assert b[i] in a; }
    forall i | 0 <= i < |b|
      ensures b[i].batchId == b[0].batchId && b[i].classificationRunId == b[0].classificationRunId
    {
      assert b[i] in a && b[0] in a;
    }
  }

  /** Main result: an accepted list in any order gives identical clusters, links and stats, or the same refusal. */
  lemma OrderIsIrrelevant(a: seq<Input>, b: seq<Input>, c: Contract)
    requires Accepted(a, c) && multiset(a) == multiset(b)
    ensures Accepted(b, c) && OutcomeOf(a, c) == OutcomeOf(b, c)
  {
    AcceptedInAnyOrder(a, b, c);
    MultisetMembers(a, b);
    EligibleFlatMap(a, c);
    EligibleFlatMap(b, c);
    FlatMapIgnoresOrder(a, b, EligibleOf(c));
    EligibleIdsDistinct(a, c);
    DistinctIdsDistinguish(EligibleRows(a, c));
    ByIdIsTotal();
    SortIgnoresOrder(EligibleRows(a, c), EligibleRows(b, c), ById());
  }
}
