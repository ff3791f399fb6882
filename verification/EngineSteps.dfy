/**
 * The first half of `clusterEligible`: its loops over maps, sets and union-finds, each proved equal to
 * the function of `Stages` and `Runs` that says what it computes.
 */
module EngineSteps {
  import opened Texts
  import opened Sorting
  import opened Sequences
  import opened Partitions
  import opened Components
  import opened UnionFinds
  import opened Merging
  import opened Blocking
  import opened Similarity
  import opened Tokens
  import opened Clusters
  import opened Stages

  // ------------------------------------------------------------ the boundary

  /** The fields of one row in the contract's order: identifiers, the decision, the optional identifier. */
  function FieldsRefusal(row: Input): (r: Option<Refusal>)
    ensures r == None <==> FieldsValid(row)
  {
    if row.sourceRowId == [] || row.rowHash == [] || row.classificationResultId == [] || row.classificationRunId == []
       || row.batchId == [] || row.dataOrigin == [] then Some(InvalidIdentifier)
    else if row.decision !in DECISIONS then Some(InvalidDecision)
    else if row.urlGroupId == Some([]) then Some(InvalidIdentifier)
    else None
  }

  function RowsRefusal(inputs: seq<Input>): Option<Refusal> {
    if inputs == [] then None
    else
      var init, row := inputs[..|inputs| - 1], inputs[|inputs| - 1];
      var before := RowsRefusal(init);
      if before.Some? then before
      else if FieldsRefusal(row).Some? then FieldsRefusal(row)
      else if row.sourceRowId in RowIds(init) then Some(DuplicateSourceRow)
      else if row.batchId != inputs[0].batchId || row.classificationRunId != inputs[0].classificationRunId
      then Some(MixedProvenance)
      else None
  }

  function RefusalOf(inputs: seq<Input>, c: Contract): Option<Refusal> {
    if |inputs| > c.maximumInputs then Some(InputBoundExceeded) else RowsRefusal(inputs)
  }

  /** Distinct so far and new at the end is distinct. */
  lemma DistinctOneMore(ids: seq<Text>)
    requires ids != []
    ensures NoDuplicates(ids) <==> NoDuplicates(ids[..|ids| - 1]) && ids[|ids| - 1] !in ids[..|ids| - 1]
  {
    var before, last := ids[..|ids| - 1], ids[|ids| - 1];
    assert ids == before + [last];
    if NoDuplicates(ids) {
      forall i | 0 <= i < |before| ensures before[i] != last { assert ids[i] != ids[|ids| - 1]; }
      forall i, j | 0 <= i < j < |before| ensures before[i] != before[j] { assert ids[i] != ids[j]; }
    }
    if NoDuplicates(before) && last !in before {
      forall i, j | 0 <= i < j < |ids| ensures ids[i] != ids[j] {
        if j < |before| { assert before[i] != before[j]; } else { assert before[i] in before; }
      }
    }
  }

  lemma ProvenanceOneMore(inputs: seq<Input>)
    requires inputs != []
    ensures var row := inputs[|inputs| - 1];
            SameProvenance(inputs) <==>
            SameProvenance(inputs[..|inputs| - 1])
            && row.batchId == inputs[0].batchId && row.classificationRunId == inputs[0].classificationRunId
  {
    var init := inputs[..|inputs| - 1];
    assert forall i :: 0 <= i < |init| ==> init[i] == inputs[i];
    if SameProvenance(inputs) {
      forall i | 0 <= i < |init|
        ensures init[i].batchId == init[0].batchId && init[i].classificationRunId == init[0].classificationRunId
      {
        assert inputs[i].batchId == inputs[0].batchId;
      }
    }
    if SameProvenance(init) && inputs[|init|].batchId == inputs[0].batchId {
      forall i | 0 <= i < |init| ensures inputs[i].batchId == inputs[0].batchId {
        assert init[i].batchId == init[0].batchId;
      }
    }
  }

  /** The boundary lets a list through exactly when it is accepted. */
  lemma {:induction false} RowsRefusalMeaning(inputs: seq<Input>)
    ensures RowsRefusal(inputs) == None <==>
            AllFieldsValid(inputs) && NoDuplicates(RowIds(inputs)) && SameProvenance(inputs)
  {
    if inputs != [] {
      var init, row := inputs[..|inputs| - 1], inputs[|inputs| - 1];
      RowsRefusalMeaning(init);
      assert AllFieldsValid(inputs) <==> AllFieldsValid(init) && FieldsValid(row);
      assert RowIds(inputs) == RowIds(init) + [row.sourceRowId];
      DistinctOneMore(RowIds(inputs));
      ProvenanceOneMore(inputs);
    }
  }

  method AssertInputs(inputs: seq<Input>, c: Contract) returns (refusal: Option<Refusal>)
    ensures refusal == RefusalOf(inputs, c)
    ensures refusal == None <==> Accepted(inputs, c)
  {
    RowsRefusalMeaning(inputs);
    refusal := None;
    if |inputs| > c.maximumInputs {
      refusal := Some(InputBoundExceeded);
    } else {
      var seen: set<Text> := {};
      var i := 0;
      while i < |inputs| && refusal == None
        invariant i <= |inputs|
        invariant refusal == RowsRefusal(inputs[..i])
        invariant forall id :: id in seen <==> id in RowIds(inputs[..i])
      {
        var row := inputs[i];
        RefusalOneMore(inputs, i);
        refusal := FieldsRefusal(row);
        if refusal == None {
          if row.sourceRowId in seen {
            refusal := Some(DuplicateSourceRow);
          } else if row.batchId != inputs[0].batchId || row.classificationRunId != inputs[0].classificationRunId {
            refusal := Some(MixedProvenance);
          }
        }
        seen := seen + {row.sourceRowId};
        i := i + 1;
      }
      if refusal == None {
        assert inputs[..i] == inputs;
      } else {
        RefusalLasts(inputs, i);
      }
    }
  }

  /** What one more row adds to a list not refused so far. */
  lemma RefusalOneMore(inputs: seq<Input>, i: nat)
    requires i < |inputs| && RowsRefusal(inputs[..i]) == None
    ensures RowIds(inputs[..i + 1]) == RowIds(inputs[..i]) + [inputs[i].sourceRowId]
    ensures RowsRefusal(inputs[..i + 1]) ==
            if FieldsRefusal(inputs[i]).Some? then FieldsRefusal(inputs[i])
            else if inputs[i].sourceRowId in RowIds(inputs[..i]) then Some(DuplicateSourceRow)
            else if inputs[i].batchId != inputs[0].batchId
                    || inputs[i].classificationRunId != inputs[0].classificationRunId
            then Some(MixedProvenance)
            else None
  {
    assert inputs[..i + 1][..i] == inputs[..i];
  }

  lemma {:induction false} RefusalLasts(inputs: seq<Input>, n: nat)
    requires n <= |inputs| && RowsRefusal(inputs[..n]).Some?
    ensures RowsRefusal(inputs) == RowsRefusal(inputs[..n])
  {
    if n == |inputs| {
      assert inputs[..n] == inputs;
    } else {
      assert inputs[..|inputs| - 1][..n] == inputs[..n];
      RefusalLasts(inputs[..|inputs| - 1], n);
    }
  }

  // ----------------------------------------------------------------- stage 1

  /** The map groups exactly these rows, its keys in insertion order. */
  ghost predicate Groups(byKey: map<Text, seq<Input>>, order: seq<Text>, rows: seq<Input>) {
    && order == Distinct(KeysOfRows(rows))
    && (forall key :: key in order <==> key in byKey)
    && (forall key :: key in byKey ==> byKey[key] == RowsWithKey(rows, key))
  }

  lemma {:induction false} NoRowsWithKey(rows: seq<Input>, key: Text)
    requires key !in KeysOfRows(rows)
    ensures RowsWithKey(rows, key) == []
  {
    if rows != [] {
      var n := |rows| - 1;
      assert KeysOfRows(rows) == KeysOfRows(rows[..n]) + [DuplicateKey(rows[n])];
      NoRowsWithKey(rows[..n], key);
    }
  }

  lemma RowsWithOneMore(rows: seq<Input>, row: Input, key: Text)
    ensures RowsWithKey(rows + [row], key) == RowsWithKey(rows, key) + if DuplicateKey(row) == key then [row] else []
  {
    assert (rows + [row])[..|rows|] == rows;
  }

  lemma KeysOneMore(rows: seq<Input>, row: Input)
    ensures Distinct(KeysOfRows(rows + [row])) ==
            if DuplicateKey(row) in Distinct(KeysOfRows(rows)) then Distinct(KeysOfRows(rows))
            else Distinct(KeysOfRows(rows)) + [DuplicateKey(row)]
  {
    assert KeysOfRows(rows + [row]) == KeysOfRows(rows) + [DuplicateKey(row)];
    DistinctSnoc(KeysOfRows(rows), DuplicateKey(row));
  }

  lemma GroupsSameKey(byKey: map<Text, seq<Input>>, order: seq<Text>, rows: seq<Input>, row: Input)
    requires Groups(byKey, order, rows) && DuplicateKey(row) in byKey
    ensures Groups(byKey[DuplicateKey(row) := byKey[DuplicateKey(row)] + [row]], order, rows + [row])
  {
    var key := DuplicateKey(row);
    var more := byKey[key := byKey[key] + [row]];
    KeysOneMore(rows, row);
    forall k | k in more ensures more[k] == RowsWithKey(rows + [row], k) { RowsWithOneMore(rows, row, k); }
  }

  lemma GroupsNewKey(byKey: map<Text, seq<Input>>, order: seq<Text>, rows: seq<Input>, row: Input)
    requires Groups(byKey, order, rows) && DuplicateKey(row) !in byKey
    ensures Groups(byKey[DuplicateKey(row) := [row]], order + [DuplicateKey(row)], rows + [row])
  {
    var key, more := DuplicateKey(row), byKey[DuplicateKey(row) := [row]];
    KeysOneMore(rows, row);
    DistinctMembers(KeysOfRows(rows));
    NoRowsWithKey(rows, key);
    RowsWithOneMore(rows, row, key);
    forall k | k in byKey ensures more[k] == RowsWithKey(rows + [row], k) { RowsWithOneMore(rows, row, k); }
    forall k ensures k in order + [key] <==> k in more { InConcat(order, [key], k); }
  }

  method AddRow(byKey0: map<Text, seq<Input>>, order0: seq<Text>, row: Input, ghost rows: seq<Input>)
    returns (byKey: map<Text, seq<Input>>, order: seq<Text>)
    requires Groups(byKey0, order0, rows)
    ensures Groups(byKey, order, rows + [row])
  {
    var key := DuplicateKey(row);
    if key !in byKey0 {
      GroupsNewKey(byKey0, order0, rows, row);
      byKey, order := byKey0[key := [row]], order0 + [key];
    } else {
      GroupsSameKey(byKey0, order0, rows, row);
      byKey, order := byKey0[key := byKey0[key] + [row]], order0;
    }
  }

  method GroupByKey(rows: seq<Input>) returns (byKey: map<Text, seq<Input>>, order: seq<Text>)
    ensures Groups(byKey, order, rows)
  {
    byKey, order := map[], [];
    for i := 0 to |rows|
      invariant Groups(byKey, order, rows[..i])
    {
      assert rows[..i + 1] == rows[..i] + [rows[i]];
      byKey, order := AddRow(byKey, order, rows[i], rows[..i]);
    }
    assert rows[..|rows|] == rows;
  }

  lemma EarliestOneMore(rows: seq<Input>, i: nat)
    requires 0 < i < |rows|
    ensures var best := EarliestOf(rows[..i]);
            EarliestOf(rows[..i + 1]) == if Earlier(rows[i].postedAt, best.postedAt) then rows[i] else best
  {
    assert rows[..i + 1][..i] == rows[..i];
  }

  method RepresentativeOf(rows: seq<Input>, rule: RepresentativeRule) returns (best: Input)
    requires rows != []
    ensures best == Representative(rows, rule)
  {
    var byId := Sort(rows, ById());
    best := byId[0];
    if rule == EarliestThenLowestId {
      var bestTime := best.postedAt;
      assert byId[..1] == [byId[0]];
      for i := 1 to |byId|
        invariant best == EarliestOf(byId[..i]) && bestTime == best.postedAt
      {
        EarliestOneMore(byId, i);
        if Earlier(byId[i].postedAt, bestTime) {
          best := byId[i];
          bestTime := best.postedAt;
        }
      }
      assert byId[..|byId|] == byId;
    }
  }

  method BuildUnit(key: Text, members: seq<Input>, c: Contract) returns (unit: Unit)
    requires members != []
    ensures unit == UnitOf(key, members, c)
  {
    var representative := RepresentativeOf(members, c.representativeRule);
    var distinctive := DistinctiveTokens(representative.tokens, c.tokenRules);
    var shingles := Shingles(representative.tokens, c.tokenRules);
    unit := Unit(key, c.fingerprintOf([DUPLICATE_TAG, key]), members, representative,
                 distinctive, SortedHashes(shingles, c.hash32), representative.postedAt);
  }

  method BuildUnitAt(rows: seq<Input>, byKey: map<Text, seq<Input>>, keys: seq<Text>, k: nat, c: Contract)
    returns (unit: Unit)
    requires keys == UnitKeys(rows) && k < |keys|
    requires keys[k] in byKey && byKey[keys[k]] == RowsWithKey(rows, keys[k])
    ensures unit == UnitAt(rows, k, c)
  {
    KeyHasRows(rows, keys[k]);
    unit := BuildUnit(keys[k], byKey[keys[k]], c);
  }

  lemma KeysAreFiled(byKey: map<Text, seq<Input>>, order: seq<Text>, rows: seq<Input>)
    requires Groups(byKey, order, rows)
    ensures Sort(order, TextOrder()) == UnitKeys(rows)
    ensures forall k :: 0 <= k < |UnitKeys(rows)| ==>
              UnitKeys(rows)[k] in byKey && byKey[UnitKeys(rows)[k]] == RowsWithKey(rows, UnitKeys(rows)[k])
  {
    var keys := UnitKeys(rows);
    MultisetMembers(order, keys);
    forall k | 0 <= k < |keys| ensures keys[k] in byKey { assert keys[k] in keys; }
  }

  method BuildUnits(rows: seq<Input>, c: Contract) returns (units: seq<Unit>)
    ensures units == UnitsOf(rows, c)
  {
    var byKey, order := GroupByKey(rows);
    var keys := Sort(order, TextOrder());
    KeysAreFiled(byKey, order, rows);
    ghost var all := UnitsOf(rows, c);
    units := [];
    for k := 0 to |keys|
      invariant units == all[..k]
    {
      var unit := BuildUnitAt(rows, byKey, keys, k, c);
      TakeOneMore(all, k);
      assert unit == all[k];
      units := units + [unit];
    }
    assert all[..|keys|] == all;
  }

  // -------------------------------------------------------- the cluster bound

  /** Marks every unit over the bound; under `RejectRun` the first one refuses the run. */
  method MarkOversized(weights: seq<nat>, c: Contract) returns (marked: set<nat>, bounds: nat, refused: bool)
    ensures refused <==> Oversized(weights, c.maximumClusterSize) != {} && c.oversizedGroupBehaviour == RejectRun
    ensures !refused ==> marked == Oversized(weights, c.maximumClusterSize) && bounds == |marked|
  {
    marked, bounds, refused := {}, 0, false;
    var i := 0;
    while i < |weights| && !refused
      invariant i <= |weights|
      invariant !refused ==> marked == OversizedUpTo(weights, c.maximumClusterSize, i) && bounds == |marked|
      invariant !refused && c.oversizedGroupBehaviour == RejectRun ==> marked == {}
      invariant refused ==> c.oversizedGroupBehaviour == RejectRun && i > 0 && weights[i - 1] > c.maximumClusterSize
    {
      OversizedMore(weights, c.maximumClusterSize, i);
      if weights[i] > c.maximumClusterSize {
        if c.oversizedGroupBehaviour == RejectRun {
          refused := true;
        } else {
          marked, bounds := MarkOne(marked, bounds, i);
        }
      }
      i := i + 1;
    }
    if refused { assert i - 1 in Oversized(weights, c.maximumClusterSize); }
  }

  /** A weight within the bound marks nothing; under `RejectRun` a walk that goes on has marked nothing. */
  lemma OversizedMore(weights: seq<nat>, maximum: nat, i: nat)
    requires i < |weights|
    ensures OversizedUpTo(weights, maximum, i + 1)
         == OversizedUpTo(weights, maximum, i) + if weights[i] > maximum then {i} else {}
    ensures weights[i] <= maximum ==> OversizedUpTo(weights, maximum, i + 1) == OversizedUpTo(weights, maximum, i)
    ensures i !in OversizedUpTo(weights, maximum, i)
  {}

  method MarkOne(marked0: set<nat>, bounds0: nat, i: nat) returns (marked: set<nat>, bounds: nat)
    requires i !in marked0 && bounds0 == |marked0|
    ensures marked == marked0 + {i} && bounds == |marked|
  {
    marked, bounds := marked0 + {i}, bounds0 + 1;
  }

  // ----------------------------------------------------------------- stage 2

  lemma MergeSnoc(weights: seq<nat>, maximum: nat, pairs: seq<Pair>, p: Pair)
    requires Within(pairs, |weights|) && p.0 < |weights| && p.1 < |weights|
    ensures Within(pairs + [p], |weights|)
    ensures MergeAll(weights, maximum, pairs + [p]) == MergeOne(MergeAll(weights, maximum, pairs), weights, maximum, p)
  {
    assert (pairs + [p])[..|pairs|] == pairs;
  }

  /** One supported pair: refused and marked when the bound forbids it, joined otherwise. */
  method MergePair(sets: UnionFind, left: nat, right: nat, maximum: nat, ghost m: Merge)
    returns (admitted: bool, joined: bool, root: nat)
    requires sets.Valid() && sets.Root == m.root && left < |sets.Root| && right < |sets.Root|
    modifies sets`Root, sets.parent, sets.size
    ensures sets.Valid()
    ensures var next := MergeOne(m, sets.Weights, maximum, (left, right));
            && sets.Root == next.root
            && next.refused == (if admitted then m.refused else m.refused + {left, right})
            && next.refusals == (if admitted then m.refusals else m.refusals + 1)
            && next.unions == (if joined then m.unions + [Union(left, right, root)] else m.unions)
    ensures joined ==> admitted
  {
    JoinKeepsPartition(sets.Root, left, right);
    admitted := sets.CanUnion(left, right, maximum);
    joined, root := false, 0;
    if admitted {
      joined := sets.Union(left, right);
      if joined { root := sets.Find(left); }
    }
  }

  ghost predicate UnitsValid(units: seq<Unit>) {
    forall i :: 0 <= i < |units| ==> Ordered(units[i].shingleHashes) && NoDuplicates(units[i].distinctive)
  }

  lemma UnitsAreValid(rows: seq<Input>, c: Contract)
    ensures UnitsValid(UnitsOf(rows, c)) && ItemsValid(UnitItems(UnitsOf(rows, c)))
  {
    var units := UnitsOf(rows, c);
    forall i | 0 <= i < |units| ensures Ordered(units[i].shingleHashes) && NoDuplicates(units[i].distinctive) {
      KeyHasRows(rows, UnitKeys(rows)[i]);
      DistinctiveLaws(units[i].representative.tokens, c.tokenRules);
    }
  }

  /** The union-find and the running marks agree with the merge of the pairs taken so far. */
  ghost predicate Agrees(root: seq<nat>, refused: set<nat>, refusals: nat, m: Merge) {
    root == m.root && refused == m.refused && refusals == m.refusals
  }

  method SyndicatePair(sets: UnionFind, units: seq<Unit>, p: Pair, c: Contract,
                       refused0: set<nat>, refusals0: nat, ghost before: seq<Pair>)
    returns (refused: set<nat>, refusals: nat)
    requires sets.Valid() && |sets.Weights| == |units| && UnitsValid(units)
    requires p.0 < |units| && p.1 < |units| && Within(before, |units|)
    requires Agrees(sets.Root, refused0, refusals0, MergeAll(sets.Weights, c.maximumClusterSize, before))
    modifies sets`Root, sets.parent, sets.size
    ensures sets.Valid()
    ensures var after := before + if Syndicated(units[p.0], units[p.1], c) then [p] else [];
            && Within(after, |units|)
            && Agrees(sets.Root, refused, refusals, MergeAll(sets.Weights, c.maximumClusterSize, after))
  {
    refused, refusals := refused0, refusals0;
    var score := SimilarityOfSorted(units[p.0].shingleHashes, units[p.1].shingleHashes);
    if score >= c.syndicationThreshold {
      MergeSnoc(sets.Weights, c.maximumClusterSize, before, p);
      var admitted, joined, root :=
        MergePair(sets, p.0, p.1, c.maximumClusterSize, MergeAll(sets.Weights, c.maximumClusterSize, before));
      if !admitted {
        refused := refused + {p.0, p.1};
        refusals := refusals + 1;
      }
    } else {
      assert before + [] == before;
    }
  }

  method MergeSyndicated(units: seq<Unit>, weights: seq<nat>, pairs: seq<Pair>, c: Contract)
    returns (sets: UnionFind, refused: set<nat>, refusals: nat)
    requires UnitsValid(units) && |weights| == |units| && Within(pairs, |units|)
    ensures fresh(sets) && fresh(sets.parent) && fresh(sets.size) && sets.Valid() && sets.Weights == weights
    ensures Agrees(sets.Root, refused, refusals,
                   MergeAll(weights, c.maximumClusterSize, SyndicatedPairs(units, pairs, c)))
  {
    sets := new UnionFind(weights);
    refused, refusals := {}, 0;
    ghost var taken: seq<Pair> := [];
    for i := 0 to |pairs|
      invariant fresh(sets) && fresh(sets.parent) && fresh(sets.size) && sets.Valid() && sets.Weights == weights
      invariant Within(pairs[..i], |units|) && taken == SyndicatedPairs(units, pairs[..i], c)
      invariant Agrees(sets.Root, refused, refusals, MergeAll(weights, c.maximumClusterSize, taken))
    {
      assert pairs[..i + 1][..i] == pairs[..i];
      refused, refusals := SyndicatePair(sets, units, pairs[i], c, refused, refusals, taken);
      taken := taken + if Syndicated(units[pairs[i].0], units[pairs[i].1], c) then [pairs[i]] else [];
    }
    assert pairs[..|pairs|] == pairs;
  }

  // -------------------------------------------------------------- components

  function NatOrder(): (nat, nat) -> bool { (a: nat, b: nat) => a <= b }

  lemma SortAscending(s: seq<nat>)
    requires forall i, j :: 0 <= i < j < |s| ==> s[i] < s[j]
    ensures Sort<nat>(s, NatOrder()) == s
  {
    var leq: (nat, nat) -> bool := NatOrder();
    assert TotalPreorder<nat>(leq);
    SortSorted<nat>(s, leq);
    assert Sorted<nat>(s, leq);
    SortedUnique<nat>(s, Sort<nat>(s, leq), leq);
  }

  /** The buckets filled so far hold the components of the first `n` nodes, their roots in order. */
  ghost predicate Buckets(byRoot: map<nat, seq<nat>>, order: seq<nat>, root: seq<nat>, n: nat)
    requires n <= |root|
  {
    && order == RootsUpTo(root, n)
    && (forall r: nat :: r in byRoot <==> r in order)
    && (forall r: nat :: r in byRoot ==> byRoot[r] == MembersUpTo(root, r, n))
  }

  lemma MembersElsewhere(root: seq<nat>, r: nat, n: nat)
    requires n < |root|
    ensures MembersUpTo(root, r, n + 1)
         == if root[n] == r then MembersUpTo(root, r, n) + [n] else MembersUpTo(root, r, n)
  {
    assert MembersUpTo(root, r, n) + [] == MembersUpTo(root, r, n);
  }

  lemma {:induction false} NoMembersYet(root: seq<nat>, r: nat, n: nat)
    requires IsPartition(root) && n <= r < |root|
    ensures MembersUpTo(root, r, n) == []
  {
    if n > 0 { NoMembersYet(root, r, n - 1); }
  }

  lemma BucketsNewRoot(byRoot: map<nat, seq<nat>>, order: seq<nat>, root: seq<nat>, n: nat)
    requires IsPartition(root) && n < |root| && Buckets(byRoot, order, root, n) && root[n] !in byRoot
    ensures root[n] == n && Buckets(byRoot[n := [n]], order + [n], root, n + 1)
  {
    RootsUpToLaws(root, n);
    assert root[n] !in order;
    NoMembersYet(root, n, n);
    forall r: nat | r in byRoot ensures MembersUpTo(root, r, n + 1) == byRoot[r] { MembersElsewhere(root, r, n); }
    MembersElsewhere(root, n, n);
  }

  lemma BucketsOldRoot(byRoot: map<nat, seq<nat>>, order: seq<nat>, root: seq<nat>, n: nat)
    requires IsPartition(root) && n < |root| && Buckets(byRoot, order, root, n) && root[n] in byRoot
    ensures Buckets(byRoot[root[n] := byRoot[root[n]] + [n]], order, root, n + 1)
  {
    RootsUpToLaws(root, n);
    assert root[n] in order;
    NoNewRoot(root, n);
    forall r: nat | r in byRoot
      ensures MembersUpTo(root, r, n + 1) == if r == root[n] then byRoot[r] + [n] else byRoot[r]
    {
      MembersElsewhere(root, r, n);
    }
  }

  lemma NoNewRoot(root: seq<nat>, n: nat)
    requires n < |root| && root[n] != n
    ensures RootsUpTo(root, n + 1) == RootsUpTo(root, n)
  {
    assert RootsUpTo(root, n) + [] == RootsUpTo(root, n);
  }

  method ComponentsOf(sets: UnionFind) returns (lists: seq<seq<nat>>)
    requires sets.Valid()
    modifies sets.parent
    ensures sets.Valid()
    ensures lists == ComponentLists(sets.Root)
  {
    ghost var root := sets.Root;
    var byRoot: map<nat, seq<nat>> := map[];
    var order: seq<nat> := [];
    var n := sets.parent.Length;
    for i := 0 to n
      invariant sets.Valid() && Buckets(byRoot, order, root, i)
    {
      var r := sets.Find(i);
      if r !in byRoot {
        BucketsNewRoot(byRoot, order, root, i);
        byRoot := byRoot[r := [i]];
        order := order + [r];
      } else {
        BucketsOldRoot(byRoot, order, root, i);
        byRoot := byRoot[r := byRoot[r] + [i]];
      }
    }
    RootsUpToLaws(root, n);
    SortAscending(order);
    lists := BucketsInOrder(byRoot, Sort<nat>(order, NatOrder()), root);
  }

  method BucketsInOrder(byRoot: map<nat, seq<nat>>, order: seq<nat>, ghost root: seq<nat>)
    returns (lists: seq<seq<nat>>)
    requires Buckets(byRoot, order, root, |root|)
    ensures lists == ComponentLists(root)
  {
    lists := [];
    for k := 0 to |order|
      invariant lists == ComponentLists(root)[..k]
    {
      assert order[k] in order;
      lists := lists + [byRoot[order[k]]];
    }
    assert ComponentLists(root)[..|order|] == ComponentLists(root);
  }
}
