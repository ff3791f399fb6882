/**
 * Three rows, in three duplicate groups and three reports, whose one cluster holds a merge of two timed reports and
 * does not say so: the first row has no timestamp, and joins last.
 */
module TimeWitness {
  import opened Texts
  import opened Sorting
  import opened Sequences
  import opened Partitions
  import opened Components
  import opened Merging
  import opened Blocking
  import opened Similarity
  import opened Tokens
  import opened Clusters
  import opened Stages
  import opened Runs
  import opened TimeLaws
  import opened OutcomeLaws
  import RowLaws

  // ------------------------------------------------------------- the input

  const A: Text := [0x61]
  const B: Text := [0x62]
  const ID: Text := [0x30]

  function RowAt(id: CodeUnit, postedAt: Option<int>, tokens: seq<Text>): Input {
    Input([id], ID, ID, ID, ID, ID, INCLUDE, None, postedAt, tokens)
  }

  /** No row has a URL; the second and third were posted at one instant and share `A`, the first two share `B`. */
  const ROWS: seq<Input> := [RowAt(0x31, None, [B]), RowAt(0x32, Some(0), [A, B]), RowAt(0x33, Some(0), [A])]

  const ITEMS: seq<seq<Text>> := [[B], [A, B], [A]]

  const TOKEN_RULES := TokenRules({}, 1, 4, 100, [0x20])
  const BLOCKING_RULES := BlockingRules(2, 2, 2, 0.0)

  /** A contract that allows missing timestamps, whatever its two digests are. */
  function Allowing(hash32: Text -> int, fingerprintOf: seq<Text> -> Text): Contract {
    Contract({INCLUDE}, TOKEN_RULES, Jaccard, 0.9, 0.5, 0.1, BLOCKING_RULES, 1, 1, 0.0, 72.0, Allow, RecordAmbiguous,
             EarliestThenLowestId, 100, 3, Rows, RejectRun, 10, hash32, fingerprintOf)
  }

  ghost predicate IsAllowing(c: Contract) {
    && c.eligibleDecisions == {INCLUDE} && c.tokenRules == TOKEN_RULES && c.measure == Jaccard
    && c.syndicationThreshold == 0.9 && c.incidentThreshold == 0.5 && c.blocking == BLOCKING_RULES
    && c.minimumSharedDistinctiveTokens == 1 && c.minimumSharedRareTokens == 1
    && c.rareTokenDocumentFrequencyRatio == 0.0 && c.timeWindowHours == 72.0 && c.missingTimestampBehaviour == Allow
    && c.representativeRule == EarliestThenLowestId && c.maximumInputs == 100 && c.maximumClusterSize == 3
    && c.clusterSizeUnit == Rows
  }

  // ---------------------------------------------------------- sorted as it is

  lemma SortStays<T(!new)>(s: seq<T>, leq: (T, T) -> bool)
    requires TotalPreorder(leq) && Sorted(s, leq) && Distinguishes(s, leq)
    ensures Sort(s, leq) == s
  {
    SortSorted(s, leq);
    SortedUnique(s, Sort(s, leq), leq);
  }

  lemma {:induction false} DistinctStays<T(!new)>(s: seq<T>)
    requires NoDuplicates(s)
    ensures Distinct(s) == s
  {
    if s != [] {
      var init, last := s[..|s| - 1], s[|s| - 1];
      DistinctStays(init);
      assert s == init + [last];
      assert last !in init;
    }
  }

  lemma TextsStay(s: seq<Text>)
    requires Sorted(s, TextOrder()) && NoDuplicates(s)
    ensures Sort(Distinct(s), TextOrder()) == s
  {
    DistinctStays(s);
    TextOrderIsTotal();
    SortStays(s, TextOrder());
  }

  lemma {:induction false} PrefixKeepsOrder(prefix: Text, a: Text, b: Text)
    ensures Less(prefix + a, prefix + b) == Less(a, b)
  {
    if prefix == [] {
      assert [] + a == a && [] + b == b;
    } else {
      PrefixKeepsOrder(prefix[1..], a, b);
      assert (prefix + a)[1..] == prefix[1..] + a && (prefix + b)[1..] == prefix[1..] + b;
    }
  }

  lemma UnitOrder(a: CodeUnit, b: CodeUnit)
    ensures Less([a], [b]) == (a < b)
  {
    assert [a][1..] == [] && [b][1..] == [];
  }

  // ------------------------------------------------------------------- stage 1

  lemma RowsAreAccepted(c: Contract)
    requires IsAllowing(c)
    ensures Accepted(ROWS, c)
  {
    var ids := RowIds(ROWS);
    assert ids[0][0] == 0x31 && ids[1][0] == 0x32 && ids[2][0] == 0x33;
  }

  lemma RowsAreSorted(c: Contract)
    requires IsAllowing(c)
    ensures EligibleSorted(ROWS, c) == ROWS
  {
    assert ROWS[..2][..1] == ROWS[..1] && ROWS[..1][..0] == [];
    assert EligibleRows(ROWS[..1], c) == ROWS[..1];
    assert EligibleRows(ROWS[..2], c) == ROWS[..2];
    assert EligibleRows(ROWS, c) == ROWS;
    UnitOrder(0x32, 0x31);
    UnitOrder(0x33, 0x32);
    UnitOrder(0x33, 0x31);
    UnitOrder(0x31, 0x31);
    UnitOrder(0x32, 0x32);
    UnitOrder(0x33, 0x33);
    assert Sorted(ROWS, ById());
    RowLaws.ByIdIsTotal();
    RowsAreAccepted(c);
    RowLaws.DistinctIdsDistinguish(ROWS);
    SortStays(ROWS, ById());
  }

  function KeyAt(k: nat): Text
    requires k < 3
  {
    ROW_PREFIX + ROWS[k].sourceRowId
  }

  lemma KeysDiffer(j: nat, k: nat)
    requires j < 3 && k < 3
    ensures Less(KeyAt(j), KeyAt(k)) == (j < k)
    ensures KeyAt(j) == KeyAt(k) <==> j == k
  {
    PrefixKeepsOrder(ROW_PREFIX, ROWS[j].sourceRowId, ROWS[k].sourceRowId);
    PrefixKeepsOrder(ROW_PREFIX, ROWS[k].sourceRowId, ROWS[j].sourceRowId);
    UnitOrder(0x31 + j, 0x31 + k);
    UnitOrder(0x31 + k, 0x31 + j);
    assert ROWS[j].sourceRowId == [0x31 + j] && ROWS[k].sourceRowId == [0x31 + k];
    LessIsTotal(KeyAt(j), KeyAt(k));
  }

  lemma KeysAscend(keys: seq<Text>)
    requires |keys| == 3 && forall k :: 0 <= k < 3 ==> keys[k] == KeyAt(k)
    ensures Sorted(keys, TextOrder()) && NoDuplicates(keys)
  {
    forall i, j | 0 <= i < j < 3 ensures keys[i] != keys[j] { KeysDiffer(i, j); }
    forall i, j | 0 <= i <= j < 3 ensures TextOrder()(keys[i], keys[j]) { KeysDiffer(j, i); }
  }

  lemma KeysOfTheRows()
    ensures |UnitKeys(ROWS)| == 3
    ensures forall k :: 0 <= k < 3 ==> UnitKeys(ROWS)[k] == KeyAt(k)
  {
    var keys := KeysOfRows(ROWS);
    forall k | 0 <= k < 3 ensures keys[k] == KeyAt(k) { assert DuplicateKey(ROWS[k]) == KeyAt(k); }
    KeysAscend(keys);
    TextsStay(keys);
  }

  lemma RowsOfKey(k: nat)
    requires k < 3
    ensures RowsWithKey(ROWS, KeyAt(k)) == [ROWS[k]]
  {
    KeysDiffer(0, k);
    KeysDiffer(1, k);
    KeysDiffer(2, k);
    var key := KeyAt(k);
    assert ROWS[..2][..1] == ROWS[..1] && ROWS[..1][..0] == [];
    assert RowsWithKey(ROWS[..1], key) == if k == 0 then [ROWS[0]] else [];
    assert RowsWithKey(ROWS[..2], key) == if k == 0 then [ROWS[0]] else if k == 1 then [ROWS[1]] else [];
  }

  /** A unit is one row, with the row's own tokens and no shingle. */
  ghost predicate UnitLooks(unit: Unit, k: nat)
    requires k < 3
  {
    && unit.members == [ROWS[k]] && unit.distinctive == ITEMS[k] && unit.shingleHashes == []
    && unit.postedAt == ROWS[k].postedAt
  }

  ghost predicate UnitsLook(units: seq<Unit>) {
    |units| == 3 && UnitLooks(units[0], 0) && UnitLooks(units[1], 1) && UnitLooks(units[2], 2)
  }

  lemma ItemsAreSorted(k: nat)
    requires k < 3
    ensures Sorted(ITEMS[k], TextOrder()) && NoDuplicates(ITEMS[k]) && ROWS[k].tokens == ITEMS[k]
  {
    UnitOrder(0x61, 0x62);
    UnitOrder(0x62, 0x61);
    UnitOrder(0x61, 0x61);
    UnitOrder(0x62, 0x62);
  }

  lemma ItemsAreDistinctive(k: nat)
    requires k < 3
    ensures Distinctive(ITEMS[k], TOKEN_RULES) == ITEMS[k]
  {
    var tokens, kept := ITEMS[k], Distinctive(ITEMS[k], TOKEN_RULES);
    ItemsAreSorted(k);
    DistinctiveLaws(tokens, TOKEN_RULES);
    forall t | t in tokens ensures Carries(t, TOKEN_RULES) { assert t == A || t == B; }
    NoDuplicatesMultiset(tokens, kept);
    TextOrderIsTotal();
    SortedUnique(tokens, kept, TextOrder());
  }

  lemma OneRowIsItsUnit(row: Input, key: Text, c: Contract)
    ensures var unit := UnitOf(key, [row], c);
            && unit.members == [row] && unit.postedAt == row.postedAt
            && unit.distinctive == Distinctive(row.tokens, c.tokenRules)
            && unit.shingleHashes == SortedHashes(ShinglesOf(row.tokens, c.tokenRules), c.hash32)
  {
    var rows := [row];
    assert rows[1..] == [];
    assert Sort(rows, ById()) == rows;
    assert Representative(rows, c.representativeRule) == row;
  }

  lemma NoShingles(k: nat, c: Contract)
    requires k < 3 && IsAllowing(c)
    ensures SortedHashes(ShinglesOf(ITEMS[k], c.tokenRules), c.hash32) == []
  {
    ShinglesLaws(ITEMS[k], TOKEN_RULES);
  }

  lemma RowIsItsUnit(k: nat, c: Contract)
    requires k < 3 && IsAllowing(c)
    ensures UnitLooks(UnitOf(KeyAt(k), [ROWS[k]], c), k)
  {
    OneRowIsItsUnit(ROWS[k], KeyAt(k), c);
    ItemsAreSorted(k);
    ItemsAreDistinctive(k);
    NoShingles(k, c);
  }

  lemma UnitAtKey(rows: seq<Input>, k: nat, key: Text, row: Input, c: Contract)
    requires k < |UnitKeys(rows)| && UnitKeys(rows)[k] == key && RowsWithKey(rows, key) == [row]
    ensures UnitsOf(rows, c)[k] == UnitOf(key, [row], c)
  {
    assert UnitsOf(rows, c)[k] == UnitAt(rows, k, c);
  }

  lemma UnitAtRow(k: nat, c: Contract)
    requires k < 3 && IsAllowing(c)
    ensures |UnitsOf(ROWS, c)| == 3 && UnitLooks(UnitsOf(ROWS, c)[k], k)
  {
    KeysOfTheRows();
    RowsOfKey(k);
    UnitAtKey(ROWS, k, KeyAt(k), ROWS[k], c);
    RowIsItsUnit(k, c);
  }

  lemma UnitsOfTheRows(c: Contract)
    requires IsAllowing(c)
    ensures UnitsLook(UnitsOf(ROWS, c))
  {
    UnitAtRow(0, c);
    UnitAtRow(1, c);
    UnitAtRow(2, c);
  }

  // ------------------------------------------------------------------- stage 2

  lemma {:induction false} NothingIsSyndicated(units: seq<Unit>, pairs: seq<Pair>, c: Contract)
    requires UnitsLook(units) && IsAllowing(c) && Within(pairs, 3)
    ensures SyndicatedPairs(units, pairs, c) == []
  {
    if pairs != [] {
      assert Within(pairs[..|pairs| - 1], 3);
      NothingIsSyndicated(units, pairs[..|pairs| - 1], c);
    }
  }

  lemma DiscreteComponents()
    ensures Roots(Discrete(3)) == [0, 1, 2]
    ensures forall k: nat :: k < 3 ==> Members(Discrete(3), k) == [k]
  {
    var root := Discrete(3);
    assert root == [0, 1, 2];
    assert RootsUpTo(root, 1) == [0] && RootsUpTo(root, 2) == [0, 1];
    forall k: nat | k < 3 ensures Members(root, k) == [k] {
      assert MembersUpTo(root, k, 1) == if k == 0 then [0] else [];
      assert MembersUpTo(root, k, 2) == if k == 0 then [0] else if k == 1 then [1] else [];
    }
  }

  /** A report is one unit, with the unit's tokens and timestamp. */
  ghost predicate ReportLooks(report: Report, k: nat)
    requires k < 3
  {
    report.distinctive == ITEMS[k] && report.earliest == ROWS[k].postedAt
  }

  ghost predicate ReportsLook(reports: seq<Report>) {
    |reports| == 3 && ReportLooks(reports[0], 0) && ReportLooks(reports[1], 1) && ReportLooks(reports[2], 2)
  }

  lemma SingleReport(units: seq<Unit>, k: nat, c: Contract)
    requires k < |units| && Sorted(units[k].distinctive, TextOrder()) && NoDuplicates(units[k].distinctive)
    ensures ReportOf(units, [k], c).distinctive == units[k].distinctive
    ensures ReportOf(units, [k], c).earliest == units[k].postedAt
  {
    var idx: seq<nat> := [k];
    GatherOne<Text>(UnitItems(units), k);
    TextsStay(units[k].distinctive);
    assert idx[..0] == [];
    assert EarliestTime(units, idx) == units[k].postedAt;
  }

  lemma UnitIsItsReport(units: seq<Unit>, k: nat, c: Contract)
    requires k < |units| == 3 && UnitLooks(units[k], k)
    ensures ReportLooks(ReportOf(units, [k], c), k)
  {
    ItemsAreSorted(k);
    SingleReport(units, k, c);
  }

  lemma ReportAlone(units: seq<Unit>, root: seq<nat>, k: nat, c: Contract)
    requires |root| == |units| && k < |units| && k < |Roots(root)| && Roots(root)[k] == k && Members(root, k) == [k]
    ensures ReportsOf(units, root, c)[k] == ReportOf(units, [k], c)
  {
    assert ReportsOf(units, root, c)[k] == ReportAt(units, root, k, c);
  }

  lemma ReportAtUnit(units: seq<Unit>, k: nat, c: Contract)
    requires k < |units| == 3 && UnitLooks(units[k], k)
    requires k < |Roots(Discrete(3))| && Roots(Discrete(3))[k] == k && Members(Discrete(3), k) == [k]
    ensures ReportLooks(ReportsOf(units, Discrete(3), c)[k], k)
  {
    UnitIsItsReport(units, k, c);
    ReportAlone(units, Discrete(3), k, c);
  }

  lemma ReportsOfTheUnits(units: seq<Unit>, c: Contract)
    requires UnitsLook(units)
    ensures ReportsLook(ReportsOf(units, Discrete(3), c))
  {
    DiscreteComponents();
    ReportAtUnit(units, 0, c);
    ReportAtUnit(units, 1, c);
    ReportAtUnit(units, 2, c);
  }

  lemma EachWeighsOne(units: seq<Unit>)
    requires UnitsLook(units)
    ensures ReportWeightsOf(units, Discrete(3), [1, 1, 1]) == [1, 1, 1]
  {
    DiscreteComponents();
    var w := ReportWeightsOf(units, Discrete(3), [1, 1, 1]);
    forall k: nat | k < 3 ensures w[k] == 1 {
      var idx: seq<nat> := [k];
      assert idx[..0] == [];
      assert SumAt([1, 1, 1], idx) == 1;
      assert w[k] == SumAt([1, 1, 1], Members(Discrete(3), Roots(Discrete(3))[k]));
    }
  }

  // ------------------------------------------------------------------- stage 3

  /** Every item keeps both of its tokens as keys, whatever the hash. */
  lemma AllAreEligible(k: nat, t: Text)
    requires k < 3
    ensures t in Eligible(ITEMS[k], ITEMS, 2) <==> t in ITEMS[k]
  {
    ItemFrequencies();
    EligibleTokens(ITEMS[k], ITEMS, 2);
    assert t in ITEMS[k] ==> t == A || t == B;
  }

  lemma AllAreKeys(hash: Text -> int, k: nat, t: Text)
    requires k < 3
    ensures t in ChosenKeys(ITEMS, BLOCKING_RULES, hash)[k] <==> t in ITEMS[k]
  {
    var eligible := Eligible(ITEMS[k], ITEMS, 2);
    forall x ensures x in eligible <==> x in ITEMS[k] { AllAreEligible(k, x); }
    ItemsAreSorted(k);
    EligibleTokens(ITEMS[k], ITEMS, 2);
    NoDuplicatesMultiset(eligible, ITEMS[k]);
    MultisetMembers(eligible, ITEMS[k]);
    MultisetMembers(eligible, Sort(eligible, HashOrder(hash)));
    assert MaximumFrequency(3, 0.0) == 2;
  }

  lemma ItemFrequencies()
    ensures Frequency(ITEMS, A) == 2 && Frequency(ITEMS, B) == 2
  {
    assert ITEMS[..2][..1] == ITEMS[..1] && ITEMS[..1][..0] == [];
    assert A[0] != B[0];
    assert Frequency(ITEMS[..1], A) == 0 && Frequency(ITEMS[..1], B) == 1;
    assert Frequency(ITEMS[..2], A) == 1 && Frequency(ITEMS[..2], B) == 2;
  }

  /** The items two keys file: `A` the last two, `B` the first two. */
  lemma TwoBuckets(chosen: seq<seq<Text>>)
    requires |chosen| == 3 && forall k: nat, t :: k < 3 ==> (t in chosen[k] <==> t in ITEMS[k])
    ensures Bucket(chosen, A) == [1, 2] && Bucket(chosen, B) == [0, 1]
  {
    assert A[0] != B[0];
    var two, one := chosen[..2], chosen[..1];
    assert two[..1] == one && one[..0] == [];
    assert Bucket(one, A) == [] && Bucket(one, B) == [0];
    assert Bucket(two, A) == [1] && Bucket(two, B) == [0, 1];
  }

  lemma KeysFound(chosen: seq<seq<Text>>, t: Text)
    requires |chosen| == 3 && forall k: nat, x :: k < 3 ==> (x in chosen[k] <==> x in ITEMS[k])
    ensures t in Flatten(chosen) <==> t == A || t == B
  {
    FlattenMembers(chosen, t);
    if t == A || t == B { assert t in ITEMS[1] && t in chosen[1]; }
    if i :| 0 <= i < 3 && t in chosen[i] { assert t in ITEMS[i]; }
  }

  lemma TwoKeysSorted()
    ensures Sorted([A, B], TextOrder()) && NoDuplicates([A, B])
  {
    UnitOrder(0x61, 0x62);
    UnitOrder(0x62, 0x61);
    UnitOrder(0x61, 0x61);
    UnitOrder(0x62, 0x62);
    assert A[0] != B[0];
  }

  lemma ScanTwoKeys(chosen: seq<seq<Text>>)
    requires |chosen| == 3 && forall k: nat, x :: k < 3 ==> (x in chosen[k] <==> x in ITEMS[k])
    ensures ScanOrder(chosen) == [A, B]
  {
    var keys, found := [A, B], Distinct(Flatten(chosen));
    TwoKeysSorted();
    DistinctMembers(Flatten(chosen));
    forall t ensures t in found <==> t in keys { KeysFound(chosen, t); }
    NoDuplicatesMultiset(keys, found);
    TextOrderIsTotal();
    SortSorted(found, TextOrder());
    SortedUnique(keys, ScanOrder(chosen), TextOrder());
  }

  lemma OnePairBlock(b: seq<nat>)
    requires |b| == 2
    ensures BlockPairs(b) == [(b[0], b[1])]
  {
    assert RowPairs(b, 0, 1) == [] && RowPairs(b, 0, 2) == [(b[0], b[1])];
    assert RowPairs(b, 1, 2) == [];
    assert RowsPairs(b, 0) == [] && RowsPairs(b, 1) == [(b[0], b[1])];
  }

  lemma StepsInKeyOrder(chosen: seq<seq<Text>>)
    requires Bucket(chosen, A) == [1, 2] && Bucket(chosen, B) == [0, 1]
    ensures StepsOf(chosen, [A, B], BLOCKING_RULES) == [(1, 2), (0, 1)]
  {
    OnePairBlock([1, 2]);
    OnePairBlock([0, 1]);
    var keys := [A, B];
    assert keys[..1] == [A] && [A][..0] == [];
    assert StepsOf(chosen, [A], BLOCKING_RULES) == [(1, 2)];
  }

  lemma BothAreAdmitted()
    ensures ScanAll([(1, 2), (0, 1)], 2).pairs == [(1, 2), (0, 1)]
  {
    var steps: seq<Pair> := [(1, 2), (0, 1)];
    var first: seq<Pair> := [(1, 2)];
    assert steps[..1] == first && first[..0] == [];
    assert Spent([], 1) == 0 && Spent([], 2) == 0;
    assert ScanAll([], 2) == Scan([], 0);
    assert ScanAll(first, 2).pairs == first;
    assert Spent(first, 0) == 0 && Spent(first, 1) == 1;
  }

  lemma CandidatesInKeyOrder(hash: Text -> int)
    ensures CandidatesOf(ITEMS, BLOCKING_RULES, hash).pairs == [(1, 2), (0, 1)]
  {
    var chosen := ChosenKeys(ITEMS, BLOCKING_RULES, hash);
    forall k: nat, t | k < 3 ensures t in chosen[k] <==> t in ITEMS[k] { AllAreKeys(hash, k, t); }
    TwoBuckets(chosen);
    ScanTwoKeys(chosen);
    StepsInKeyOrder(chosen);
    BothAreAdmitted();
  }

  lemma OneShared(t: Text, u: Text)
    requires t != u
    ensures Shared([t, u], [t]) == 1 && Shared([t], [u, t]) == 1
  {
    assert Elements([t, u]) * Elements([t]) == {t};
    assert Elements([t]) * Elements([u, t]) == {t};
  }

  /** Half of the tokens of two reports are shared, and the one shared is rare. */
  lemma HalfIsShared(c: Contract)
    requires IsAllowing(c)
    ensures Shared([A, B], [A]) == 1 && Shared([B], [A, B]) == 1
    ensures Score([A, B], [A], c.measure) == 0.5 && Score([B], [A, B], c.measure) == 0.5
    ensures RareShared([A, B], [A], ITEMS, 2) == 1 && RareShared([B], [A, B], ITEMS, 2) == 1
  {
    assert A[0] != B[0];
    OneShared(A, B);
    OneShared(B, A);
    ItemFrequencies();
    assert [A, B][..1] == [A] && [A][..0] == [] && [B][..0] == [];
    assert RareShared([A], [A], ITEMS, 2) == 1;
  }

  lemma BothAreSupported(reports: seq<Report>, c: Contract)
    requires ReportsLook(reports) && IsAllowing(c)
    ensures EvidenceOf(reports, 1, 2, c).Supported() && EvidenceOf(reports, 1, 2, c).bothTimed
    ensures EvidenceOf(reports, 0, 1, c).Supported() && !EvidenceOf(reports, 0, 1, c).bothTimed
  {
    HalfIsShared(c);
    assert ReportItems(reports) == ITEMS;
    assert MaximumFrequency(3, 0.0) == 2;
  }

  lemma SupportedInOrder(reports: seq<Report>, c: Contract)
    requires ReportsLook(reports) && IsAllowing(c)
    ensures SupportedPairs(reports, [(1, 2), (0, 1)], c) == [(1, 2), (0, 1)]
  {
    BothAreSupported(reports, c);
    var pairs: seq<Pair> := [(1, 2), (0, 1)];
    var first: seq<Pair> := [(1, 2)];
    assert pairs[..1] == first && first[..0] == [];
    assert SupportedPairs(reports, first, c) == first;
  }

  // ------------------------------------------------------------------- the run

  /** What the stages leave of the three rows. */
  ghost predicate RunLooks(r: Run, c: Contract) {
    && WellShaped(r)
    && ReportsLook(r.reports)
    && r.stage3.pairs == [(1, 2), (0, 1)]
    && r.incidents.root == [0, 0, 0]
    && r.incidents.unions == [Union(1, 2, 1), Union(0, 1, 0)]
  }

  lemma WeightsOfTheUnits(units: seq<Unit>, c: Contract)
    requires UnitsLook(units) && IsAllowing(c)
    ensures UnitWeights(units, c) == [1, 1, 1]
    ensures Oversized([1, 1, 1], 3) == {}
  {}

  lemma UnitsStayApart(units: seq<Unit>, c: Contract)
    requires UnitsLook(units) && IsAllowing(c)
    ensures Syndicate(units, c).root == Discrete(3)
  {
    NothingIsSyndicated(units, UnitCandidates(units, c).pairs, c);
  }

  lemma ReportsOfTheRun(r: Run, c: Contract)
    requires r == RunOf(ROWS, c) && IsAllowing(c)
    ensures ReportsLook(r.reports) && r.reportWeights == [1, 1, 1]
  {
    UnitsOfTheRows(c);
    WeightsOfTheUnits(r.units, c);
    UnitsStayApart(r.units, c);
    ReportsOfTheUnits(r.units, c);
    EachWeighsOne(r.units);
  }

  lemma PairsOfTheReports(reports: seq<Report>, c: Contract)
    requires ReportsLook(reports) && IsAllowing(c)
    ensures CandidatesOf(ReportItems(reports), c.blocking, c.hash32).pairs == [(1, 2), (0, 1)]
  {
    assert ReportItems(reports) == ITEMS;
    CandidatesInKeyOrder(c.hash32);
  }

  lemma UnionsOfTheReports(reports: seq<Report>, pairs: seq<Pair>, c: Contract)
    requires ReportsLook(reports) && IsAllowing(c) && pairs == [(1, 2), (0, 1)]
    ensures var m := MergeAll([1, 1, 1], c.maximumClusterSize, SupportedPairs(reports, pairs, c));
            m.root == [0, 0, 0] && m.unions == [Union(1, 2, 1), Union(0, 1, 0)]
  {
    SupportedInOrder(reports, c);
    RecordUnderOldRootIsLost();
  }

  lemma RunOfTheRows(c: Contract)
    requires IsAllowing(c)
    ensures RunLooks(RunOf(ROWS, c), c)
  {
    var r := RunOf(ROWS, c);
    RunOfIsRun(ROWS, c);
    ReportsOfTheRun(r, c);
    PairsOfTheReports(r.reports, c);
    UnionsOfTheReports(r.reports, r.stage3.pairs, c);
  }

  lemma OneComponent()
    ensures Roots([0, 0, 0]) == [0] && Members([0, 0, 0], 0) == [0, 1, 2]
  {
    var root: seq<nat> := [0, 0, 0];
    assert RootsUpTo(root, 1) == [0] && RootsUpTo(root, 2) == [0];
    assert MembersUpTo(root, 0, 1) == [0] && MembersUpTo(root, 0, 2) == [0, 1];
  }

  lemma RecordsOfTheUnions(reports: seq<Report>, unions: seq<Union>)
    requires ReportsLook(reports) && unions == [Union(1, 2, 1), Union(0, 1, 0)]
    ensures 0 in RootsRecorded(reports, unions, false) && 0 !in RootsRecorded(reports, unions, true)
  {
    assert TimedPair(reports, unions[0]) && !TimedPair(reports, unions[1]);
    assert unions[1].root == 0 && unions[0].root == 1;
  }

  lemma ThreeReportsInCluster(r: Run)
    requires WellShaped(r) && r.incidents.root == [0, 0, 0]
    ensures Roots(r.incidents.root) == [0] && ClusterReports(r, 0) == [0, 1, 2]
  {
    OneComponent();
  }

  /** The cluster of all three reports holds the timed union, and the record of it is not under its root. */
  lemma TimedUnionIsUnsaid(r: Run, c: Contract)
    requires RunLooks(r, c)
    ensures Roots(r.incidents.root) == [0] && ClusterReports(r, 0) == [0, 1, 2]
    ensures TimeProximity !in ClusterAt(r, 0, c).reasonCodes && TimestampAbsent in ClusterAt(r, 0, c).reasonCodes
  {
    ThreeReportsInCluster(r);
    RecordsOfTheUnions(r.reports, r.incidents.unions);
    TimeCodes(r, 0, c);
  }

  lemma OneCluster(r: Run, c: Contract)
    requires WellShaped(r) && r.incidents.root == [0, 0, 0]
    ensures |Roots(r.incidents.root)| == 1 && Sort(ClustersOf(r, c), ByFingerprint()) == [ClusterAt(r, 0, c)]
  {
    OneComponent();
    var all := ClustersOf(r, c);
    assert all == [ClusterAt(r, 0, c)];
    assert all[1..] == [];
  }

  lemma NoneIsOversized(c: Contract)
    requires IsAllowing(c)
    ensures Oversized(RunOf(ROWS, c).weights, c.maximumClusterSize) == {}
  {
    UnitsOfTheRows(c);
    WeightsOfTheUnits(UnitsOf(ROWS, c), c);
  }

  /** Nothing is over the bound, so the run is not refused, and its one component is its one cluster. */
  lemma OutcomeOfTheRows(c: Contract)
    requires IsAllowing(c)
    ensures OutcomeOf(ROWS, c).Ok? && |Roots(RunOn(ROWS, c).incidents.root)| == 1
    ensures OutcomeOf(ROWS, c).value.clusters == [ClusterAt(RunOn(ROWS, c), 0, c)]
  {
    RowsAreSorted(c);
    NoneIsOversized(c);
    OutcomeIsOfTheRun(ROWS, c);
    RunOfTheRows(c);
    OneCluster(RunOn(ROWS, c), c);
  }

  lemma RunLooksOn(c: Contract)
    requires IsAllowing(c)
    ensures RunLooks(RunOn(ROWS, c), c)
  {
    RowsAreSorted(c);
    RunOfTheRows(c);
  }

  /** The timed pair of the run. */
  ghost predicate TimedPairWasUnited(r: Run, c: Contract)
    requires WellShaped(r)
  {
    && |r.reports| == 3 && |Roots(r.incidents.root)| == 1 && ClusterReports(r, 0) == [0, 1, 2]
    && (1, 2) in UnionPairs(r.incidents.unions)
    && EvidenceOf(r.reports, 1, 2, c).Supported() && EvidenceOf(r.reports, 1, 2, c).bothTimed
  }

  lemma TimedPairIsUnited(r: Run, c: Contract)
    requires RunLooks(r, c) && IsAllowing(c)
    ensures TimedPairWasUnited(r, c)
  {
    ThreeReportsInCluster(r);
    BothAreSupported(r.reports, c);
    assert UnionPairs(r.incidents.unions)[0] == (1, 2);
  }

  /** One cluster is returned; it says that a timestamp was absent and not that times were close. */
  lemma OneClusterIsUnsaid(c: Contract)
    requires IsAllowing(c)
    ensures Accepted(ROWS, c) && OutcomeOf(ROWS, c).Ok? && |OutcomeOf(ROWS, c).value.clusters| == 1
    ensures var cluster := OutcomeOf(ROWS, c).value.clusters[0];
            && cluster.syndicationGroupCount == 3
            && TimeProximity !in cluster.reasonCodes && TimestampAbsent in cluster.reasonCodes
  {
    RowsAreAccepted(c);
    OutcomeOfTheRows(c);
    RunLooksOn(c);
    TimedUnionIsUnsaid(RunOn(ROWS, c), c);
  }

  lemma AllowingIsAllowing(hash32: Text -> int, fingerprintOf: seq<Text> -> Text)
    ensures IsAllowing(Allowing(hash32, fingerprintOf))
  {}

  /**
   * Main result: the engine accepts these rows, whatever the two digests are, and returns one cluster, which says that
   * a timestamp was absent and not that times were close, although two of its reports were united on both their
   * timestamps and within the window.
   */
  lemma TimedMergeCanGoUnsaid(hash32: Text -> int, fingerprintOf: seq<Text> -> Text)
    ensures var c := Allowing(hash32, fingerprintOf);
            && Accepted(ROWS, c) && OutcomeOf(ROWS, c).Ok? && |OutcomeOf(ROWS, c).value.clusters| == 1
            && var cluster := OutcomeOf(ROWS, c).value.clusters[0];
               && cluster.syndicationGroupCount == 3
               && TimeProximity !in cluster.reasonCodes && TimestampAbsent in cluster.reasonCodes
    ensures TimedPairWasUnited(RunOn(ROWS, Allowing(hash32, fingerprintOf)), Allowing(hash32, fingerprintOf))
  {
    var c := Allowing(hash32, fingerprintOf);
    AllowingIsAllowing(hash32, fingerprintOf);
    OneClusterIsUnsaid(c);
    RunLooksOn(c);
    TimedPairIsUnited(RunOn(ROWS, c), c);
  }
}
