/**
 * What each stage of `clusterEligible` computes, as functions: grouping by URL, syndication, incident grouping and
 * assembly. The methods of `Engine` are proved equal to these, and the laws of the engine are proved about them.
 */
module Stages {
  import opened Decimals
  import opened Texts
  import opened Sorting
  import opened Sequences
  import opened Partitions
  import opened Components
  import opened Merging
  import opened Blocking
  import opened Similarity
  import opened Tokens
  import opened Clusters

  // ------------------------------------------------------------ the boundary

  function RowIds(rows: seq<Input>): (r: seq<Text>)
    ensures |r| == |rows|
  {
    seq(|rows|, i requires 0 <= i < |rows| => rows[i].sourceRowId)
  }

  ghost predicate SameProvenance(inputs: seq<Input>) {
    forall i :: 0 <= i < |inputs| ==>
      inputs[i].batchId == inputs[0].batchId && inputs[i].classificationRunId == inputs[0].classificationRunId
  }

  /** No identifier is empty, the optional one included, and the decision is one the classifier gives. */
  predicate FieldsValid(row: Input) {
    && row.sourceRowId != [] && row.rowHash != [] && row.classificationResultId != []
    && row.classificationRunId != [] && row.batchId != [] && row.dataOrigin != []
    && row.urlGroupId != Some([])
    && row.decision in DECISIONS
  }

  ghost predicate AllFieldsValid(inputs: seq<Input>) {
    forall i :: 0 <= i < |inputs| ==> FieldsValid(inputs[i])
  }

  /** An input list the boundary lets through. */
  ghost predicate Accepted(inputs: seq<Input>, c: Contract) {
    |inputs| <= c.maximumInputs && AllFieldsValid(inputs) && NoDuplicates(RowIds(inputs)) && SameProvenance(inputs)
  }

  function EligibleRows(inputs: seq<Input>, c: Contract): seq<Input> {
    if inputs == [] then []
    else
      EligibleRows(inputs[..|inputs| - 1], c)
      + if inputs[|inputs| - 1].decision in c.eligibleDecisions then [inputs[|inputs| - 1]] else []
  }

  function ById(): (Input, Input) -> bool {
    (a: Input, b: Input) => AtMost(a.sourceRowId, b.sourceRowId)
  }

  function EligibleSorted(inputs: seq<Input>, c: Contract): seq<Input> {
    Sort(EligibleRows(inputs, c), ById())
  }

  // ----------------------------------------------------------------- stage 1

  /** Rows group by canonical URL; each row without one makes a group by itself. */
  function DuplicateKey(row: Input): Text {
    if row.urlGroupId == None then ROW_PREFIX + row.sourceRowId else URL_PREFIX + row.urlGroupId.value
  }

  function KeysOfRows(rows: seq<Input>): (r: seq<Text>)
    ensures |r| == |rows|
  {
    seq(|rows|, i requires 0 <= i < |rows| => DuplicateKey(rows[i]))
  }

  function UnitKeys(rows: seq<Input>): seq<Text> {
    Sort(Distinct(KeysOfRows(rows)), TextOrder())
  }

  function RowsWithKey(rows: seq<Input>, key: Text): seq<Input> {
    if rows == [] then []
    else RowsWithKey(rows[..|rows| - 1], key) + if DuplicateKey(rows[|rows| - 1]) == key then [rows[|rows| - 1]] else []
  }

  /** An absent timestamp sorts after every present one. */
  predicate Earlier(a: Option<int>, b: Option<int>) {
    a.Some? && (b.None? || a.value < b.value)
  }

  /** The first of the rows with the earliest timestamp. */
  function EarliestOf(rows: seq<Input>): Input
    requires rows != []
  {
    if |rows| == 1 then rows[0]
    else
      var best := EarliestOf(rows[..|rows| - 1]);
      if Earlier(rows[|rows| - 1].postedAt, best.postedAt) then rows[|rows| - 1] else best
  }

  function Representative(rows: seq<Input>, rule: RepresentativeRule): Input
    requires rows != []
  {
    var byId := Sort(rows, ById());
    if rule == LowestId then byId[0] else EarliestOf(byId)
  }

  function UnitOf(key: Text, rows: seq<Input>, c: Contract): Unit
    requires rows != []
  {
    var representative := Representative(rows, c.representativeRule);
    Unit(key, c.fingerprintOf([DUPLICATE_TAG, key]), rows, representative,
         Distinctive(representative.tokens, c.tokenRules),
         SortedHashes(ShinglesOf(representative.tokens, c.tokenRules), c.hash32),
         representative.postedAt)
  }

  lemma {:induction false} RowsWithKeyMembers(rows: seq<Input>, key: Text)
    ensures forall row :: row in RowsWithKey(rows, key) <==> row in rows && DuplicateKey(row) == key
  {
    if rows != [] {
      RowsWithKeyMembers(rows[..|rows| - 1], key);
      assert rows == rows[..|rows| - 1] + [rows[|rows| - 1]];
    }
  }

  lemma UnitKeysMembers(rows: seq<Input>)
    ensures NoDuplicates(UnitKeys(rows)) && Sorted(UnitKeys(rows), TextOrder())
    ensures forall key :: key in UnitKeys(rows) <==> exists i :: 0 <= i < |rows| && DuplicateKey(rows[i]) == key
  {
    var keys := KeysOfRows(rows);
    DistinctMembers(keys);
    TextOrderIsTotal();
    SortSorted(Distinct(keys), TextOrder());
    MultisetMembers(Distinct(keys), UnitKeys(rows));
    MultisetNoDuplicates(Distinct(keys), UnitKeys(rows));
    forall key ensures key in UnitKeys(rows) <==> exists i :: 0 <= i < |rows| && DuplicateKey(rows[i]) == key {
      if i :| 0 <= i < |rows| && DuplicateKey(rows[i]) == key { assert keys[i] == key; }
      if key in keys { var i :| 0 <= i < |keys| && keys[i] == key; }
    }
  }

  lemma KeyHasRows(rows: seq<Input>, key: Text)
    requires key in UnitKeys(rows)
    ensures RowsWithKey(rows, key) != []
  {
    UnitKeysMembers(rows);
    RowsWithKeyMembers(rows, key);
    var i :| 0 <= i < |rows| && DuplicateKey(rows[i]) == key;
    assert rows[i] in RowsWithKey(rows, key);
  }

  function UnitAt(rows: seq<Input>, k: nat, c: Contract): Unit
    requires k < |UnitKeys(rows)|
  {
    KeyHasRows(rows, UnitKeys(rows)[k]);
    UnitOf(UnitKeys(rows)[k], RowsWithKey(rows, UnitKeys(rows)[k]), c)
  }

  function UnitsOf(rows: seq<Input>, c: Contract): (units: seq<Unit>)
    ensures |units| == |UnitKeys(rows)|
  {
    seq(|UnitKeys(rows)|, k requires 0 <= k < |UnitKeys(rows)| => UnitAt(rows, k, c))
  }

  // -------------------------------------------------------- the cluster bound

  function UnitWeights(units: seq<Unit>, c: Contract): (w: seq<nat>)
    ensures |w| == |units|
  {
    seq(|units|, i requires 0 <= i < |units| => if c.clusterSizeUnit == Rows then |units[i].members| else 1)
  }

  /** The units heavier than the bound before any merge, among the first `n`. */
  function OversizedUpTo(weights: seq<nat>, maximum: nat, n: nat): (r: set<nat>)
    requires n <= |weights|
    ensures forall i :: i in r <==> 0 <= i < n && weights[i] > maximum
  {
    if n == 0 then {}
    else OversizedUpTo(weights, maximum, n - 1) + if weights[n - 1] > maximum then {n - 1} else {}
  }

  function Oversized(weights: seq<nat>, maximum: nat): set<nat> { OversizedUpTo(weights, maximum, |weights|) }

  // ----------------------------------------------------------------- stage 2

  function UnitItems(units: seq<Unit>): (items: seq<seq<Text>>)
    ensures |items| == |units|
  {
    seq(|units|, i requires 0 <= i < |units| => units[i].distinctive)
  }

  predicate Syndicated(a: Unit, b: Unit, c: Contract) {
    HashSimilarity(a.shingleHashes, b.shingleHashes) >= c.syndicationThreshold
  }

  /** The candidate pairs at or above the syndication threshold, in order. */
  function SyndicatedPairs(units: seq<Unit>, pairs: seq<Pair>, c: Contract): (r: seq<Pair>)
    requires Within(pairs, |units|)
    ensures Within(r, |units|)
  {
    if pairs == [] then []
    else
      var p := pairs[|pairs| - 1];
      assert Within(pairs[..|pairs| - 1], |units|);
      SyndicatedPairs(units, pairs[..|pairs| - 1], c) + if Syndicated(units[p.0], units[p.1], c) then [p] else []
  }

  function KeysOfUnits(units: seq<Unit>, idx: seq<nat>): (r: seq<Text>)
    requires IndexesInto(idx, |units|)
    ensures |r| == |idx|
  {
    seq(|idx|, i requires 0 <= i < |idx| => units[idx[i]].key)
  }

  function EarlierOf(a: Option<int>, b: Option<int>): Option<int> {
    if Earlier(b, a) then b else a
  }

  /** The earliest timestamp among the units named, if any has one. */
  function EarliestTime(units: seq<Unit>, idx: seq<nat>): Option<int>
    requires IndexesInto(idx, |units|)
  {
    if idx == [] then None
    else
      assert IndexesInto(idx[..|idx| - 1], |units|);
      EarlierOf(EarliestTime(units, idx[..|idx| - 1]), units[idx[|idx| - 1]].postedAt)
  }

  function LaterOf(a: Option<int>, b: Option<int>): Option<int> {
    if a.None? || (b.Some? && a.value < b.value) then b else a
  }

  /** The latest timestamp among the units named, if any has one. */
  function LatestTime(units: seq<Unit>, idx: seq<nat>): Option<int>
    requires IndexesInto(idx, |units|)
  {
    if idx == [] then None
    else
      assert IndexesInto(idx[..|idx| - 1], |units|);
      LaterOf(LatestTime(units, idx[..|idx| - 1]), units[idx[|idx| - 1]].postedAt)
  }

  function UnitTokens(units: seq<Unit>): (tokens: seq<seq<Text>>)
    ensures |tokens| == |units|
  {
    seq(|units|, i requires 0 <= i < |units| => units[i].representative.tokens)
  }

  function ReportOf(units: seq<Unit>, idx: seq<nat>, c: Contract): Report
    requires IndexesInto(idx, |units|)
  {
    Report(c.fingerprintOf([SYNDICATION_TAG] + Sort(KeysOfUnits(units, idx), TextOrder())),
           idx,
           Sort(Distinct(Gather<Text>(UnitItems(units), idx)), TextOrder()),
           SortedHashes(ShinglesOf(Gather<Text>(UnitTokens(units), idx), c.tokenRules), c.hash32),
           EarliestTime(units, idx),
           LatestTime(units, idx))
  }

  function ReportAt(units: seq<Unit>, root: seq<nat>, k: nat, c: Contract): Report
    requires |root| == |units| && k < |Roots(root)|
  {
    MembersLaws(root, Roots(root)[k]);
    ReportOf(units, Members(root, Roots(root)[k]), c)
  }

  function ReportsOf(units: seq<Unit>, root: seq<nat>, c: Contract): (reports: seq<Report>)
    requires |root| == |units|
    ensures |reports| == |Roots(root)|
  {
    seq(|Roots(root)|, k requires 0 <= k < |Roots(root)| => ReportAt(units, root, k, c))
  }

  // ----------------------------------------------------------------- stage 3

  function ReportItems(reports: seq<Report>): (items: seq<seq<Text>>)
    ensures |items| == |reports|
  {
    seq(|reports|, i requires 0 <= i < |reports| => reports[i].distinctive)
  }

  function ReportWeightsOf(units: seq<Unit>, root: seq<nat>, weights: seq<nat>): (w: seq<nat>)
    requires |root| == |units| == |weights|
    ensures |w| == |Roots(root)|
  {
    seq(|Roots(root)|, k requires 0 <= k < |Roots(root)| =>
      MembersLaws(root, Roots(root)[k]); SumAt(weights, Members(root, Roots(root)[k])))
  }

  /** The tokens of `left` that `right` carries and few reports do. */
  function RareShared(left: seq<Text>, right: seq<Text>, items: seq<seq<Text>>, rarityCap: nat): nat {
    if left == [] then 0
    else
      var token := left[|left| - 1];
      RareShared(left[..|left| - 1], right, items, rarityCap)
      + if token in right && Frequency(items, token) <= rarityCap then 1 else 0
  }

  /** What stage 3 reads off one candidate pair. */
  datatype Evidence = Evidence(
    shared: nat,
    rare: nat,
    score: real,
    enoughSignals: bool,
    enoughSimilarity: bool,
    bothTimed: bool,
    withinWindow: bool)
  {
    predicate Supported() { enoughSignals && enoughSimilarity && withinWindow }

    predicate CriteriaDisagree() { enoughSimilarity != enoughSignals || (enoughSignals && !withinWindow) }
  }

  function Apart(a: int, b: int): int { if a <= b then b - a else a - b }

  function EvidenceOf(reports: seq<Report>, left: nat, right: nat, c: Contract): Evidence
    requires left < |reports| && right < |reports|
  {
    var a, b := reports[left], reports[right];
    var shared := Shared(a.distinctive, b.distinctive);
    var rare := RareShared(a.distinctive, b.distinctive, ReportItems(reports),
                           MaximumFrequency(|reports|, c.rareTokenDocumentFrequencyRatio));
    var score := Score(a.distinctive, b.distinctive, c.measure);
    var bothTimed := a.earliest.Some? && b.earliest.Some?;
    Evidence(
      shared, rare, score,
      shared >= c.minimumSharedDistinctiveTokens && rare >= c.minimumSharedRareTokens,
      score >= c.incidentThreshold,
      bothTimed,
      if bothTimed then Apart(a.earliest.value, b.earliest.value) as real <= c.timeWindowHours * 3600.0 * 1000.0
      else c.missingTimestampBehaviour == Allow)
  }

  /** The candidate pairs the evidence supports, in order. */
  function SupportedPairs(reports: seq<Report>, pairs: seq<Pair>, c: Contract): (r: seq<Pair>)
    requires Within(pairs, |reports|)
    ensures Within(r, |reports|)
  {
    if pairs == [] then []
    else
      var p := pairs[|pairs| - 1];
      assert Within(pairs[..|pairs| - 1], |reports|);
      SupportedPairs(reports, pairs[..|pairs| - 1], c)
      + if EvidenceOf(reports, p.0, p.1, c).Supported() then [p] else []
  }

  /** Whether a pair that did not merge is worth a human's attention. */
  predicate WorthRecording(e: Evidence, c: Contract) {
    var nearSimilarity := e.score >= c.incidentThreshold - c.ambiguousMargin;
    var nearSignals := e.shared + 1 >= c.minimumSharedDistinctiveTokens;
    if c.conflictingSignalBehaviour == RecordAmbiguous then (nearSignals && nearSimilarity) || e.CriteriaDisagree()
    else nearSignals && nearSimilarity && !e.CriteriaDisagree()
  }

  function LinkOf(reports: seq<Report>, p: Pair, e: Evidence): AmbiguousLink
    requires p.0 < |reports| && p.1 < |reports|
  {
    AmbiguousLink(
      reports[p.0].fingerprint, reports[p.1].fingerprint,
      [if e.enoughSignals && e.enoughSimilarity && !e.withinWindow then AmbiguousOutsideTimeWindow
       else AmbiguousBelowThreshold]
      + if e.bothTimed then [] else [TimestampAbsent],
      Truncate6(e.score), e.shared, e.rare)
  }

  /** The links recorded, and how often the list was already full. */
  datatype Links = Links(links: seq<AmbiguousLink>, full: nat)

  function LinksOf(reports: seq<Report>, pairs: seq<Pair>, c: Contract): Links
    requires Within(pairs, |reports|)
  {
    if pairs == [] then Links([], 0)
    else
      var p := pairs[|pairs| - 1];
      assert Within(pairs[..|pairs| - 1], |reports|);
      LinkOne(LinksOf(reports, pairs[..|pairs| - 1], c), reports, p, EvidenceOf(reports, p.0, p.1, c), c)
  }

  /** One pair: passed over when it is supported, else counted, recorded or let go. */
  function LinkOne(before: Links, reports: seq<Report>, p: Pair, e: Evidence, c: Contract): (after: Links)
    requires p.0 < |reports| && p.1 < |reports|
    ensures before.links <= after.links && before.full <= after.full
  {
    if e.Supported() then before
    else if |before.links| >= c.maximumAmbiguousLinks then before.(full := before.full + 1)
    else if WorthRecording(e, c) then before.(links := before.links + [LinkOf(reports, p, e)])
    else before
  }

  /** The final roots under which a union was recorded as timed, or as lacking a timestamp. */
  function RootsRecorded(reports: seq<Report>, unions: seq<Union>, timed: bool): set<nat> {
    set k | 0 <= k < |unions| && TimedPair(reports, unions[k]) == timed :: unions[k].root
  }

  predicate TimedPair(reports: seq<Report>, u: Union) {
    u.left < |reports| && u.right < |reports| && reports[u.left].earliest.Some? && reports[u.right].earliest.Some?
  }
}
