/**
 * What the evidence is: which tokens and times two reports must have in common to be a supported pair, and which
 * shingles two duplicate groups to be a syndicated one, counted over sets.
 */
module SupportLaws {
  import opened Texts
  import opened Sorting
  import opened Sequences
  import opened Partitions
  import opened Components
  import opened Merging
  import opened Blocking
  import opened Similarity
  import opened Tokens
  import opened Clusters
  import opened Decimals
  import opened Stages
  import opened Runs
  import opened EvidenceLaws
  import BlockingLaws
  import LinkLaws

  // ------------------------------------------------------ two reports, by sets

  ghost function TokenSet(a: Report): set<Text> { set t | t in a.distinctive }

  ghost function SharedTokens(a: Report, b: Report): set<Text> { TokenSet(a) * TokenSet(b) }

  /** Two reports at most carry the token, or no more than the ratio's share of them. */
  ghost predicate FewReportsCarry(reports: seq<Report>, token: Text, ratio: real) {
    var carriers := set i: nat | i < |reports| && token in reports[i].distinctive;
    |carriers| <= 2 || |carriers| as real <= |reports| as real * ratio
  }

  ghost function SharedRareTokens(reports: seq<Report>, a: Report, b: Report, ratio: real): set<Text> {
    set t | t in SharedTokens(a, b) && FewReportsCarry(reports, t, ratio)
  }

  /** The shared part of two sets: of their union, or of the smaller. */
  ghost function Likeness<T>(a: set<T>, b: set<T>, measure: Measure): real {
    if a == {} || b == {} then 0.0
    else if measure == Jaccard then |a * b| as real / |a + b| as real
    else if |a| <= |b| then |a * b| as real / |a| as real
    else |a * b| as real / |b| as real
  }

  /** The earliest times are no further apart than the window, or one is absent and the contract allows it. */
  ghost predicate Near(a: Report, b: Report, c: Contract) {
    if a.earliest.Some? && b.earliest.Some? then
      var milliseconds := (a.earliest.value - b.earliest.value) as real;
      -(c.timeWindowHours * 3600000.0) <= milliseconds <= c.timeWindowHours * 3600000.0
    else c.missingTimestampBehaviour == Allow
  }

  ghost predicate SharesSignals(reports: seq<Report>, i: nat, j: nat, c: Contract)
    requires i < |reports| && j < |reports|
  {
    && |SharedTokens(reports[i], reports[j])| >= c.minimumSharedDistinctiveTokens
    && |SharedRareTokens(reports, reports[i], reports[j], c.rareTokenDocumentFrequencyRatio)|
       >= c.minimumSharedRareTokens
  }

  ghost predicate IsAlike(reports: seq<Report>, i: nat, j: nat, c: Contract)
    requires i < |reports| && j < |reports|
  {
    Likeness(TokenSet(reports[i]), TokenSet(reports[j]), c.measure) >= c.incidentThreshold
  }

  /** What two reports must have in common to be taken for one incident. */
  ghost predicate Supports(reports: seq<Report>, i: nat, j: nat, c: Contract)
    requires i < |reports| && j < |reports|
  {
    SharesSignals(reports, i, j, c) && IsAlike(reports, i, j, c) && Near(reports[i], reports[j], c)
  }

  lemma SupportsIsSymmetric(reports: seq<Report>, i: nat, j: nat, c: Contract)
    requires i < |reports| && j < |reports|
    ensures Supports(reports, i, j, c) == Supports(reports, j, i, c)
  {
    var a, b, ratio := reports[i], reports[j], c.rareTokenDocumentFrequencyRatio;
    assert SharedTokens(a, b) == SharedTokens(b, a);
    assert SharedRareTokens(reports, a, b, ratio) == SharedRareTokens(reports, b, a, ratio);
    assert TokenSet(a) + TokenSet(b) == TokenSet(b) + TokenSet(a);
  }

  ghost predicate DistinctTokens(reports: seq<Report>) {
    forall i :: 0 <= i < |reports| ==> NoDuplicates(reports[i].distinctive)
  }

  // ------------------------------------------------------------- as computed

  ghost function CommonRare(left: seq<Text>, right: seq<Text>, items: seq<seq<Text>>, cap: nat): set<Text> {
    set t | t in left && t in right && Frequency(items, t) <= cap
  }

  lemma {:induction false} RareSharedCounts(left: seq<Text>, right: seq<Text>, items: seq<seq<Text>>, cap: nat)
    requires NoDuplicates(left)
    ensures RareShared(left, right, items, cap) == |CommonRare(left, right, items, cap)|
  {
    if left == [] {
      assert CommonRare(left, right, items, cap) == {};
    } else {
      var init, last := left[..|left| - 1], left[|left| - 1];
      RareSharedCounts(init, right, items, cap);
      InitAndLast(left);
      assert last !in init;
      assert CommonRare(left, right, items, cap) == CommonRare(init, right, items, cap)
             + if last in right && Frequency(items, last) <= cap then {last} else {};
    }
  }

  lemma FewReportsExactly(reports: seq<Report>, token: Text, ratio: real)
    ensures FewReportsCarry(reports, token, ratio)
       <==> Frequency(ReportItems(reports), token) <= MaximumFrequency(|reports|, ratio)
  {
    var items := ReportItems(reports);
    BlockingLaws.FewCarryExactly(items, token, ratio);
    assert BlockingLaws.Carriers(items, token) == set i: nat | i < |reports| && token in reports[i].distinctive;
  }

  lemma RareIsCounted(reports: seq<Report>, i: nat, j: nat, ratio: real)
    requires DistinctTokens(reports) && i < |reports| && j < |reports|
    ensures RareShared(reports[i].distinctive, reports[j].distinctive, ReportItems(reports),
                       MaximumFrequency(|reports|, ratio))
         == |SharedRareTokens(reports, reports[i], reports[j], ratio)|
  {
    var a, b, items := reports[i].distinctive, reports[j].distinctive, ReportItems(reports);
    var cap := MaximumFrequency(|reports|, ratio);
    RareSharedCounts(a, b, items, cap);
    forall t ensures FewReportsCarry(reports, t, ratio) <==> Frequency(items, t) <= cap {
      FewReportsExactly(reports, t, ratio);
    }
    assert SharedRareTokens(reports, reports[i], reports[j], ratio) == CommonRare(a, b, items, cap);
  }

  lemma UnionSize<T>(a: set<T>, b: set<T>)
    ensures |a + b| == |a| + |b| - |a * b|
  {}

  lemma ScoreIsLikeness(left: seq<Text>, right: seq<Text>, measure: Measure)
    requires NoDuplicates(left) && NoDuplicates(right)
    ensures Score(left, right, measure) == Likeness(Elements(left), Elements(right), measure)
  {
    NoDuplicatesCardinality(left);
    NoDuplicatesCardinality(right);
    UnionSize(Elements(left), Elements(right));
    if left != [] { assert left[0] in Elements(left); }
    if right != [] { assert right[0] in Elements(right); }
  }

  lemma NumbersMeaning(reports: seq<Report>, i: nat, j: nat, c: Contract)
    requires DistinctTokens(reports) && i < |reports| && j < |reports|
    ensures var e := EvidenceOf(reports, i, j, c);
            && e.shared == |SharedTokens(reports[i], reports[j])|
            && e.rare == |SharedRareTokens(reports, reports[i], reports[j], c.rareTokenDocumentFrequencyRatio)|
            && e.score == Likeness(TokenSet(reports[i]), TokenSet(reports[j]), c.measure)
  {
    RareIsCounted(reports, i, j, c.rareTokenDocumentFrequencyRatio);
    ScoreIsLikeness(reports[i].distinctive, reports[j].distinctive, c.measure);
    assert TokenSet(reports[i]) == Elements(reports[i].distinctive);
    assert TokenSet(reports[j]) == Elements(reports[j].distinctive);
  }

  /** The tests are of the numbers, both of the counts among them. */
  lemma TestsOfNumbers(reports: seq<Report>, i: nat, j: nat, c: Contract)
    requires i < |reports| && j < |reports|
    ensures var e := EvidenceOf(reports, i, j, c);
            && (e.enoughSignals <==>
                  c.minimumSharedDistinctiveTokens <= e.shared && c.minimumSharedRareTokens <= e.rare)
            && (e.enoughSimilarity <==> c.incidentThreshold <= e.score)
  {}

  lemma TimesMeaning(reports: seq<Report>, i: nat, j: nat, c: Contract)
    requires i < |reports| && j < |reports|
    ensures var e := EvidenceOf(reports, i, j, c);
            && e.withinWindow == Near(reports[i], reports[j], c)
            && e.bothTimed == (reports[i].earliest.Some? && reports[j].earliest.Some?)
  {}

  /** Everything the evidence of a pair says, counted over sets. */
  lemma EvidenceMeaning(reports: seq<Report>, i: nat, j: nat, c: Contract)
    requires DistinctTokens(reports) && i < |reports| && j < |reports|
    ensures var e := EvidenceOf(reports, i, j, c);
            && e.shared == |SharedTokens(reports[i], reports[j])|
            && e.rare == |SharedRareTokens(reports, reports[i], reports[j], c.rareTokenDocumentFrequencyRatio)|
            && e.score == Likeness(TokenSet(reports[i]), TokenSet(reports[j]), c.measure)
            && e.enoughSignals == SharesSignals(reports, i, j, c)
            && e.enoughSimilarity == IsAlike(reports, i, j, c)
            && e.withinWindow == Near(reports[i], reports[j], c)
            && e.bothTimed == (reports[i].earliest.Some? && reports[j].earliest.Some?)
  {
    NumbersMeaning(reports, i, j, c);
    TestsOfNumbers(reports, i, j, c);
    TimesMeaning(reports, i, j, c);
  }

  /** Main result: a pair of reports is supported exactly when enough tokens are in both, enough of those are carried by
      few reports, their token sets are alike enough, and they are near in time. */
  lemma SupportedExactly(reports: seq<Report>, i: nat, j: nat, c: Contract)
    requires DistinctTokens(reports) && i < |reports| && j < |reports|
    ensures EvidenceOf(reports, i, j, c).Supported() <==> Supports(reports, i, j, c)
  {
    EvidenceMeaning(reports, i, j, c);
  }

  // ------------------------------------------------------------- near misses

  /** A pair that is not supported and worth showing: it nearly was, and its criteria agree or the contract records
      those that do not. */
  ghost predicate NearlySupports(reports: seq<Report>, i: nat, j: nat, c: Contract)
    requires i < |reports| && j < |reports|
  {
    var a, b := reports[i], reports[j];
    var signals, alike, near := SharesSignals(reports, i, j, c), IsAlike(reports, i, j, c), Near(a, b, c);
    var close := && |SharedTokens(a, b)| >= c.minimumSharedDistinctiveTokens - 1
                 && Likeness(TokenSet(a), TokenSet(b), c.measure) >= c.incidentThreshold - c.ambiguousMargin;
    var disagree := (alike && !signals) || (signals && !(alike && near));
    && !Supports(reports, i, j, c)
    && if c.conflictingSignalBehaviour == RecordAmbiguous then close || disagree else close && !disagree
  }

  /** A link says which pair it is of, why it was not merged, and what the pair has in common. */
  ghost predicate LinkSays(reports: seq<Report>, i: nat, j: nat, c: Contract, link: AmbiguousLink)
    requires i < |reports| && j < |reports|
  {
    var a, b := reports[i], reports[j];
    var onlyApart := SharesSignals(reports, i, j, c) && IsAlike(reports, i, j, c);
    && link.leftFingerprint == a.fingerprint && link.rightFingerprint == b.fingerprint
    && link.sharedSignals == |SharedTokens(a, b)|
    && link.sharedRareSignals == |SharedRareTokens(reports, a, b, c.rareTokenDocumentFrequencyRatio)|
    && link.similarity == Truncate6(Likeness(TokenSet(a), TokenSet(b), c.measure))
    && (AmbiguousOutsideTimeWindow in link.reasonCodes <==> onlyApart)
    && (AmbiguousBelowThreshold in link.reasonCodes <==> !onlyApart)
    && (TimestampAbsent in link.reasonCodes <==> a.earliest.None? || b.earliest.None?)
  }

  /** Main result: which pairs are near misses, and what their links say. */
  lemma NearMissExactly(reports: seq<Report>, i: nat, j: nat, c: Contract)
    requires DistinctTokens(reports) && i < |reports| && j < |reports|
    ensures LinkLaws.NearMiss(reports, (i, j), c) <==> NearlySupports(reports, i, j, c)
    ensures NearlySupports(reports, i, j, c) ==> LinkSays(reports, i, j, c, LinkLaws.LinkFor(reports, (i, j), c))
  {
    EvidenceMeaning(reports, i, j, c);
  }

  // ------------------------------------------------------------- syndication

  /** Shared hashes over all hashes, each as often as it occurs. */
  ghost function HashLikeness(a: multiset<int>, b: multiset<int>): real {
    if a == multiset{} || b == multiset{} then 0.0 else |a * b| as real / |a + b - a * b| as real
  }

  lemma SyndicatedExactly(a: Unit, b: Unit, c: Contract)
    ensures Syndicated(a, b, c)
       <==> HashLikeness(multiset(a.shingleHashes), multiset(b.shingleHashes)) >= c.syndicationThreshold
  {
    var l, r := multiset(a.shingleHashes), multiset(b.shingleHashes);
    assert |l| == |a.shingleHashes| && |r| == |b.shingleHashes|;
    HashUnionSize(l, r);
  }

  lemma HashUnionSize(l: multiset<int>, r: multiset<int>)
    ensures |l + r - l * r| == |l| + |r| - |l * r| >= |l|
  {
    assert l + r - l * r == l + (r - l);
    assert r == r * l + (r - l) && l * r == r * l;
  }

  ghost function ShingleSet(u: Unit, c: Contract): set<Text> {
    Elements(ShinglesOf(u.representative.tokens, c.tokenRules))
  }

  /** Where the hash tells the shingles of two groups apart, they are a syndicated pair exactly when their shingle sets
      are alike enough. */
  lemma SyndicatedByShingles(r: Run, c: Contract, u: nat, v: nat)
    requires IsRun(r, c) && u < |r.units| && v < |r.units|
    requires Separates(c.hash32, ShinglesOf(r.units[u].representative.tokens, c.tokenRules),
                       ShinglesOf(r.units[v].representative.tokens, c.tokenRules))
    ensures Syndicated(r.units[u], r.units[v], c)
       <==> Likeness(ShingleSet(r.units[u], c), ShingleSet(r.units[v], c), Jaccard) >= c.syndicationThreshold
  {
    UnitHashes(r, c, u);
    UnitHashes(r, c, v);
    HashedAlike(r.units[u], r.units[v], c);
  }

  lemma HashedAlike(a: Unit, b: Unit, c: Contract)
    requires HashesShingles(a, c) && HashesShingles(b, c)
    requires Separates(c.hash32, ShinglesOf(a.representative.tokens, c.tokenRules),
                       ShinglesOf(b.representative.tokens, c.tokenRules))
    ensures Syndicated(a, b, c) <==> Likeness(ShingleSet(a, c), ShingleSet(b, c), Jaccard) >= c.syndicationThreshold
  {
    var x, y := ShinglesOf(a.representative.tokens, c.tokenRules), ShinglesOf(b.representative.tokens, c.tokenRules);
    ShinglesLaws(a.representative.tokens, c.tokenRules);
    ShinglesLaws(b.representative.tokens, c.tokenRules);
    ShinglesAlike(x, y, c.hash32);
  }

  lemma ShinglesAlike(a: seq<Text>, b: seq<Text>, hash: Text -> int)
    requires NoDuplicates(a) && NoDuplicates(b) && Separates(hash, a, b)
    ensures HashSimilarity(SortedHashes(a, hash), SortedHashes(b, hash)) == Likeness(Elements(a), Elements(b), Jaccard)
  {
    FastFormRefinesSimpleForm(a, b, hash);
    ScoreIsLikeness(a, b, Jaccard);
  }

  ghost predicate HashesShingles(u: Unit, c: Contract) {
    u.shingleHashes == SortedHashes(ShinglesOf(u.representative.tokens, c.tokenRules), c.hash32)
  }

  lemma UnitHashes(r: Run, c: Contract, u: nat)
    requires IsRun(r, c) && u < |r.units|
    ensures HashesShingles(r.units[u], c)
  {
    assert r.units[u] == UnitAt(r.rows, u, c);
  }

  // ------------------------------------------------- what groups and reports carry

  /** A duplicate group carries the tokens of its representative that are long enough and no stop terms. */
  ghost predicate GroupCarries(r: Run, c: Contract, u: nat, token: Text)
    requires u < |r.units|
  {
    && token in r.units[u].representative.tokens
    && |token| >= c.tokenRules.minimumDistinctiveTokenLength && token !in c.tokenRules.stopTerms
  }

  lemma GroupTokensExactly(r: Run, c: Contract, u: nat, token: Text)
    requires IsRun(r, c) && u < |r.units|
    ensures token in r.units[u].distinctive <==> GroupCarries(r, c, u, token)
    ensures r.units[u].postedAt == r.units[u].representative.postedAt
  {
    assert r.units[u] == UnitAt(r.rows, u, c);
    DistinctiveLaws(r.units[u].representative.tokens, c.tokenRules);
  }

  /** A report carries what some duplicate group of it carries, each token once. */
  lemma ReportTokensExactly(r: Run, c: Contract, i: nat, token: Text)
    requires IsRun(r, c) && i < |r.reports|
    ensures NoDuplicates(r.reports[i].distinctive)
    ensures token in r.reports[i].distinctive
       <==> exists u: nat :: u < |r.units| && ReportOfUnit(r, u) == i && GroupCarries(r, c, u, token)
  {
    var list := Members(r.syndication.root, Roots(r.syndication.root)[i]);
    MembersLaws(r.syndication.root, Roots(r.syndication.root)[i]);
    assert r.reports[i] == ReportAt(r.units, r.syndication.root, i, c);
    SortedDistinct(Gather<Text>(UnitItems(r.units), list), token);
    GatherMembers<Text>(UnitItems(r.units), list, token);
    if token in r.reports[i].distinctive { ReportTokenHasGroup(r, c, i, list, token); }
    if u: nat :| u < |r.units| && ReportOfUnit(r, u) == i && GroupCarries(r, c, u, token) {
      GroupTokenIsGathered(r, c, i, list, u, token);
    }
  }

  lemma ReportTokenHasGroup(r: Run, c: Contract, i: nat, list: seq<nat>, token: Text)
    requires IsRun(r, c) && i < |r.reports| && list == Members(r.syndication.root, Roots(r.syndication.root)[i])
    requires IndexesInto(list, |r.units|) && exists k :: 0 <= k < |list| && token in UnitItems(r.units)[list[k]]
    ensures exists u: nat :: u < |r.units| && ReportOfUnit(r, u) == i && GroupCarries(r, c, u, token)
  {
    var k :| 0 <= k < |list| && token in UnitItems(r.units)[list[k]];
    GroupTokensExactly(r, c, list[k], token);
    InReportExactly(r, i, list[k]);
    assert list[k] in list;
  }

  lemma GroupTokenIsGathered(r: Run, c: Contract, i: nat, list: seq<nat>, u: nat, token: Text)
    requires IsRun(r, c) && i < |r.reports| && list == Members(r.syndication.root, Roots(r.syndication.root)[i])
    requires IndexesInto(list, |r.units|) && u < |r.units| && ReportOfUnit(r, u) == i && GroupCarries(r, c, u, token)
    ensures exists k :: 0 <= k < |list| && token in UnitItems(r.units)[list[k]]
  {
    GroupTokensExactly(r, c, u, token);
    InReportExactly(r, i, u);
    var k :| 0 <= k < |list| && list[k] == u;
    assert token in UnitItems(r.units)[list[k]];
  }

  lemma InReportExactly(r: Run, i: nat, u: nat)
    requires WellShaped(r) && i < |r.reports| && u < |r.units|
    ensures u in Members(r.syndication.root, Roots(r.syndication.root)[i]) <==> ReportOfUnit(r, u) == i
  {
    PositionLaws(r.syndication.root, u);
    assert ComponentLists(r.syndication.root)[i] == Members(r.syndication.root, Roots(r.syndication.root)[i]);
  }

  lemma SortedDistinct(s: seq<Text>, token: Text)
    ensures NoDuplicates(Sort(Distinct(s), TextOrder())) && (token in Sort(Distinct(s), TextOrder()) <==> token in s)
  {
    DistinctMembers(s);
    MultisetNoDuplicates(Distinct(s), Sort(Distinct(s), TextOrder()));
    MultisetMembers(Distinct(s), Sort(Distinct(s), TextOrder()));
  }

  /** `at` is the least time of the groups that have one; there is none only when no group has. */
  ghost predicate IsEarliest(units: seq<Unit>, idx: seq<nat>, at: Option<int>)
    requires IndexesInto(idx, |units|)
  {
    match at
    case Some(time) =>
      && (exists k :: 0 <= k < |idx| && units[idx[k]].postedAt == Some(time))
      && forall k :: 0 <= k < |idx| && units[idx[k]].postedAt.Some? ==> time <= units[idx[k]].postedAt.value
    case None => forall k :: 0 <= k < |idx| ==> units[idx[k]].postedAt.None?
  }

  lemma {:induction false} EarliestTimeMeaning(units: seq<Unit>, idx: seq<nat>)
    requires IndexesInto(idx, |units|)
    ensures IsEarliest(units, idx, EarliestTime(units, idx))
  {
    if idx != [] {
      var init, last := idx[..|idx| - 1], |idx| - 1;
      assert IndexesInto(init, |units|);
      EarliestTimeMeaning(units, init);
      assert forall k :: 0 <= k < last ==> init[k] == idx[k];
      if EarliestTime(units, init).Some? {
        var k :| 0 <= k < |init| && units[init[k]].postedAt == EarliestTime(units, init);
        assert units[idx[k]].postedAt == EarliestTime(units, init);
      }
    }
  }

  /** The time of a report is the least posting time among the representatives of its groups. */
  lemma ReportTimeExactly(r: Run, c: Contract, i: nat)
    requires IsRun(r, c) && i < |r.reports|
    ensures IndexesInto(r.reports[i].unitIndexes, |r.units|)
    ensures IsEarliest(r.units, r.reports[i].unitIndexes, r.reports[i].earliest)
  {
    MembersLaws(r.syndication.root, Roots(r.syndication.root)[i]);
    assert r.reports[i] == ReportAt(r.units, r.syndication.root, i, c);
    EarliestTimeMeaning(r.units, r.reports[i].unitIndexes);
  }

  // ------------------------------------------------------------- whole runs

  lemma RunTokensAreDistinct(r: Run, c: Contract)
    requires IsRun(r, c)
    ensures DistinctTokens(r.reports)
  {
    forall i | 0 <= i < |r.reports| ensures NoDuplicates(r.reports[i].distinctive) {
      ReportTokensExactly(r, c, i, []);
    }
  }

  /** Two duplicate groups are tied: compared and alike in their shingles, or in reports compared and alike in what
      makes an incident. */
  ghost predicate Tied(r: Run, c: Contract, u: nat, v: nat)
    requires WellShaped(r) && u < |r.units| && v < |r.units|
  {
    var a, b := ReportOfUnit(r, u), ReportOfUnit(r, v);
    || ((u, v) in r.stage2.pairs
        && HashLikeness(multiset(r.units[u].shingleHashes), multiset(r.units[v].shingleHashes))
           >= c.syndicationThreshold)
    || ((a, b) in r.stage3.pairs && Supports(r.reports, a, b, c))
  }

  lemma JoinedExactly(r: Run, c: Contract, u: nat, v: nat)
    requires IsRun(r, c) && u < |r.units| && v < |r.units|
    ensures Joined(r, c, u, v) <==> Tied(r, c, u, v)
  {
    var a, b := ReportOfUnit(r, u), ReportOfUnit(r, v);
    SyndicatedPairsMembers(r.units, r.stage2.pairs, c, (u, v));
    SupportedPairsMembers(r.reports, r.stage3.pairs, c, (a, b));
    PairSetMembers(SyndicatedPairs(r.units, r.stage2.pairs, c), (u, v));
    PairSetMembers(SupportedPairs(r.reports, r.stage3.pairs, c), (a, b));
    RunTokensAreDistinct(r, c);
    SupportedExactly(r.reports, a, b, c);
    SyndicatedExactly(r.units[u], r.units[v], c);
  }

  /** Every report of a cluster joining several has another there with which it has enough in common. */
  lemma EachReportMeetsAnother(r: Run, c: Contract, k: nat, a: nat) returns (b: nat)
    requires IsRun(r, c) && k < |Roots(r.incidents.root)| && |ClusterReports(r, k)| > 1 && a in ClusterReports(r, k)
    ensures b in ClusterReports(r, k) && a < |r.reports| && b < |r.reports| && a != b
    ensures Supports(r.reports, a, b, c)
  {
    var pairs := SupportedPairs(r.reports, r.stage3.pairs, c);
    MembersLaws(r.incidents.root, Roots(r.incidents.root)[k]);
    var other := if ClusterReports(r, k)[0] == a then ClusterReports(r, k)[1] else ClusterReports(r, k)[0];
    assert other in ClusterReports(r, k) && other != a;
    b := UnitedWith(r.reportWeights, c.maximumClusterSize, pairs, a, other);
    var p: Pair := if (a, b) in PairSet(pairs) then (a, b) else (b, a);
    PairSetMembers(pairs, p);
    SupportedPairsMembers(r.reports, r.stage3.pairs, c, p);
    BlockingLaws.CandidatesShare(ReportItems(r.reports), c.blocking, c.hash32);
    RunTokensAreDistinct(r, c);
    SupportedExactly(r.reports, p.0, p.1, c);
    SupportsIsSymmetric(r.reports, a, b, c);
  }

  /** A node of a component of several was united with another of it, on a supported pair. */
  lemma UnitedWith(weights: seq<nat>, maximum: nat, pairs: seq<Pair>, a: nat, other: nat) returns (b: nat)
    requires Within(pairs, |weights|) && a < |weights| && other < |weights| && a != other
    requires var m := MergeAll(weights, maximum, pairs); m.root[a] == m.root[other]
    ensures b < |weights| && MergeAll(weights, maximum, pairs).root[b] == MergeAll(weights, maximum, pairs).root[a]
    ensures (a, b) in PairSet(pairs) || (b, a) in PairSet(pairs)
  {
    var m := MergeAll(weights, maximum, pairs);
    MergeIsJoinOfUnions(weights, maximum, pairs);
    UnionsStayInside(weights, maximum, pairs);
    var unions := UnionPairs(m.unions);
    OnlyJoinedTogether(|weights|, unions, a, other);
    var p :| ChainFrom(PairSet(unions), p, a, other);
    assert Adjacent(PairSet(unions), p[0], p[0 + 1]);
    b := p[1];
    var l: Pair := if (a, b) in PairSet(unions) then (a, b) else (b, a);
    var i :| 0 <= i < |unions| && unions[i] == l;
    assert m.unions[i] in m.unions;
  }
}
