/** What `boundsReached` counts, and exactly when it is zero. */
module BoundLaws {
  import opened Texts
  import opened Sorting
  import opened Sequences
  import opened Partitions
  import opened UnionFinds
  import opened Merging
  import opened Blocking
  import opened Clusters
  import opened Stages
  import opened Runs
  import opened EvidenceLaws
  import opened SupportLaws
  import opened OutcomeLaws
  import opened LinkLaws
  import BlockingLaws

  /** Counting one more position. */
  lemma OneMorePosition(all: set<nat>, before: set<nat>, n: nat, counted: bool)
    requires forall k :: k in before ==> k < n
    requires forall k :: k in all <==> k in before || (k == n && counted)
    ensures |all| == |before| + if counted then 1 else 0
  {
    assert all == if counted then before + {n} else before;
  }

  // ------------------------------------------------------------ blocks skipped

  ghost predicate TooMany(chosen: seq<seq<Text>>, key: Text, rules: BlockingRules) {
    var n := |BlockingLaws.Carriers(chosen, key)|;
    n > 1 && n > rules.maximumBlockSize
  }

  lemma {:induction false} BucketHoldsCarriers(chosen: seq<seq<Text>>, key: Text)
    ensures |Bucket(chosen, key)| == |BlockingLaws.Carriers(chosen, key)|
  {
    if chosen == [] {
      assert BlockingLaws.Carriers(chosen, key) == {};
    } else {
      var n := |chosen| - 1;
      BucketHoldsCarriers(chosen[..n], key);
      OneMorePosition(BlockingLaws.Carriers(chosen, key), BlockingLaws.Carriers(chosen[..n], key), n, key in chosen[n]);
    }
  }

  ghost function KeysSkipped(chosen: seq<seq<Text>>, keys: seq<Text>, rules: BlockingRules): set<Text> {
    set key | key in keys && TooMany(chosen, key, rules)
  }

  lemma SkippedOneMore(chosen: seq<seq<Text>>, init: seq<Text>, last: Text, rules: BlockingRules)
    requires last !in init
    ensures |KeysSkipped(chosen, init + [last], rules)|
         == |KeysSkipped(chosen, init, rules)| + if TooMany(chosen, last, rules) then 1 else 0
  {
    var before := KeysSkipped(chosen, init, rules);
    assert KeysSkipped(chosen, init + [last], rules)
        == if TooMany(chosen, last, rules) then before + {last} else before;
  }

  lemma SkippedIsTooMany(chosen: seq<seq<Text>>, key: Text, rules: BlockingRules)
    ensures Skipped(Bucket(chosen, key), rules) <==> TooMany(chosen, key, rules)
  {
    BucketHoldsCarriers(chosen, key);
  }

  lemma {:induction false} SkippedExactly(chosen: seq<seq<Text>>, keys: seq<Text>, rules: BlockingRules)
    requires NoDuplicates(keys)
    ensures SkippedBlocks(chosen, keys, rules) == |KeysSkipped(chosen, keys, rules)|
  {
    if keys == [] {
      assert KeysSkipped(chosen, keys, rules) == {};
    } else {
      var init, last := keys[..|keys| - 1], keys[|keys| - 1];
      assert keys == init + [last];
      SkippedExactly(chosen, init, rules);
      SkippedIsTooMany(chosen, last, rules);
      SkippedOneMore(chosen, init, last, rules);
    }
  }

  // ------------------------------------------------------------ budgets spent

  /** The different pairs among the steps that an item is in. */
  ghost function PairsWith(steps: seq<Pair>, item: nat): set<Pair> {
    set p | p in steps && (p.0 == item || p.1 == item)
  }

  lemma PairsWithOneMore(init: seq<Pair>, last: Pair, item: nat)
    requires last !in init
    ensures |PairsWith(init + [last], item)|
         == |PairsWith(init, item)| + if last.0 == item || last.1 == item then 1 else 0
  {
    var before := PairsWith(init, item);
    assert PairsWith(init + [last], item) == if last.0 == item || last.1 == item then before + {last} else before;
  }

  lemma {:induction false} SpentExactly(pairs: seq<Pair>, item: nat)
    requires NoDuplicates(pairs)
    ensures Spent(pairs, item) == |PairsWith(pairs, item)|
  {
    if pairs == [] {
      assert PairsWith(pairs, item) == {};
    } else {
      var init, last := pairs[..|pairs| - 1], pairs[|pairs| - 1];
      assert pairs == init + [last];
      SpentExactly(init, item);
      PairsWithOneMore(init, last, item);
    }
  }

  /** The iterations at which one of the two items had spent its budget. */
  ghost function TurnedAway(steps: seq<Pair>, budget: nat): set<nat> {
    set k: nat | k < |steps| && IsTurnedAway(steps, k, budget)
  }

  ghost predicate IsTurnedAway(steps: seq<Pair>, k: nat, budget: nat)
    requires k < |steps|
  {
    !HasBudget(ScanAll(steps[..k], budget).pairs, steps[k], budget)
  }

  lemma TurnedAwayOneMore(steps: seq<Pair>, budget: nat, n: nat)
    requires |steps| == n + 1
    ensures |TurnedAway(steps, budget)|
         == |TurnedAway(steps[..n], budget)| + if IsTurnedAway(steps, n, budget) then 1 else 0
  {
    var all, before, last := TurnedAway(steps, budget), TurnedAway(steps[..n], budget), IsTurnedAway(steps, n, budget);
    forall k: nat ensures k in all <==> k in before || (k == n && last) {
      if k < n { assert steps[..n][..k] == steps[..k]; }
    }
    OneMorePosition(all, before, n, last);
  }

  lemma {:induction false} TurnedAwayExactly(steps: seq<Pair>, budget: nat)
    ensures ScanAll(steps, budget).overBudget == |TurnedAway(steps, budget)|
  {
    if steps == [] {
      assert TurnedAway(steps, budget) == {};
    } else {
      TurnedAwayExactly(steps[..|steps| - 1], budget);
      TurnedAwayOneMore(steps, budget, |steps| - 1);
    }
  }

  /** The step comes while both of its items are in fewer different steps before it than the budget. */
  ghost predicate HasRoom(steps: seq<Pair>, k: nat, budget: nat)
    requires k < |steps|
  {
    |PairsWith(steps[..k], steps[k].0)| < budget && |PairsWith(steps[..k], steps[k].1)| < budget
  }

  ghost predicate StayInBudget(steps: seq<Pair>, budget: nat) {
    forall k: nat :: k < |steps| ==> HasRoom(steps, k, budget)
  }

  lemma StayOneMore(steps: seq<Pair>, budget: nat, n: nat)
    requires |steps| == n + 1
    ensures StayInBudget(steps, budget) <==> StayInBudget(steps[..n], budget) && HasRoom(steps, n, budget)
  {
    forall k: nat | k < n ensures HasRoom(steps, k, budget) == HasRoom(steps[..n], k, budget) {
      assert steps[..n][..k] == steps[..k];
    }
  }

  lemma NoneTurnedAway(steps: seq<Pair>, budget: nat, item: nat)
    requires ScanAll(steps, budget).overBudget == 0
    ensures Spent(ScanAll(steps, budget).pairs, item) == |PairsWith(steps, item)|
  {
    var pairs := ScanAll(steps, budget).pairs;
    BlockingLaws.ScanKeepsBudget(steps, budget);
    forall p | p in steps ensures p in pairs { BlockingLaws.StepAdmittedOrCounted(steps, budget, p); }
    SpentExactly(pairs, item);
    assert PairsWith(pairs, item) == PairsWith(steps, item);
  }

  lemma {:induction false} StayInBudgetExactly(steps: seq<Pair>, budget: nat)
    ensures ScanAll(steps, budget).overBudget == 0 <==> StayInBudget(steps, budget)
  {
    if steps != [] {
      var n := |steps| - 1;
      StayInBudgetExactly(steps[..n], budget);
      StayOneMore(steps, budget, n);
      if ScanAll(steps[..n], budget).overBudget == 0 {
        NoneTurnedAway(steps[..n], budget, steps[n].0);
        NoneTurnedAway(steps[..n], budget, steps[n].1);
      }
    }
  }

  // ------------------------------------------------------------- merges refused

  /** The pairs the bound refused when they were met. */
  ghost function PairsRefused(weights: seq<nat>, maximum: nat, pairs: seq<Pair>): set<nat>
    requires Within(pairs, |weights|)
  {
    set k: nat | k < |pairs| && IsRefused(weights, maximum, pairs, k)
  }

  ghost predicate IsRefused(weights: seq<nat>, maximum: nat, pairs: seq<Pair>, k: nat)
    requires Within(pairs, |weights|) && k < |pairs|
  {
    !MayJoin(MergeAll(weights, maximum, pairs[..k]).root, weights, pairs[k].0, pairs[k].1, maximum)
  }

  lemma RefusedOneMore(weights: seq<nat>, maximum: nat, pairs: seq<Pair>, n: nat)
    requires Within(pairs, |weights|) && |pairs| == n + 1 && Within(pairs[..n], |weights|)
    ensures |PairsRefused(weights, maximum, pairs)|
         == |PairsRefused(weights, maximum, pairs[..n])| + if IsRefused(weights, maximum, pairs, n) then 1 else 0
  {
    var all, before := PairsRefused(weights, maximum, pairs), PairsRefused(weights, maximum, pairs[..n]);
    forall k: nat ensures k in all <==> k in before || (k == n && IsRefused(weights, maximum, pairs, n)) {
      if k < n { assert pairs[..n][..k] == pairs[..k]; }
    }
    OneMorePosition(all, before, n, IsRefused(weights, maximum, pairs, n));
  }

  lemma {:induction false} RefusalsExactly(weights: seq<nat>, maximum: nat, pairs: seq<Pair>)
    requires Within(pairs, |weights|)
    ensures MergeAll(weights, maximum, pairs).refusals == |PairsRefused(weights, maximum, pairs)|
  {
    if pairs == [] {
      assert PairsRefused(weights, maximum, pairs) == {};
    } else {
      RefusalsExactly(weights, maximum, pairs[..|pairs| - 1]);
      RefusedOneMore(weights, maximum, pairs, |pairs| - 1);
    }
  }

  /** Nothing was refused exactly when every pair ended in one component. */
  lemma RefusedNoneExactly(weights: seq<nat>, maximum: nat, pairs: seq<Pair>)
    requires Within(pairs, |weights|)
    ensures var m := MergeAll(weights, maximum, pairs);
            m.refusals == 0 <==> forall k :: 0 <= k < |pairs| ==> m.root[pairs[k].0] == m.root[pairs[k].1]
  {
    var m := MergeAll(weights, maximum, pairs);
    RefusalsAreSupported(weights, maximum, pairs);
    if m.refusals == 0 {
      forall k | 0 <= k < |pairs| ensures m.root[pairs[k].0] == m.root[pairs[k].1] {
        NoHiddenRefusal(weights, maximum, pairs, k);
      }
    } else {
      var x :| x in m.refused;
      var k := RefusedStaysApart(weights, maximum, pairs, x);
    }
  }

  // ----------------------------------------------------------- links left out

  /** The near misses among the first `n` pairs. */
  ghost function NearMissesBefore(reports: seq<Report>, pairs: seq<Pair>, c: Contract, n: nat): set<nat>
    requires n <= |pairs|
  {
    set k: nat | k < n && NearMiss(reports, pairs[k], c)
  }

  lemma {:induction false} NearMissesCounted(reports: seq<Report>, pairs: seq<Pair>, c: Contract, n: nat)
    requires n <= |pairs|
    ensures |NearMissLinks(reports, pairs[..n], c)| == |NearMissesBefore(reports, pairs, c, n)|
  {
    if n == 0 {
      assert NearMissesBefore(reports, pairs, c, 0) == {};
    } else {
      NearMissesCounted(reports, pairs, c, n - 1);
      assert pairs[..n][..n - 1] == pairs[..n - 1];
      OneMorePosition(NearMissesBefore(reports, pairs, c, n), NearMissesBefore(reports, pairs, c, n - 1), n - 1,
                      NearMiss(reports, pairs[n - 1], c));
    }
  }

  /** The pairs the evidence does not support that were met with as many near misses before them as the list takes. */
  ghost function MetTooLate(reports: seq<Report>, pairs: seq<Pair>, c: Contract): set<nat>
    requires Within(pairs, |reports|)
  {
    set k: nat | k < |pairs| && IsTooLate(reports, pairs, c, k)
  }

  ghost predicate IsTooLate(reports: seq<Report>, pairs: seq<Pair>, c: Contract, k: nat)
    requires Within(pairs, |reports|) && k < |pairs|
  {
    && !EvidenceOf(reports, pairs[k].0, pairs[k].1, c).Supported()
    && |NearMissesBefore(reports, pairs, c, k)| >= c.maximumAmbiguousLinks
  }

  lemma FullExactlyThen(reports: seq<Report>, pairs: seq<Pair>, c: Contract, n: nat)
    requires Within(pairs, |reports|) && n <= |pairs| && Within(pairs[..n], |reports|)
    ensures |LinksOf(reports, pairs[..n], c).links| >= c.maximumAmbiguousLinks <==>
            |NearMissesBefore(reports, pairs, c, n)| >= c.maximumAmbiguousLinks
  {
    LinksAreTheFirst(reports, pairs[..n], c);
    NearMissesCounted(reports, pairs, c, n);
  }

  lemma TooLateOfPrefix(reports: seq<Report>, pairs: seq<Pair>, c: Contract, n: nat, k: nat)
    requires Within(pairs, |reports|) && k < n <= |pairs| && Within(pairs[..n], |reports|)
    ensures IsTooLate(reports, pairs[..n], c, k) == IsTooLate(reports, pairs, c, k)
  {
    assert NearMissesBefore(reports, pairs[..n], c, k) == NearMissesBefore(reports, pairs, c, k);
  }

  lemma TooLateOneMore(reports: seq<Report>, pairs: seq<Pair>, c: Contract, n: nat)
    requires Within(pairs, |reports|) && |pairs| == n + 1 && Within(pairs[..n], |reports|)
    ensures |MetTooLate(reports, pairs, c)|
         == |MetTooLate(reports, pairs[..n], c)| + if IsTooLate(reports, pairs, c, n) then 1 else 0
  {
    var all, before, last := MetTooLate(reports, pairs, c), MetTooLate(reports, pairs[..n], c),
      IsTooLate(reports, pairs, c, n);
    forall k: nat ensures k in all <==> k in before || (k == n && last) {
      TooLateMember(reports, pairs, c, n, k);
    }
    OneMorePosition(all, before, n, last);
  }

  lemma TooLateMember(reports: seq<Report>, pairs: seq<Pair>, c: Contract, n: nat, k: nat)
    requires Within(pairs, |reports|) && |pairs| == n + 1 && Within(pairs[..n], |reports|)
    ensures k in MetTooLate(reports, pairs, c) <==>
            k in MetTooLate(reports, pairs[..n], c) || (k == n && IsTooLate(reports, pairs, c, n))
  {
    if k < n { TooLateOfPrefix(reports, pairs, c, n, k); }
  }

  lemma LinksOneMore(reports: seq<Report>, pairs: seq<Pair>, c: Contract, n: nat)
    requires Within(pairs, |reports|) && |pairs| == n + 1 && Within(pairs[..n], |reports|)
    ensures LinksOf(reports, pairs, c).full
         == LinksOf(reports, pairs[..n], c).full + if IsTooLate(reports, pairs, c, n) then 1 else 0
  {
    FullExactlyThen(reports, pairs, c, n);
    assert LinksOf(reports, pairs, c)
        == LinkOne(LinksOf(reports, pairs[..n], c), reports, pairs[n],
                   EvidenceOf(reports, pairs[n].0, pairs[n].1, c), c);
  }

  lemma {:induction false} FullExactly(reports: seq<Report>, pairs: seq<Pair>, c: Contract)
    requires Within(pairs, |reports|)
    ensures LinksOf(reports, pairs, c).full == |MetTooLate(reports, pairs, c)|
  {
    if pairs == [] {
      assert MetTooLate(reports, pairs, c) == {};
    } else {
      var n := |pairs| - 1;
      assert Within(pairs[..n], |reports|);
      FullExactly(reports, pairs[..n], c);
      TooLateOneMore(reports, pairs, c, n);
      LinksOneMore(reports, pairs, c, n);
    }
  }

  // ------------------------------------------------------------------ the count

  /** What blocking over some items had to leave out: keys too many items chose, and steps beyond a budget. */
  ghost predicate BlocksFreely(items: seq<seq<Text>>, rules: BlockingRules, hash: Text -> int) {
    var chosen := ChosenKeys(items, rules, hash);
    && (forall key :: !TooMany(chosen, key, rules))
    && StayInBudget(StepsOf(chosen, ScanOrder(chosen), rules), rules.maximumComparisonsPerItem)
  }

  lemma ScanOrderOnce(chosen: seq<seq<Text>>)
    ensures NoDuplicates(ScanOrder(chosen))
  {
    DistinctMembers(Flatten(chosen));
    MultisetNoDuplicates(Distinct(Flatten(chosen)), ScanOrder(chosen));
  }

  lemma TooManyIsScanned(chosen: seq<seq<Text>>, key: Text, rules: BlockingRules)
    requires TooMany(chosen, key, rules)
    ensures key in ScanOrder(chosen)
  {
    var i :| i in BlockingLaws.Carriers(chosen, key);
    BlockingLaws.ScanOrderMembers(chosen, key);
  }

  lemma BlocksFreelyExactly(items: seq<seq<Text>>, rules: BlockingRules, hash: Text -> int)
    ensures CandidatesOf(items, rules, hash).bounds == 0 <==> BlocksFreely(items, rules, hash)
  {
    var chosen := ChosenKeys(items, rules, hash);
    var keys := ScanOrder(chosen);
    ScanOrderOnce(chosen);
    SkippedExactly(chosen, keys, rules);
    StayInBudgetExactly(StepsOf(chosen, keys, rules), rules.maximumComparisonsPerItem);
    forall key | TooMany(chosen, key, rules) ensures key in KeysSkipped(chosen, keys, rules) {
      TooManyIsScanned(chosen, key, rules);
    }
  }

  /** The bound signals of one blocking pass. */
  ghost function PassBounds(items: seq<seq<Text>>, rules: BlockingRules, hash: Text -> int): nat {
    var chosen := ChosenKeys(items, rules, hash);
    |KeysSkipped(chosen, ScanOrder(chosen), rules)|
    + |TurnedAway(StepsOf(chosen, ScanOrder(chosen), rules), rules.maximumComparisonsPerItem)|
  }

  lemma PassBoundsExactly(items: seq<seq<Text>>, rules: BlockingRules, hash: Text -> int)
    ensures CandidatesOf(items, rules, hash).bounds == PassBounds(items, rules, hash)
  {
    var chosen := ChosenKeys(items, rules, hash);
    ScanOrderOnce(chosen);
    SkippedExactly(chosen, ScanOrder(chosen), rules);
    TurnedAwayExactly(StepsOf(chosen, ScanOrder(chosen), rules), rules.maximumComparisonsPerItem);
  }

  /** The duplicate groups over the bound by themselves. */
  ghost function GroupsOver(r: Run, c: Contract): set<nat> {
    set u: nat | u < |r.weights| && r.weights[u] > c.maximumClusterSize
  }

  /** The duplicate groups over the bound, the keys skipped, the steps turned away, the merges refused and the pairs met
      with the list of links full, over both passes. */
  ghost function BoundsMet(r: Run, c: Contract): nat
    requires IsRun(r, c)
  {
    |GroupsOver(r, c)|
    + PassBounds(UnitItems(r.units), c.blocking, c.hash32)
    + |PairsRefused(r.weights, c.maximumClusterSize, SyndicatedPairs(r.units, r.stage2.pairs, c))|
    + PassBounds(ReportItems(r.reports), c.blocking, c.hash32)
    + |PairsRefused(r.reportWeights, c.maximumClusterSize, SupportedPairs(r.reports, r.stage3.pairs, c))|
    + |MetTooLate(r.reports, r.stage3.pairs, c)|
  }

  lemma RunBoundsAreCounted(r: Run, c: Contract)
    requires IsRun(r, c)
    ensures BoundsReached(r, c) == BoundsMet(r, c)
  {
    assert GroupsOver(r, c) == Oversized(r.weights, c.maximumClusterSize);
    PassBoundsExactly(UnitItems(r.units), c.blocking, c.hash32);
    PassBoundsExactly(ReportItems(r.reports), c.blocking, c.hash32);
    RefusalsExactly(r.weights, c.maximumClusterSize, SyndicatedPairs(r.units, r.stage2.pairs, c));
    RefusalsExactly(r.reportWeights, c.maximumClusterSize, SupportedPairs(r.reports, r.stage3.pairs, c));
    FullExactly(r.reports, r.stage3.pairs, c);
  }

  lemma BoundsAreTheRuns(inputs: seq<Input>, c: Contract)
    requires OutcomeOf(inputs, c).Ok?
    ensures OutcomeOf(inputs, c).value.stats.boundsReached == BoundsReached(RunOn(inputs, c), c)
  {}

  /** Main result: `boundsReached` counts each of them once. */
  lemma BoundsAreCounted(inputs: seq<Input>, c: Contract)
    requires OutcomeOf(inputs, c).Ok?
    ensures OutcomeOf(inputs, c).value.stats.boundsReached == BoundsMet(RunOn(inputs, c), c)
  {
    BoundsAreTheRuns(inputs, c);
    RunBoundsAreCounted(RunOn(inputs, c), c);
  }

  // ------------------------------------------------------------------- no bound

  /** Every pair of duplicate groups compared and found alike is in one report. */
  ghost predicate AlikeAreJoined(r: Run, c: Contract)
    requires IsRun(r, c)
  {
    forall u: nat, v: nat :: u < |r.units| && v < |r.units| && (u, v) in r.stage2.pairs && Alike(r, c, u, v) ==>
      r.syndication.root[u] == r.syndication.root[v]
  }

  ghost predicate Alike(r: Run, c: Contract, u: nat, v: nat)
    requires u < |r.units| && v < |r.units|
  {
    HashLikeness(multiset(r.units[u].shingleHashes), multiset(r.units[v].shingleHashes)) >= c.syndicationThreshold
  }

  /** Every pair of reports compared and supported is in one cluster. */
  ghost predicate SupportedAreJoined(r: Run, c: Contract)
    requires IsRun(r, c)
  {
    forall i: nat, j: nat :: i < |r.reports| && j < |r.reports| && (i, j) in r.stage3.pairs
                             && Supports(r.reports, i, j, c) ==>
      r.incidents.root[i] == r.incidents.root[j]
  }

  lemma PairsAreJoined(root: seq<nat>, pairs: seq<Pair>)
    requires Within(pairs, |root|)
    ensures (forall k :: 0 <= k < |pairs| ==> root[pairs[k].0] == root[pairs[k].1])
       <==> forall a: nat, b: nat :: a < |root| && b < |root| && (a, b) in pairs ==> root[a] == root[b]
  {
    forall k | 0 <= k < |pairs| ensures (pairs[k].0, pairs[k].1) in pairs {
      assert pairs[k] in pairs;
    }
  }

  lemma SyndicatedAreAlike(r: Run, c: Contract, u: nat, v: nat)
    requires IsRun(r, c) && u < |r.units| && v < |r.units|
    ensures (u, v) in SyndicatedPairs(r.units, r.stage2.pairs, c) <==> (u, v) in r.stage2.pairs && Alike(r, c, u, v)
  {
    SyndicatedPairsMembers(r.units, r.stage2.pairs, c, (u, v));
    SyndicatedExactly(r.units[u], r.units[v], c);
  }

  lemma SyndicationUnrefused(r: Run, c: Contract)
    requires IsRun(r, c)
    ensures r.syndication.refusals == 0 <==> AlikeAreJoined(r, c)
  {
    var pairs := SyndicatedPairs(r.units, r.stage2.pairs, c);
    RefusedNoneExactly(r.weights, c.maximumClusterSize, pairs);
    PairsAreJoined(r.syndication.root, pairs);
    forall u: nat, v: nat | u < |r.units| && v < |r.units|
      ensures (u, v) in pairs <==> (u, v) in r.stage2.pairs && Alike(r, c, u, v)
    {
      SyndicatedAreAlike(r, c, u, v);
    }
    AlikeAreThePairs(r, c, pairs);
  }

  lemma AlikeAreThePairs(r: Run, c: Contract, pairs: seq<Pair>)
    requires IsRun(r, c)
    requires forall u: nat, v: nat :: u < |r.units| && v < |r.units| ==>
               ((u, v) in pairs <==> (u, v) in r.stage2.pairs && Alike(r, c, u, v))
    ensures AlikeAreJoined(r, c)
       <==> forall u: nat, v: nat :: u < |r.units| && v < |r.units| && (u, v) in pairs ==>
              r.syndication.root[u] == r.syndication.root[v]
  {}

  lemma SupportedPairsSupport(r: Run, c: Contract, i: nat, j: nat)
    requires IsRun(r, c) && DistinctTokens(r.reports) && i < |r.reports| && j < |r.reports|
    ensures (i, j) in SupportedPairs(r.reports, r.stage3.pairs, c)
       <==> (i, j) in r.stage3.pairs && Supports(r.reports, i, j, c)
  {
    SupportedPairsMembers(r.reports, r.stage3.pairs, c, (i, j));
    SupportedExactly(r.reports, i, j, c);
  }

  lemma IncidentsUnrefused(r: Run, c: Contract)
    requires IsRun(r, c)
    ensures r.incidents.refusals == 0 <==> SupportedAreJoined(r, c)
  {
    var pairs := SupportedPairs(r.reports, r.stage3.pairs, c);
    RefusedNoneExactly(r.reportWeights, c.maximumClusterSize, pairs);
    PairsAreJoined(r.incidents.root, pairs);
    RunTokensAreDistinct(r, c);
    forall i: nat, j: nat | i < |r.reports| && j < |r.reports|
      ensures (i, j) in pairs <==> (i, j) in r.stage3.pairs && Supports(r.reports, i, j, c)
    {
      SupportedPairsSupport(r, c, i, j);
    }
    SupportedAreThePairs(r, c, pairs);
  }

  lemma SupportedAreThePairs(r: Run, c: Contract, pairs: seq<Pair>)
    requires IsRun(r, c)
    requires forall i: nat, j: nat :: i < |r.reports| && j < |r.reports| ==>
               ((i, j) in pairs <==> (i, j) in r.stage3.pairs && Supports(r.reports, i, j, c))
    ensures SupportedAreJoined(r, c)
       <==> forall i: nat, j: nat :: i < |r.reports| && j < |r.reports| && (i, j) in pairs ==>
              r.incidents.root[i] == r.incidents.root[j]
  {}

  /** No duplicate group is over the bound, no key and no step was left out of either pass, every pair compared and
      found alike or supported was joined, and every other pair of reports was met while the list had room. */
  ghost predicate NothingHeldBack(r: Run, c: Contract)
    requires IsRun(r, c)
  {
    && GroupsOver(r, c) == {}
    && BlocksFreely(UnitItems(r.units), c.blocking, c.hash32)
    && AlikeAreJoined(r, c)
    && BlocksFreely(ReportItems(r.reports), c.blocking, c.hash32)
    && SupportedAreJoined(r, c)
    && MetTooLate(r.reports, r.stage3.pairs, c) == {}
  }

  lemma NothingHeldBackExactly(r: Run, c: Contract)
    requires IsRun(r, c)
    ensures BoundsReached(r, c) == 0 <==> NothingHeldBack(r, c)
  {
    assert GroupsOver(r, c) == Oversized(r.weights, c.maximumClusterSize);
    BlocksFreelyExactly(UnitItems(r.units), c.blocking, c.hash32);
    BlocksFreelyExactly(ReportItems(r.reports), c.blocking, c.hash32);
    SyndicationUnrefused(r, c);
    IncidentsUnrefused(r, c);
    FullExactly(r.reports, r.stage3.pairs, c);
  }

  /** Main result: `boundsReached` is zero exactly when nothing was held back. */
  lemma NoBoundExactly(inputs: seq<Input>, c: Contract)
    requires OutcomeOf(inputs, c).Ok?
    ensures OutcomeOf(inputs, c).value.stats.boundsReached == 0 <==> NothingHeldBack(RunOn(inputs, c), c)
  {
    BoundsAreTheRuns(inputs, c);
    NothingHeldBackExactly(RunOn(inputs, c), c);
  }
}
