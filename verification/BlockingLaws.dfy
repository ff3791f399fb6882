/** What the blocking pass promises: it refines all-pairs comparison, keeps its budgets and bounds its work. */
module BlockingLaws {
  import opened Texts
  import opened Sorting
  import opened Partitions
  import opened Sequences
  import opened Blocking

  // ---------------------------------------------------------------- blocks

  ghost predicate PairAt(b: seq<nat>, x: int, y: int, p: Pair) {
    0 <= x < y < |b| && p == (b[x], b[y])
  }

  lemma {:induction false} RowPairsMembers(b: seq<nat>, i: nat, j: nat, p: Pair)
    requires i < j <= |b|
    ensures p in RowPairs(b, i, j) <==> exists y :: y < j && PairAt(b, i, y, p)
  {
    if j > i + 1 {
      RowPairsMembers(b, i, j - 1, p);
      InConcat(RowPairs(b, i, j - 1), [(b[i], b[j - 1])], p);
      if p == (b[i], b[j - 1]) { assert PairAt(b, i, j - 1, p); }
    }
  }

  lemma {:induction false} RowsPairsMembers(b: seq<nat>, i: nat, p: Pair)
    requires i <= |b|
    ensures p in RowsPairs(b, i) <==> exists x, y :: x < i && PairAt(b, x, y, p)
  {
    if i > 0 {
      RowsPairsMembers(b, i - 1, p);
      RowPairsMembers(b, i - 1, |b|, p);
      InConcat(RowsPairs(b, i - 1), RowPairs(b, i - 1, |b|), p);
    }
  }

  lemma {:induction false} RowsPairsLength(b: seq<nat>, i: nat)
    requires i <= |b|
    ensures 2 * |RowsPairs(b, i)| == i * (2 * |b| - i - 1)
  {
    if i > 0 {
      RowsPairsLength(b, i - 1);
      assert (i - 1) * (2 * |b| - (i - 1) - 1) + 2 * (|b| - i) == i * (2 * |b| - i - 1);
    }
  }

  // ---------------------------------------------------------------- the scan

  lemma {:induction false} SpentGrows(steps: seq<Pair>, p: Pair, budget: nat, x: nat)
    ensures Spent(ScanAll(steps + [p], budget).pairs, x) >= Spent(ScanAll(steps, budget).pairs, x)
  {
    ScanSnoc(steps, p, budget);
    SpentSnoc(ScanAll(steps, budget).pairs, p, x);
  }

  /** In every scan: each pair admitted once and from a step, no item over its budget, fewer comparisons than steps. */
  lemma {:induction false} ScanKeepsBudget(steps: seq<Pair>, budget: nat)
    ensures var s := ScanAll(steps, budget);
            && NoDuplicates(s.pairs)
            && (forall p :: p in s.pairs ==> p in steps)
            && (forall x :: Spent(s.pairs, x) <= budget)
            && |s.pairs| + s.overBudget <= |steps|
  {
    if steps != [] {
      var init, p := steps[..|steps| - 1], steps[|steps| - 1];
      assert steps == init + [p];
      ScanKeepsBudget(init, budget);
      var before, s := ScanAll(init, budget), ScanAll(steps, budget);
      if s.pairs != before.pairs {
        forall x ensures Spent(s.pairs, x) <= budget { SpentSnoc(before.pairs, p, x); }
      }
    }
  }

  /** A step that admitted no pair was turned away by a budget that is spent, and the scan counted it. */
  lemma {:induction false} StepAdmittedOrCounted(steps: seq<Pair>, budget: nat, p: Pair)
    requires p in steps
    ensures var s := ScanAll(steps, budget);
            p in s.pairs || (s.overBudget > 0 && !HasBudget(s.pairs, p, budget))
  {
    var init, last := steps[..|steps| - 1], steps[|steps| - 1];
    assert steps == init + [last];
    if p in init {
      StepAdmittedOrCounted(init, budget, p);
      SpentGrows(init, last, budget, p.0);
      SpentGrows(init, last, budget, p.1);
    }
  }

  lemma {:induction false} StepsMembers(chosen: seq<seq<Text>>, keys: seq<Text>, rules: BlockingRules, p: Pair)
    ensures p in StepsOf(chosen, keys, rules) <==>
            exists k :: k in keys && Scanned(Bucket(chosen, k), rules) && p in BlockPairs(Bucket(chosen, k))
  {
    if keys != [] {
      var init, last := keys[..|keys| - 1], keys[|keys| - 1];
      assert keys == init + [last];
      StepsMembers(chosen, init, rules, p);
      if p in StepsOf(chosen, init, rules) {
        var k :| k in init && Scanned(Bucket(chosen, k), rules) && p in BlockPairs(Bucket(chosen, k));
        assert k in keys;
      } else if p in StepsOf(chosen, keys, rules) {
        assert last in keys && Scanned(Bucket(chosen, last), rules) && p in BlockPairs(Bucket(chosen, last));
      }
      forall k | k in keys && Scanned(Bucket(chosen, k), rules) && p in BlockPairs(Bucket(chosen, k))
        ensures p in StepsOf(chosen, keys, rules)
      {
        assert k in init || k == last;
      }
    }
  }

  lemma {:induction false} SkippedIsCounted(chosen: seq<seq<Text>>, keys: seq<Text>, rules: BlockingRules, k: Text)
    requires k in keys && Skipped(Bucket(chosen, k), rules)
    ensures SkippedBlocks(chosen, keys, rules) > 0
  {
    var init, last := keys[..|keys| - 1], keys[|keys| - 1];
    assert keys == init + [last];
    if k in init { SkippedIsCounted(chosen, init, rules, k); }
  }

  // ----------------------------------------------------------- main results

  /** Two items share a chosen blocking key. */
  ghost predicate Share(chosen: seq<seq<Text>>, left: nat, right: nat) {
    left < right < |chosen| && exists k :: k in chosen[left] && k in chosen[right]
  }

  lemma ScanOrderMembers(chosen: seq<seq<Text>>, key: Text)
    ensures key in ScanOrder(chosen) <==> exists i :: 0 <= i < |chosen| && key in chosen[i]
  {
    DistinctMembers(Flatten(chosen));
    MultisetMembers(Distinct(Flatten(chosen)), ScanOrder(chosen));
    FlattenMembers(chosen, key);
  }

  /** Soundness: every candidate pair is in order, in range, distinct and shares a key. */
  lemma CandidatesShare(items: seq<seq<Text>>, rules: BlockingRules, hash: Text -> int)
    ensures var c := CandidatesOf(items, rules, hash);
            && NoDuplicates(c.pairs)
            && forall p :: p in c.pairs ==> Share(ChosenKeys(items, rules, hash), p.0, p.1)
  {
    var chosen := ChosenKeys(items, rules, hash);
    var keys := ScanOrder(chosen);
    var c := CandidatesOf(items, rules, hash);
    ScanKeepsBudget(StepsOf(chosen, keys, rules), rules.maximumComparisonsPerItem);
    forall p | p in c.pairs ensures Share(chosen, p.0, p.1) {
      StepsMembers(chosen, keys, rules, p);
      var k :| k in keys && Scanned(Bucket(chosen, k), rules) && p in BlockPairs(Bucket(chosen, k));
      var b := Bucket(chosen, k);
      BucketMembers(chosen, k);
      RowsPairsMembers(b, |b|, p);
      var x, y :| x < |b| && PairAt(b, x, y, p);
      assert b[x] in b && b[y] in b;
    }
  }

  /** No item is in more candidate pairs than its budget, and comparisons never exceed iterations. */
  lemma CandidatesKeepBudget(items: seq<seq<Text>>, rules: BlockingRules, hash: Text -> int, item: nat)
    ensures var c := CandidatesOf(items, rules, hash);
            && Spent(c.pairs, item) <= rules.maximumComparisonsPerItem
            && c.comparisons == |c.pairs| <= c.iterations
  {
    var chosen := ChosenKeys(items, rules, hash);
    ScanKeepsBudget(StepsOf(chosen, ScanOrder(chosen), rules), rules.maximumComparisonsPerItem);
  }

  /** No hidden omission: a sharing pair is left out only when every key it shares has an oversized block, or one of
      the two items has spent its whole budget; either way a bound was signalled. */
  lemma LeftOutIsSignalled(items: seq<seq<Text>>, rules: BlockingRules, hash: Text -> int, left: nat, right: nat)
    requires Share(ChosenKeys(items, rules, hash), left, right)
    requires (left, right) !in CandidatesOf(items, rules, hash).pairs
    ensures var c, chosen := CandidatesOf(items, rules, hash), ChosenKeys(items, rules, hash);
            && c.bounds > 0
            && ((forall k :: k in chosen[left] && k in chosen[right] ==> |Bucket(chosen, k)| > rules.maximumBlockSize)
                || Spent(c.pairs, left) == rules.maximumComparisonsPerItem
                || Spent(c.pairs, right) == rules.maximumComparisonsPerItem)
  {
    var chosen := ChosenKeys(items, rules, hash);
    var keys := ScanOrder(chosen);
    var steps := StepsOf(chosen, keys, rules);
    var p: Pair := (left, right);
    if p in steps {
      StepAdmittedOrCounted(steps, rules.maximumComparisonsPerItem, p);
      ScanKeepsBudget(steps, rules.maximumComparisonsPerItem);
    } else {
      forall k | k in chosen[left] && k in chosen[right]
        ensures Skipped(Bucket(chosen, k), rules) && k in keys
      {
        ScanOrderMembers(chosen, k);
        SharedBucketHolds(chosen, k, left, right);
        StepsMembers(chosen, keys, rules, p);
      }
      var k :| k in chosen[left] && k in chosen[right];
      SkippedIsCounted(chosen, keys, rules, k);
    }
  }

  lemma SharedBucketHolds(chosen: seq<seq<Text>>, k: Text, left: nat, right: nat)
    requires left < right < |chosen| && k in chosen[left] && k in chosen[right]
    ensures |Bucket(chosen, k)| >= 2
    ensures (left, right) in BlockPairs(Bucket(chosen, k))
  {
    var b := Bucket(chosen, k);
    BucketMembers(chosen, k);
    assert left in b && right in b;
    var x :| 0 <= x < |b| && b[x] == left;
    var y :| 0 <= y < |b| && b[y] == right;
    assert x < |b| && PairAt(b, x, y, (left, right));
    RowsPairsMembers(b, |b|, (left, right));
  }

  /** Main result: with no bound signalled, blocking returns exactly the pairs that share a chosen key. */
  lemma BlockingRefinesAllPairs(items: seq<seq<Text>>, rules: BlockingRules, hash: Text -> int, left: nat, right: nat)
    requires CandidatesOf(items, rules, hash).bounds == 0
    ensures (left, right) in CandidatesOf(items, rules, hash).pairs <==>
            Share(ChosenKeys(items, rules, hash), left, right)
  {
    CandidatesShare(items, rules, hash);
    if Share(ChosenKeys(items, rules, hash), left, right) && (left, right) !in CandidatesOf(items, rules, hash).pairs {
      LeftOutIsSignalled(items, rules, hash, left, right);
    }
  }

  // ------------------------------------------------------------- key choice

  lemma HashOrderIsTotal(hash: Text -> int)
    ensures TotalPreorder(HashOrder(hash))
    ensures forall s: seq<Text> :: Distinguishes(s, HashOrder(hash))
  {
    var leq := HashOrder(hash);
    forall x: Text, y: Text ensures leq(x, y) || leq(y, x) {
      LessIsTotal(x, y);
      assert AtMost(x, y) || AtMost(y, x);
    }
    forall x: Text, y: Text, z: Text | leq(x, y) && leq(y, z) ensures leq(x, z) {
      if hash(x) == hash(y) == hash(z) { AtMostIsTransitive(x, y, z); }
    }
    forall x: Text, y: Text | leq(x, y) && leq(y, x) ensures x == y {
      LessIsTotal(x, y);
      assert AtMost(x, y) && AtMost(y, x);
    }
  }

  /** The keys of an item are its least tokens by hash among those rare enough: one is passed over only when the
      item already has all its keys, each no greater. */
  lemma KeysAreLeastByHash(items: seq<seq<Text>>, i: nat, rules: BlockingRules, hash: Text -> int, token: Text)
    requires i < |items| && token in items[i]
    ensures var keys := KeysOf(items, i, rules, hash);
            var rare := Frequency(items, token) <= MaximumFrequency(|items|, rules.maximumDocumentFrequencyRatio);
            && (!rare ==> token !in keys)
            && (rare && token !in keys ==>
                  |keys| == rules.keysPerItem && forall k :: k in keys ==> HashOrder(hash)(k, token))
  {
    var eligible := Eligible(items[i], items, MaximumFrequency(|items|, rules.maximumDocumentFrequencyRatio));
    var sorted, leq := Sort(eligible, HashOrder(hash)), HashOrder(hash);
    var keys := KeysOf(items, i, rules, hash);
    HashOrderIsTotal(hash);
    EligibleTokens(items[i], items, MaximumFrequency(|items|, rules.maximumDocumentFrequencyRatio));
    SortSorted(eligible, leq);
    MultisetMembers(eligible, sorted);
    if token in eligible && token !in keys {
      var y :| 0 <= y < |sorted| && sorted[y] == token;
      assert keys == sorted[..rules.keysPerItem] && y >= rules.keysPerItem;
      forall k | k in keys ensures leq(k, token) {
        var x :| 0 <= x < |keys| && keys[x] == k;
        assert sorted[x] == k && x <= y;
      }
    }
  }

  // ----------------------------------------------------- which tokens are keys

  /** The items that carry a token. */
  ghost function Carriers(items: seq<seq<Text>>, token: Text): set<nat> {
    set i: nat | i < |items| && token in items[i]
  }

  /** Two items at most carry the token, or no more than the ratio's share of them. */
  ghost predicate FewCarry(items: seq<seq<Text>>, token: Text, ratio: real) {
    |Carriers(items, token)| <= 2 || |Carriers(items, token)| as real <= |items| as real * ratio
  }

  lemma {:induction false} FrequencyCounts(items: seq<seq<Text>>, token: Text)
    ensures Frequency(items, token) == |Carriers(items, token)|
  {
    if items == [] {
      assert Carriers(items, token) == {};
    } else {
      var n := |items| - 1;
      FrequencyCounts(items[..n], token);
      assert Carriers(items, token) == Carriers(items[..n], token) + if token in items[n] then {n} else {};
    }
  }

  /** The rarity cap, without its rounding. */
  lemma CapMeaning(n: nat, ratio: real, k: nat)
    ensures k <= MaximumFrequency(n, ratio) <==> k <= 2 || k as real <= n as real * ratio
  {
    FloorMeaning(n as real * ratio, k);
  }

  lemma FloorMeaning(x: real, k: nat)
    ensures k <= x.Floor <==> k as real <= x
  {}

  lemma FewCarryExactly(items: seq<seq<Text>>, token: Text, ratio: real)
    ensures FewCarry(items, token, ratio) <==> Frequency(items, token) <= MaximumFrequency(|items|, ratio)
  {
    FrequencyCounts(items, token);
    CapMeaning(|items|, ratio, Frequency(items, token));
  }

  ghost predicate HashBefore(hash: Text -> int, a: Text, b: Text) {
    hash(a) < hash(b) || (hash(a) == hash(b) && Less(a, b))
  }

  /** The tokens of item `i` that could be keys and come before `token`. */
  ghost function Preferred(items: seq<seq<Text>>, i: nat, ratio: real, hash: Text -> int, token: Text): set<Text>
    requires i < |items|
  {
    set k | k in items[i] && FewCarry(items, k, ratio) && HashBefore(hash, k, token)
  }

  lemma HashOrderIsBefore(hash: Text -> int, a: Text, b: Text)
    ensures HashOrder(hash)(a, b) && a != b <==> HashBefore(hash, a, b)
  {
    LessIsTotal(a, b);
  }

  lemma {:induction false} PrefixSet(s: seq<Text>, n: nat)
    requires NoDuplicates(s) && n <= |s|
    ensures |set k | k in s[..n]| == n
  {
    NoDuplicatesCardinality(s[..n]);
  }

  /** In a sorted list the elements before one are as many as its index says. */
  lemma BeforeInOrder(s: seq<Text>, hash: Text -> int, y: nat, before: set<Text>)
    requires NoDuplicates(s) && Sorted(s, HashOrder(hash)) && y < |s|
    requires forall k :: k in before <==> k in s && HashBefore(hash, k, s[y])
    ensures |before| == y
  {
    forall k ensures k in before <==> k in s[..y] {
      if k in s {
        var x :| 0 <= x < |s| && s[x] == k;
        HashOrderIsBefore(hash, s[x], s[y]);
        HashOrderIsBefore(hash, s[y], s[x]);
        LessIsTotal(s[x], s[y]);
        if x < y { assert HashOrder(hash)(s[x], s[y]) && s[x] in s[..y]; }
        if y <= x { assert HashOrder(hash)(s[y], s[x]); }
      }
    }
    assert before == set k | k in s[..y];
    PrefixSet(s, y);
  }

  lemma TakenExactly(s: seq<Text>, n: nat, y: nat)
    requires NoDuplicates(s) && y < |s|
    ensures s[y] in Take(s, n) <==> y < n
  {
    if y < n { assert Take(s, n)[y] == s[y]; }
  }

  /** Main result: a token is a blocking key of an item exactly when few enough items carry it and fewer than the
      allowed number of such tokens of the item come before it by hash and then by text. */
  lemma KeyExactly(items: seq<seq<Text>>, i: nat, rules: BlockingRules, hash: Text -> int, token: Text)
    requires i < |items| && NoDuplicates(items[i]) && token in items[i]
    ensures var ratio := rules.maximumDocumentFrequencyRatio;
            token in KeysOf(items, i, rules, hash) <==>
            FewCarry(items, token, ratio) && |Preferred(items, i, ratio, hash, token)| < rules.keysPerItem
  {
    var ratio := rules.maximumDocumentFrequencyRatio;
    var eligible := Eligible(items[i], items, MaximumFrequency(|items|, ratio));
    var sorted := Sort(eligible, HashOrder(hash));
    EligibleTokens(items[i], items, MaximumFrequency(|items|, ratio));
    HashOrderIsTotal(hash);
    SortSorted(eligible, HashOrder(hash));
    MultisetMembers(eligible, sorted);
    MultisetNoDuplicates(eligible, sorted);
    FewCarryExactly(items, token, ratio);
    if token in sorted {
      var y :| 0 <= y < |sorted| && sorted[y] == token;
      forall k ensures k in Preferred(items, i, ratio, hash, token) <==> k in sorted && HashBefore(hash, k, token) {
        FewCarryExactly(items, k, ratio);
      }
      BeforeInOrder(sorted, hash, y, Preferred(items, i, ratio, hash, token));
      TakenExactly(sorted, rules.keysPerItem, y);
    }
  }

  // ------------------------------------------------------------ pair work

  /** Total length of the buckets of `keys`. */
  function Filings(chosen: seq<seq<Text>>, keys: seq<Text>): nat {
    if keys == [] then 0
    else Filings(chosen, keys[..|keys| - 1]) + |Bucket(chosen, keys[|keys| - 1])|
  }

  function CountIn(keys: seq<Text>, held: seq<Text>): nat {
    if keys == [] then 0
    else CountIn(keys[..|keys| - 1], held) + if keys[|keys| - 1] in held then 1 else 0
  }

  lemma {:induction false} CountInIsIntersection(keys: seq<Text>, held: seq<Text>)
    requires NoDuplicates(keys)
    ensures CountIn(keys, held) == |set k | k in keys && k in held|
  {
    if keys == [] {
      assert (set k | k in keys && k in held) == {};
    } else {
      CountInIsIntersection(keys[..|keys| - 1], held);
      HeldSnoc(keys, held);
    }
  }

  lemma HeldSnoc(keys: seq<Text>, held: seq<Text>)
    requires keys != [] && NoDuplicates(keys)
    ensures |set k | k in keys && k in held|
         == |set k | k in keys[..|keys| - 1] && k in held| + if keys[|keys| - 1] in held then 1 else 0
  {
    var init, last := keys[..|keys| - 1], keys[|keys| - 1];
    assert keys == init + [last];
    assert last !in init;
    var before := set k | k in init && k in held;
    assert (set k | k in keys && k in held) == if last in held then before + {last} else before;
  }

  lemma CountInAtMostHeld(keys: seq<Text>, held: seq<Text>)
    requires NoDuplicates(keys)
    ensures CountIn(keys, held) <= |held|
  {
    CountInIsIntersection(keys, held);
    SetAtMostSeq((set k | k in keys && k in held), held);
  }

  lemma {:induction false} SetAtMostSeq(s: set<Text>, held: seq<Text>)
    requires forall k :: k in s ==> k in held
    ensures |s| <= |held|
  {
    if held != [] {
      SetAtMostSeq(s - {held[0]}, held[1..]);
    } else {
      assert s == {};
    }
  }

  lemma {:induction false} FilingsSnoc(chosen: seq<seq<Text>>, keys: seq<Text>)
    requires chosen != []
    ensures Filings(chosen, keys) == Filings(chosen[..|chosen| - 1], keys) + CountIn(keys, chosen[|chosen| - 1])
  {
    if keys != [] { FilingsSnoc(chosen, keys[..|keys| - 1]); }
  }

  lemma {:induction false} NothingFiled(keys: seq<Text>)
    ensures Filings([], keys) == 0
  {
    if keys != [] { NothingFiled(keys[..|keys| - 1]); }
  }

  /** Every item is filed under at most `perItem` keys. */
  lemma {:induction false} FilingsBounded(chosen: seq<seq<Text>>, keys: seq<Text>, perItem: nat)
    requires NoDuplicates(keys)
    requires forall i :: 0 <= i < |chosen| ==> |chosen[i]| <= perItem
    ensures Filings(chosen, keys) <= |chosen| * perItem
  {
    if chosen == [] {
      NothingFiled(keys);
    } else {
      var n := |chosen| - 1;
      FilingsBounded(chosen[..n], keys, perItem);
      FilingsSnoc(chosen, keys);
      CountInAtMostHeld(keys, chosen[n]);
      assert n * perItem + perItem == (n + 1) * perItem;
    }
  }

  lemma {:induction false} StepsBoundedByFilings(chosen: seq<seq<Text>>, keys: seq<Text>, rules: BlockingRules)
    requires rules.maximumBlockSize >= 1
    ensures 2 * |StepsOf(chosen, keys, rules)| <= Filings(chosen, keys) * (rules.maximumBlockSize - 1)
  {
    if keys != [] {
      var init, b := keys[..|keys| - 1], Bucket(chosen, keys[|keys| - 1]);
      StepsBoundedByFilings(chosen, init, rules);
      BlockStepsBounded(b, rules);
      Distributes(Filings(chosen, init), |b|, rules.maximumBlockSize - 1);
    }
  }

  /** A block scanned has as many steps as pairs; one skipped has none. */
  lemma BlockStepsBounded(b: seq<nat>, rules: BlockingRules)
    requires rules.maximumBlockSize >= 1
    ensures 2 * |if Scanned(b, rules) then BlockPairs(b) else []| <= |b| * (rules.maximumBlockSize - 1)
  {
    var most := rules.maximumBlockSize - 1;
    if Scanned(b, rules) {
      RowsPairsLength(b, |b|);
      MultiplyBoth(|b| - 1, most, |b|);
    } else {
      MultiplyBoth(0, most, |b|);
    }
  }

  lemma Distributes(a: nat, b: nat, c: nat)
    ensures (a + b) * c == a * c + b * c
  {}

  lemma {:induction false} NoStepsWithoutBlocks(chosen: seq<seq<Text>>, keys: seq<Text>, rules: BlockingRules)
    requires rules.maximumBlockSize < 2
    ensures StepsOf(chosen, keys, rules) == []
  {
    if keys != [] { NoStepsWithoutBlocks(chosen, keys[..|keys| - 1], rules); }
  }

  function LessOne(b: nat): nat { if b == 0 then 0 else b - 1 }

  lemma MultiplyBoth(a: nat, b: nat, c: nat)
    requires a <= b
    ensures a * c <= b * c
  {}

  lemma StepsBounded(chosen: seq<seq<Text>>, keys: seq<Text>, rules: BlockingRules)
    requires NoDuplicates(keys)
    requires forall i :: 0 <= i < |chosen| ==> |chosen[i]| <= rules.keysPerItem
    ensures 2 * |StepsOf(chosen, keys, rules)| <= |chosen| * rules.keysPerItem * LessOne(rules.maximumBlockSize)
  {
    var all := |chosen| * rules.keysPerItem;
    FilingsBounded(chosen, keys, rules.keysPerItem);
    if rules.maximumBlockSize == 0 {
      NoStepsWithoutBlocks(chosen, keys, rules);
    } else {
      StepsBoundedByFilings(chosen, keys, rules);
      MultiplyBoth(Filings(chosen, keys), all, rules.maximumBlockSize - 1);
    }
  }

  /** Main result: one pass over G items takes at most G * K * (B - 1) / 2 iterations. */
  lemma PairWorkIsBounded(items: seq<seq<Text>>, rules: BlockingRules, hash: Text -> int)
    ensures 2 * CandidatesOf(items, rules, hash).iterations
            <= |items| * rules.keysPerItem * LessOne(rules.maximumBlockSize)
  {
    var chosen := ChosenKeys(items, rules, hash);
    DistinctMembers(Flatten(chosen));
    MultisetNoDuplicates(Distinct(Flatten(chosen)), ScanOrder(chosen));
    StepsBounded(chosen, ScanOrder(chosen), rules);
  }
}
