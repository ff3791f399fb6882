/**
 * The blocking pass: an inverted index over a bounded number of each item's tokens, scanned for candidate pairs
 * under a block bound and a per-item comparison budget. It stands in for comparing all pairs.
 */
module Blocking {
  import opened Texts
  import opened Sorting
  import opened Partitions
  import opened Sequences

  datatype BlockingRules = BlockingRules(
    keysPerItem: nat,
    maximumBlockSize: nat,
    maximumComparisonsPerItem: nat,
    maximumDocumentFrequencyRatio: real)

  /** The distinctive tokens of each item, without repetition. */
  ghost predicate ItemsValid(items: seq<seq<Text>>) {
    forall i :: 0 <= i < |items| ==> NoDuplicates(items[i])
  }

  // ------------------------------------------------------------- key choice

  function Frequency(items: seq<seq<Text>>, token: Text): nat {
    if items == [] then 0
    else Frequency(items[..|items| - 1], token) + if token in items[|items| - 1] then 1 else 0
  }

  function AtLeastTwo(x: int): nat { if x <= 2 then 2 else x }

  /** A key must be carried by two items to pair anything, so two is the floor. */
  function MaximumFrequency(n: nat, ratio: real): nat {
    AtLeastTwo((n as real * ratio).Floor)
  }

  /** Fixed hash order, ties broken lexicographically. */
  function HashOrder(hash: Text -> int): (Text, Text) -> bool {
    (a: Text, b: Text) => hash(a) < hash(b) || (hash(a) == hash(b) && AtMost(a, b))
  }

  function Eligible(tokens: seq<Text>, items: seq<seq<Text>>, maximumFrequency: nat): seq<Text> {
    if tokens == [] then []
    else
      var r := Eligible(tokens[..|tokens| - 1], items, maximumFrequency);
      if Frequency(items, tokens[|tokens| - 1]) <= maximumFrequency then r + [tokens[|tokens| - 1]] else r
  }

  lemma {:induction false} EligibleTokens(tokens: seq<Text>, items: seq<seq<Text>>, maximumFrequency: nat)
    ensures var r := Eligible(tokens, items, maximumFrequency);
            && (forall t :: t in r <==> t in tokens && Frequency(items, t) <= maximumFrequency)
            && (NoDuplicates(tokens) ==> NoDuplicates(r))
  {
    if tokens != [] {
      EligibleTokens(tokens[..|tokens| - 1], items, maximumFrequency);
      assert tokens == tokens[..|tokens| - 1] + [tokens[|tokens| - 1]];
    }
  }

  /** The blocking keys of item `i`. */
  function KeysOf(items: seq<seq<Text>>, i: nat, rules: BlockingRules, hash: Text -> int): (keys: seq<Text>)
    requires i < |items|
    ensures |keys| <= rules.keysPerItem
  {
    var eligible := Eligible(items[i], items, MaximumFrequency(|items|, rules.maximumDocumentFrequencyRatio));
    Take(Sort(eligible, HashOrder(hash)), rules.keysPerItem)
  }

  lemma KeysAreTokens(items: seq<seq<Text>>, i: nat, rules: BlockingRules, hash: Text -> int)
    requires i < |items|
    ensures forall k :: k in KeysOf(items, i, rules, hash) ==> k in items[i]
    ensures NoDuplicates(items[i]) ==> NoDuplicates(KeysOf(items, i, rules, hash))
  {
    var maximumFrequency := MaximumFrequency(|items|, rules.maximumDocumentFrequencyRatio);
    var eligible := Eligible(items[i], items, maximumFrequency);
    EligibleTokens(items[i], items, maximumFrequency);
    MultisetMembers(eligible, Sort(eligible, HashOrder(hash)));
    if NoDuplicates(items[i]) { MultisetNoDuplicates(eligible, Sort(eligible, HashOrder(hash))); }
  }

  function ChosenKeys(items: seq<seq<Text>>, rules: BlockingRules, hash: Text -> int): (chosen: seq<seq<Text>>)
    ensures |chosen| == |items|
  {
    seq(|items|, i requires 0 <= i < |items| => KeysOf(items, i, rules, hash))
  }

  // --------------------------------------------------------------- the index

  /** The items holding `key`, ascending. */
  function Bucket(chosen: seq<seq<Text>>, key: Text): seq<nat> {
    if chosen == [] then []
    else
      var n := |chosen| - 1;
      var b := Bucket(chosen[..n], key);
      if key in chosen[n] then b + [n] else b
  }

  ghost predicate Ascending(b: seq<nat>) {
    forall i, j :: 0 <= i < j < |b| ==> b[i] < b[j]
  }

  lemma AscendingSnoc(b: seq<nat>, n: nat)
    requires Ascending(b) && forall i :: i in b ==> i < n
    ensures Ascending(b + [n]) && forall i :: i in b + [n] <==> i in b || i == n
  {
    forall i, j | 0 <= i < j < |b + [n]| ensures (b + [n])[i] < (b + [n])[j] {
      if j == |b| { assert b[i] in b; }
    }
  }

  lemma {:induction false} BucketMembers(chosen: seq<seq<Text>>, key: Text)
    ensures var b := Bucket(chosen, key);
            Ascending(b) && forall i :: i in b <==> 0 <= i < |chosen| && key in chosen[i]
  {
    if chosen != [] {
      var n, init := |chosen| - 1, chosen[..|chosen| - 1];
      BucketMembers(init, key);
      var b := Bucket(init, key);
      assert forall i :: 0 <= i < n ==> init[i] == chosen[i];
      AscendingSnoc(b, n);
    }
  }

  /** Every blocking key, in the order the scan takes them. */
  function ScanOrder(chosen: seq<seq<Text>>): seq<Text> {
    Sort(Distinct(Flatten(chosen)), TextOrder())
  }

  // ---------------------------------------------------------------- the scan

  /** The pairs of row `i` of a block up to column `j`. */
  function RowPairs(b: seq<nat>, i: nat, j: nat): (r: seq<Pair>)
    requires i < j <= |b|
    ensures |r| == j - i - 1
  {
    if j == i + 1 then [] else RowPairs(b, i, j - 1) + [(b[i], b[j - 1])]
  }

  /** The pairs of the first `i` rows of a block, in scan order. */
  function RowsPairs(b: seq<nat>, i: nat): seq<Pair>
    requires i <= |b|
  {
    if i == 0 then [] else RowsPairs(b, i - 1) + RowPairs(b, i - 1, |b|)
  }

  function BlockPairs(b: seq<nat>): seq<Pair> { RowsPairs(b, |b|) }

  predicate Scanned(b: seq<nat>, rules: BlockingRules) { 2 <= |b| <= rules.maximumBlockSize }

  predicate Skipped(b: seq<nat>, rules: BlockingRules) { 2 <= |b| && rules.maximumBlockSize < |b| }

  /** Every pair the scan iterates over, in order, for the first blocks. */
  function StepsOf(chosen: seq<seq<Text>>, keys: seq<Text>, rules: BlockingRules): seq<Pair> {
    if keys == [] then []
    else
      var b := Bucket(chosen, keys[|keys| - 1]);
      StepsOf(chosen, keys[..|keys| - 1], rules) + if Scanned(b, rules) then BlockPairs(b) else []
  }

  function SkippedBlocks(chosen: seq<seq<Text>>, keys: seq<Text>, rules: BlockingRules): nat {
    if keys == [] then 0
    else
      SkippedBlocks(chosen, keys[..|keys| - 1], rules)
      + if Skipped(Bucket(chosen, keys[|keys| - 1]), rules) then 1 else 0
  }

  /** How many of the admitted pairs an item is in. */
  function Spent(pairs: seq<Pair>, item: nat): nat {
    if pairs == [] then 0
    else
      Spent(pairs[..|pairs| - 1], item)
      + if pairs[|pairs| - 1].0 == item || pairs[|pairs| - 1].1 == item then 1 else 0
  }

  /** `overBudget` counts the iterations an exhausted budget turned away. */
  datatype Scan = Scan(pairs: seq<Pair>, overBudget: nat)

  predicate HasBudget(pairs: seq<Pair>, p: Pair, budget: nat) {
    Spent(pairs, p.0) < budget && Spent(pairs, p.1) < budget
  }

  function ScanOne(s: Scan, p: Pair, budget: nat): Scan {
    if !HasBudget(s.pairs, p, budget) then s.(overBudget := s.overBudget + 1)
    else if p in s.pairs then s
    else s.(pairs := s.pairs + [p])
  }

  function ScanAll(steps: seq<Pair>, budget: nat): Scan {
    if steps == [] then Scan([], 0)
    else ScanOne(ScanAll(steps[..|steps| - 1], budget), steps[|steps| - 1], budget)
  }

  lemma ScanSnoc(steps: seq<Pair>, p: Pair, budget: nat)
    ensures ScanAll(steps + [p], budget) == ScanOne(ScanAll(steps, budget), p, budget)
  {
    assert (steps + [p])[..|steps|] == steps;
  }

  datatype Candidates = Candidates(pairs: seq<Pair>, comparisons: nat, iterations: nat, bounds: nat)

  /** What one blocking pass over `items` returns, with the number of bound signals it raised. */
  function CandidatesOf(items: seq<seq<Text>>, rules: BlockingRules, hash: Text -> int): Candidates {
    var chosen := ChosenKeys(items, rules, hash);
    var keys := ScanOrder(chosen);
    var steps := StepsOf(chosen, keys, rules);
    var scan := ScanAll(steps, rules.maximumComparisonsPerItem);
    Candidates(scan.pairs, |scan.pairs|, |steps|, SkippedBlocks(chosen, keys, rules) + scan.overBudget)
  }

  // --------------------------------------------------------------- the method

  function Get(m: map<Text, nat>, key: Text): nat { if key in m then m[key] else 0 }

  function Budget(m: map<nat, nat>, item: nat): nat { if item in m then m[item] else 0 }

  method CountFrequencies(items: seq<seq<Text>>) returns (frequency: map<Text, nat>)
    requires ItemsValid(items)
    ensures forall t :: Get(frequency, t) == Frequency(items, t)
  {
    frequency := map[];
    for i := 0 to |items|
      invariant forall t :: Get(frequency, t) == Frequency(items[..i], t)
    {
      var tokens := items[i];
      for j := 0 to |tokens|
        invariant forall t :: Get(frequency, t) == Frequency(items[..i], t) + if t in tokens[..j] then 1 else 0
      {
        assert tokens[..j + 1] == tokens[..j] + [tokens[j]];
        assert NoDuplicates(tokens) && tokens[j] !in tokens[..j];
        frequency := frequency[tokens[j] := Get(frequency, tokens[j]) + 1];
      }
      assert tokens[..|tokens|] == tokens;
      assert items[..i + 1][..i] == items[..i];
    }
    assert items[..|items|] == items;
  }

  /** The index built so far files exactly the items `chosen` says, under keys in insertion order. */
  ghost predicate Files(index: map<Text, seq<nat>>, order: seq<Text>, chosen: seq<seq<Text>>) {
    && order == Distinct(Flatten(chosen))
    && (forall k :: k in order <==> k in index)
    && (forall k :: k in index ==> index[k] == Bucket(chosen, k))
  }

  /** The same, half way through filing item `|chosen|` under `keys`. */
  ghost predicate FilesPart(index: map<Text, seq<nat>>, order: seq<Text>, chosen: seq<seq<Text>>, keys: seq<Text>) {
    && order == Distinct(Flatten(chosen) + keys)
    && (forall k :: k in order <==> k in index)
    && (forall k :: k in index ==> index[k] == Bucket(chosen, k) + if k in keys then [|chosen|] else [])
  }

  lemma FilesNone(index: map<Text, seq<nat>>, order: seq<Text>, chosen: seq<seq<Text>>)
    requires Files(index, order, chosen)
    ensures FilesPart(index, order, chosen, [])
  {
    assert Flatten(chosen) + [] == Flatten(chosen);
  }

  lemma FilesAll(index: map<Text, seq<nat>>, order: seq<Text>, chosen: seq<seq<Text>>, keys: seq<Text>)
    requires FilesPart(index, order, chosen, keys)
    ensures Files(index, order, chosen + [keys])
  {
    assert (chosen + [keys])[..|chosen|] == chosen;
  }

  lemma {:induction false} NoBucket(chosen: seq<seq<Text>>, key: Text)
    requires key !in Flatten(chosen)
    ensures Bucket(chosen, key) == []
  {
    if chosen != [] { NoBucket(chosen[..|chosen| - 1], key); }
  }

  lemma KeysWithOneMore(chosen: seq<seq<Text>>, keys: seq<Text>, key: Text)
    ensures var all := Distinct(Flatten(chosen) + keys);
            Distinct(Flatten(chosen) + (keys + [key])) == if key in all then all else all + [key]
  {
    assert Flatten(chosen) + (keys + [key]) == Flatten(chosen) + keys + [key];
    DistinctSnoc(Flatten(chosen) + keys, key);
  }

  lemma FilesNewKey(index: map<Text, seq<nat>>, order: seq<Text>, chosen: seq<seq<Text>>, keys: seq<Text>, key: Text)
    requires FilesPart(index, order, chosen, keys) && key !in keys && key !in index
    ensures FilesPart(index[key := [|chosen|]], order + [key], chosen, keys + [key])
  {
    KeysWithOneMore(chosen, keys, key);
    assert key !in Flatten(chosen) by { DistinctMembers(Flatten(chosen) + keys); }
    NoBucket(chosen, key);
  }

  lemma FilesOldKey(index: map<Text, seq<nat>>, order: seq<Text>, chosen: seq<seq<Text>>, keys: seq<Text>, key: Text)
    requires FilesPart(index, order, chosen, keys) && key !in keys && key in index
    ensures FilesPart(index[key := index[key] + [|chosen|]], order, chosen, keys + [key])
  {
    KeysWithOneMore(chosen, keys, key);
    assert Bucket(chosen, key) + [] == Bucket(chosen, key) == index[key];
    forall k | k in keys ensures k in keys + [key] {}
  }

  method ChooseKeys(items: seq<seq<Text>>, i: nat, frequency: map<Text, nat>, rules: BlockingRules, hash: Text -> int)
    returns (keys: seq<Text>)
    requires i < |items| && NoDuplicates(items[i])
    requires forall t :: Get(frequency, t) == Frequency(items, t)
    ensures keys == KeysOf(items, i, rules, hash) && NoDuplicates(keys)
  {
    var maximumFrequency := MaximumFrequency(|items|, rules.maximumDocumentFrequencyRatio);
    var eligible := [];
    var tokens := items[i];
    for j := 0 to |tokens|
      invariant eligible == Eligible(tokens[..j], items, maximumFrequency)
    {
      assert tokens[..j + 1][..j] == tokens[..j];
      if Get(frequency, tokens[j]) <= maximumFrequency { eligible := eligible + [tokens[j]]; }
    }
    assert tokens[..|tokens|] == tokens;
    keys := Take(Sort(eligible, HashOrder(hash)), rules.keysPerItem);
    KeysAreTokens(items, i, rules, hash);
  }

  /** Files the next item under each of its keys, opening a bucket for a key not seen before. */
  method FileUnder(keys: seq<Text>, ghost chosen: seq<seq<Text>>, item: nat,
                   index0: map<Text, seq<nat>>, order0: seq<Text>)
    returns (index: map<Text, seq<nat>>, order: seq<Text>)
    requires Files(index0, order0, chosen) && NoDuplicates(keys) && item == |chosen|
    ensures Files(index, order, chosen + [keys])
  {
    index, order := index0, order0;
    FilesNone(index, order, chosen);
    for j := 0 to |keys|
      invariant FilesPart(index, order, chosen, keys[..j])
    {
      var key := keys[j];
      assert keys[..j + 1] == keys[..j] + [key];
      if key !in index {
        FilesNewKey(index, order, chosen, keys[..j], key);
        index := index[key := [item]];
        order := order + [key];
      } else {
        FilesOldKey(index, order, chosen, keys[..j], key);
        index := index[key := index[key] + [item]];
      }
    }
    assert keys[..|keys|] == keys;
    FilesAll(index, order, chosen, keys);
  }

  /** Picks each item's keys and files it under them; `order` is the insertion order of the index. */
  method BuildIndex(items: seq<seq<Text>>, rules: BlockingRules, hash: Text -> int)
    returns (index: map<Text, seq<nat>>, order: seq<Text>)
    requires ItemsValid(items)
    ensures Files(index, order, ChosenKeys(items, rules, hash))
  {
    ghost var chosen := ChosenKeys(items, rules, hash);
    var frequency := CountFrequencies(items);
    index, order := map[], [];
    for i := 0 to |items|
      invariant Files(index, order, chosen[..i])
    {
      var keys := ChooseKeys(items, i, frequency, rules, hash);
      TakeOneMore<seq<Text>>(chosen, i);
      assert keys == chosen[i];
      index, order := FileUnder(keys, chosen[..i], i, index, order);
    }
    assert chosen[..|items|] == chosen;
  }

  /** The running variables of the scan agree with the scan of the steps taken so far. */
  ghost predicate Tracks(seen: set<Pair>, budget: map<nat, nat>, pairs: seq<Pair>, overBudget: nat, steps: seq<Pair>,
                         limit: nat) {
    && ScanAll(steps, limit) == Scan(pairs, overBudget)
    && (forall p :: p in seen <==> p in pairs)
    && (forall x :: Budget(budget, x) == Spent(pairs, x))
  }

  lemma {:induction false} SpentSnoc(pairs: seq<Pair>, p: Pair, x: nat)
    ensures Spent(pairs + [p], x) == Spent(pairs, x) + if p.0 == x || p.1 == x then 1 else 0
  {
    assert (pairs + [p])[..|pairs|] == pairs;
  }

  lemma TracksAdmitted(seen: set<Pair>, budget: map<nat, nat>, pairs: seq<Pair>, overBudget: nat,
                       steps: seq<Pair>, limit: nat, p: Pair, budget': map<nat, nat>)
    requires Tracks(seen, budget, pairs, overBudget, steps, limit)
    requires p.0 != p.1 && HasBudget(pairs, p, limit) && p !in pairs
    requires budget' == budget[p.0 := Budget(budget, p.0) + 1][p.1 := Budget(budget, p.1) + 1]
    ensures Tracks(seen + {p}, budget', pairs + [p], overBudget, steps + [p], limit)
  {
    ScanSnoc(steps, p, limit);
    forall x ensures Budget(budget', x) == Spent(pairs + [p], x) { SpentSnoc(pairs, p, x); }
  }

  lemma TracksTurnedAway(seen: set<Pair>, budget: map<nat, nat>, pairs: seq<Pair>, overBudget: nat,
                         steps: seq<Pair>, limit: nat, p: Pair)
    requires Tracks(seen, budget, pairs, overBudget, steps, limit)
    ensures !HasBudget(pairs, p, limit) ==> Tracks(seen, budget, pairs, overBudget + 1, steps + [p], limit)
    ensures HasBudget(pairs, p, limit) && p in pairs ==> Tracks(seen, budget, pairs, overBudget, steps + [p], limit)
  {
    ScanSnoc(steps, p, limit);
  }

  /** One iteration of the pair loop. */
  method Iterate(left: nat, right: nat, limit: nat, ghost steps: seq<Pair>,
                 seen0: set<Pair>, budget0: map<nat, nat>, pairs0: seq<Pair>, overBudget0: nat)
    returns (seen: set<Pair>, budget: map<nat, nat>, pairs: seq<Pair>, overBudget: nat)
    requires Tracks(seen0, budget0, pairs0, overBudget0, steps, limit) && left < right
    ensures Tracks(seen, budget, pairs, overBudget, steps + [(left, right)], limit)
  {
    seen, budget, pairs, overBudget := seen0, budget0, pairs0, overBudget0;
    var spentLeft, spentRight := Budget(budget, left), Budget(budget, right);
    if spentLeft >= limit || spentRight >= limit {
      TracksTurnedAway(seen, budget, pairs, overBudget, steps, limit, (left, right));
      overBudget := overBudget + 1;
    } else if (left, right) in seen {
      TracksTurnedAway(seen, budget, pairs, overBudget, steps, limit, (left, right));
    } else {
      budget := budget[left := spentLeft + 1][right := spentRight + 1];
      TracksAdmitted(seen, budget0, pairs, overBudget, steps, limit, (left, right), budget);
      seen := seen + {(left, right)};
      pairs := pairs + [(left, right)];
    }
  }

  method ScanRow(bucket: seq<nat>, i: nat, limit: nat, ghost steps: seq<Pair>,
                 seen0: set<Pair>, budget0: map<nat, nat>, pairs0: seq<Pair>, overBudget0: nat)
    returns (seen: set<Pair>, budget: map<nat, nat>, pairs: seq<Pair>, overBudget: nat, iterations: nat)
    requires Tracks(seen0, budget0, pairs0, overBudget0, steps, limit)
    requires Ascending(bucket) && i < |bucket|
    ensures Tracks(seen, budget, pairs, overBudget, steps + RowPairs(bucket, i, |bucket|), limit)
    ensures iterations == |RowPairs(bucket, i, |bucket|)|
  {
    seen, budget, pairs, overBudget, iterations := seen0, budget0, pairs0, overBudget0, 0;
    assert steps + [] == steps;
    for j := i + 1 to |bucket|
      invariant Tracks(seen, budget, pairs, overBudget, steps + RowPairs(bucket, i, j), limit)
      invariant iterations == j - i - 1
    {
      ghost var done := steps + RowPairs(bucket, i, j);
      Associative(steps, RowPairs(bucket, i, j), [(bucket[i], bucket[j])]);
      seen, budget, pairs, overBudget := Iterate(bucket[i], bucket[j], limit, done, seen, budget, pairs, overBudget);
      iterations := iterations + 1;
    }
  }

  method ScanBlock(bucket: seq<nat>, limit: nat, ghost steps: seq<Pair>,
                   seen0: set<Pair>, budget0: map<nat, nat>, pairs0: seq<Pair>, overBudget0: nat)
    returns (seen: set<Pair>, budget: map<nat, nat>, pairs: seq<Pair>, overBudget: nat, iterations: nat)
    requires Tracks(seen0, budget0, pairs0, overBudget0, steps, limit)
    requires Ascending(bucket)
    ensures Tracks(seen, budget, pairs, overBudget, steps + BlockPairs(bucket), limit)
    ensures iterations == |BlockPairs(bucket)|
  {
    seen, budget, pairs, overBudget, iterations := seen0, budget0, pairs0, overBudget0, 0;
    assert steps + [] == steps;
    for i := 0 to |bucket|
      invariant Tracks(seen, budget, pairs, overBudget, steps + RowsPairs(bucket, i), limit)
      invariant iterations == |RowsPairs(bucket, i)|
    {
      Associative(steps, RowsPairs(bucket, i), RowPairs(bucket, i, |bucket|));
      var more;
      seen, budget, pairs, overBudget, more :=
        ScanRow(bucket, i, limit, steps + RowsPairs(bucket, i), seen, budget, pairs, overBudget);
      iterations := iterations + more;
    }
  }

  /** The scan: blocks in key order, a block over the bound skipped whole. */
  method ScanIndex(index: map<Text, seq<nat>>, keys: seq<Text>, ghost chosen: seq<seq<Text>>, rules: BlockingRules)
    returns (pairs: seq<Pair>, iterations: nat, bounds: nat)
    requires forall k :: 0 <= k < |keys| ==> keys[k] in index && index[keys[k]] == Bucket(chosen, keys[k])
    ensures var steps := StepsOf(chosen, keys, rules);
            var scan := ScanAll(steps, rules.maximumComparisonsPerItem);
            && pairs == scan.pairs
            && iterations == |steps|
            && bounds == SkippedBlocks(chosen, keys, rules) + scan.overBudget
  {
    var seen: set<Pair> := {};
    var budget: map<nat, nat> := map[];
    pairs := [];
    var skipped, overBudget := 0, 0;
    iterations := 0;
    ghost var steps: seq<Pair> := [];
    for k := 0 to |keys|
      invariant steps == StepsOf(chosen, keys[..k], rules)
      invariant Tracks(seen, budget, pairs, overBudget, steps, rules.maximumComparisonsPerItem)
      invariant iterations == |steps| && skipped == SkippedBlocks(chosen, keys[..k], rules)
    {
      assert keys[..k + 1][..k] == keys[..k];
      var bucket := index[keys[k]];
      if |bucket| < 2 {
        assert steps + [] == steps;
      } else if |bucket| > rules.maximumBlockSize {
        assert steps + [] == steps;
        skipped := skipped + 1;
      } else {
        BucketMembers(chosen, keys[k]);
        var more;
        seen, budget, pairs, overBudget, more :=
          ScanBlock(bucket, rules.maximumComparisonsPerItem, steps, seen, budget, pairs, overBudget);
        steps := steps + BlockPairs(bucket);
        iterations := iterations + more;
      }
    }
    assert keys[..|keys|] == keys;
    bounds := skipped + overBudget;
  }

  method CandidatePairs(items: seq<seq<Text>>, rules: BlockingRules, hash: Text -> int) returns (c: Candidates)
    requires ItemsValid(items)
    ensures c == CandidatesOf(items, rules, hash)
  {
    var index, order := BuildIndex(items, rules, hash);
    var keys := Sort(order, TextOrder());
    MultisetMembers(order, keys);
    assert forall k :: 0 <= k < |keys| ==> keys[k] in order;
    var pairs, iterations, bounds := ScanIndex(index, keys, ChosenKeys(items, rules, hash), rules);
    c := Candidates(pairs, |pairs|, iterations, bounds);
  }
}
