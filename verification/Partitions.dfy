/**
 * Partitions of `0..n`, each component named by its least index, and the equivalence closure they represent.
 * This is the meaning the union-find of `UnionFinds` is proved against.
 */
module Partitions {

  type Pair = (nat, nat)

  /** `root[i]` names the component of `i`: the least index in it. */
  ghost predicate IsPartition(root: seq<nat>) {
    forall i :: 0 <= i < |root| ==> root[i] <= i && root[root[i]] == root[i]
  }

  function Discrete(n: nat): (root: seq<nat>)
    ensures IsPartition(root)
    ensures |root| == n
  {
    seq(n, i => i)
  }

  function Min(a: nat, b: nat): nat { if a <= b then a else b }

  function Max(a: nat, b: nat): nat { if a <= b then b else a }

  /** The two components named, joined under the lower name. */
  function Join(root: seq<nat>, a: nat, b: nat): (r: seq<nat>)
    requires a < |root| && b < |root|
    ensures |r| == |root|
  {
    var lo, hi := Min(root[a], root[b]), Max(root[a], root[b]);
    seq(|root|, i requires 0 <= i < |root| => if root[i] == hi then lo else root[i])
  }

  lemma JoinKeepsPartition(root: seq<nat>, a: nat, b: nat)
    requires IsPartition(root) && a < |root| && b < |root|
    ensures IsPartition(Join(root, a, b))
    ensures root[a] == root[b] ==> Join(root, a, b) == root
  {}

  // ---------------------------------------------------------------- weights

  function WeightUpTo(root: seq<nat>, weights: seq<nat>, r: nat, n: nat): nat
    requires n <= |root| == |weights|
  {
    if n == 0 then 0
    else WeightUpTo(root, weights, r, n - 1) + if root[n - 1] == r then weights[n - 1] else 0
  }

  /** Total weight of the component named `r`. */
  function Weight(root: seq<nat>, weights: seq<nat>, r: nat): nat
    requires |root| == |weights|
  {
    WeightUpTo(root, weights, r, |root|)
  }

  lemma {:induction false} JoinWeightUpTo(root: seq<nat>, weights: seq<nat>, a: nat, b: nat, r: nat, n: nat)
    requires n <= |root| == |weights| && a < |root| && b < |root| && root[a] != root[b]
    ensures var lo, hi := Min(root[a], root[b]), Max(root[a], root[b]);
            WeightUpTo(Join(root, a, b), weights, r, n) ==
            if r == lo then WeightUpTo(root, weights, lo, n) + WeightUpTo(root, weights, hi, n)
            else if r == hi then 0
            else WeightUpTo(root, weights, r, n)
  {
    if n > 0 { JoinWeightUpTo(root, weights, a, b, r, n - 1); }
  }

  lemma JoinWeight(root: seq<nat>, weights: seq<nat>, a: nat, b: nat, r: nat)
    requires |root| == |weights| && a < |root| && b < |root| && root[a] != root[b]
    ensures var lo, hi := Min(root[a], root[b]), Max(root[a], root[b]);
            Weight(Join(root, a, b), weights, r) ==
            if r == lo then Weight(root, weights, lo) + Weight(root, weights, hi)
            else if r == hi then 0
            else Weight(root, weights, r)
  {
    JoinWeightUpTo(root, weights, a, b, r, |root|);
  }

  /** A component weighs at least what each of its members does. */
  lemma {:induction false} WeightOfMember(root: seq<nat>, weights: seq<nat>, i: nat, n: nat)
    requires i < n <= |root| == |weights|
    ensures WeightUpTo(root, weights, root[i], n) >= weights[i]
  {
    if i < n - 1 { WeightOfMember(root, weights, i, n - 1); }
  }

  /** And at least what two of them do together. */
  lemma {:induction false} WeightOfTwo(root: seq<nat>, weights: seq<nat>, i: nat, j: nat, n: nat)
    requires i < j < n <= |root| == |weights| && root[i] == root[j]
    ensures WeightUpTo(root, weights, root[i], n) >= weights[i] + weights[j]
  {
    if j < n - 1 { WeightOfTwo(root, weights, i, j, n - 1); } else { WeightOfMember(root, weights, i, n - 1); }
  }

  lemma {:induction false} DiscreteWeightUpTo(weights: seq<nat>, r: nat, n: nat)
    requires r < |weights| && n <= |weights|
    ensures WeightUpTo(Discrete(|weights|), weights, r, n) == if r < n then weights[r] else 0
  {
    if n > 0 { DiscreteWeightUpTo(weights, r, n - 1); }
  }

  // ---------------------------------------------------------------- closure

  predicate Adjacent<T(==)>(links: set<(T, T)>, x: T, y: T) {
    (x, y) in links || (y, x) in links
  }

  /** A walk over `links`, each taken in either direction. */
  ghost predicate Chain<T>(links: set<(T, T)>, p: seq<T>) {
    |p| > 0 && forall k :: 0 <= k < |p| - 1 ==> Adjacent(links, p[k], p[k + 1])
  }

  ghost predicate ChainFrom<T>(links: set<(T, T)>, p: seq<T>, x: T, y: T) {
    Chain(links, p) && p[0] == x && p[|p| - 1] == y
  }

  /** `x` and `y` are related by the equivalence closure of `links`. */
  ghost predicate Linked<T(!new)>(links: set<(T, T)>, x: T, y: T) {
    exists p :: ChainFrom(links, p, x, y)
  }

  lemma LinkedReflexive<T(!new)>(links: set<(T, T)>, x: T)
    ensures Linked(links, x, x)
  {
    assert ChainFrom(links, [x], x, x);
  }

  lemma LinkedStep<T(!new)>(links: set<(T, T)>, x: T, y: T)
    requires Adjacent(links, x, y)
    ensures Linked(links, x, y)
  {
    assert ChainFrom(links, [x, y], x, y);
  }

  lemma LinkedTransitive<T(!new)>(links: set<(T, T)>, x: T, y: T, z: T)
    requires Linked(links, x, y) && Linked(links, y, z)
    ensures Linked(links, x, z)
  {
    var p :| ChainFrom(links, p, x, y);
    var q :| ChainFrom(links, q, y, z);
    var r := p + q[1..];
    forall k | 0 <= k < |r| - 1 ensures Adjacent(links, r[k], r[k + 1]) {
      if k < |p| - 1 {
        assert Adjacent(links, p[k], p[k + 1]);
      } else {
        assert Adjacent(links, q[k - |p| + 1], q[k - |p| + 2]);
        assert r[k] == q[k - |p| + 1];
      }
    }
    assert ChainFrom(links, r, x, z);
  }

  lemma LinkedMonotone<T(!new)>(links: set<(T, T)>, more: set<(T, T)>, x: T, y: T)
    requires links <= more && Linked(links, x, y)
    ensures Linked(more, x, y)
  {
    var p :| ChainFrom(links, p, x, y);
    forall k | 0 <= k < |p| - 1 ensures Adjacent(more, p[k], p[k + 1]) {
      assert Adjacent(links, p[k], p[k + 1]);
    }
    assert ChainFrom(more, p, x, y);
  }

  // ------------------------------------------- what a sequence of joins represents

  ghost predicate Within(pairs: seq<Pair>, n: nat) {
    forall k :: 0 <= k < |pairs| ==> pairs[k].0 < n && pairs[k].1 < n
  }

  function PairSet(pairs: seq<Pair>): set<Pair> {
    set k | 0 <= k < |pairs| :: pairs[k]
  }

  /** The partition after joining every pair in turn, from all singletons. */
  function JoinAll(n: nat, pairs: seq<Pair>): (root: seq<nat>)
    requires Within(pairs, n)
    ensures |root| == n && IsPartition(root)
  {
    if pairs == [] then Discrete(n)
    else
      var last := pairs[|pairs| - 1];
      var before := JoinAll(n, pairs[..|pairs| - 1]);
      JoinKeepsPartition(before, last.0, last.1);
      Join(before, last.0, last.1)
  }

  lemma PairSetSnoc(pairs: seq<Pair>, p: Pair)
    ensures PairSet(pairs + [p]) == PairSet(pairs) + {p}
  {
    forall x ensures x in PairSet(pairs + [p]) <==> x in PairSet(pairs) + {p} {
      if x in PairSet(pairs) {
        var k :| 0 <= k < |pairs| && pairs[k] == x;
        assert (pairs + [p])[k] == x;
      }
      if x == p { assert (pairs + [p])[|pairs|] == x; }
    }
  }

  /** A partition that keeps every link inside one component keeps every chain there too. */
  lemma {:induction false} ChainStaysInside(root: seq<nat>, links: set<Pair>, p: seq<nat>)
    requires Chain(links, p) && forall k :: 0 <= k < |p| ==> p[k] < |root|
    requires forall l :: l in links ==> l.0 < |root| && l.1 < |root| && root[l.0] == root[l.1]
    ensures root[p[0]] == root[p[|p| - 1]]
  {
    if |p| > 1 {
      var q := p[1..];
      assert Chain(links, q) by {
        forall k | 0 <= k < |q| - 1 ensures Adjacent(links, q[k], q[k + 1]) {
          assert Adjacent(links, p[k + 1], p[k + 1 + 1]);
        }
      }
      ChainStaysInside(root, links, q);
      assert Adjacent(links, p[0], p[0 + 1]);
    }
  }

  lemma {:induction false} ChainWithin(links: set<Pair>, p: seq<nat>, n: nat)
    requires Chain(links, p) && p[0] < n
    requires forall l :: l in links ==> l.0 < n && l.1 < n
    ensures forall k :: 0 <= k < |p| ==> p[k] < n
  {
    forall k | 0 <= k < |p| ensures p[k] < n {
      if k > 0 { assert Adjacent(links, p[k - 1], p[k - 1 + 1]); }
    }
  }

  /** Everything joined is in one component afterwards. */
  lemma {:induction false} JoinedTogether(n: nat, pairs: seq<Pair>)
    requires Within(pairs, n)
    ensures forall k :: 0 <= k < |pairs| ==> JoinAll(n, pairs)[pairs[k].0] == JoinAll(n, pairs)[pairs[k].1]
  {
    if pairs != [] {
      var init := pairs[..|pairs| - 1];
      JoinedTogether(n, init);
      forall k | 0 <= k < |pairs| ensures JoinAll(n, pairs)[pairs[k].0] == JoinAll(n, pairs)[pairs[k].1] {
        if k < |init| { assert init[k] == pairs[k]; }
      }
    }
  }

  /** Nothing else is: two members of a component are joined by a chain of the pairs. */
  lemma {:induction false} OnlyJoinedTogether(n: nat, pairs: seq<Pair>, i: nat, j: nat)
    requires Within(pairs, n) && i < n && j < n
    requires JoinAll(n, pairs)[i] == JoinAll(n, pairs)[j]
    ensures Linked(PairSet(pairs), i, j)
  {
    if pairs == [] {
      LinkedReflexive(PairSet(pairs), i);
    } else {
      var init, last := pairs[..|pairs| - 1], pairs[|pairs| - 1];
      var before := JoinAll(n, init);
      assert pairs == init + [last];
      PairSetSnoc(init, last);
      var links := PairSet(pairs);
      assert last in links;
      if before[i] == before[j] {
        OnlyJoinedTogether(n, init, i, j);
        LinkedMonotone(PairSet(init), links, i, j);
      } else {
        var (a: nat, b: nat) := if before[i] == before[last.0] then last else (last.1, last.0);
        OnlyJoinedTogether(n, init, i, a);
        OnlyJoinedTogether(n, init, b, j);
        LinkedMonotone(PairSet(init), links, i, a);
        LinkedMonotone(PairSet(init), links, b, j);
        LinkedStep(links, a, b);
        LinkedTransitive(links, i, a, b);
        LinkedTransitive(links, i, b, j);
      }
    }
  }

  lemma LinkedTogether(root: seq<nat>, links: set<Pair>, i: nat, j: nat)
    requires forall l :: l in links ==> l.0 < |root| && l.1 < |root| && root[l.0] == root[l.1]
    requires i < |root| && j < |root| && Linked(links, i, j)
    ensures root[i] == root[j]
  {
    var p :| ChainFrom(links, p, i, j);
    ChainWithin(links, p, |root|);
    ChainStaysInside(root, links, p);
  }

  /** Main result: a sequence of joins represents exactly the equivalence closure of its pairs, each component
      named by its least member. */
  lemma JoinAllIsClosure(n: nat, pairs: seq<Pair>, i: nat, j: nat)
    requires Within(pairs, n) && i < n && j < n
    ensures JoinAll(n, pairs)[i] == JoinAll(n, pairs)[j] <==> Linked(PairSet(pairs), i, j)
    ensures Linked(PairSet(pairs), i, j) ==> JoinAll(n, pairs)[i] <= j
    ensures Linked(PairSet(pairs), i, JoinAll(n, pairs)[i])
  {
    var root := JoinAll(n, pairs);
    JoinedTogether(n, pairs);
    if root[i] == root[j] { OnlyJoinedTogether(n, pairs, i, j); }
    if Linked(PairSet(pairs), i, j) { LinkedTogether(root, PairSet(pairs), i, j); }
    OnlyJoinedTogether(n, pairs, i, root[i]);
  }

  /** The order the unions were made in does not matter, and neither does making one twice or the other way round. */
  lemma JoinOrderIrrelevant(n: nat, first: seq<Pair>, second: seq<Pair>)
    requires Within(first, n) && Within(second, n)
    requires forall i, j :: Adjacent(PairSet(first), i, j) <==> Adjacent(PairSet(second), i, j)
    ensures JoinAll(n, first) == JoinAll(n, second)
  {
    var f, s := JoinAll(n, first), JoinAll(n, second);
    forall i | 0 <= i < n ensures f[i] == s[i] {
      JoinAllIsClosure(n, first, i, f[i]);
      JoinAllIsClosure(n, second, i, s[i]);
      SameChains(PairSet(first), PairSet(second), i, f[i]);
      SameChains(PairSet(second), PairSet(first), i, s[i]);
      JoinAllIsClosure(n, second, i, f[i]);
      JoinAllIsClosure(n, first, i, s[i]);
    }
  }

  lemma SameChains(links: set<Pair>, others: set<Pair>, i: nat, j: nat)
    requires forall x, y :: Adjacent(links, x, y) <==> Adjacent(others, x, y)
    requires Linked(links, i, j)
    ensures Linked(others, i, j)
  {
    var p :| ChainFrom(links, p, i, j);
    assert ChainFrom(others, p, i, j);
  }
}
