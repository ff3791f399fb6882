/**
 * Merging under a size bound: the supported pairs of one stage, taken in order, each joined unless the two
 * components it would join are together over the bound. Both the syndication and the incident stage do this.
 */
module Merging {
  import opened Partitions
  import opened UnionFinds

  /** One union that joined two different components, with the root it left them under. */
  datatype Union = Union(left: nat, right: nat, root: nat)

  /** `refused` holds the nodes whose merge the bound refused; `refusals` counts the refusals. */
  datatype Merge = Merge(root: seq<nat>, unions: seq<Union>, refused: set<nat>, refusals: nat)

  function Start(n: nat): Merge {
    Merge(Discrete(n), [], {}, 0)
  }

  function MergeOne(m: Merge, weights: seq<nat>, maximum: nat, pair: Pair): (r: Merge)
    requires |m.root| == |weights| && pair.0 < |weights| && pair.1 < |weights|
    ensures |r.root| == |weights|
  {
    if !MayJoin(m.root, weights, pair.0, pair.1, maximum) then
      m.(refused := m.refused + {pair.0, pair.1}, refusals := m.refusals + 1)
    else if m.root[pair.0] == m.root[pair.1] then m
    else
      var root := Join(m.root, pair.0, pair.1);
      m.(root := root, unions := m.unions + [Union(pair.0, pair.1, root[pair.0])])
  }

  function MergeAll(weights: seq<nat>, maximum: nat, pairs: seq<Pair>): (m: Merge)
    requires Within(pairs, |weights|)
    ensures |m.root| == |weights|
  {
    if pairs == [] then Start(|weights|)
    else MergeOne(MergeAll(weights, maximum, pairs[..|pairs| - 1]), weights, maximum, pairs[|pairs| - 1])
  }

  function UnionPairs(unions: seq<Union>): (pairs: seq<Pair>)
    ensures |pairs| == |unions|
  {
    seq(|unions|, k requires 0 <= k < |unions| => (unions[k].left, unions[k].right))
  }

  /** The partition is the one the recorded unions make, and every union came from a supported pair. */
  lemma {:induction false} MergeIsJoinOfUnions(weights: seq<nat>, maximum: nat, pairs: seq<Pair>)
    requires Within(pairs, |weights|)
    ensures var m := MergeAll(weights, maximum, pairs);
            && Within(UnionPairs(m.unions), |weights|)
            && m.root == JoinAll(|weights|, UnionPairs(m.unions))
            && PairSet(UnionPairs(m.unions)) <= PairSet(pairs)
  {
    if pairs == [] {
    } else {
      var init, last := pairs[..|pairs| - 1], pairs[|pairs| - 1];
      MergeIsJoinOfUnions(weights, maximum, init);
      var before, m := MergeAll(weights, maximum, init), MergeAll(weights, maximum, pairs);
      assert pairs == init + [last];
      PairSetSnoc(init, last);
      if m.unions != before.unions { OneMoreUnion(|weights|, before, m, last); }
    }
  }

  lemma OneMoreUnion(n: nat, before: Merge, m: Merge, last: Pair)
    requires Within(UnionPairs(before.unions), n) && last.0 < n && last.1 < n
    requires before.root == JoinAll(n, UnionPairs(before.unions))
    requires |m.unions| == |before.unions| + 1 && m.unions[..|before.unions|] == before.unions
    requires (m.unions[|before.unions|].left, m.unions[|before.unions|].right) == last
    requires m.root == Join(before.root, last.0, last.1)
    ensures Within(UnionPairs(m.unions), n) && m.root == JoinAll(n, UnionPairs(m.unions))
    ensures PairSet(UnionPairs(m.unions)) == PairSet(UnionPairs(before.unions)) + {last}
  {
    var pairs := UnionPairs(before.unions);
    forall k | 0 <= k < |pairs| ensures UnionPairs(m.unions)[k] == pairs[k] {
      assert m.unions[..|before.unions|][k] == m.unions[k];
    }
    assert UnionPairs(m.unions) == pairs + [last];
    PairSetSnoc(pairs, last);
    assert (pairs + [last])[..|pairs|] == pairs;
  }

  /** A component heavier than the bound is a single node: no merge ever produced it. */
  ghost predicate Bounded(root: seq<nat>, weights: seq<nat>, maximum: nat)
    requires |root| == |weights|
  {
    forall r :: 0 <= r < |root| && Weight(root, weights, r) > maximum ==>
      forall j :: 0 <= j < |root| && root[j] == r ==> j == r
  }

  lemma {:induction false} MergeStaysBounded(weights: seq<nat>, maximum: nat, pairs: seq<Pair>)
    requires Within(pairs, |weights|)
    ensures Bounded(MergeAll(weights, maximum, pairs).root, weights, maximum)
  {
    if pairs != [] {
      var init, last := pairs[..|pairs| - 1], pairs[|pairs| - 1];
      MergeStaysBounded(weights, maximum, init);
      var before, m := MergeAll(weights, maximum, init), MergeAll(weights, maximum, pairs);
      if m.root != before.root {
        forall r, j | 0 <= r < |m.root| && Weight(m.root, weights, r) > maximum && 0 <= j < |m.root| && m.root[j] == r
          ensures j == r
        {
          JoinWeight(before.root, weights, last.0, last.1, r);
        }
      }
    }
  }

  /** A supported pair ends in one component, or both of its nodes are marked as refused. */
  lemma {:induction false} NoHiddenRefusal(weights: seq<nat>, maximum: nat, pairs: seq<Pair>, k: nat)
    requires Within(pairs, |weights|) && k < |pairs|
    ensures var m := MergeAll(weights, maximum, pairs);
            m.root[pairs[k].0] == m.root[pairs[k].1] || (pairs[k].0 in m.refused && pairs[k].1 in m.refused)
  {
    var init := pairs[..|pairs| - 1];
    if k < |init| {
      assert init[k] == pairs[k];
      NoHiddenRefusal(weights, maximum, init, k);
    }
  }

  /** What the bound forbids to join it still forbids after any other join that leaves the two apart. */
  lemma JoinKeepsForbidden(root: seq<nat>, weights: seq<nat>, a: nat, b: nat, x: nat, y: nat, maximum: nat)
    requires |root| == |weights| && a < |root| && b < |root| && x < |root| && y < |root|
    requires !MayJoin(root, weights, a, b, maximum)
    ensures var next := Join(root, x, y);
            next[a] == next[b] || !MayJoin(next, weights, a, b, maximum)
  {
    if root[x] != root[y] {
      var next := Join(root, x, y);
      JoinWeight(root, weights, x, y, next[a]);
      JoinWeight(root, weights, x, y, next[b]);
    } else {
      assert Join(root, x, y) == root;
    }
  }

  /** The bound is the only reason: a supported pair ends in one component, or in two that are together over it. */
  lemma {:induction false} ApartOnlyByTheBound(weights: seq<nat>, maximum: nat, pairs: seq<Pair>, k: nat)
    requires Within(pairs, |weights|) && k < |pairs|
    ensures var m := MergeAll(weights, maximum, pairs);
            m.root[pairs[k].0] == m.root[pairs[k].1] || !MayJoin(m.root, weights, pairs[k].0, pairs[k].1, maximum)
  {
    var init, last := pairs[..|pairs| - 1], pairs[|pairs| - 1];
    var before := MergeAll(weights, maximum, init);
    if k < |init| {
      assert init[k] == pairs[k];
      ApartOnlyByTheBound(weights, maximum, init, k);
      if before.root[pairs[k].0] != before.root[pairs[k].1] {
        JoinKeepsForbidden(before.root, weights, pairs[k].0, pairs[k].1, last.0, last.1, maximum);
      }
    }
  }

  /** A join the bound allows cannot bring together what it forbids. */
  lemma JoinKeepsApart(root: seq<nat>, weights: seq<nat>, a: nat, b: nat, x: nat, y: nat, maximum: nat)
    requires |root| == |weights| && a < |root| && b < |root| && x < |root| && y < |root|
    requires !MayJoin(root, weights, a, b, maximum) && MayJoin(root, weights, x, y, maximum)
    ensures !MayJoin(Join(root, x, y), weights, a, b, maximum)
  {
    JoinKeepsForbidden(root, weights, a, b, x, y, maximum);
  }

  /** The pair at `k` has `x` on one side, and the bound forbids to join the two. */
  ghost predicate Forbids(root: seq<nat>, weights: seq<nat>, maximum: nat, pairs: seq<Pair>, k: nat, x: nat)
    requires |root| == |weights| && Within(pairs, |weights|) && k < |pairs|
  {
    (pairs[k].0 == x || pairs[k].1 == x) && !MayJoin(root, weights, pairs[k].0, pairs[k].1, maximum)
  }

  lemma MergeKeepsForbidden(weights: seq<nat>, maximum: nat, before: Merge, p: Pair, a: nat, b: nat)
    requires |before.root| == |weights| && p.0 < |weights| && p.1 < |weights| && a < |weights| && b < |weights|
    requires !MayJoin(before.root, weights, a, b, maximum)
    ensures !MayJoin(MergeOne(before, weights, maximum, p).root, weights, a, b, maximum)
  {
    if MayJoin(before.root, weights, p.0, p.1, maximum) {
      JoinKeepsApart(before.root, weights, a, b, p.0, p.1, maximum);
    }
  }

  /** A refusal is for good: a marked node has a supported pair whose two sides end in components that are together
      over the bound. */
  lemma {:induction false} RefusedStaysApart(weights: seq<nat>, maximum: nat, pairs: seq<Pair>, x: nat) returns (k: nat)
    requires Within(pairs, |weights|) && x in MergeAll(weights, maximum, pairs).refused
    ensures k < |pairs| && Forbids(MergeAll(weights, maximum, pairs).root, weights, maximum, pairs, k, x)
  {
    var init, last := pairs[..|pairs| - 1], pairs[|pairs| - 1];
    var before := MergeAll(weights, maximum, init);
    if x in before.refused {
      k := RefusedStaysApart(weights, maximum, init, x);
      assert init[k] == pairs[k];
      MergeKeepsForbidden(weights, maximum, before, last, pairs[k].0, pairs[k].1);
    } else {
      k := |pairs| - 1;
    }
  }

  /** A node is marked only for a supported pair it belongs to, and marks and count go together. */
  lemma {:induction false} RefusalsAreSupported(weights: seq<nat>, maximum: nat, pairs: seq<Pair>)
    requires Within(pairs, |weights|)
    ensures var m := MergeAll(weights, maximum, pairs);
            && (m.refusals == 0 <==> m.refused == {})
            && m.refusals <= |pairs|
            && forall x :: x in m.refused ==> exists k :: 0 <= k < |pairs| && (pairs[k].0 == x || pairs[k].1 == x)
  {
    if pairs != [] {
      var init, last := pairs[..|pairs| - 1], pairs[|pairs| - 1];
      RefusalsAreSupported(weights, maximum, init);
      var before, m := MergeAll(weights, maximum, init), MergeAll(weights, maximum, pairs);
      if m.refused != before.refused { assert last.0 in m.refused; }
      forall x | x in m.refused ensures exists k :: 0 <= k < |pairs| && (pairs[k].0 == x || pairs[k].1 == x) {
        if x in before.refused {
          var k :| 0 <= k < |init| && (init[k].0 == x || init[k].1 == x);
          assert pairs[k] == init[k];
        } else {
          assert pairs[|pairs| - 1].0 == x || pairs[|pairs| - 1].1 == x;
        }
      }
    }
  }

  /** Soundness: two nodes share a component only through a chain of supported pairs. */
  lemma MergedOnlyBySupport(weights: seq<nat>, maximum: nat, pairs: seq<Pair>, i: nat, j: nat)
    requires Within(pairs, |weights|) && i < |weights| && j < |weights|
    requires var m := MergeAll(weights, maximum, pairs); m.root[i] == m.root[j]
    ensures Linked(PairSet(pairs), i, j)
  {
    MergeIsJoinOfUnions(weights, maximum, pairs);
    var unions := UnionPairs(MergeAll(weights, maximum, pairs).unions);
    OnlyJoinedTogether(|weights|, unions, i, j);
    LinkedMonotone(PairSet(unions), PairSet(pairs), i, j);
  }

  /** With no refusal the components are exactly the equivalence closure of the supported pairs. */
  lemma UnrefusedMergeIsClosure(weights: seq<nat>, maximum: nat, pairs: seq<Pair>, i: nat, j: nat)
    requires Within(pairs, |weights|) && i < |weights| && j < |weights|
    requires MergeAll(weights, maximum, pairs).refusals == 0
    ensures var m := MergeAll(weights, maximum, pairs); m.root[i] == m.root[j] <==> Linked(PairSet(pairs), i, j)
  {
    var m := MergeAll(weights, maximum, pairs);
    RefusalsAreSupported(weights, maximum, pairs);
    if m.root[i] == m.root[j] { MergedOnlyBySupport(weights, maximum, pairs, i, j); }
    forall l | l in PairSet(pairs) ensures l.0 < |m.root| && l.1 < |m.root| && m.root[l.0] == m.root[l.1] {
      var k :| 0 <= k < |pairs| && pairs[k] == l;
      NoHiddenRefusal(weights, maximum, pairs, k);
    }
    if Linked(PairSet(pairs), i, j) { LinkedTogether(m.root, PairSet(pairs), i, j); }
  }

  /** A union of two linked nodes of one component, recorded under a node of that component. */
  ghost predicate Inside(u: Union, root: seq<nat>, links: set<Pair>) {
    && u.left < |root| && u.right < |root| && u.root < |root|
    && root[u.left] == root[u.right] == root[u.root]
    && (u.left, u.right) in links
  }

  lemma JoinKeepsInside(u: Union, root: seq<nat>, links: set<Pair>, p: Pair)
    requires Inside(u, root, links) && p.0 < |root| && p.1 < |root|
    ensures Inside(u, Join(root, p.0, p.1), links + {p})
  {}

  lemma JoinIsInside(root: seq<nat>, links: set<Pair>, p: Pair)
    requires IsPartition(root) && p.0 < |root| && p.1 < |root|
    ensures Inside(Union(p.0, p.1, Join(root, p.0, p.1)[p.0]), Join(root, p.0, p.1), links + {p})
  {}

  /** Every union stays inside the component it made, under whatever root that component has in the end. */
  lemma {:induction false} UnionsStayInside(weights: seq<nat>, maximum: nat, pairs: seq<Pair>)
    requires Within(pairs, |weights|)
    ensures var m := MergeAll(weights, maximum, pairs);
            && IsPartition(m.root)
            && forall u :: u in m.unions ==> Inside(u, m.root, PairSet(pairs))
  {
    if pairs != [] {
      var init, last := pairs[..|pairs| - 1], pairs[|pairs| - 1];
      UnionsStayInside(weights, maximum, init);
      assert pairs == init + [last];
      PairSetSnoc(init, last);
      var before, m := MergeAll(weights, maximum, init), MergeAll(weights, maximum, pairs);
      JoinKeepsPartition(before.root, last.0, last.1);
      if m.unions != before.unions {
        JoinIsInside(before.root, PairSet(init), last);
        forall u | u in before.unions ensures Inside(u, m.root, PairSet(pairs)) {
          JoinKeepsInside(u, before.root, PairSet(init), last);
        }
      }
    }
  }

  /** The last union of a component is recorded under its final root: no joined component is without a record. */
  lemma {:induction false} JoinedComponentIsRecorded(weights: seq<nat>, maximum: nat, pairs: seq<Pair>, i: nat)
    requires Within(pairs, |weights|) && i < |weights|
    requires MergeAll(weights, maximum, pairs).root[i] != i
    ensures var m := MergeAll(weights, maximum, pairs); exists u :: u in m.unions && u.root == m.root[i]
  {
    var init, last := pairs[..|pairs| - 1], pairs[|pairs| - 1];
    var before, m := MergeAll(weights, maximum, init), MergeAll(weights, maximum, pairs);
    UnionsStayInside(weights, maximum, init);
    if m.root[i] == before.root[i] {
      JoinedComponentIsRecorded(weights, maximum, init, i);
      var u :| u in before.unions && u.root == m.root[i];
      assert u in m.unions;
    } else {
      var u := m.unions[|m.unions| - 1];
      assert u in m.unions && u.root == m.root[i];
    }
  }

  /** The root a union is recorded under is the one its component had just after it. */
  lemma {:induction false} RecordedRoot(weights: seq<nat>, maximum: nat, pairs: seq<Pair>, i: nat)
    requires Within(pairs, |weights|) && i < |MergeAll(weights, maximum, pairs).unions|
    ensures var unions := MergeAll(weights, maximum, pairs).unions;
            && Within(UnionPairs(unions[..i + 1]), |weights|)
            && unions[i].left < |weights|
            && unions[i].root == JoinAll(|weights|, UnionPairs(unions[..i + 1]))[unions[i].left]
  {
    var init := pairs[..|pairs| - 1];
    var before, m := MergeAll(weights, maximum, init), MergeAll(weights, maximum, pairs);
    if i < |before.unions| {
      RecordedRoot(weights, maximum, init, i);
      assert m.unions[..i + 1] == before.unions[..i + 1];
    } else {
      MergeIsJoinOfUnions(weights, maximum, pairs);
      assert m.unions[..i + 1] == m.unions;
    }
  }

  /** A union is recorded under the final root exactly when, by then, the least node of the final component had been
      joined in. */
  lemma RecordedUnderFinalRoot(weights: seq<nat>, maximum: nat, pairs: seq<Pair>, i: nat, final: nat)
    requires Within(pairs, |weights|) && i < |MergeAll(weights, maximum, pairs).unions|
    requires final < |weights| && MergeAll(weights, maximum, pairs).root[final] == final
    ensures var unions := MergeAll(weights, maximum, pairs).unions;
            unions[i].root == final <==> Linked(PairSet(UnionPairs(unions[..i + 1])), unions[i].left, final)
  {
    var m := MergeAll(weights, maximum, pairs);
    var u, some := m.unions[i], UnionPairs(m.unions[..i + 1]);
    RecordedRoot(weights, maximum, pairs, i);
    var root := JoinAll(|weights|, some);
    JoinAllIsClosure(|weights|, some, u.left, final);
    JoinAllIsClosure(|weights|, some, final, final);
    if Linked(PairSet(some), u.left, final) {
      MergeIsJoinOfUnions(weights, maximum, pairs);
      var all := UnionPairs(m.unions);
      forall p | p in PairSet(some) ensures p in PairSet(all) {
        var k :| 0 <= k < |some| && some[k] == p;
        assert all[k] == p;
      }
      LinkedMonotone(PairSet(some), PairSet(all), final, root[final]);
      JoinAllIsClosure(|weights|, all, final, root[final]);
      assert root[final] == final;
    }
  }

  /**
   * The record is not complete: a component can hold a union recorded under a root it no longer has. Here nodes 1
   * and 2 are united first, under root 1, and node 0 then takes the root, so the first union is lost to a reader of
   * the final root.
   */
  lemma RecordUnderOldRootIsLost()
    ensures var m := MergeAll([1, 1, 1], 3, [(1, 2), (0, 1)]);
            && m.root == [0, 0, 0]
            && m.unions == [Union(1, 2, 1), Union(0, 1, 0)]
  {
    var w := [1, 1, 1];
    var start := Start(3);
    var p: seq<Pair> := [(1, 2), (0, 1)];
    assert start.root == [0, 1, 2];
    assert p[..1] == [(1, 2)] && p[..1][..0] == [];
    var first := MergeAll(w, 3, p[..1]);
    assert MergeAll(w, 3, p[..1][..0]) == start;
    assert Weight(start.root, w, 1) == 1 && Weight(start.root, w, 2) == 1 by {
      DiscreteWeightUpTo(w, 1, 3);
      DiscreteWeightUpTo(w, 2, 3);
      assert start.root == Discrete(3);
    }
    assert first.root == [0, 1, 1];
    assert WeightUpTo(first.root, w, 0, 1) == 1 && WeightUpTo(first.root, w, 1, 1) == 0;
    assert WeightUpTo(first.root, w, 0, 2) == 1 && WeightUpTo(first.root, w, 1, 2) == 1;
    assert Weight(first.root, w, 0) == 1 && Weight(first.root, w, 1) == 2;
    assert MergeAll(w, 3, p).root == [0, 0, 0];
  }
}
