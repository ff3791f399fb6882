/** Flattening and gathering: concatenating the blocks of a sequence, all of them or those an index list names. */
module Sequences {

  function Flatten<T>(s: seq<seq<T>>): seq<T> {
    if s == [] then [] else Flatten(s[..|s| - 1]) + s[|s| - 1]
  }

  ghost predicate IndexesInto(idx: seq<nat>, n: nat) {
    forall k :: 0 <= k < |idx| ==> idx[k] < n
  }

  /** The blocks named by `idx`, concatenated. */
  function Gather<T>(blocks: seq<seq<T>>, idx: seq<nat>): seq<T>
    requires IndexesInto(idx, |blocks|)
  {
    if idx == [] then []
    else
      assert IndexesInto(idx[..|idx| - 1], |blocks|);
      Gather(blocks, idx[..|idx| - 1]) + blocks[idx[|idx| - 1]]
  }

  /** `slice(0, n)`. */
  function Take<T>(s: seq<T>, n: nat): (r: seq<T>)
    ensures |r| <= n && r <= s
  {
    if n <= |s| then s[..n] else s
  }

  function Range(n: nat): (r: seq<nat>)
    ensures |r| == n && forall i :: 0 <= i < n ==> r[i] == i
  {
    seq(n, i => i)
  }

  lemma Associative<T>(a: seq<T>, b: seq<T>, c: seq<T>)
    ensures a + (b + c) == a + b + c
  {}

  lemma HeadAndTail<T>(s: seq<T>)
    requires s != []
    ensures s == [s[0]] + s[1..]
    ensures |s| == 1 ==> s == [s[0]]
  {}

  lemma InitAndLast<T>(s: seq<T>)
    requires s != []
    ensures s == s[..|s| - 1] + [s[|s| - 1]]
  {}

  lemma InConcat<T>(a: seq<T>, b: seq<T>, x: T)
    ensures x in a + b <==> x in a || x in b
  {}

  lemma TakeOneMore<T>(s: seq<T>, k: nat)
    requires k < |s|
    ensures s[..k + 1] == s[..k] + [s[k]] && s[..k + 1][..k] == s[..k]
  {}

  lemma {:induction false} FlattenMembers<T(!new)>(s: seq<seq<T>>, x: T)
    ensures x in Flatten(s) <==> exists i :: 0 <= i < |s| && x in s[i]
  {
    if s != [] { FlattenMembers(s[..|s| - 1], x); }
  }

  lemma {:induction false} GatherMembers<T(!new)>(blocks: seq<seq<T>>, idx: seq<nat>, x: T)
    requires IndexesInto(idx, |blocks|)
    ensures x in Gather(blocks, idx) <==> exists k :: 0 <= k < |idx| && x in blocks[idx[k]]
  {
    if idx != [] {
      assert IndexesInto(idx[..|idx| - 1], |blocks|);
      GatherMembers(blocks, idx[..|idx| - 1], x);
    }
  }

  lemma {:induction false} GatherConcat<T>(blocks: seq<seq<T>>, a: seq<nat>, b: seq<nat>)
    requires IndexesInto(a, |blocks|) && IndexesInto(b, |blocks|)
    ensures IndexesInto(a + b, |blocks|)
    ensures Gather(blocks, a + b) == Gather(blocks, a) + Gather(blocks, b)
  {
    if b == [] {
      assert a + b == a;
    } else {
      var init, last := b[..|b| - 1], blocks[b[|b| - 1]];
      assert IndexesInto(init, |blocks|);
      GatherConcat(blocks, a, init);
      var all := a + b;
      assert all[..|all| - 1] == a + init && all[|all| - 1] == b[|b| - 1];
      assert Gather(blocks, all) == Gather(blocks, a + init) + last;
      assert Gather(blocks, b) == Gather(blocks, init) + last;
      Associative(Gather(blocks, a), Gather(blocks, init), last);
    }
  }

  lemma {:induction false} GatherRange<T>(blocks: seq<seq<T>>, n: nat)
    requires n <= |blocks|
    ensures IndexesInto(Range(n), |blocks|)
    ensures Gather(blocks, Range(n)) == Flatten(blocks[..n])
  {
    if n > 0 {
      GatherRange(blocks, n - 1);
      assert Range(n)[..n - 1] == Range(n - 1);
      assert blocks[..n][..n - 1] == blocks[..n - 1];
    }
  }

  lemma GatherOne<T>(blocks: seq<seq<T>>, x: nat)
    requires x < |blocks|
    ensures Gather(blocks, [x]) == blocks[x]
  {
    assert [x][..0] == [];
  }

  lemma MultisetOfThree<T>(a: seq<T>, b: seq<T>, c: seq<T>)
    ensures multiset(a + b + c) == multiset(a + c) + multiset(b)
  {}

  lemma GatherAround<T>(blocks: seq<seq<T>>, l: seq<nat>, x: nat, r: seq<nat>)
    requires IndexesInto(l, |blocks|) && IndexesInto(r, |blocks|) && x < |blocks|
    ensures IndexesInto(l + [x] + r, |blocks|) && IndexesInto(l + r, |blocks|)
    ensures multiset(Gather(blocks, l + [x] + r)) == multiset(Gather(blocks, l + r)) + multiset(blocks[x])
  {
    GatherOne(blocks, x);
    GatherConcat(blocks, l, r);
    GatherConcat(blocks, l, [x]);
    GatherConcat(blocks, l + [x], r);
    var before, after := Gather(blocks, l), Gather(blocks, r);
    assert Gather(blocks, l + [x] + r) == before + blocks[x] + after;
    assert Gather(blocks, l + r) == before + after;
    MultisetOfThree(before, blocks[x], after);
  }

  lemma WithoutLast(a: seq<nat>)
    requires a != []
    ensures multiset(a[..|a| - 1]) == multiset(a) - multiset{a[|a| - 1]}
  {
    var init, x := a[..|a| - 1], a[|a| - 1];
    assert a == init + [x];
    assert multiset(a) == multiset(init) + multiset{x};
  }

  lemma WithoutAt(b: seq<nat>, k: nat)
    requires k < |b|
    ensures b == b[..k] + [b[k]] + b[k + 1..]
    ensures multiset(b[..k] + b[k + 1..]) == multiset(b) - multiset{b[k]}
  {
    assert b == b[..k] + [b[k]] + b[k + 1..];
    MultisetOfThree(b[..k], [b[k]], b[k + 1..]);
  }

  /** The last index of one list taken out of another that holds the same indexes. */
  lemma TakeOut(a: seq<nat>, b: seq<nat>, n: nat) returns (l: seq<nat>, r: seq<nat>)
    requires a != [] && multiset(a) == multiset(b) && IndexesInto(b, n)
    ensures b == l + [a[|a| - 1]] + r && multiset(a[..|a| - 1]) == multiset(l + r)
    ensures IndexesInto(l, n) && IndexesInto(r, n) && IndexesInto(l + r, n)
  {
    var x := a[|a| - 1];
    assert x in multiset(b) by { assert x in a && x in multiset(a); }
    var k :| 0 <= k < |b| && b[k] == x;
    l, r := b[..k], b[k + 1..];
    WithoutLast(a);
    WithoutAt(b, k);
  }

  /** Gathering the same indexes in another order gathers the same elements. */
  lemma {:induction false} GatherIgnoresOrder<T>(blocks: seq<seq<T>>, a: seq<nat>, b: seq<nat>)
    requires IndexesInto(a, |blocks|) && IndexesInto(b, |blocks|) && multiset(a) == multiset(b)
    ensures multiset(Gather(blocks, a)) == multiset(Gather(blocks, b))
  {
    if a == [] {
      assert |multiset(b)| == 0;
      assert b == [];
    } else {
      var init, x := a[..|a| - 1], a[|a| - 1];
      var l, r := TakeOut(a, b, |blocks|);
      assert IndexesInto(init, |blocks|);
      GatherIgnoresOrder(blocks, init, l + r);
      GatherAround(blocks, l, x, r);
    }
  }

  /** Gathering block by block is gathering through the flattened index. */
  lemma {:induction false} GatherFlattened<T>(blocks: seq<seq<T>>, lists: seq<seq<nat>>, gathered: seq<seq<T>>)
    requires |gathered| == |lists|
    requires forall k :: 0 <= k < |lists| ==> IndexesInto(lists[k], |blocks|) && gathered[k] == Gather(blocks, lists[k])
    ensures IndexesInto(Flatten(lists), |blocks|)
    ensures Gather(blocks, Flatten(lists)) == Flatten(gathered)
  {
    if lists != [] {
      var n := |lists| - 1;
      GatherFlattened(blocks, lists[..n], gathered[..n]);
      GatherConcat(blocks, Flatten(lists[..n]), lists[n]);
    }
  }

  // ------------------------------------------------------------------- sums

  /** Total of the weights the index list names. */
  function SumAt(weights: seq<nat>, idx: seq<nat>): nat
    requires IndexesInto(idx, |weights|)
  {
    if idx == [] then 0
    else
      assert IndexesInto(idx[..|idx| - 1], |weights|);
      SumAt(weights, idx[..|idx| - 1]) + weights[idx[|idx| - 1]]
  }

  lemma {:induction false} SumAtConcat(weights: seq<nat>, a: seq<nat>, b: seq<nat>)
    requires IndexesInto(a, |weights|) && IndexesInto(b, |weights|)
    ensures IndexesInto(a + b, |weights|)
    ensures SumAt(weights, a + b) == SumAt(weights, a) + SumAt(weights, b)
  {
    if b == [] {
      assert a + b == a;
    } else {
      var init := b[..|b| - 1];
      assert IndexesInto(init, |weights|);
      SumAtConcat(weights, a, init);
      assert (a + b)[..|a + b| - 1] == a + init;
    }
  }

  lemma {:induction false} GatherLength<T>(blocks: seq<seq<T>>, weights: seq<nat>, idx: seq<nat>)
    requires IndexesInto(idx, |blocks|) && |weights| == |blocks|
    requires forall k :: 0 <= k < |blocks| ==> weights[k] == |blocks[k]|
    ensures |Gather(blocks, idx)| == SumAt(weights, idx)
  {
    if idx != [] {
      assert IndexesInto(idx[..|idx| - 1], |blocks|);
      GatherLength(blocks, weights, idx[..|idx| - 1]);
    }
  }

  lemma {:induction false} SumAtOnes(weights: seq<nat>, idx: seq<nat>)
    requires IndexesInto(idx, |weights|) && forall k :: 0 <= k < |weights| ==> weights[k] == 1
    ensures SumAt(weights, idx) == |idx|
  {
    if idx != [] {
      assert IndexesInto(idx[..|idx| - 1], |weights|);
      SumAtOnes(weights, idx[..|idx| - 1]);
    }
  }

  /** Weighing gathered lists one by one, or all at once. */
  lemma {:induction false} SumAtGathered(weights: seq<nat>, lists: seq<seq<nat>>, sums: seq<nat>, idx: seq<nat>)
    requires IndexesInto(idx, |lists|) && |sums| == |lists|
    requires forall k :: 0 <= k < |lists| ==> IndexesInto(lists[k], |weights|) && sums[k] == SumAt(weights, lists[k])
    ensures IndexesInto(Gather(lists, idx), |weights|)
    ensures SumAt(weights, Gather(lists, idx)) == SumAt(sums, idx)
  {
    if idx != [] {
      var init := idx[..|idx| - 1];
      assert IndexesInto(init, |lists|);
      SumAtGathered(weights, lists, sums, init);
      SumAtConcat(weights, Gather(lists, init), lists[idx[|idx| - 1]]);
    }
  }

  // ------------------------------------------------- lists taken in any order

  function FlatMap<A, B>(s: seq<A>, f: A -> seq<B>): seq<B> {
    if s == [] then [] else FlatMap(s[..|s| - 1], f) + f(s[|s| - 1])
  }

  function SumMap<A>(s: seq<A>, f: A -> nat): nat {
    if s == [] then 0 else SumMap(s[..|s| - 1], f) + f(s[|s| - 1])
  }

  lemma {:induction false} FlatMapConcat<A, B>(a: seq<A>, b: seq<A>, f: A -> seq<B>)
    ensures FlatMap(a + b, f) == FlatMap(a, f) + FlatMap(b, f)
  {
    if b == [] {
      assert a + b == a;
    } else {
      FlatMapConcat(a, b[..|b| - 1], f);
      assert (a + b)[..|a + b| - 1] == a + b[..|b| - 1];
    }
  }

  lemma {:induction false} SumMapConcat<A>(a: seq<A>, b: seq<A>, f: A -> nat)
    ensures SumMap(a + b, f) == SumMap(a, f) + SumMap(b, f)
  {
    if b == [] {
      assert a + b == a;
    } else {
      SumMapConcat(a, b[..|b| - 1], f);
      assert (a + b)[..|a + b| - 1] == a + b[..|b| - 1];
    }
  }

  lemma SplitAt<A>(a: seq<A>, b: seq<A>) returns (l: seq<A>, r: seq<A>)
    requires a != [] && multiset(a) == multiset(b)
    ensures b == l + [a[|a| - 1]] + r && multiset(a[..|a| - 1]) == multiset(l + r)
  {
    var init, x := a[..|a| - 1], a[|a| - 1];
    assert a == init + [x];
    assert x in multiset(a);
    assert x in multiset(b);
    var k :| 0 <= k < |b| && b[k] == x;
    l, r := b[..k], b[k + 1..];
    assert b == l + [x] + r;
    assert multiset(init) == multiset(a) - multiset{x};
    assert multiset(l + r) == multiset(b) - multiset{x};
  }

  lemma {:induction false} FlatMapIgnoresOrder<A, B>(a: seq<A>, b: seq<A>, f: A -> seq<B>)
    requires multiset(a) == multiset(b)
    ensures multiset(FlatMap(a, f)) == multiset(FlatMap(b, f))
  {
    if a == [] {
      assert |multiset(b)| == 0;
    } else {
      var x := a[|a| - 1];
      var l, r := SplitAt(a, b);
      FlatMapIgnoresOrder(a[..|a| - 1], l + r, f);
      FlatMapConcat(l, r, f);
      FlatMapConcat(l + [x], r, f);
      assert (l + [x])[..|l|] == l;
    }
  }

  lemma {:induction false} SumMapIgnoresOrder<A>(a: seq<A>, b: seq<A>, f: A -> nat)
    requires multiset(a) == multiset(b)
    ensures SumMap(a, f) == SumMap(b, f)
  {
    if a == [] {
      assert |multiset(b)| == 0;
    } else {
      var x := a[|a| - 1];
      var l, r := SplitAt(a, b);
      SumMapIgnoresOrder(a[..|a| - 1], l + r, f);
      SumMapConcat(l, r, f);
      SumMapConcat(l + [x], r, f);
      assert (l + [x])[..|l|] == l;
    }
  }
}
