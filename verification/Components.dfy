/** The components of a partition as lists, in the order the engine emits them: by root, members ascending. */
module Components {
  import opened Partitions
  import opened Sequences
  import opened Sorting

  function MembersUpTo(root: seq<nat>, r: nat, n: nat): seq<nat>
    requires n <= |root|
  {
    if n == 0 then []
    else MembersUpTo(root, r, n - 1) + if root[n - 1] == r then [n - 1] else []
  }

  function Members(root: seq<nat>, r: nat): seq<nat> { MembersUpTo(root, r, |root|) }

  function RootsUpTo(root: seq<nat>, n: nat): seq<nat>
    requires n <= |root|
  {
    if n == 0 then []
    else RootsUpTo(root, n - 1) + if root[n - 1] == n - 1 then [n - 1] else []
  }

  function Roots(root: seq<nat>): seq<nat> { RootsUpTo(root, |root|) }

  function ComponentLists(root: seq<nat>): (lists: seq<seq<nat>>)
    ensures |lists| == |Roots(root)|
    ensures forall k :: 0 <= k < |lists| ==> lists[k] == Members(root, Roots(root)[k])
  {
    seq(|Roots(root)|, k requires 0 <= k < |Roots(root)| => Members(root, Roots(root)[k]))
  }

  /** The position of a node's component among the lists. */
  function PositionOf(root: seq<nat>, i: nat): nat
    requires i < |root| && root[i] <= |root|
  {
    |RootsUpTo(root, root[i])|
  }

  lemma {:induction false} MembersUpToLaws(root: seq<nat>, r: nat, n: nat)
    requires n <= |root|
    ensures var m := MembersUpTo(root, r, n);
            && (forall i :: i in m <==> 0 <= i < n && root[i] == r)
            && (forall x, y :: 0 <= x < y < |m| ==> m[x] < m[y])
  {
    if n > 0 {
      MembersUpToLaws(root, r, n - 1);
      var m := MembersUpTo(root, r, n - 1);
      assert forall x :: 0 <= x < |m| ==> m[x] in m;
    }
  }

  lemma MembersLaws(root: seq<nat>, r: nat)
    ensures IndexesInto(Members(root, r), |root|)
    ensures forall i :: i in Members(root, r) <==> 0 <= i < |root| && root[i] == r
    ensures forall x, y :: 0 <= x < y < |Members(root, r)| ==> Members(root, r)[x] < Members(root, r)[y]
  {
    MembersUpToLaws(root, r, |root|);
    var m := Members(root, r);
    assert forall x :: 0 <= x < |m| ==> m[x] in m;
  }

  lemma {:induction false} RootsUpToLaws(root: seq<nat>, n: nat)
    requires n <= |root|
    ensures var m := RootsUpTo(root, n);
            && |m| <= n
            && (forall i :: i in m <==> 0 <= i < n && root[i] == i)
            && (forall x, y :: 0 <= x < y < |m| ==> m[x] < m[y])
  {
    if n > 0 {
      RootsUpToLaws(root, n - 1);
      var m := RootsUpTo(root, n - 1);
      assert forall x :: 0 <= x < |m| ==> m[x] in m;
    }
  }

  lemma {:induction false} RootsGrow(root: seq<nat>, n: nat, m: nat)
    requires n <= m <= |root|
    ensures RootsUpTo(root, n) <= RootsUpTo(root, m)
  {
    if n < m { RootsGrow(root, n, m - 1); }
  }

  /** Every node is in the list at its component's position, and in no other. */
  lemma PositionLaws(root: seq<nat>, i: nat)
    requires IsPartition(root) && i < |root|
    ensures PositionOf(root, i) < |Roots(root)| && Roots(root)[PositionOf(root, i)] == root[i]
    ensures forall k :: 0 <= k < |ComponentLists(root)| ==> (i in ComponentLists(root)[k] <==> k == PositionOf(root, i))
  {
    var r := root[i];
    RootsGrow(root, r + 1, |root|);
    assert RootsUpTo(root, r + 1) == RootsUpTo(root, r) + [r];
    RootsUpToLaws(root, |root|);
    forall k | 0 <= k < |ComponentLists(root)|
      ensures i in ComponentLists(root)[k] <==> k == PositionOf(root, i)
    {
      MembersLaws(root, Roots(root)[k]);
      var p := PositionOf(root, i);
      assert Roots(root)[p] == r;
      if k < p { assert Roots(root)[k] < Roots(root)[p]; }
      if p < k { assert Roots(root)[p] < Roots(root)[k]; }
    }
  }

  lemma {:induction false} MembersWeight(root: seq<nat>, weights: seq<nat>, r: nat, n: nat)
    requires n <= |root| == |weights|
    ensures IndexesInto(MembersUpTo(root, r, n), |weights|)
    ensures SumAt(weights, MembersUpTo(root, r, n)) == WeightUpTo(root, weights, r, n)
  {
    if n > 0 {
      MembersWeight(root, weights, r, n - 1);
      if root[n - 1] == r {
        assert IndexesInto([n - 1], |weights|);
        SumAtConcat(weights, MembersUpTo(root, r, n - 1), [n - 1]);
        assert [n - 1][..0] == [];
      } else {
        assert MembersUpTo(root, r, n - 1) + [] == MembersUpTo(root, r, n - 1);
      }
    }
  }

  lemma {:induction false} ListsAreDisjoint(root: seq<nat>, k: nat)
    requires IsPartition(root) && k <= |Roots(root)|
    ensures var flat := Flatten<nat>(ComponentLists(root)[..k]);
            && NoDuplicates(flat)
            && forall i :: i in flat <==> 0 <= i < |root| && PositionOf(root, i) < k
  {
    if k > 0 {
      var lists: seq<seq<nat>> := ComponentLists(root);
      ListsAreDisjoint(root, k - 1);
      assert lists[..k][..k - 1] == lists[..k - 1];
      MembersLaws(root, Roots(root)[k - 1]);
      forall i: nat | i < |root| ensures i in lists[k - 1] <==> PositionOf(root, i) == k - 1 {
        PositionLaws(root, i);
      }
      var m: seq<nat> := lists[k - 1];
      assert NoDuplicates(m) by {
        forall x, y | 0 <= x < y < |m| ensures m[x] != m[y] { assert m[x] < m[y]; }
      }
      NoDuplicatesConcat<nat>(Flatten<nat>(lists[..k - 1]), m);
    }
  }

  lemma RangeLaws(n: nat)
    ensures NoDuplicates(Range(n))
    ensures forall i: nat :: i in Range(n) <==> i < n
  {
    var r := Range(n);
    forall x, y | 0 <= x < y < |r| ensures r[x] != r[y] { assert r[x] == x && r[y] == y; }
    forall i: nat ensures i in r <==> i < n {
      if i < n { assert r[i] == i; }
      if i in r { var k :| 0 <= k < |r| && r[k] == i; }
    }
  }

  /** Conservation: the lists hold every node exactly once. */
  lemma ListsHoldEveryNodeOnce(root: seq<nat>)
    requires IsPartition(root)
    ensures multiset(Flatten<nat>(ComponentLists(root))) == multiset(Range(|root|))
    ensures IndexesInto(Flatten<nat>(ComponentLists(root)), |root|)
  {
    var lists: seq<seq<nat>> := ComponentLists(root);
    var flat: seq<nat> := Flatten<nat>(lists);
    var n := |lists|;
    ListsAreDisjoint(root, n);
    assert lists[..n] == lists;
    assert forall k :: 0 <= k < |flat| ==> flat[k] in flat;
    RangeLaws(|root|);
    forall i: nat ensures i in flat <==> i in Range(|root|) {
      if i < |root| { PositionLaws(root, i); }
    }
    NoDuplicatesMultiset<nat>(flat, Range(|root|));
  }
}
