/** The similarity measures: the simple set forms, and the fast form over sorted hashes that refines them. */
module Similarity {
  import opened Texts
  import opened Sorting

  function Elements<T(!new)>(s: seq<T>): set<T> { set x | x in s }

  datatype Measure = Jaccard | Containment

  // -------------------------------------------------------- the simple forms

  /** How many values two arrays without repetition share. */
  function Shared(left: seq<Text>, right: seq<Text>): nat {
    |Elements(left) * Elements(right)|
  }

  function Score(left: seq<Text>, right: seq<Text>, measure: Measure): real {
    if left == [] || right == [] then 0.0
    else if measure == Containment then
      Shared(left, right) as real / (if |left| <= |right| then |left| else |right|) as real
    else
      Ratio(Shared(left, right), |left| + |right| - Shared(left, right))
  }

  function Ratio(shared: nat, union: int): real {
    if union == 0 then 0.0 else shared as real / union as real
  }

  lemma SharedSnoc(s: seq<Text>, x: Text, lookup: set<Text>)
    requires x !in s
    ensures |Elements(s + [x]) * lookup| == |Elements(s) * lookup| + if x in lookup then 1 else 0
  {
    var before := Elements(s) * lookup;
    assert Elements(s + [x]) == Elements(s) + {x};
    assert Elements(s + [x]) * lookup == if x in lookup then before + {x} else before;
    assert x !in before;
  }

  method SharedCount(left: seq<Text>, right: seq<Text>) returns (shared: nat)
    requires NoDuplicates(left) && NoDuplicates(right)
    ensures shared == Shared(left, right)
  {
    var smaller := if |left| <= |right| then left else right;
    var lookup := Elements(if |left| <= |right| then right else left);
    assert Elements(left) * Elements(right) == Elements(smaller) * lookup;
    shared := CountMembers(smaller, lookup);
  }

  method CountMembers(values: seq<Text>, lookup: set<Text>) returns (shared: nat)
    requires NoDuplicates(values)
    ensures shared == |Elements(values) * lookup|
  {
    shared := 0;
    assert Elements(values[..0]) * lookup == {};
    for i := 0 to |values|
      invariant shared == |Elements(values[..i]) * lookup|
    {
      assert values[..i + 1] == values[..i] + [values[i]];
      SharedSnoc(values[..i], values[i], lookup);
      if values[i] in lookup { shared := shared + 1; }
    }
    assert values[..|values|] == values;
  }

  method SimilarityOf(left: seq<Text>, right: seq<Text>, measure: Measure) returns (score: real)
    requires NoDuplicates(left) && NoDuplicates(right)
    ensures score == Score(left, right, measure)
  {
    if left == [] || right == [] { return 0.0; }
    var shared := SharedCount(left, right);
    if measure == Containment { return shared as real / (if |left| <= |right| then |left| else |right|) as real; }
    var union := |left| + |right| - shared;
    return if union == 0 then 0.0 else shared as real / union as real;
  }

  // ----------------------------------------------------------- the fast form

  ghost predicate Ordered(s: seq<int>) {
    forall i, j :: 0 <= i < j < |s| ==> s[i] <= s[j]
  }

  function Common(left: seq<int>, right: seq<int>): nat {
    |multiset(left) * multiset(right)|
  }

  /** Multiset intersection over multiset union. */
  function HashSimilarity(left: seq<int>, right: seq<int>): real {
    if left == [] || right == [] then 0.0 else Ratio(Common(left, right), |left| + |right| - Common(left, right))
  }

  lemma CommonHead(left: seq<int>, right: seq<int>)
    requires left != [] && right != [] && Ordered(left) && Ordered(right)
    ensures left[0] == right[0] ==> Common(left, right) == 1 + Common(left[1..], right[1..])
    ensures left[0] < right[0] ==> Common(left, right) == Common(left[1..], right)
    ensures right[0] < left[0] ==> Common(left, right) == Common(left, right[1..])
  {
    assert left == [left[0]] + left[1..] && right == [right[0]] + right[1..];
    var l, r := multiset(left), multiset(right);
    if left[0] == right[0] {
      assert l * r == multiset{left[0]} + multiset(left[1..]) * multiset(right[1..]);
    } else if left[0] < right[0] {
      assert left[0] !in right;
      assert l * r == multiset(left[1..]) * r;
    } else {
      assert right[0] !in left;
      assert l * r == l * multiset(right[1..]);
    }
  }

  lemma CommonAt(left: seq<int>, right: seq<int>, a: nat, b: nat)
    requires a < |left| && b < |right| && Ordered(left) && Ordered(right)
    ensures left[a] == right[b] ==> Common(left[a..], right[b..]) == 1 + Common(left[a + 1..], right[b + 1..])
    ensures left[a] < right[b] ==> Common(left[a..], right[b..]) == Common(left[a + 1..], right[b..])
    ensures right[b] < left[a] ==> Common(left[a..], right[b..]) == Common(left[a..], right[b + 1..])
  {
    CommonHead(left[a..], right[b..]);
    assert left[a..][1..] == left[a + 1..] && right[b..][1..] == right[b + 1..];
  }

  lemma CommonOfNothing(left: seq<int>, right: seq<int>)
    requires left == [] || right == []
    ensures Common(left, right) == 0
  {
    assert multiset(left) * multiset(right) == multiset{};
  }

  /** Two pointers over two sorted arrays. */
  method SimilarityOfSorted(left: seq<int>, right: seq<int>) returns (score: real)
    requires Ordered(left) && Ordered(right)
    ensures score == HashSimilarity(left, right)
  {
    if left == [] || right == [] { return 0.0; }
    var shared := CountCommon(left, right);
    var union := |left| + |right| - shared;
    score := if union == 0 then 0.0 else shared as real / union as real;
  }

  method CountCommon(left: seq<int>, right: seq<int>) returns (shared: nat)
    requires Ordered(left) && Ordered(right)
    ensures shared == Common(left, right)
  {
    shared := 0;
    var a, b := 0, 0;
    assert left[0..] == left && right[0..] == right;
    while a < |left| && b < |right|
      invariant a <= |left| && b <= |right|
      invariant shared + Common(left[a..], right[b..]) == Common(left, right)
    {
      CommonAt(left, right, a, b);
      if left[a] == right[b] {
        shared, a, b := shared + 1, a + 1, b + 1;
      } else if left[a] < right[b] {
        a := a + 1;
      } else {
        b := b + 1;
      }
    }
    assert left[a..] == [] || right[b..] == [];
    CommonOfNothing(left[a..], right[b..]);
  }

  // ------------------------------------------------------------ what they mean

  lemma CommonBounds(left: seq<int>, right: seq<int>)
    ensures Common(left, right) == Common(right, left)
    ensures Common(left, right) <= |left| && Common(left, right) <= |right|
  {
    var l, r := multiset(left), multiset(right);
    assert l * r == r * l;
    assert l == l * r + (l - r);
    assert r == l * r + (r - l);
  }

  lemma Fraction(x: real, y: real)
    requires 0.0 <= x <= y && y > 0.0
    ensures 0.0 <= x / y <= 1.0
    ensures x / y == 1.0 <==> x == y
  {}

  /** Symmetric, between 0 and 1, and 1 exactly on equal non-empty multisets. */
  lemma HashSimilarityLaws(left: seq<int>, right: seq<int>)
    ensures HashSimilarity(left, right) == HashSimilarity(right, left)
    ensures 0.0 <= HashSimilarity(left, right) <= 1.0
    ensures left != [] ==> (HashSimilarity(left, right) == 1.0 <==> multiset(left) == multiset(right))
  {
    CommonBounds(left, right);
    if left != [] && right != [] {
      var c, union := Common(left, right), |left| + |right| - Common(left, right);
      Fraction(c as real, union as real);
      var l, r := multiset(left), multiset(right);
      if c == union {
        assert l == l * r + (l - r) && r == l * r + (r - l);
        assert |l - r| == 0 && |r - l| == 0;
        assert l == r;
      }
      if l == r { assert l * r == l; }
    } else if left != [] {
      assert left[0] in multiset(left);
    }
  }

  function Hashes(values: seq<Text>, hash: Text -> int): (r: seq<int>)
    ensures |r| == |values|
  {
    if values == [] then [] else [hash(values[0])] + Hashes(values[1..], hash)
  }

  function IntOrder(): (int, int) -> bool { (a: int, b: int) => a <= b }

  lemma IntOrderIsTotal()
    ensures TotalPreorder(IntOrder())
  {}

  /** `sortedInt32`: the hashes of the values, sorted. */
  function SortedHashes(values: seq<Text>, hash: Text -> int): (r: seq<int>)
    ensures |r| == |values| && multiset(r) == multiset(Hashes(values, hash))
    ensures Ordered(r)
  {
    IntOrderIsTotal();
    SortSorted(Hashes(values, hash), IntOrder());
    var r := Sort(Hashes(values, hash), IntOrder());
    assert forall i, j :: 0 <= i < j < |r| ==> IntOrder()(r[i], r[j]);
    r
  }

  /** The hash tells the values of the two arrays apart. */
  ghost predicate Separates(hash: Text -> int, left: seq<Text>, right: seq<Text>) {
    forall x, y :: x in left + right && y in left + right && hash(x) == hash(y) ==> x == y
  }

  lemma {:induction false} HashOccurs(values: seq<Text>, hash: Text -> int, h: int)
    ensures h in Hashes(values, hash) <==> exists v :: v in values && hash(v) == h
  {
    if values != [] {
      HashOccurs(values[1..], hash, h);
      assert forall v :: v in values <==> v == values[0] || v in values[1..];
    }
  }

  lemma {:induction false} HashesWithoutDuplicates(values: seq<Text>, hash: Text -> int)
    requires NoDuplicates(values) && Separates(hash, values, [])
    ensures NoDuplicates(Hashes(values, hash))
  {
    if values != [] {
      assert values + [] == values && values[1..] + [] == values[1..];
      HashesWithoutDuplicates(values[1..], hash);
      HashOccurs(values[1..], hash, hash(values[0]));
      assert hash(values[0]) !in Hashes(values[1..], hash);
    }
  }

  lemma {:induction false} CommonHashesAreShared(left: seq<Text>, right: seq<Text>, hash: Text -> int)
    requires NoDuplicates(left) && NoDuplicates(right) && Separates(hash, left, right)
    ensures Common(Hashes(left, hash), Hashes(right, hash)) == Shared(left, right)
  {
    var rights := Hashes(right, hash);
    assert forall x :: x in right ==> x in left + right;
    assert right + [] == right;
    HashesWithoutDuplicates(right, hash);
    if left == [] {
      assert Elements(left) * Elements(right) == {};
      assert multiset(Hashes(left, hash)) * multiset(rights) == multiset{};
    } else {
      var x, rest := left[0], left[1..];
      assert left == [x] + rest && x !in rest;
      assert forall y :: y in rest + right ==> y in left + right;
      CommonHashesAreShared(rest, right, hash);
      HashIsNew(left, right, hash);
      OccursOnce(rights, hash(x));
      CommonCons(hash(x), Hashes(rest, hash), rights);
      SharedCons(x, rest, Elements(right));
    }
  }

  lemma HashIsNew(left: seq<Text>, right: seq<Text>, hash: Text -> int)
    requires left != [] && left[0] !in left[1..] && Separates(hash, left, right)
    ensures hash(left[0]) in Hashes(right, hash) <==> left[0] in right
    ensures hash(left[0]) !in Hashes(left[1..], hash)
  {
    var x := left[0];
    assert x in left + right;
    HashOccurs(right, hash, hash(x));
    HashOccurs(left[1..], hash, hash(x));
    assert forall v :: v in right || v in left[1..] ==> v in left + right;
  }

  lemma CommonCons(h: int, rest: seq<int>, right: seq<int>)
    requires h !in rest && multiset(right)[h] <= 1
    ensures Common([h] + rest, right) == Common(rest, right) + if h in right then 1 else 0
  {
    var before := multiset(rest) * multiset(right);
    assert multiset([h] + rest) == multiset{h} + multiset(rest);
    assert h in right <==> h in multiset(right);
    assert multiset([h] + rest) * multiset(right) == if h in right then before + multiset{h} else before;
  }

  lemma SharedCons(x: Text, rest: seq<Text>, right: set<Text>)
    requires x !in rest
    ensures |Elements([x] + rest) * right| == |Elements(rest) * right| + if x in right then 1 else 0
  {
    var before := Elements(rest) * right;
    assert Elements([x] + rest) == {x} + Elements(rest);
    assert Elements([x] + rest) * right == if x in right then before + {x} else before;
    assert x !in before;
  }

  /** Main result: the fast form computes the simple form whenever the hash tells the shingles apart. */
  lemma FastFormRefinesSimpleForm(left: seq<Text>, right: seq<Text>, hash: Text -> int)
    requires NoDuplicates(left) && NoDuplicates(right) && Separates(hash, left, right)
    ensures HashSimilarity(SortedHashes(left, hash), SortedHashes(right, hash)) == Score(left, right, Jaccard)
  {
    HashesCountAlike(left, right, hash);
    CommonIgnoresOrder(SortedHashes(left, hash), SortedHashes(right, hash), Hashes(left, hash), Hashes(right, hash));
  }

  lemma HashesCountAlike(left: seq<Text>, right: seq<Text>, hash: Text -> int)
    requires NoDuplicates(left) && NoDuplicates(right) && Separates(hash, left, right)
    ensures HashSimilarity(Hashes(left, hash), Hashes(right, hash)) == Score(left, right, Jaccard)
  {
    CommonHashesAreShared(left, right, hash);
    SameCounts(left, right, Hashes(left, hash), Hashes(right, hash));
  }

  /** The two forms are one fraction of the lengths and what is common. */
  lemma SameCounts(left: seq<Text>, right: seq<Text>, a: seq<int>, b: seq<int>)
    requires |a| == |left| && |b| == |right| && Common(a, b) == Shared(left, right)
    ensures HashSimilarity(a, b) == Score(left, right, Jaccard)
  {}

  lemma CommonIgnoresOrder(a: seq<int>, b: seq<int>, c: seq<int>, d: seq<int>)
    requires multiset(a) == multiset(c) && multiset(b) == multiset(d)
    ensures HashSimilarity(a, b) == HashSimilarity(c, d)
  {
    MultisetMembers(a, c);
    MultisetMembers(b, d);
  }

  lemma SharedBounds(left: seq<Text>, right: seq<Text>)
    requires NoDuplicates(left) && NoDuplicates(right)
    ensures Shared(left, right) == Shared(right, left)
    ensures Shared(left, right) <= |left| && Shared(left, right) <= |right|
  {
    NoDuplicatesCardinality(left);
    NoDuplicatesCardinality(right);
    Subset(Elements(left) * Elements(right), Elements(left));
    Subset(Elements(left) * Elements(right), Elements(right));
    assert Elements(left) * Elements(right) == Elements(right) * Elements(left);
  }

  lemma Subset(a: set<Text>, b: set<Text>)
    requires a <= b
    ensures |a| <= |b|
  {
    assert b == a + (b - a);
  }

  /** The simple forms are symmetric and between 0 and 1. */
  lemma ScoreLaws(left: seq<Text>, right: seq<Text>, measure: Measure)
    requires NoDuplicates(left) && NoDuplicates(right)
    ensures Score(left, right, measure) == Score(right, left, measure)
    ensures 0.0 <= Score(left, right, measure) <= 1.0
  {
    SharedBounds(left, right);
    if left != [] && right != [] {
      var shared := Shared(left, right);
      if measure == Containment {
        Fraction(shared as real, (if |left| <= |right| then |left| else |right|) as real);
      } else {
        Fraction(shared as real, (|left| + |right| - shared) as real);
      }
    }
  }
}
