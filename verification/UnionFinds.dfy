/** The weighted union-find of the clustering engine, with path compression. */
module UnionFinds {
  import opened Partitions

  /** Whether joining the components of two nodes stays inside `maximum`; joining a component to itself always does. */
  predicate MayJoin(root: seq<nat>, weights: seq<nat>, left: nat, right: nat, maximum: nat)
    requires |root| == |weights| && left < |root| && right < |root|
  {
    root[left] == root[right] || Weight(root, weights, root[left]) + Weight(root, weights, root[right]) <= maximum
  }

  /** Parent links run downwards inside one component and end exactly at its least index. */
  ghost predicate Forest(parent: seq<nat>, root: seq<nat>) {
    && |parent| == |root|
    && IsPartition(root)
    && forall i {:trigger parent[i]} :: 0 <= i < |root| ==>
         parent[i] <= i && root[parent[i]] == root[i] && (parent[i] == i <==> root[i] == i)
  }

  /** A root carries the total weight of its component. */
  ghost predicate Sized(size: seq<nat>, root: seq<nat>, weights: seq<nat>) {
    && |size| == |root| == |weights|
    && forall i :: 0 <= i < |root| && root[i] == i ==> size[i] == Weight(root, weights, i)
  }

  /** The nodes met on the way from `i` to the end of its links. */
  ghost function Walk(parent: seq<nat>, i: nat): set<nat> {
    if i < |parent| && parent[i] < i then {i} + Walk(parent, parent[i]) else {i}
  }

  lemma {:induction false} WalkRunsDown(parent: seq<nat>, i: nat)
    ensures i in Walk(parent, i) && forall j :: j in Walk(parent, i) ==> j <= i
  {
    if i < |parent| && parent[i] < i { WalkRunsDown(parent, parent[i]); }
  }

  /** The links after a find: every node of the walk points at the root, and no other link changed. */
  ghost predicate Compressed(before: seq<nat>, parent: seq<nat>, node: nat, root: nat) {
    && |parent| == |before|
    && forall i :: 0 <= i < |parent| ==> parent[i] == if i in Walk(before, node) then root else before[i]
  }

  /** The same with the walk done down to `at`, which is yet to be re-pointed with what is below it. */
  ghost predicate CompressedTo(before: seq<nat>, parent: seq<nat>, node: nat, root: nat, at: nat) {
    && |parent| == |before| && at in Walk(before, node)
    && (forall i :: 0 <= i < |parent| ==> parent[i] == if i in Walk(before, node) && i > at then root else before[i])
    && forall i :: i in Walk(before, node) && i <= at ==> i in Walk(before, at)
  }

  lemma CompressOne(before: seq<nat>, parent: seq<nat>, node: nat, root: nat, at: nat)
    requires CompressedTo(before, parent, node, root, at) && at < |parent| && before[at] < at
    ensures CompressedTo(before, parent[at := root], node, root, before[at])
  {
    WalkRunsDown(before, before[at]);
    WalkBelow(before, node, at);
  }

  /** The walk goes on from every node on it. */
  lemma {:induction false} WalkBelow(parent: seq<nat>, i: nat, j: nat)
    requires j in Walk(parent, i) && j < |parent| && parent[j] < j
    ensures parent[j] in Walk(parent, i)
  {
    if j == i { WalkRunsDown(parent, parent[j]); } else { WalkBelow(parent, parent[i], j); }
  }

  lemma CompressKeepsForest(parent: seq<nat>, root: seq<nat>, walk: nat)
    requires Forest(parent, root) && walk < |root| && parent[walk] != walk
    ensures Forest(parent[walk := root[walk]], root)
  {}

  lemma AttachKeepsForest(parent: seq<nat>, root: seq<nat>, left: nat, right: nat)
    requires Forest(parent, root) && left < |root| && right < |root| && root[left] != root[right]
    ensures var lo, hi := Min(root[left], root[right]), Max(root[left], root[right]);
            Forest(parent[hi := lo], Join(root, left, right))
  {
    JoinKeepsPartition(root, left, right);
  }

  lemma AttachKeepsSized(size: seq<nat>, root: seq<nat>, weights: seq<nat>, left: nat, right: nat)
    requires Sized(size, root, weights) && IsPartition(root)
    requires left < |root| && right < |root| && root[left] != root[right]
    ensures var lo, hi := Min(root[left], root[right]), Max(root[left], root[right]);
            Sized(size[lo := size[lo] + size[hi]], Join(root, left, right), weights)
  {
    var next := Join(root, left, right);
    var lo, hi := Min(root[left], root[right]), Max(root[left], root[right]);
    forall i | 0 <= i < |root| && next[i] == i
      ensures size[lo := size[lo] + size[hi]][i] == Weight(next, weights, i)
    {
      JoinWeight(root, weights, left, right, i);
    }
  }

  class UnionFind {
    const parent: array<nat>
    const size: array<nat>
    /** The partition represented: every node's component, by least index. */
    ghost var Root: seq<nat>
    ghost const Weights: seq<nat>

    ghost predicate Valid()
      reads this, parent, size
    {
      parent != size && Forest(parent[..], Root) && Sized(size[..], Root, Weights)
    }

    constructor (weights: seq<nat>)
      ensures Valid() && fresh(parent) && fresh(size)
      ensures Weights == weights && Root == Discrete(|weights|)
    {
      parent := new nat[|weights|](i => i);
      size := new nat[|weights|](i requires 0 <= i < |weights| => weights[i]);
      Root := Discrete(|weights|);
      Weights := weights;
      new;
      forall i | 0 <= i < |weights| ensures Weight(Root, Weights, i) == weights[i] {
        DiscreteWeightUpTo(weights, i, |weights|);
      }
    }

    /** The least index of the node's component; the walk is repeated to point every node on it at the root. */
    method Find(node: nat) returns (root: nat)
      requires Valid() && node < |Root|
      modifies parent
      ensures Valid()
      ensures root == Root[node] && root < |Root|
      ensures Compressed(old(parent[..]), parent[..], node, root)
    {
      root := node;
      while parent[root] != root
        invariant root < |Root| && Root[root] == Root[node]
        decreases root
      {
        assert parent[..][root] <= root;
        root := parent[root];
      }
      assert parent[..][root] == root;
      var walk: nat := node;
      ghost var start := parent[..];
      WalkRunsDown(start, node);
      while parent[walk] != walk
        invariant Forest(parent[..], Root) && Valid() && walk < |Root| && Root[walk] == root
        invariant CompressedTo(start, parent[..], node, root, walk)
        decreases walk
      {
        var next := parent[walk];
        assert parent[..][walk] == next;
        CompressKeepsForest(parent[..], Root, walk);
        ghost var before := parent[..];
        parent[walk] := root;
        assert parent[..] == before[walk := root];
        CompressOne(start, before, node, root, walk);
        walk := next;
      }
    }

    method ComponentSize(node: nat) returns (total: nat)
      requires Valid() && node < |Root|
      modifies parent
      ensures Valid()
      ensures total == Weight(Root, Weights, Root[node])
    {
      var root := Find(node);
      total := size[root];
      assert total == size[..][root];
    }

    method CanUnion(left: nat, right: nat, maximum: nat) returns (may: bool)
      requires Valid() && left < |Root| && right < |Root|
      modifies parent
      ensures Valid()
      ensures may <==> MayJoin(Root, Weights, left, right, maximum)
    {
      var a := Find(left);
      var b := Find(right);
      if a == b { return true; }
      may := size[a] + size[b] <= maximum;
      assert size[a] == size[..][a] && size[b] == size[..][b];
    }

    /** The higher root is attached to the lower; false when the two were already one component. */
    method Union(left: nat, right: nat) returns (joined: bool)
      requires Valid() && left < |Root| && right < |Root|
      modifies `Root, parent, size
      ensures Valid()
      ensures Root == Join(old(Root), left, right)
      ensures joined <==> old(Root)[left] != old(Root)[right]
    {
      JoinKeepsPartition(Root, left, right);
      var a := Find(left);
      var b := Find(right);
      if a == b { return false; }
      ghost var parents, sizes := parent[..], size[..];
      AttachKeepsForest(parents, Root, left, right);
      AttachKeepsSized(sizes, Root, Weights, left, right);
      var total := size[a] + size[b];
      if a < b {
        parent[b] := a;
        size[a] := total;
      } else {
        parent[a] := b;
        size[b] := total;
      }
      assert parent[..] == parents[Max(a, b) := Min(a, b)];
      assert size[..] == sizes[Min(a, b) := total];
      Root := Join(Root, left, right);
      joined := true;
    }
  }
}
