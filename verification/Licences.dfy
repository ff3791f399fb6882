/**
 * The licence inventory of the bill of materials: which packages are absent from every supported platform, and
 * therefore inherit the not-inventoried status, and which must carry a licence.
 */
module Licences {
  import opened Texts
  import opened Sorting

  /** What a lockfile package declares; the lockfile holds the packages in a map by key. */
  datatype Package = Package(os: seq<Text>, cpu: seq<Text>, libc: seq<Text>)

  datatype Platform = Platform(os: Text, cpu: Text, libc: Option<Text>)

  /** One lockfile snapshot: the package it is of, and the packages it depends on, regular and optional alike. */
  datatype Snapshot = Snapshot(package: Text, children: seq<Text>)

  const DARWIN := Literal("darwin")
  const ARM64 := Literal("arm64")
  const LINUX := Literal("linux")
  const X64 := Literal("x64")
  const GLIBC := Literal("glibc")
  const BANG: CodeUnit := 0x21

  const MAC: Platform := Platform(DARWIN, ARM64, None)
  const CI: Platform := Platform(LINUX, X64, Some(GLIBC))

  // --------------------------------------------------------------- platforms

  predicate Constrained(p: Package) { |p.os| > 0 || |p.cpu| > 0 || |p.libc| > 0 }

  predicate Negated(entry: Text) { entry != [] && entry[0] == BANG }

  function Allowed(list: seq<Text>): seq<Text> {
    if list == [] then []
    else Allowed(list[..|list| - 1]) + if Negated(list[|list| - 1]) then [] else [list[|list| - 1]]
  }

  /** Whether a constraint list admits a value, with `!value` negation; a platform without one is always admitted. */
  predicate Admits(list: seq<Text>, value: Option<Text>) {
    if list == [] || value.None? then true
    else if [BANG] + value.value in list then false
    else Allowed(list) == [] || value.value in Allowed(list)
  }

  predicate InstallsOn(p: Package, at: Platform) {
    Admits(p.os, Some(at.os)) && Admits(p.cpu, Some(at.cpu)) && Admits(p.libc, at.libc)
  }

  predicate InstallsSomewhere(p: Package) { InstallsOn(p, MAC) || InstallsOn(p, CI) }

  lemma {:induction false} AllowedMembers(list: seq<Text>, entry: Text)
    ensures entry in Allowed(list) <==> entry in list && !Negated(entry)
  {
    if list != [] {
      AllowedMembers(list[..|list| - 1], entry);
      assert list == list[..|list| - 1] + [list[|list| - 1]];
    }
  }

  /** A value is admitted exactly when it is not ruled out and is listed, or nothing is listed but exclusions. */
  lemma AdmitsMeaning(list: seq<Text>, value: Text)
    requires !Negated(value)
    ensures Admits(list, Some(value)) <==>
            [BANG] + value !in list && (value in list || forall entry :: entry in list ==> Negated(entry))
  {
    AllowedMembers(list, value);
    if Allowed(list) == [] {
      forall entry | entry in list ensures Negated(entry) { AllowedMembers(list, entry); }
    } else {
      AllowedMembers(list, Allowed(list)[0]);
      assert Allowed(list)[0] in Allowed(list);
    }
  }

  /** A constraint list lets a value through: it is empty, or does not rule it out and lists it or only exclusions. */
  ghost predicate LetsThrough(list: seq<Text>, value: Text) {
    || list == []
    || ([0x21] + value !in list
        && (value in list || forall entry :: entry in list ==> entry != [] && entry[0] == 0x21))
  }

  /** What a macOS machine on ARM installs; it has no libc to be constrained by. */
  ghost predicate OnMac(p: Package) { LetsThrough(p.os, Literal("darwin")) && LetsThrough(p.cpu, Literal("arm64")) }

  /** What a Linux machine on x64 with glibc installs. */
  ghost predicate OnLinux(p: Package) {
    LetsThrough(p.os, Literal("linux")) && LetsThrough(p.cpu, Literal("x64")) && LetsThrough(p.libc, Literal("glibc"))
  }

  lemma AdmitsExactly(list: seq<Text>, value: Text)
    requires value != [] && value[0] != BANG
    ensures Admits(list, Some(value)) <==> LetsThrough(list, value)
  {
    AdmitsMeaning(list, value);
  }

  lemma NamesArePlain()
    ensures DARWIN != [] && DARWIN[0] != BANG && ARM64 != [] && ARM64[0] != BANG
    ensures LINUX != [] && LINUX[0] != BANG && X64 != [] && X64[0] != BANG && GLIBC != [] && GLIBC[0] != BANG
  {
    assert DARWIN[0] == 'd' as int && ARM64[0] == 'a' as int && LINUX[0] == 'l' as int;
    assert X64[0] == 'x' as int && GLIBC[0] == 'g' as int;
  }

  /** Main result: a package installs somewhere exactly when one of the two supported machines installs it. */
  lemma InstallsExactly(p: Package)
    ensures InstallsSomewhere(p) <==> OnMac(p) || OnLinux(p)
  {
    NamesArePlain();
    AdmitsExactly(p.os, DARWIN);
    AdmitsExactly(p.cpu, ARM64);
    AdmitsExactly(p.os, LINUX);
    AdmitsExactly(p.cpu, X64);
    AdmitsExactly(p.libc, GLIBC);
  }

  /** A package constrained in some way that neither machine installs. */
  ghost predicate InstallsNowhere(p: Package) {
    (p.os != [] || p.cpu != [] || p.libc != []) && !OnMac(p) && !OnLinux(p)
  }

  lemma NowhereExactly(p: Package)
    ensures InstallsNowhere(p) <==> Constrained(p) && !InstallsSomewhere(p)
  {
    InstallsExactly(p);
  }

  // ------------------------------------------------------------------- edges

  ghost predicate DependsOn(snapshots: seq<Snapshot>, parent: Text, child: Text) {
    exists i :: 0 <= i < |snapshots| && snapshots[i].package == parent && child in snapshots[i].children
  }

  /** Every parent of every package. */
  ghost predicate Parents(parents: map<Text, set<Text>>, snapshots: seq<Snapshot>) {
    && (forall child :: child in parents ==> parents[child] != {})
    && (forall parent, child :: (child in parents && parent in parents[child]) <==> DependsOn(snapshots, parent, child))
  }

  method CollectParents(snapshots: seq<Snapshot>) returns (parents: map<Text, set<Text>>)
    ensures Parents(parents, snapshots)
  {
    parents := map[];
    for i := 0 to |snapshots|
      invariant Parents(parents, snapshots[..i])
    {
      var s := snapshots[i];
      for j := 0 to |s.children|
        invariant forall child :: child in parents ==> parents[child] != {}
        invariant forall parent, child :: (child in parents && parent in parents[child]) <==>
                    DependsOn(snapshots[..i], parent, child) || (parent == s.package && child in s.children[..j])
      {
        var child := s.children[j];
        assert s.children[..j + 1] == s.children[..j] + [child];
        parents := parents[child := (if child in parents then parents[child] else {}) + {s.package}];
      }
      assert s.children[..|s.children|] == s.children;
      forall parent, child
        ensures (child in parents && parent in parents[child]) <==> DependsOn(snapshots[..i + 1], parent, child)
      {
        DependsOnMore(snapshots, i, parent, child);
      }
    }
    assert snapshots[..|snapshots|] == snapshots;
  }

  lemma DependsOnMore(snapshots: seq<Snapshot>, i: nat, parent: Text, child: Text)
    requires i < |snapshots|
    ensures DependsOn(snapshots[..i + 1], parent, child) <==>
            || DependsOn(snapshots[..i], parent, child)
            || (parent == snapshots[i].package && child in snapshots[i].children)
  {
    var all, some := snapshots[..i + 1], snapshots[..i];
    if DependsOn(all, parent, child) {
      var k :| 0 <= k < |all| && all[k].package == parent && child in all[k].children;
      if k < i { assert some[k] == all[k]; }
    }
    if DependsOn(some, parent, child) {
      var k :| 0 <= k < |some| && some[k].package == parent && child in some[k].children;
      assert all[k] == some[k];
    }
    if parent == snapshots[i].package && child in snapshots[i].children { assert all[i] == snapshots[i]; }
  }

  // --------------------------------------------------------- the fixed point

  /** What the fixed point is computed over: every package key, those absent by their own constraint, the parents, and
      the packages a workspace depends on directly. */
  datatype Graph = Graph(keys: set<Text>, absent: set<Text>, parents: map<Text, set<Text>>, direct: set<Text>)

  /** A package that declares nothing itself is absent when it is not required directly and every parent is absent. */
  predicate Inherits(g: Graph, key: Text, absent: set<Text>) {
    key in g.keys && key !in g.direct && key in g.parents && g.parents[key] != {} && g.parents[key] <= absent
  }

  /** The key has what inheritance would give it. */
  predicate Met(g: Graph, key: Text, absent: set<Text>) { Inherits(g, key, absent) ==> key in absent }

  ghost predicate Closed(g: Graph, s: set<Text>) {
    g.absent <= s && forall key :: Inherits(g, key, s) ==> key in s
  }

  /** The least set containing the absent packages and closed under inheritance. */
  ghost predicate IsLeast(g: Graph, s: set<Text>) {
    Closed(g, s) && forall t :: Closed(g, t) ==> s <= t
  }

  /** Each inherited package stands above all its parents, each of them in the set. */
  ghost predicate Ranked(g: Graph, absent: set<Text>, inherited: set<Text>, rank: map<Text, nat>) {
    && rank.Keys == absent
    && forall key :: key in inherited ==>
         key in absent && key in g.parents && g.parents[key] != {} && g.parents[key] <= absent
         && forall parent :: parent in g.parents[key] ==> rank[parent] < rank[key]
  }

  /** What the loop keeps: only what every closed set must hold is added, and ranks witness why. */
  ghost predicate Progress(g: Graph, absent: set<Text>, inherited: set<Text>, rank: map<Text, nat>, top: nat) {
    && absent == g.absent + inherited && inherited !! g.absent && inherited <= g.keys && inherited !! g.direct
    && (forall t :: Closed(g, t) ==> absent <= t)
    && Ranked(g, absent, inherited, rank)
    && (forall key :: key in rank ==> rank[key] <= top)
  }

  lemma AddInherited(g: Graph, absent: set<Text>, inherited: set<Text>, rank: map<Text, nat>, top: nat, key: Text)
    requires Progress(g, absent, inherited, rank, top) && Inherits(g, key, absent) && key !in absent
    ensures Progress(g, absent + {key}, inherited + {key}, rank[key := top + 1], top + 1)
  {
    forall t | Closed(g, t) ensures absent + {key} <= t {
      assert Inherits(g, key, t);
    }
  }

  /** The first `n` keys have what inheritance would give them. */
  ghost predicate Quiet(g: Graph, order: seq<Text>, n: nat, absent: set<Text>)
    requires n <= |order|
  {
    forall j :: 0 <= j < n ==> Met(g, order[j], absent)
  }

  /** A pass that adds nothing has met every key. */
  lemma QuietPassIsClosed(g: Graph, order: seq<Text>, absent: set<Text>)
    requires g.absent <= absent && forall key :: key in order <==> key in g.keys
    requires Quiet(g, order, |order|, absent)
    ensures Closed(g, absent)
  {
    forall key | Inherits(g, key, absent) ensures key in absent {
      var j :| 0 <= j < |order| && order[j] == key;
      assert Met(g, order[j], absent);
    }
  }

  lemma QuietMore(g: Graph, order: seq<Text>, i: nat, absent: set<Text>)
    requires i < |order| && Quiet(g, order, i, absent) && Met(g, order[i], absent)
    ensures Quiet(g, order, i + 1, absent)
  {}

  /** One pass over the keys. */
  method OnePass(g: Graph, order: seq<Text>, absent0: set<Text>, inherited0: set<Text>,
                 ghost rank0: map<Text, nat>, ghost top0: nat)
    returns (absent: set<Text>, inherited: set<Text>, grew: bool, ghost rank: map<Text, nat>, ghost top: nat)
    requires (forall key :: key in order <==> key in g.keys) && Progress(g, absent0, inherited0, rank0, top0)
    ensures Progress(g, absent, inherited, rank, top)
    ensures inherited0 <= inherited && (grew ==> inherited0 < inherited)
    ensures !grew ==> absent == absent0 && Quiet(g, order, |order|, absent0)
  {
    absent, inherited, grew, rank, top := absent0, inherited0, false, rank0, top0;
    for i := 0 to |order|
      invariant Progress(g, absent, inherited, rank, top)
      invariant inherited0 <= inherited && (grew ==> inherited0 < inherited)
      invariant !grew ==> absent == absent0 && Quiet(g, order, i, absent0)
    {
      var added;
      absent, inherited, added, rank, top := TryKey(g, order[i], absent, inherited, rank, top);
      if !grew && !added { QuietMore(g, order, i, absent0); }
      grew := grew || added;
    }
  }

  method TryKey(g: Graph, key: Text, absent0: set<Text>, inherited0: set<Text>, ghost rank0: map<Text, nat>,
                ghost top0: nat)
    returns (absent: set<Text>, inherited: set<Text>, added: bool, ghost rank: map<Text, nat>, ghost top: nat)
    requires key in g.keys && Progress(g, absent0, inherited0, rank0, top0)
    ensures Progress(g, absent, inherited, rank, top)
    ensures if added then inherited0 < inherited else absent == absent0 && inherited == inherited0
    ensures !added ==> Met(g, key, absent)
  {
    absent, inherited, added, rank, top := absent0, inherited0, false, rank0, top0;
    if key !in absent && key !in g.direct && key in g.parents && g.parents[key] != {} && g.parents[key] <= absent {
      AddInherited(g, absent, inherited, rank, top, key);
      absent := absent + {key};
      inherited := inherited + {key};
      added := true;
      top := top + 1;
      rank := rank[key := top];
    }
  }

  /** The loop of the bill of materials: passes over the keys until one adds nothing. */
  method InheritAbsence(g: Graph, order: seq<Text>)
    returns (absent: set<Text>, inherited: set<Text>, ghost rank: map<Text, nat>)
    requires forall key :: key in order <==> key in g.keys
    ensures IsLeast(g, absent)
    ensures inherited == absent - g.absent && inherited <= g.keys && inherited !! g.direct
    ensures Ranked(g, absent, inherited, rank)
  {
    absent, inherited := g.absent, {};
    rank := map key | key in g.absent :: 0;
    ghost var top := 0;
    var grew := true;
    while grew
      invariant Progress(g, absent, inherited, rank, top)
      invariant !grew ==> Closed(g, absent)
      decreases grew, g.keys - inherited
    {
      ghost var before := inherited;
      absent, inherited, grew, rank, top := OnePass(g, order, absent, inherited, rank, top);
      if !grew { QuietPassIsClosed(g, order, absent); }
    }
  }

  /** The set found does not depend on the order the keys were scanned in: there is only one least set. */
  lemma LeastIsUnique(g: Graph, s: set<Text>, t: set<Text>)
    requires IsLeast(g, s) && IsLeast(g, t)
    ensures s == t
  {}

  /** Inheritance needs an absent ancestor: packages that only keep one another are never absent. */
  lemma CyclesAreNotAbsent(g: Graph, s: set<Text>, cycle: set<Text>)
    requires IsLeast(g, s) && cycle !! g.absent
    requires forall key :: key in cycle && key in g.parents ==> g.parents[key] * cycle != {}
    ensures s !! cycle
  {
    forall key | Inherits(g, key, s - cycle) ensures key in s - cycle {
      assert Inherits(g, key, s);
      assert g.parents[key] * cycle == {};
    }
    assert Closed(g, s - cycle);
  }

  /**
   * A parent both machines admit is not enough: here `b` names nothing, but only a package neither machine installs
   * depends on it, so `b` and its own child `c` are absent both. A parent that is present is enough.
   */
  lemma AdmittedParentIsNotEnough(a: Text, b: Text, c: Text, s: set<Text>)
    requires a != b && b != c && a != c
    requires IsLeast(Graph({a, b, c}, {a}, map[b := {a}, c := {b}], {}), s)
    ensures b in s && c in s
  {
    var g := Graph({a, b, c}, {a}, map[b := {a}, c := {b}], {});
    assert Inherits(g, b, s);
    assert Inherits(g, c, s);
  }

  /** A package outside the least set has a reason to be installed somewhere: it is required directly, has no parents,
      or has a parent outside the set. */
  lemma PresentHasReason(g: Graph, s: set<Text>, key: Text)
    requires IsLeast(g, s) && key in g.keys && key !in s
    ensures key in g.direct || key !in g.parents || g.parents[key] == {} || exists p :: p in g.parents[key] && p !in s
  {
    assert !Inherits(g, key, s);
  }

  /** Main result: the least set holds exactly the packages absent by their own constraint, and those that are not
      required directly and have parents, all of them in it. */
  lemma AbsentExactly(g: Graph, s: set<Text>, key: Text)
    requires IsLeast(g, s)
    ensures key in s <==> key in g.absent || Inherits(g, key, s)
  {
    var t := g.absent + set k | k in g.keys && Inherits(g, k, s);
    assert t <= s;
    forall k | Inherits(g, k, t) ensures k in t { assert Inherits(g, k, s); }
    assert Closed(g, t);
  }

  // ------------------------------------------------------------- the inventory

  datatype Inventory = Inventory(licensed: nat, constrained: nat, inherited: nat)

  /** How a package is inventoried: its own constraint decides first, then what it inherited. */
  datatype Standing = Licensed | PlatformConstrained | Inherited

  function StandingOf(packages: map<Text, Package>, key: Text, inherited: set<Text>): Standing
    requires key in packages
  {
    if Constrained(packages[key]) then PlatformConstrained
    else if key in inherited then Inherited
    else Licensed
  }

  /** The packages of one standing. */
  function Having(packages: map<Text, Package>, inherited: set<Text>, standing: Standing): set<Text>
  {
    set key | key in packages && StandingOf(packages, key, inherited) == standing
  }

  /** The packages that need a licence and have none. */
  function Unlicensed(packages: map<Text, Package>, inherited: set<Text>, licences: map<Text, Text>): set<Text> {
    Having(packages, inherited, Licensed) - licences.Keys
  }

  /** Refused exactly when some package lacks the licence it needs, and then at the least such key; otherwise every
      package is counted under its standing. */
  ghost predicate IsInventory(packages: map<Text, Package>, inherited: set<Text>, licences: map<Text, Text>,
                              r: Result<Inventory, Text>)
  {
    match r
    case Ok(counts) =>
      && Unlicensed(packages, inherited, licences) == {}
      && counts.licensed == |Having(packages, inherited, Licensed)|
      && counts.constrained == |Having(packages, inherited, PlatformConstrained)|
      && counts.inherited == |Having(packages, inherited, Inherited)|
    case Err(refused) =>
      && refused in Unlicensed(packages, inherited, licences)
      && forall key :: key in Unlicensed(packages, inherited, licences) ==> AtMost(refused, key)
  }

  /** Every package has exactly one standing. */
  lemma StandingsPartition(packages: map<Text, Package>, inherited: set<Text>)
    ensures |Having(packages, inherited, Licensed)| + |Having(packages, inherited, PlatformConstrained)|
            + |Having(packages, inherited, Inherited)| == |packages|
  {
    var licensed := Having(packages, inherited, Licensed);
    var constrained := Having(packages, inherited, PlatformConstrained);
    var kept := Having(packages, inherited, Inherited);
    assert packages.Keys == licensed + constrained + kept;
    assert |packages.Keys| == |packages|;
  }

  /** The keys of the map, sorted. */
  method SortedKeys(keys: set<Text>) returns (order: seq<Text>)
    ensures Sorted(order, TextOrder()) && NoDuplicates(order)
    ensures forall key :: key in order <==> key in keys
  {
    var listed, rest := [], keys;
    while rest != {}
      invariant rest <= keys && NoDuplicates(listed)
      invariant forall key :: key in listed <==> key in keys - rest
      decreases rest
    {
      var key :| key in rest;
      assert key !in listed;
      listed, rest := listed + [key], rest - {key};
    }
    order := Sort(listed, TextOrder());
    TextOrderIsTotal();
    SortSorted(listed, TextOrder());
    MultisetMembers(listed, order);
    MultisetNoDuplicates(listed, order);
  }

  /** The packages of one standing among the first keys. */
  ghost function HavingAmong(packages: map<Text, Package>, walked: seq<Text>, inherited: set<Text>,
                             standing: Standing): set<Text>
  {
    set key | key in walked && key in packages && StandingOf(packages, key, inherited) == standing
  }

  /** Walking one more key adds it to the packages of its standing and to no others. */
  lemma WalkOne(packages: map<Text, Package>, order: seq<Text>, i: nat, inherited: set<Text>, standing: Standing)
    requires i < |order| && NoDuplicates(order) && order[i] in packages
    ensures |HavingAmong(packages, order[..i + 1], inherited, standing)|
            == |HavingAmong(packages, order[..i], inherited, standing)|
            + if StandingOf(packages, order[i], inherited) == standing then 1 else 0
  {
    assert order[..i + 1] == order[..i] + [order[i]];
    assert order[i] !in order[..i];
    OneMoreWalked(packages, order[..i], order[i], inherited, standing);
  }

  lemma OneMoreWalked(packages: map<Text, Package>, walked: seq<Text>, key: Text, inherited: set<Text>,
                      standing: Standing)
    requires key !in walked && key in packages
    ensures |HavingAmong(packages, walked + [key], inherited, standing)|
         == |HavingAmong(packages, walked, inherited, standing)|
            + if StandingOf(packages, key, inherited) == standing then 1 else 0
  {
    var before := HavingAmong(packages, walked, inherited, standing);
    assert HavingAmong(packages, walked + [key], inherited, standing)
        == before + if StandingOf(packages, key, inherited) == standing then {key} else {};
  }

  ghost predicate Counted(packages: map<Text, Package>, walked: seq<Text>, inherited: set<Text>, counts: Inventory) {
    && counts.licensed == |HavingAmong(packages, walked, inherited, Licensed)|
    && counts.constrained == |HavingAmong(packages, walked, inherited, PlatformConstrained)|
    && counts.inherited == |HavingAmong(packages, walked, inherited, Inherited)|
  }

  function CountOne(counts: Inventory, standing: Standing): Inventory {
    match standing
    case Licensed => counts.(licensed := counts.licensed + 1)
    case PlatformConstrained => counts.(constrained := counts.constrained + 1)
    case Inherited => counts.(inherited := counts.inherited + 1)
  }

  lemma CountedOne(packages: map<Text, Package>, order: seq<Text>, i: nat, inherited: set<Text>, counts: Inventory)
    requires i < |order| && NoDuplicates(order) && order[i] in packages
             && Counted(packages, order[..i], inherited, counts)
    ensures Counted(packages, order[..i + 1], inherited, CountOne(counts, StandingOf(packages, order[i], inherited)))
  {
    WalkOne(packages, order, i, inherited, Licensed);
    WalkOne(packages, order, i, inherited, PlatformConstrained);
    WalkOne(packages, order, i, inherited, Inherited);
  }

  lemma CountedAll(packages: map<Text, Package>, order: seq<Text>, inherited: set<Text>, licences: map<Text, Text>,
                   counts: Inventory)
    requires forall key :: key in order <==> key in packages
    requires Counted(packages, order[..|order|], inherited, counts)
    requires forall j :: 0 <= j < |order| ==> order[j] !in Unlicensed(packages, inherited, licences)
    ensures IsInventory(packages, inherited, licences, Ok(counts))
    ensures counts.licensed + counts.constrained + counts.inherited == |packages|
  {
    assert order[..|order|] == order;
    StandingsPartition(packages, inherited);
    assert HavingAmong(packages, order, inherited, Licensed) == Having(packages, inherited, Licensed);
    assert HavingAmong(packages, order, inherited, PlatformConstrained)
           == Having(packages, inherited, PlatformConstrained);
    assert HavingAmong(packages, order, inherited, Inherited) == Having(packages, inherited, Inherited);
    forall key | key in packages ensures key !in Unlicensed(packages, inherited, licences) {
      assert key in order;
    }
  }

  /** One package: counted under its standing, or refused for want of a licence. */
  method TakeOne(packages: map<Text, Package>, key: Text, inherited: set<Text>, licences: map<Text, Text>,
                 before: Inventory)
    returns (r: Result<Inventory, Text>)
    requires key in packages
    ensures r == if key in Unlicensed(packages, inherited, licences) then Err(key)
                 else Ok(CountOne(before, StandingOf(packages, key, inherited)))
  {
    if Constrained(packages[key]) {
      r := Ok(before.(constrained := before.constrained + 1));
    } else if key in inherited {
      r := Ok(before.(inherited := before.inherited + 1));
    } else if key !in licences {
      r := Err(key);
    } else {
      r := Ok(before.(licensed := before.licensed + 1));
    }
  }

  /** Walks the keys in the order given, up to the first package that needs a licence and has none. */
  method WalkPackages(packages: map<Text, Package>, order: seq<Text>, inherited: set<Text>, licences: map<Text, Text>)
    returns (r: Result<Inventory, Text>, ghost n: nat)
    requires NoDuplicates(order) && forall i :: 0 <= i < |order| ==> order[i] in packages
    ensures n <= |order| && forall j :: 0 <= j < n ==> order[j] !in Unlicensed(packages, inherited, licences)
    ensures r.Ok? ==> n == |order| && Counted(packages, order[..n], inherited, r.value)
    ensures r.Err? ==> n < |order| && r.error == order[n] && order[n] in Unlicensed(packages, inherited, licences)
  {
    var counts := Inventory(0, 0, 0);
    for i := 0 to |order|
      invariant Counted(packages, order[..i], inherited, counts)
      invariant forall j :: 0 <= j < i ==> order[j] !in Unlicensed(packages, inherited, licences)
    {
      CountedOne(packages, order, i, inherited, counts);
      var taken := TakeOne(packages, order[i], inherited, licences, counts);
      if taken.Err? { return taken, i; }
      counts := taken.value;
    }
    r, n := Ok(counts), |order|;
  }

  /** Counts the packages in key order, refusing at the first that needs a licence and has none. */
  method TakeInventory(packages: map<Text, Package>, inherited: set<Text>, licences: map<Text, Text>)
    returns (r: Result<Inventory, Text>)
    ensures IsInventory(packages, inherited, licences, r)
    ensures r.Ok? ==> r.value.licensed + r.value.constrained + r.value.inherited == |packages|
  {
    var order := SortedKeys(packages.Keys);
    assert forall i :: 0 <= i < |order| ==> order[i] in order;
    ghost var n;
    r, n := WalkPackages(packages, order, inherited, licences);
    if r.Ok? {
      CountedAll(packages, order, inherited, licences, r.value);
    } else {
      FirstRefused(packages, order, n, inherited, licences);
    }
  }

  /** In a sorted walk, the first member met is the least. */
  lemma FirstIsLeast(order: seq<Text>, i: nat, members: set<Text>)
    requires i < |order| && Sorted(order, TextOrder()) && forall key :: key in members ==> key in order
    requires forall j :: 0 <= j < i ==> order[j] !in members
    ensures forall key :: key in members ==> AtMost(order[i], key)
  {
    forall key | key in members ensures AtMost(order[i], key) {
      var j :| 0 <= j < |order| && order[j] == key;
      assert TextOrder()(order[i], order[j]);
    }
  }

  lemma FirstRefused(packages: map<Text, Package>, order: seq<Text>, i: nat, inherited: set<Text>,
                     licences: map<Text, Text>)
    requires i < |order| && Sorted(order, TextOrder()) && forall key :: key in order <==> key in packages
    requires forall j :: 0 <= j < i ==> order[j] !in Unlicensed(packages, inherited, licences)
    requires order[i] in Unlicensed(packages, inherited, licences)
    ensures IsInventory(packages, inherited, licences, Err(order[i]))
  {
    FirstIsLeast(order, i, Unlicensed(packages, inherited, licences));
  }

  /** Nobody depends on the package. */
  ghost predicate IsRoot(snapshots: seq<Snapshot>, key: Text) {
    forall parent :: !DependsOn(snapshots, parent, key)
  }

  /** A machine installs it, and it is required directly, or nothing depends on it, or a present package does. */
  ghost predicate MustBePresent(p: Package, key: Text, snapshots: seq<Snapshot>, direct: set<Text>, absent: set<Text>) {
    && !InstallsNowhere(p)
    && (|| key in direct || IsRoot(snapshots, key)
        || exists parent :: DependsOn(snapshots, parent, key) && parent !in absent)
  }

  /** The package names no operating system, processor or C library. */
  predicate NamesNothing(p: Package) {
    p.os == [] && p.cpu == [] && p.libc == []
  }

  /** The packages that name something. */
  function Naming(packages: map<Text, Package>): set<Text> { set key | key in packages && !NamesNothing(packages[key]) }

  /** The packages that name nothing and are not absent: those that need a licence. */
  function InNeed(packages: map<Text, Package>, absent: set<Text>): set<Text> {
    set key | key in packages && NamesNothing(packages[key]) && key !in absent
  }

  /**
   * A package one of the machines installs is present when it is required directly, when nothing depends on it, or
   * when a present package does; a run is refused exactly when a package that names nothing and is not absent has no
   * licence, and otherwise counts those packages, and those that name something.
   */
  ghost predicate FailsClosed(packages: map<Text, Package>, snapshots: seq<Snapshot>, direct: set<Text>,
                              licences: map<Text, Text>, absent: set<Text>, r: Result<Inventory, Text>)
  {
    && (forall key :: key in packages && MustBePresent(packages[key], key, snapshots, direct, absent) ==>
          key !in absent)
    && (r.Err? <==> exists key :: key in InNeed(packages, absent) && key !in licences)
    && (r.Ok? ==> r.value.licensed == |InNeed(packages, absent)| && r.value.constrained == |Naming(packages)|)
  }

  lemma StandingsExactly(packages: map<Text, Package>, seed: set<Text>, absent: set<Text>)
    requires seed == (set key | key in packages && InstallsNowhere(packages[key]))
    ensures Having(packages, absent - seed, PlatformConstrained) == Naming(packages)
    ensures Having(packages, absent - seed, Licensed) == InNeed(packages, absent)
  {}

  lemma PresentFailsClosed(packages: map<Text, Package>, snapshots: seq<Snapshot>, direct: set<Text>,
                           licences: map<Text, Text>, g: Graph, absent: set<Text>, r: Result<Inventory, Text>)
    requires g.keys == packages.Keys && g.direct == direct && Parents(g.parents, snapshots) && IsLeast(g, absent)
    requires g.absent == (set key | key in packages && InstallsNowhere(packages[key]))
    requires IsInventory(packages, absent - g.absent, licences, r)
    ensures FailsClosed(packages, snapshots, direct, licences, absent, r)
  {
    forall key | key in packages && MustBePresent(packages[key], key, snapshots, direct, absent)
      ensures key !in absent
    {
      AbsentExactly(g, absent, key);
      if key in g.parents && g.parents[key] != {} {
        var parent :| parent in g.parents[key];
        assert DependsOn(snapshots, parent, key);
      }
    }
    StandingsExactly(packages, g.absent, absent);
    RefusedExactly(packages, absent - g.absent, licences, r);
  }

  lemma RefusedExactly(packages: map<Text, Package>, inherited: set<Text>, licences: map<Text, Text>,
                       r: Result<Inventory, Text>)
    requires IsInventory(packages, inherited, licences, r)
    ensures r.Err? <==> exists key :: key in Having(packages, inherited, Licensed) && key !in licences
  {
    if key :| key in Having(packages, inherited, Licensed) && key !in licences {
      assert key in Unlicensed(packages, inherited, licences);
    }
  }

  /** The part of `buildSbom` that decides who is inventoried. */
  method Inventoried(packages: map<Text, Package>, snapshots: seq<Snapshot>, direct: set<Text>,
                     licences: map<Text, Text>)
    returns (r: Result<Inventory, Text>, ghost g: Graph, ghost absent: set<Text>)
    ensures g.keys == packages.Keys && g.direct == direct
    ensures g.absent == (set key | key in packages && InstallsNowhere(packages[key]))
    ensures Parents(g.parents, snapshots)
    ensures IsLeast(g, absent)
    ensures IsInventory(packages, absent - g.absent, licences, r)
    ensures r.Ok? ==> r.value.licensed + r.value.constrained + r.value.inherited == |packages|
    ensures FailsClosed(packages, snapshots, direct, licences, absent, r)
  {
    var parents := CollectParents(snapshots);
    var gone := set key | key in packages && Constrained(packages[key]) && !InstallsSomewhere(packages[key]);
    g := Graph(packages.Keys, gone, parents, direct);
    var order := SortedKeys(packages.Keys);
    forall key | key in packages
      ensures Constrained(packages[key]) && !InstallsSomewhere(packages[key]) <==> InstallsNowhere(packages[key])
    {
      NowhereExactly(packages[key]);
    }
    var everywhere, inherited;
    ghost var rank;
    everywhere, inherited, rank := InheritAbsence(Graph(packages.Keys, gone, parents, direct), order);
    absent := everywhere;
    r := TakeInventory(packages, inherited, licences);
    PresentFailsClosed(packages, snapshots, direct, licences, g, absent, r);
  }
}
