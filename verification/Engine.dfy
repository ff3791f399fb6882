/** The second half of `clusterEligible`: reports, the incident stage, assembly, and the whole run. */
module Engine {
  import opened Decimals
  import opened Texts
  import opened Sorting
  import opened Sequences
  import opened Partitions
  import opened Components
  import opened UnionFinds
  import opened Merging
  import opened Blocking
  import opened Similarity
  import opened Clusters
  import opened Stages
  import opened Runs
  import opened EngineSteps

  // ----------------------------------------------------------------- reports

  /** `index` files every unit of the first `n` reports under its report. */
  ghost predicate FilesUnits(index: map<nat, nat>, root: seq<nat>, n: nat)
  {
    && IsPartition(root)
    && (forall u: nat :: u in index <==> u < |root| && PositionOf(root, u) < n)
    && (forall u: nat :: u in index ==> index[u] == PositionOf(root, u))
  }

  method FileUnits(component: seq<nat>, position: nat, index0: map<nat, nat>, ghost root: seq<nat>)
    returns (index: map<nat, nat>)
    requires FilesUnits(index0, root, position)
    requires position < |Roots(root)| && component == ComponentLists(root)[position]
    ensures FilesUnits(index, root, position + 1)
  {
    index := index0;
    for i := 0 to |component|
      invariant forall u: nat :: u in index <==> u in index0 || u in component[..i]
      invariant forall u: nat :: u in index ==> index[u] == if u in component[..i] then position else index0[u]
    {
      TakeOneMore<nat>(component, i);
      index := index[component[i] := position];
    }
    assert component[..|component|] == component;
    forall u: nat | u < |root| ensures u in component <==> PositionOf(root, u) == position { PositionLaws(root, u); }
    MembersLaws(root, Roots(root)[position]);
  }

  method BuildReports(units: seq<Unit>, lists: seq<seq<nat>>, ghost root: seq<nat>, c: Contract)
    returns (reports: seq<Report>, unitToReport: map<nat, nat>)
    requires IsPartition(root) && |root| == |units| && lists == ComponentLists(root)
    ensures reports == ReportsOf(units, root, c)
    ensures FilesUnits(unitToReport, root, |reports|)
  {
    reports, unitToReport := [], map[];
    ghost var all := ReportsOf(units, root, c);
    for k := 0 to |lists|
      invariant reports == all[..k]
      invariant FilesUnits(unitToReport, root, k)
    {
      MembersLaws(root, Roots(root)[k]);
      SortAscending(lists[k]);
      var ordered := Sort<nat>(lists[k], NatOrder());
      unitToReport := FileUnits(ordered, k, unitToReport, root);
      TakeOneMore(all, k);
      assert all[k] == ReportAt(units, root, k, c);
      reports := reports + [ReportOf(units, ordered, c)];
    }
    assert all[..|lists|] == all;
  }

  method WeighReports(reports: seq<Report>, weights: seq<nat>, ghost root: seq<nat>) returns (w: seq<nat>)
    requires |root| == |weights| && |reports| == |Roots(root)|
    requires forall k :: 0 <= k < |reports| ==> reports[k].unitIndexes == Members(root, Roots(root)[k])
    ensures |w| == |reports|
    ensures forall k :: 0 <= k < |w| ==>
              && IndexesInto(Members(root, Roots(root)[k]), |weights|)
              && w[k] == SumAt(weights, Members(root, Roots(root)[k]))
  {
    w := [];
    for k := 0 to |reports|
      invariant |w| == k
      invariant forall i :: 0 <= i < k ==>
                  && IndexesInto(Members(root, Roots(root)[i]), |weights|)
                  && w[i] == SumAt(weights, Members(root, Roots(root)[i]))
    {
      MembersLaws(root, Roots(root)[k]);
      var total := AddWeights(weights, reports[k].unitIndexes);
      w := w + [total];
    }
  }

  method AddWeights(weights: seq<nat>, idx: seq<nat>) returns (total: nat)
    requires IndexesInto(idx, |weights|)
    ensures total == SumAt(weights, idx)
  {
    total := 0;
    for i := 0 to |idx|
      invariant IndexesInto(idx[..i], |weights|) && total == SumAt(weights, idx[..i])
    {
      TakeOneMore<nat>(idx, i);
      total := total + weights[idx[i]];
    }
    assert idx[..|idx|] == idx;
  }

  // ----------------------------------------------------------------- stage 3

  method SharedRareCount(left: seq<Text>, right: seq<Text>, frequency: map<Text, nat>, rarityCap: nat,
                         ghost items: seq<seq<Text>>)
    returns (rare: nat)
    requires forall t :: Get(frequency, t) == Frequency(items, t)
    ensures rare == RareShared(left, right, items, rarityCap)
  {
    var lookup := set t | t in right;
    rare := 0;
    for i := 0 to |left|
      invariant rare == RareShared(left[..i], right, items, rarityCap)
    {
      TakeOneMore<Text>(left, i);
      if left[i] in lookup && Get(frequency, left[i]) <= rarityCap { rare := rare + 1; }
    }
    assert left[..|left|] == left;
  }

  ghost predicate ReportsValid(reports: seq<Report>) {
    forall i :: 0 <= i < |reports| ==> NoDuplicates(reports[i].distinctive)
  }

  method ReadEvidence(reports: seq<Report>, frequency: map<Text, nat>, p: Pair, c: Contract) returns (e: Evidence)
    requires ReportsValid(reports) && p.0 < |reports| && p.1 < |reports|
    requires forall t :: Get(frequency, t) == Frequency(ReportItems(reports), t)
    ensures e == EvidenceOf(reports, p.0, p.1, c)
  {
    var a, b := reports[p.0], reports[p.1];
    var rarityCap := MaximumFrequency(|reports|, c.rareTokenDocumentFrequencyRatio);
    var shared := SharedCount(a.distinctive, b.distinctive);
    var rare := SharedRareCount(a.distinctive, b.distinctive, frequency, rarityCap, ReportItems(reports));
    var score := SimilarityOf(a.distinctive, b.distinctive, c.measure);
    var bothTimed := a.earliest.Some? && b.earliest.Some?;
    var withinWindow := c.missingTimestampBehaviour == Allow;
    if bothTimed {
      withinWindow := Apart(a.earliest.value, b.earliest.value) as real <= c.timeWindowHours * 3600.0 * 1000.0;
    }
    e := Evidence(shared, rare, score,
                  shared >= c.minimumSharedDistinctiveTokens && rare >= c.minimumSharedRareTokens,
                  score >= c.incidentThreshold, bothTimed, withinWindow);
  }

  /** The running variables of the incident loop. */
  datatype Progress = Progress(
    refused: set<nat>,
    refusals: nat,
    timed: set<nat>,
    untimed: set<nat>,
    links: seq<AmbiguousLink>,
    full: nat)

  /** They agree with the functions of the pairs taken so far. */
  ghost predicate Tracks(root: seq<nat>, g: Progress, reports: seq<Report>, m: Merge, l: Links) {
    && Agrees(root, g.refused, g.refusals, m)
    && g.timed == RootsRecorded(reports, m.unions, true)
    && g.untimed == RootsRecorded(reports, m.unions, false)
    && g.links == l.links && g.full == l.full
  }

  lemma RootsRecordedSnoc(reports: seq<Report>, unions: seq<Union>, u: Union, timed: bool)
    ensures RootsRecorded(reports, unions + [u], timed)
            == RootsRecorded(reports, unions, timed) + if TimedPair(reports, u) == timed then {u.root} else {}
  {
    var all := unions + [u];
    forall r ensures r in RootsRecorded(reports, all, timed) <==>
                     r in RootsRecorded(reports, unions, timed) || (TimedPair(reports, u) == timed && r == u.root)
    {
      if r in RootsRecorded(reports, unions, timed) {
        var k :| 0 <= k < |unions| && TimedPair(reports, unions[k]) == timed && unions[k].root == r;
        assert all[k] == unions[k];
      }
      if TimedPair(reports, u) == timed && r == u.root { assert all[|unions|] == u; }
    }
  }

  /** A supported pair: merged and its root recorded, or marked as refused. */
  method MergeSupported(sets: UnionFind, reports: seq<Report>, p: Pair, bothTimed: bool, c: Contract, g0: Progress,
                        ghost before: seq<Pair>, ghost l: Links)
    returns (g: Progress)
    requires sets.Valid() && |sets.Weights| == |reports| && p.0 < |reports| && p.1 < |reports|
    requires bothTimed == (reports[p.0].earliest.Some? && reports[p.1].earliest.Some?)
    requires Within(before, |reports|)
    requires Tracks(sets.Root, g0, reports, MergeAll(sets.Weights, c.maximumClusterSize, before), l)
    modifies sets`Root, sets.parent, sets.size
    ensures sets.Valid()
    ensures Within(before + [p], |reports|)
    ensures Tracks(sets.Root, g, reports, MergeAll(sets.Weights, c.maximumClusterSize, before + [p]), l)
  {
    ghost var m := MergeAll(sets.Weights, c.maximumClusterSize, before);
    MergeSnoc(sets.Weights, c.maximumClusterSize, before, p);
    var admitted, joined, root := MergePair(sets, p.0, p.1, c.maximumClusterSize, m);
    g := g0;
    if joined {
      RootsRecordedSnoc(reports, m.unions, Union(p.0, p.1, root), true);
      RootsRecordedSnoc(reports, m.unions, Union(p.0, p.1, root), false);
      if bothTimed {
        g := g.(timed := g.timed + {root});
      } else {
        g := g.(untimed := g.untimed + {root});
      }
    } else if !admitted {
      g := g.(refused := g.refused + {p.0, p.1}, refusals := g.refusals + 1);
    }
  }

  /** A pair the evidence does not support: recorded as a link when worth it, and counted when the list is full. */
  method RecordUnsupported(reports: seq<Report>, p: Pair, e: Evidence, c: Contract, g0: Progress) returns (g: Progress)
    requires p.0 < |reports| && p.1 < |reports|
    ensures g == if |g0.links| >= c.maximumAmbiguousLinks then g0.(full := g0.full + 1)
                 else if WorthRecording(e, c) then g0.(links := g0.links + [LinkOf(reports, p, e)])
                 else g0
  {
    g := g0;
    if |g.links| < c.maximumAmbiguousLinks && WorthRecording(e, c) {
      var codes := [AmbiguousBelowThreshold];
      if e.enoughSignals && e.enoughSimilarity && !e.withinWindow { codes := [AmbiguousOutsideTimeWindow]; }
      if !e.bothTimed { codes := codes + [TimestampAbsent]; } else { assert codes + [] == codes; }
      g := g.(links := g.links + [AmbiguousLink(reports[p.0].fingerprint, reports[p.1].fingerprint, codes,
                                                Truncate6(e.score), e.shared, e.rare)]);
    } else if |g.links| >= c.maximumAmbiguousLinks {
      g := g.(full := g.full + 1);
    }
  }

  lemma SupportedSnoc(reports: seq<Report>, pairs: seq<Pair>, i: nat, c: Contract)
    requires i < |pairs| && Within(pairs, |reports|)
    ensures Within(pairs[..i], |reports|) && Within(pairs[..i + 1], |reports|)
    ensures var e := EvidenceOf(reports, pairs[i].0, pairs[i].1, c);
            && SupportedPairs(reports, pairs[..i + 1], c)
               == SupportedPairs(reports, pairs[..i], c) + (if e.Supported() then [pairs[i]] else [])
            && (e.Supported() ==> LinksOf(reports, pairs[..i + 1], c) == LinksOf(reports, pairs[..i], c))
  {
    TakeOneMore<Pair>(pairs, i);
  }

  method TakePair(sets: UnionFind, reports: seq<Report>, frequency: map<Text, nat>, pairs: seq<Pair>, i: nat,
                  c: Contract, g0: Progress)
    returns (g: Progress)
    requires sets.Valid() && |sets.Weights| == |reports| && ReportsValid(reports)
    requires i < |pairs| && Within(pairs, |reports|) && Within(pairs[..i], |reports|)
    requires forall t :: Get(frequency, t) == Frequency(ReportItems(reports), t)
    requires Tracks(sets.Root, g0, reports,
                    MergeAll(sets.Weights, c.maximumClusterSize, SupportedPairs(reports, pairs[..i], c)),
                    LinksOf(reports, pairs[..i], c))
    modifies sets`Root, sets.parent, sets.size
    ensures sets.Valid()
    ensures Within(pairs[..i + 1], |reports|)
    ensures Tracks(sets.Root, g, reports,
                   MergeAll(sets.Weights, c.maximumClusterSize, SupportedPairs(reports, pairs[..i + 1], c)),
                   LinksOf(reports, pairs[..i + 1], c))
  {
    TakeOneMore<Pair>(pairs, i);
    SupportedSnoc(reports, pairs, i, c);
    ghost var before, l := SupportedPairs(reports, pairs[..i], c), LinksOf(reports, pairs[..i], c);
    var e := ReadEvidence(reports, frequency, pairs[i], c);
    if e.Supported() {
      g := MergeSupported(sets, reports, pairs[i], e.bothTimed, c, g0, before, l);
    } else {
      g := RecordUnsupported(reports, pairs[i], e, c, g0);
      assert before + [] == before;
    }
  }

  method MergeIncidents(reports: seq<Report>, weights: seq<nat>, pairs: seq<Pair>, c: Contract)
    returns (sets: UnionFind, g: Progress)
    requires ReportsValid(reports) && |weights| == |reports| && Within(pairs, |reports|)
    ensures fresh(sets) && fresh(sets.parent) && fresh(sets.size) && sets.Valid() && sets.Weights == weights
    ensures Tracks(sets.Root, g, reports, MergeAll(weights, c.maximumClusterSize, SupportedPairs(reports, pairs, c)),
                   LinksOf(reports, pairs, c))
  {
    sets := new UnionFind(weights);
    var frequency := CountFrequencies(ReportItems(reports));
    g := Progress({}, 0, {}, {}, [], 0);
    for i := 0 to |pairs|
      invariant fresh(sets) && fresh(sets.parent) && fresh(sets.size) && sets.Valid() && sets.Weights == weights
      invariant Within(pairs[..i], |reports|)
      invariant Tracks(sets.Root, g, reports,
                       MergeAll(weights, c.maximumClusterSize, SupportedPairs(reports, pairs[..i], c)),
                       LinksOf(reports, pairs[..i], c))
    {
      g := TakePair(sets, reports, frequency, pairs, i, c, g);
    }
    assert pairs[..|pairs|] == pairs;
  }

  // ---------------------------------------------------------------- assembly

  /** The concrete variables the assembly reads, and the run they hold. */
  ghost predicate Holds(r: Run, units: seq<Unit>, reports: seq<Report>, unitToReport: map<nat, nat>) {
    && WellShaped(r)
    && r.units == units && r.reports == reports
    && FilesUnits(unitToReport, r.syndication.root, |reports|)
  }

  method UnitsOfReports(reports: seq<Report>, component: seq<nat>, ghost r: Run) returns (idx: seq<nat>)
    requires WellShaped(r) && r.reports == reports && IndexesInto(component, |reports|)
    ensures idx == Gather<nat>(ReportUnits(r), component)
  {
    idx := [];
    for i := 0 to |component|
      invariant IndexesInto(component[..i], |reports|) && idx == Gather<nat>(ReportUnits(r), component[..i])
    {
      TakeOneMore<nat>(component, i);
      idx := idx + reports[component[i]].unitIndexes;
    }
    assert component[..|component|] == component;
  }

  method MembersOfOneUnit(unit: Unit, syndication: Text) returns (members: seq<ClusterMember>)
    ensures members == MembersOfUnit(unit, syndication)
  {
    members := [];
    ghost var all := MembersOfUnit(unit, syndication);
    for i := 0 to |unit.members|
      invariant members == all[..i]
    {
      var row := unit.members[i];
      TakeOneMore(all, i);
      members := members + [ClusterMember(row.sourceRowId, row.rowHash, row.classificationResultId, row.decision,
                                          unit.fingerprint, syndication)];
    }
    assert all[..|unit.members|] == all;
  }

  method CollectMembers(units: seq<Unit>, reports: seq<Report>, unitToReport: map<nat, nat>, idx: seq<nat>,
                        ghost r: Run)
    returns (members: seq<ClusterMember>)
    requires Holds(r, units, reports, unitToReport) && IndexesInto(idx, |units|)
    ensures members == Gather<ClusterMember>(MemberBlocks(r), idx)
  {
    members := [];
    for i := 0 to |idx|
      invariant IndexesInto(idx[..i], |units|) && members == Gather<ClusterMember>(MemberBlocks(r), idx[..i])
    {
      TakeOneMore<nat>(idx, i);
      PositionLaws(r.syndication.root, idx[i]);
      var block := MembersOfOneUnit(units[idx[i]], reports[unitToReport[idx[i]]].fingerprint);
      assert block == MemberBlocks(r)[idx[i]];
      members := members + block;
    }
    assert idx[..|idx|] == idx;
  }

  method SomeIn(idx: seq<nat>, marked: set<nat>) returns (found: bool)
    ensures found == AnyIn(idx, marked)
  {
    found := false;
    for i := 0 to |idx|
      invariant found <==> exists j :: 0 <= j < i && idx[j] in marked
    {
      if idx[i] in marked { found := true; }
    }
  }

  method SomeDuplicated(units: seq<Unit>, idx: seq<nat>) returns (found: bool)
    requires IndexesInto(idx, |units|)
    ensures found == AnyDuplicated(units, idx)
  {
    found := false;
    for i := 0 to |idx|
      invariant found <==> exists j :: 0 <= j < i && |units[idx[j]].members| > 1
    {
      if |units[idx[i]].members| > 1 { found := true; }
    }
  }

  /** The marks the two merge stages left, as the assembly reads them. */
  datatype Marks = Marks(refusedUnits: set<nat>, refusedReports: set<nat>, timed: set<nat>, untimed: set<nat>)

  ghost predicate Marked(r: Run, k: Marks, c: Contract) {
    && k.refusedUnits == RefusedUnits(r, c)
    && k.refusedReports == r.incidents.refused
    && k.timed == RootsRecorded(r.reports, r.incidents.unions, true)
    && k.untimed == RootsRecorded(r.reports, r.incidents.unions, false)
  }

  method CollectCodes(units: seq<Unit>, component: seq<nat>, idx: seq<nat>, rows: nat, root: nat, marks: Marks,
                      ghost r: Run, ghost k: nat, ghost c: Contract)
    returns (codes: seq<ReasonCode>)
    requires WellShaped(r) && r.units == units && Marked(r, marks, c) && k < |Roots(r.incidents.root)|
    requires component == ClusterReports(r, k) && idx == ClusterUnits(r, k)
    requires rows == |ClusterMembers(r, k)| && root == Roots(r.incidents.root)[k]
    ensures codes == CodesOf(r, k, c)
  {
    var duplicated := SomeDuplicated(units, idx);
    var refusedReport := SomeIn(component, marks.refusedReports);
    var refusedUnit := SomeIn(idx, marks.refusedUnits);
    codes := if rows == 1 then [SingletonSource] else [];
    codes := codes + if duplicated then [ExactUrlDuplicate] else [];
    codes := codes + if |idx| > |component| then [SyndicatedText] else [];
    assert codes == ShapeCodes(r, k);
    var signals := [];
    if |component| > 1 {
      signals := [SharedIncidentSignals];
      signals := signals + if root in marks.timed then [TimeProximity] else [];
      signals := signals + if root in marks.untimed then [TimestampAbsent] else [];
    }
    assert signals == SignalCodes(r, k);
    codes := codes + signals;
    codes := codes + if refusedReport || refusedUnit then [ClusterBoundReached] else [];
  }

  method AssembleCluster(units: seq<Unit>, reports: seq<Report>, unitToReport: map<nat, nat>, component: seq<nat>,
                         root: nat, marks: Marks, c: Contract, ghost r: Run, ghost k: nat)
    returns (cluster: IncidentCluster)
    requires Holds(r, units, reports, unitToReport) && Marked(r, marks, c) && k < |Roots(r.incidents.root)|
    requires component == ClusterReports(r, k) && root == Roots(r.incidents.root)[k]
    ensures cluster == ClusterAt(r, k, c)
  {
    ClusterIsInhabited(r, k);
    var idx := UnitsOfReports(reports, component, r);
    var collected := CollectMembers(units, reports, unitToReport, idx, r);
    var members := Sort(collected, ByMemberId());
    var codes := CollectCodes(units, component, idx, |members|, root, marks, r, k, c);
    var representative := RepresentativeOf(Representatives(units, idx), c.representativeRule);
    cluster := IncidentCluster(c.fingerprintOf([INCIDENT_TAG] + MemberIds(members)),
                               KindOf(|members|, |idx|, |component|), codes, representative.sourceRowId,
                               |idx|, |component|, members);
  }

  lemma ComponentInOrder(root: seq<nat>, k: nat)
    requires IsPartition(root) && k < |Roots(root)|
    ensures Sort<nat>(ComponentLists(root)[k], NatOrder()) == ComponentLists(root)[k] != []
    ensures ComponentLists(root)[k][0] < |root| && root[ComponentLists(root)[k][0]] == Roots(root)[k]
  {
    var list := ComponentLists(root)[k];
    RootsUpToLaws(root, |root|);
    MembersLaws(root, Roots(root)[k]);
    assert Roots(root)[k] in Roots(root);
    SortAscending(list);
    assert Roots(root)[k] in list;
    assert list[0] in list;
  }

  method AssembleComponent(sets: UnionFind, component: seq<nat>, units: seq<Unit>, reports: seq<Report>,
                           unitToReport: map<nat, nat>, marks: Marks, c: Contract, ghost r: Run, ghost k: nat)
    returns (cluster: IncidentCluster)
    requires sets.Valid() && sets.Root == r.incidents.root
    requires Holds(r, units, reports, unitToReport) && Marked(r, marks, c)
    requires k < |Roots(sets.Root)| && component == ComponentLists(sets.Root)[k]
    modifies sets.parent
    ensures sets.Valid() && cluster == ClusterAt(r, k, c)
  {
    ComponentInOrder(sets.Root, k);
    var ordered := Sort<nat>(component, NatOrder());
    var root := sets.Find(ordered[0]);
    cluster := AssembleCluster(units, reports, unitToReport, ordered, root, marks, c, r, k);
  }

  method AssembleClusters(sets: UnionFind, units: seq<Unit>, reports: seq<Report>, unitToReport: map<nat, nat>,
                          marks: Marks, c: Contract, ghost r: Run)
    returns (clusters: seq<IncidentCluster>)
    requires sets.Valid() && sets.Root == r.incidents.root
    requires Holds(r, units, reports, unitToReport) && Marked(r, marks, c)
    modifies sets.parent
    ensures clusters == ClustersOf(r, c)
  {
    var lists := ComponentsOf(sets);
    clusters := [];
    ghost var all := ClustersOf(r, c);
    for k := 0 to |lists|
      invariant sets.Valid() && clusters == all[..k]
    {
      var cluster := AssembleComponent(sets, lists[k], units, reports, unitToReport, marks, c, r, k);
      TakeOneMore(all, k);
      assert cluster == all[k];
      clusters := clusters + [cluster];
    }
    assert all[..|lists|] == all;
  }

  method CountMembers(clusters: seq<IncidentCluster>) returns (single: nat, multi: nat, largest: nat)
    ensures single == CountSize(clusters, true) && multi == CountSize(clusters, false) && largest == Largest(clusters)
  {
    single, multi, largest := 0, 0, 0;
    for i := 0 to |clusters|
      invariant single == CountSize(clusters[..i], true) && multi == CountSize(clusters[..i], false)
      invariant largest == Largest(clusters[..i])
    {
      TakeOneMore(clusters, i);
      if |clusters[i].members| == 1 { single := single + 1; }
      if |clusters[i].members| > 1 { multi := multi + 1; }
      largest := Max(largest, |clusters[i].members|);
    }
    assert clusters[..|clusters|] == clusters;
  }

  // ------------------------------------------------------------ the whole run

  lemma ReportsAreValid(units: seq<Unit>, root: seq<nat>, c: Contract)
    requires |root| == |units|
    ensures ReportsValid(ReportsOf(units, root, c)) && ItemsValid(ReportItems(ReportsOf(units, root, c)))
  {
    var reports := ReportsOf(units, root, c);
    forall k | 0 <= k < |reports| ensures NoDuplicates(reports[k].distinctive) {
      MembersLaws(root, Roots(root)[k]);
      var tokens := Gather<Text>(UnitItems(units), Members(root, Roots(root)[k]));
      DistinctMembers(tokens);
      MultisetNoDuplicates(Distinct(tokens), Sort(Distinct(tokens), TextOrder()));
      assert reports[k] == ReportAt(units, root, k, c);
    }
  }

  /** `clusterEligible`: the same clusters, links and stats as the functional description, or the same refusal. */
  method ClusterEligible(inputs: seq<Input>, c: Contract) returns (outcome: Result<Clustering, Refusal>)
    ensures RefusalOf(inputs, c).Some? <==> !Accepted(inputs, c)
    ensures RefusalOf(inputs, c).Some? ==> outcome == Err(RefusalOf(inputs, c).value)
    ensures Accepted(inputs, c) ==> outcome == OutcomeOf(inputs, c)
  {
    var refusal := AssertInputs(inputs, c);
    if refusal.Some? {
      outcome := Err(refusal.value);
    } else {
      outcome := ClusterAccepted(inputs, c);
    }
  }

  method ClusterAccepted(inputs: seq<Input>, c: Contract) returns (outcome: Result<Clustering, Refusal>)
    requires Accepted(inputs, c)
    ensures outcome == OutcomeOf(inputs, c)
  {
    var rows := EligibleSorted(inputs, c);
    EligibleAreFewer(inputs, c);
    ghost var r := RunOf(rows, c);
    RunOfIsRun(rows, c);
    UnitsAreValid(rows, c);
    var units := BuildUnits(rows, c);
    var weights := UnitWeights(units, c);
    var oversized, boundsReached, refused := MarkOversized(weights, c);
    if refused {
      outcome := Err(ExactDuplicateGroupExceedsLimit(c.maximumClusterSize));
    } else {
      var clustering := ClusterFrom(|rows|, |inputs|, units, weights, oversized, boundsReached, c, r);
      outcome := Ok(clustering);
    }
  }

  /** The merges of stage 2 and the reports they leave. */
  method FindReports(units: seq<Unit>, weights: seq<nat>, pairs: seq<Pair>, c: Contract, ghost r: Run)
    returns (refused: set<nat>, refusals: nat, reports: seq<Report>, unitToReport: map<nat, nat>)
    requires IsRun(r, c) && r.units == units && r.weights == weights && r.stage2.pairs == pairs && UnitsValid(units)
    ensures refused == r.syndication.refused && refusals == r.syndication.refusals
    ensures Holds(r, units, reports, unitToReport)
    ensures ReportsValid(reports) && ItemsValid(ReportItems(reports))
  {
    var sets;
    sets, refused, refusals := MergeSyndicated(units, weights, pairs, c);
    assert sets.Root == r.syndication.root;
    var lists := ComponentsOf(sets);
    reports, unitToReport := BuildReports(units, lists, r.syndication.root, c);
    ReportsAreValid(units, r.syndication.root, c);
  }

  /** Stage 2, with the marks and the bounds the duplicate groups have left so far. */
  method SecondStage(units: seq<Unit>, weights: seq<nat>, oversized: set<nat>, bounds0: nat, c: Contract, ghost r: Run)
    returns (stage2: Candidates, refusedUnits: set<nat>, bounds: nat, reports: seq<Report>, unitToReport: map<nat, nat>)
    requires IsRun(r, c) && r.units == units && r.weights == weights && UnitsValid(units)
             && ItemsValid(UnitItems(units))
    requires oversized == Oversized(weights, c.maximumClusterSize) && bounds0 == |oversized|
    ensures stage2 == r.stage2 && refusedUnits == RefusedUnits(r, c)
    ensures bounds == |oversized| + stage2.bounds + r.syndication.refusals
    ensures Holds(r, units, reports, unitToReport)
    ensures ReportsValid(reports) && ItemsValid(ReportItems(reports))
  {
    stage2 := CandidatePairs(UnitItems(units), c.blocking, c.hash32);
    var refused, refusals;
    refused, refusals, reports, unitToReport := FindReports(units, weights, stage2.pairs, c, r);
    refusedUnits, bounds := oversized + refused, bounds0 + stage2.bounds + refusals;
  }

  method ClusterFrom(rows: nat, received: nat, units: seq<Unit>, weights: seq<nat>, oversized: set<nat>,
                     bounds0: nat, c: Contract, ghost r: Run)
    returns (clustering: Clustering)
    requires IsRun(r, c) && r.units == units && r.weights == weights && rows == |r.rows| <= received
    requires UnitsValid(units) && ItemsValid(UnitItems(units))
    requires oversized == Oversized(weights, c.maximumClusterSize) && bounds0 == |oversized|
    ensures clustering == ClusteringOf(r, received, c)
  {
    var stage2, refusedUnits, bounds, reports, unitToReport := SecondStage(units, weights, oversized, bounds0, c, r);
    clustering := ClusterReported(rows, received, units, weights, reports, unitToReport, stage2, refusedUnits, bounds,
                                  c, r);
  }

  method FindIncidents(units: seq<Unit>, weights: seq<nat>, reports: seq<Report>, c: Contract, ghost r: Run)
    returns (sets: UnionFind, g: Progress, stage3: Candidates)
    requires IncidentStage(r, c) && r.units == units && r.weights == weights && r.reports == reports
    requires ReportsValid(reports) && ItemsValid(ReportItems(reports))
    ensures fresh(sets) && fresh(sets.parent) && fresh(sets.size) && sets.Valid()
    ensures stage3 == r.stage3 && Tracks(sets.Root, g, reports, r.incidents, r.links)
  {
    var reportWeights := WeighReports(reports, weights, r.syndication.root);
    assert reportWeights == r.reportWeights;
    stage3 := CandidatePairs(ReportItems(reports), c.blocking, c.hash32);
    sets, g := MergeIncidents(reports, reportWeights, stage3.pairs, c);
  }

  method ClusterReported(rows: nat, received: nat, units: seq<Unit>, weights: seq<nat>, reports: seq<Report>,
                         unitToReport: map<nat, nat>, stage2: Candidates, refusedUnits: set<nat>, bounds0: nat,
                         c: Contract, ghost r: Run)
    returns (clustering: Clustering)
    requires IncidentStage(r, c) && Holds(r, units, reports, unitToReport) && rows == |r.rows| <= received
    requires r.weights == weights && r.stage2 == stage2 && refusedUnits == RefusedUnits(r, c)
    requires ReportsValid(reports) && ItemsValid(ReportItems(reports))
    requires bounds0 == |Oversized(weights, c.maximumClusterSize)| + stage2.bounds + r.syndication.refusals
    ensures clustering == ClusteringOf(r, received, c)
  {
    var incidents, g, stage3 := FindIncidents(units, weights, reports, c, r);
    var marks := Marks(refusedUnits, g.refused, g.timed, g.untimed);
    var assembled := AssembleClusters(incidents, units, reports, unitToReport, marks, c, r);
    var bounds := bounds0 + stage3.bounds + g.refusals + g.full;
    clustering := Finish(assembled, g.links, received, rows, |units|, |reports|, stage2, stage3, bounds, c, r);
  }

  /** What is returned is the clustering of the run. */
  method Finish(assembled: seq<IncidentCluster>, recorded: seq<AmbiguousLink>, received: nat, rows: nat, units: nat,
                reports: nat, stage2: Candidates, stage3: Candidates, bounds: nat, ghost c: Contract, ghost r: Run)
    returns (clustering: Clustering)
    requires WellShaped(r) && rows == |r.rows| <= received && units == |r.units| && reports == |r.reports|
    requires assembled == ClustersOf(r, c) && recorded == r.links.links
    requires stage2 == r.stage2 && stage3 == r.stage3 && bounds == BoundsReached(r, c)
    ensures clustering == ClusteringOf(r, received, c)
  {
    clustering := OrderAndCount(assembled, recorded, received, rows, units, reports, stage2, stage3, bounds);
  }

  /** The final orders and the stats. */
  method OrderAndCount(assembled: seq<IncidentCluster>, recorded: seq<AmbiguousLink>, received: nat, rows: nat,
                       units: nat, reports: nat, stage2: Candidates, stage3: Candidates, bounds: nat)
    returns (clustering: Clustering)
    requires rows <= received
    ensures var clusters := Sort(assembled, ByFingerprint());
            clustering == Clustering(clusters, Sort(recorded, ByEnds()),
              Stats(rows, received - rows, units, reports, |clusters|, CountSize(clusters, true),
                    CountSize(clusters, false), Largest(clusters), |recorded|,
                    stage2.comparisons + stage3.comparisons, stage2.iterations + stage3.iterations, bounds))
  {
    var clusters := Sort(assembled, ByFingerprint());
    var links := Sort(recorded, ByEnds());
    var single, multi, largest := CountMembers(clusters);
    clustering := Clustering(clusters, links,
      Stats(rows, received - rows, units, reports, |clusters|, single, multi, largest, |links|,
            stage2.comparisons + stage3.comparisons, stage2.iterations + stage3.iterations, bounds));
  }
}
