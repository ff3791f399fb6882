/** The baseline is robust and symmetric, and no spike is labelled without the evidence for it. */
module AnomalyLaws {
  import opened Decimals
  import opened Texts
  import opened Sorting
  import opened Sequences
  import opened Anomaly

  // ---------------------------------------------------------------- counting

  function AtMostFlag(m: real): real -> nat { (x: real) => if x <= m then 1 else 0 }
  function AtLeastFlag(m: real): real -> nat { (x: real) => if x >= m then 1 else 0 }

  lemma {:induction false} CountFirst(s: seq<real>, f: real -> nat, n: nat)
    requires n <= |s| && forall i :: 0 <= i < n ==> f(s[i]) >= 1
    ensures SumMap(s, f) >= n
  {
    if s != [] { CountFirst(s[..|s| - 1], f, if n == |s| then n - 1 else n); }
  }

  lemma {:induction false} CountLast(s: seq<real>, f: real -> nat, n: nat)
    requires n <= |s| && forall i :: |s| - n <= i < |s| ==> f(s[i]) >= 1
    ensures SumMap(s, f) >= n
  {
    if n > 0 { CountLast(s[..|s| - 1], f, n - 1); }
  }

  /** Flags of at most one leave room for every index they miss. */
  lemma {:induction false} CountOutside(s: seq<real>, f: real -> nat, missed: set<nat>)
    requires forall x :: f(x) <= 1
    requires forall i :: i in missed ==> i < |s| && f(s[i]) == 0
    ensures SumMap(s, f) + |missed| <= |s|
  {
    if s == [] {
      assert missed == {};
    } else {
      var n := |s| - 1;
      assert forall i :: i in missed - {n} ==> i < n && s[..n][i] == s[i];
      CountOutside(s[..n], f, missed - {n});
    }
  }

  ghost predicate Rising(s: seq<real>) {
    forall i, j :: 0 <= i <= j < |s| ==> s[i] <= s[j]
  }

  lemma SortRises(values: seq<real>)
    ensures Rising(Sort(values, RealOrder()))
  {
    var s, leq := Sort(values, RealOrder()), RealOrder();
    assert TotalPreorder(leq);
    SortSorted(values, leq);
    forall i, j | 0 <= i <= j < |s| ensures s[i] <= s[j] { assert leq(s[i], s[j]); }
  }

  lemma RisingUnique(a: seq<real>, b: seq<real>)
    requires Rising(a) && Rising(b) && multiset(a) == multiset(b)
    ensures a == b
  {
    var leq := RealOrder();
    assert Sorted(a, leq) && Sorted(b, leq) && Distinguishes(a, leq);
    SortedUnique(a, b, leq);
  }

  lemma MiddleSplits(s: seq<real>)
    requires s != [] && Rising(s)
    ensures 2 * SumMap(s, AtMostFlag(Middle(s))) >= |s|
    ensures 2 * SumMap(s, AtLeastFlag(Middle(s))) >= |s|
  {
    var m, half := Middle(s), |s| / 2;
    var n := |s| - half;
    if |s| % 2 == 0 { assert s[half - 1] <= s[half]; }
    forall i | 0 <= i < n ensures s[i] <= m {
      if |s| % 2 == 1 { assert s[i] <= s[half]; } else { assert s[i] <= s[half - 1]; }
    }
    forall i | |s| - n <= i < |s| ensures s[i] >= m {
      assert s[half] <= s[i];
    }
    CountFirst(s, AtMostFlag(m), n);
    CountLast(s, AtLeastFlag(m), n);
  }

  lemma PermutedSplits(values: seq<real>, s: seq<real>)
    requires s != [] && Rising(s) && multiset(values) == multiset(s) && |values| == |s|
    ensures 2 * SumMap(values, AtMostFlag(Middle(s))) >= |values|
    ensures 2 * SumMap(values, AtLeastFlag(Middle(s))) >= |values|
  {
    MiddleSplits(s);
    SumMapIgnoresOrder(values, s, AtMostFlag(Middle(s)));
    SumMapIgnoresOrder(values, s, AtLeastFlag(Middle(s)));
  }

  /** The median splits the values: at least half of them are at most it, and at least half at least it. */
  lemma MedianSplits(values: seq<real>)
    requires values != []
    ensures 2 * SumMap(values, AtMostFlag(Median(values))) >= |values|
    ensures 2 * SumMap(values, AtLeastFlag(Median(values))) >= |values|
  {
    var s := Sort(values, RealOrder());
    SortRises(values);
    PermutedSplits(values, s);
  }

  // -------------------------------------------------------------- robustness

  /** The positions where two baselines of one length hold the same value. */
  function Unchanged(before: seq<real>, after: seq<real>): set<nat>
    requires |before| == |after|
  {
    set i: nat | i < |before| && before[i] == after[i]
  }

  /** Among more than half of the positions, one holds a value at most the median and one a value at least it. */
  lemma MajorityMeets(values: seq<real>, kept: set<nat>) returns (low: nat, high: nat)
    requires (forall i :: i in kept ==> i < |values|) && 2 * |kept| > |values|
    ensures low in kept && high in kept && values[low] <= Median(values) <= values[high]
  {
    var m := Median(values);
    assert values == [] ==> kept == {};
    MedianSplits(values);
    if forall i :: i in kept ==> values[i] > m { CountOutside(values, AtMostFlag(m), kept); }
    if forall i :: i in kept ==> values[i] < m { CountOutside(values, AtLeastFlag(m), kept); }
    low :| low in kept && values[low] <= m;
    high :| high in kept && values[high] >= m;
  }

  /** Main result: changing fewer than half of the values leaves the median between two of the unchanged ones. */
  lemma MedianIsRobust(before: seq<real>, after: seq<real>) returns (low: nat, high: nat)
    requires |before| == |after| && 2 * |Unchanged(before, after)| > |before|
    ensures low in Unchanged(before, after) && high in Unchanged(before, after)
    ensures before[low] <= Median(after) <= before[high]
  {
    low, high := MajorityMeets(after, Unchanged(before, after));
  }

  /** Main result: and the spread is at most the scaled distance between two of them. */
  lemma SpreadIsRobust(before: seq<real>, after: seq<real>) returns (low: nat, high: nat)
    requires |before| == |after| && 2 * |Unchanged(before, after)| > |before|
    ensures low in Unchanged(before, after) && high in Unchanged(before, after)
    ensures 0.0 <= MedianBaseline(after).spread <= (before[high] - before[low]) * 1.4826
  {
    low, high := MedianIsRobust(before, after);
    var least, i := MajorityMeets(Deviations(after, Median(after)), Unchanged(before, after));
    SpreadIsPositive(after, Median(after));
    DistanceWithin(before[low], before[high], before[i], Median(after), Median(Deviations(after, Median(after))));
    if before[i] < Median(after) { low := i; } else { high := i; }
  }

  /** No farther from a point between two values than the far one of them. */
  lemma DistanceWithin(low: real, high: real, x: real, point: real, distance: real)
    requires low <= point <= high && 0.0 <= distance <= Abs(x - point)
    ensures x < point ==> 0.0 <= distance * 1.4826 <= (high - x) * 1.4826
    ensures x >= point ==> 0.0 <= distance * 1.4826 <= (x - low) * 1.4826
  {}

  lemma SpreadIsPositive(values: seq<real>, centre: real)
    requires values != []
    ensures Median(Deviations(values, centre)) >= 0.0
  {
    var deviations := Deviations(values, centre);
    MedianSplits(deviations);
    if Median(deviations) < 0.0 { NoneCounted(deviations, AtMostFlag(Median(deviations))); }
  }

  lemma {:induction false} NoneCounted(s: seq<real>, f: real -> nat)
    requires forall i :: 0 <= i < |s| ==> f(s[i]) == 0
    ensures SumMap(s, f) == 0
  {
    if s != [] { NoneCounted(s[..|s| - 1], f); }
  }

  // ---------------------------------------------------------------- symmetry

  function Negated(values: seq<real>): (r: seq<real>)
    ensures |r| == |values|
  {
    seq(|values|, i requires 0 <= i < |values| => 0.0 - values[i])
  }

  function Backwards(values: seq<real>): (r: seq<real>)
    ensures |r| == |values|
  {
    seq(|values|, i requires 0 <= i < |values| => values[|values| - 1 - i])
  }

  function NegateFlat(): real -> seq<real> { (x: real) => [0.0 - x] }

  lemma {:induction false} NegatedIsFlatMap(values: seq<real>)
    ensures Negated(values) == FlatMap(values, NegateFlat())
  {
    if values != [] {
      NegatedIsFlatMap(values[..|values| - 1]);
      assert Negated(values) == Negated(values[..|values| - 1]) + [0.0 - values[|values| - 1]];
    }
  }

  lemma {:induction false} BackwardsIsPermutation(values: seq<real>)
    ensures multiset(Backwards(values)) == multiset(values)
  {
    if values != [] {
      var init, last := values[..|values| - 1], values[|values| - 1];
      BackwardsIsPermutation(init);
      assert Backwards(values) == [last] + Backwards(init);
      assert values == init + [last];
    }
  }

  lemma NegatedBackwardsRises(s: seq<real>)
    requires Rising(s)
    ensures Rising(Backwards(Negated(s)))
  {
    var t, n := Backwards(Negated(s)), |s|;
    forall i, j | 0 <= i <= j < n ensures t[i] <= t[j] {
      assert s[n - 1 - j] <= s[n - 1 - i];
      assert t[i] == 0.0 - s[n - 1 - i] && t[j] == 0.0 - s[n - 1 - j];
    }
  }

  lemma NegatedPermutes(a: seq<real>, b: seq<real>)
    requires multiset(a) == multiset(b)
    ensures multiset(Negated(a)) == multiset(Negated(b))
  {
    NegatedIsFlatMap(a);
    NegatedIsFlatMap(b);
    FlatMapIgnoresOrder(a, b, NegateFlat());
  }

  lemma SortNegated(values: seq<real>)
    ensures Sort(Negated(values), RealOrder()) == Backwards(Negated(Sort(values, RealOrder())))
  {
    var s := Sort(values, RealOrder());
    SortRises(values);
    SortRises(Negated(values));
    NegatedPermutes(values, s);
    BackwardsIsPermutation(Negated(s));
    NegatedBackwardsRises(s);
    RisingUnique(Sort(Negated(values), RealOrder()), Backwards(Negated(s)));
  }

  lemma MiddleNegated(s: seq<real>)
    requires s != []
    ensures Middle(Backwards(Negated(s))) == 0.0 - Middle(s)
  {
    var t, n := Backwards(Negated(s)), |s|;
    assert forall i :: 0 <= i < n ==> t[i] == 0.0 - s[n - 1 - i];
  }

  lemma MedianNegated(values: seq<real>)
    ensures Median(Negated(values)) == 0.0 - Median(values)
  {
    if values != [] {
      var s := Sort(values, RealOrder());
      SortNegated(values);
      MiddleNegated(s);
    }
  }

  lemma DeviationsNegated(values: seq<real>, centre: real, opposite: real)
    requires opposite == 0.0 - centre
    ensures Deviations(Negated(values), opposite) == Deviations(values, centre)
  {
    var negated := Negated(values);
    forall i | 0 <= i < |values| ensures Abs(negated[i] - opposite) == Abs(values[i] - centre) {
      assert negated[i] == 0.0 - values[i];
    }
  }

  lemma {:induction false} TotalNegated(values: seq<real>)
    ensures Total(Negated(values)) == 0.0 - Total(values)
  {
    if values != [] {
      TotalNegated(values[..|values| - 1]);
      assert Negated(values)[..|values| - 1] == Negated(values[..|values| - 1]);
    }
  }

  lemma NegatedSquare(x: real, c: real)
    ensures (0.0 - x - (0.0 - c)) * (0.0 - x - (0.0 - c)) == (x - c) * (x - c)
  {
    var d := x - c;
    assert 0.0 - x - (0.0 - c) == 0.0 - d;
    assert (0.0 - d) * (0.0 - d) == d * d;
  }

  lemma SquaredDistancesNegated(values: seq<real>, centre: real)
    ensures SquaredDistances(Negated(values), 0.0 - centre) == SquaredDistances(values, centre)
  {
    forall i | 0 <= i < |values|
      ensures SquaredDistances(Negated(values), 0.0 - centre)[i] == SquaredDistances(values, centre)[i]
    {
      NegatedSquare(values[i], centre);
    }
  }

  lemma MeanNegated(total: real, n: nat)
    requires n > 0
    ensures (0.0 - total) / n as real == 0.0 - total / n as real
  {}

  function MirroredBaseline(b: Baseline): Baseline {
    if b.NotANumber? then b else Baseline(0.0 - b.centre, b.spread)
  }

  lemma MeanBaselineNegated(values: seq<real>, squareRoot: real -> real)
    ensures MeanBaseline(Negated(values), squareRoot) == MirroredBaseline(MeanBaseline(values, squareRoot))
  {
    if values != [] {
      var mean := Total(values) / |values| as real;
      TotalNegated(values);
      MeanNegated(Total(values), |values|);
      SquaredDistancesNegated(values, mean);
    }
  }

  lemma DeviationAboutNegated(values: seq<real>, centre: real, opposite: real)
    requires opposite == 0.0 - centre
    ensures DeviationAbout(Negated(values), opposite) == MirroredBaseline(DeviationAbout(values, centre))
  {
    DeviationsNegated(values, centre, opposite);
  }

  lemma MedianBaselineNegated(values: seq<real>)
    ensures MedianBaseline(Negated(values)) == MirroredBaseline(MedianBaseline(values))
  {
    MedianNegated(values);
    DeviationAboutNegated(values, Median(values), Median(Negated(values)));
  }

  /** Main result: negating a baseline negates its centre and keeps its spread, under either method. */
  lemma BaselineNegated(values: seq<real>, rules: Rules)
    ensures BaselineOf(Negated(values), rules) == MirroredBaseline(BaselineOf(values, rules))
  {
    if rules.baselineMethod == MeanStandardDeviation {
      MeanBaselineNegated(values, rules.squareRoot);
    } else {
      MedianBaselineNegated(values);
    }
  }

  function Swapped(verdict: Label): Label {
    match verdict
    case PositiveSpike => NegativeSpike
    case NegativeSpike => PositiveSpike
    case _ => verdict
  }

  predicate IsSpike(verdict: Label) { verdict == PositiveSpike || verdict == NegativeSpike }

  /** One decision is the mirror image of another: the swapped one, unless a zero movement was called a spike. */
  ghost predicate Opposite(d: Decision, mirrored: Decision, latest: real) {
    && mirrored.threshold == d.threshold && mirrored.reasons == d.reasons
    && (mirrored.verdict == Swapped(d.verdict) <==> !(latest == 0.0 && IsSpike(d.verdict)))
  }

  lemma LabelAgainstMirrors(delta: real, centre: real, spread: real, rules: Rules)
    ensures Opposite(LabelAgainst(delta, centre, spread, rules),
                     LabelAgainst(0.0 - delta, 0.0 - centre, spread, rules), delta)
  {
    assert Abs(0.0 - delta) == Abs(delta);
    assert Abs(0.0 - delta - (0.0 - centre)) == Abs(delta - centre);
  }

  lemma LabelMirrors(delta: real, b: Baseline, rules: Rules)
    ensures Opposite(LabelFor(delta, b, rules), LabelFor(0.0 - delta, MirroredBaseline(b), rules), delta)
  {
    if b.NotANumber? {
      assert Abs(0.0 - delta) == Abs(delta);
    } else {
      LabelAgainstMirrors(delta, b.centre, b.spread, rules);
    }
  }

  // ------------------------------------------------------------ whole targets

  function Mirror(x: Observation): Observation { Observation(x.observedAt, 0.0 - x.delta) }

  function Mirrored(s: seq<Observation>): (r: seq<Observation>)
    ensures |r| == |s|
  {
    seq(|s|, i requires 0 <= i < |s| => Mirror(s[i]))
  }

  lemma MirroredCons(x: Observation, s: seq<Observation>)
    ensures Mirrored([x] + s) == [Mirror(x)] + Mirrored(s)
  {}

  lemma MirroredDrop(s: seq<Observation>, n: nat)
    requires n <= |s|
    ensures Mirrored(s)[n..] == Mirrored(s[n..]) && Mirrored(s)[..n] == Mirrored(s[..n])
  {}

  lemma {:induction false} InsertMirrored(x: Observation, s: seq<Observation>)
    ensures Insert(Mirror(x), Mirrored(s), ByTime()) == Mirrored(Insert(x, s, ByTime()))
  {
    if s == [] {
      MirroredCons(x, []);
      assert [x] + [] == [x];
    } else if ByTime()(x, s[0]) {
      MirroredCons(x, s);
      assert Mirrored(s)[0] == Mirror(s[0]);
    } else {
      InsertMirrored(x, s[1..]);
      MirroredDrop(s, 1);
      MirroredCons(s[0], Insert(x, s[1..], ByTime()));
      assert Mirrored(s)[0] == Mirror(s[0]);
    }
  }

  /** The stable sort looks at times only, so it commutes with mirroring. */
  lemma {:induction false} SortMirrored(s: seq<Observation>)
    ensures Sort(Mirrored(s), ByTime()) == Mirrored(Sort(s, ByTime()))
  {
    if s != [] {
      SortMirrored(s[1..]);
      MirroredDrop(s, 1);
      assert Mirrored(s)[0] == Mirror(s[0]);
      InsertMirrored(s[0], Sort(s[1..], ByTime()));
    }
  }

  function MirroredSeries(target: Series): Series { Series(target.targetId, Mirrored(target.observations)) }

  lemma LastMirrored(s: seq<Observation>, n: nat)
    ensures LastOf(Mirrored(s), n) == Mirrored(LastOf(s, n))
  {
    if n != 0 && |s| > n { MirroredDrop(s, |s| - n); }
  }

  lemma ConsideredMirrored(target: Series, rules: Rules)
    ensures Considered(MirroredSeries(target), rules) == Mirrored(Considered(target, rules))
  {
    SortMirrored(target.observations);
    LastMirrored(Sort(target.observations, ByTime()), rules.maximumObservations);
  }

  lemma GapMirrored(s: seq<Observation>, rules: Rules)
    ensures HasGap(Mirrored(s), rules) == HasGap(s, rules)
  {
    var m := Mirrored(s);
    assert forall i :: 0 <= i < |s| ==> m[i].observedAt == s[i].observedAt;
    if i :| 0 < i < |s| && GapBefore(s, i, rules) {
      assert GapBefore(m, i, rules);
    }
    if i :| 0 < i < |m| && GapBefore(m, i, rules) {
      assert GapBefore(s, i, rules);
    }
  }

  lemma DeltasMirrored(s: seq<Observation>)
    ensures Deltas(Mirrored(s)) == Negated(Deltas(s))
  {}

  /** What mirroring does to an entry, and exactly when the spikes swap. */
  ghost predicate Mirrors(e: AnomalyEntry, mirrored: AnomalyEntry, latest: real) {
    && mirrored == e.(verdict := mirrored.verdict, value := 0.0 - e.value)
    && (mirrored.verdict == Swapped(e.verdict) <==> !(latest == 0.0 && IsSpike(e.verdict)))
  }

  lemma EntryFromMirror(id: Text, s: seq<Observation>, now: int, rules: Rules, b: Baseline)
    requires s != []
    ensures EntryFrom(id, Mirrored(s), now, rules, b)
         == EntryDecided(id, Mirror(s[|s| - 1]), Mirrored(s[..|s| - 1]), HasGap(s, rules), now, rules,
                         LabelFor(0.0 - s[|s| - 1].delta, b, rules))
  {
    GapMirrored(s, rules);
    MirroredDrop(s, |s| - 1);
  }

  lemma EntryFromMirrored(id: Text, s: seq<Observation>, now: int, rules: Rules, b: Baseline)
    requires s != []
    ensures Mirrors(EntryFrom(id, s, now, rules, b), EntryFrom(id, Mirrored(s), now, rules, MirroredBaseline(b)),
                    s[|s| - 1].delta)
  {
    EntryFromMirror(id, s, now, rules, MirroredBaseline(b));
    SameMirrors(EntryDecided(id, s[|s| - 1], s[..|s| - 1], HasGap(s, rules), now, rules,
                             LabelFor(s[|s| - 1].delta, b, rules)),
                EntryFrom(id, Mirrored(s), now, rules, MirroredBaseline(b)), id, s, now, rules, b);
  }

  lemma SameMirrors(e: AnomalyEntry, mirrored: AnomalyEntry, id: Text, s: seq<Observation>, now: int, rules: Rules,
                    b: Baseline)
    requires s != []
    requires e == EntryDecided(id, s[|s| - 1], s[..|s| - 1], HasGap(s, rules), now, rules,
                               LabelFor(s[|s| - 1].delta, b, rules))
    requires mirrored == EntryDecided(id, Mirror(s[|s| - 1]), Mirrored(s[..|s| - 1]), HasGap(s, rules), now, rules,
                                      LabelFor(0.0 - s[|s| - 1].delta, MirroredBaseline(b), rules))
    ensures Mirrors(e, mirrored, s[|s| - 1].delta)
  {
    DecidedMirrored(id, s[|s| - 1], s[..|s| - 1], HasGap(s, rules), now, rules, b);
  }

  lemma DecidedMirrored(id: Text, latest: Observation, history: seq<Observation>, gap: bool, now: int, rules: Rules,
                        b: Baseline)
    ensures Mirrors(EntryDecided(id, latest, history, gap, now, rules, LabelFor(latest.delta, b, rules)),
                    EntryDecided(id, Mirror(latest), Mirrored(history), gap, now, rules,
                                 LabelFor(0.0 - latest.delta, MirroredBaseline(b), rules)),
                    latest.delta)
  {
    LabelMirrors(latest.delta, b, rules);
    EntryMirrored(id, latest, history, gap, now, rules, LabelFor(latest.delta, b, rules),
                  LabelFor(0.0 - latest.delta, MirroredBaseline(b), rules));
  }

  lemma HistoryMirrored(s: seq<Observation>, rules: Rules)
    requires s != []
    ensures HistoryBaseline(Mirrored(s), rules) == MirroredBaseline(HistoryBaseline(s, rules))
  {
    MirroredDrop(s, |s| - 1);
    DeltasMirrored(s[..|s| - 1]);
    BaselineNegated(Deltas(s[..|s| - 1]), rules);
  }

  lemma EntryMirrored(id: Text, latest: Observation, history: seq<Observation>, gap: bool, now: int, rules: Rules,
                      d: Decision, mirrored: Decision)
    requires Opposite(d, mirrored, latest.delta)
    ensures Mirrors(EntryDecided(id, latest, history, gap, now, rules, d),
                    EntryDecided(id, Mirror(latest), Mirrored(history), gap, now, rules, mirrored), latest.delta)
  {
    Truncate6Laws(latest.delta);
    var m := Mirrored(history);
    if history != [] {
      assert m[0].observedAt == history[0].observedAt && m[|m| - 1].observedAt == history[|history| - 1].observedAt;
    }
  }

  /** A movement at least the floor from zero, and at least the floor and the scaled spread from the centre; beside a
      baseline that is not a number, only the floor counts. */
  predicate Stands(delta: real, b: Baseline, rules: Rules) {
    && Abs(delta) >= rules.minimumAbsoluteDelta
    && (b.Baseline? ==>
          && Abs(delta - b.centre) >= rules.minimumAbsoluteDelta
          && Abs(delta - b.centre) >= b.spread * rules.thresholdDeviations
          && !(b.spread == 0.0 && rules.zeroBehaviour == NoHistoryOnZero))
  }

  lemma SpikeStands(delta: real, b: Baseline, rules: Rules)
    ensures IsSpike(LabelFor(delta, b, rules).verdict) <==> Stands(delta, b, rules)
  {
    if b.Baseline? && b.spread == 0.0 { assert b.spread * rules.thresholdDeviations == 0.0; }
  }

  /** Fresh, with enough history, and with no gap the contract objects to. */
  predicate Evidenced(s: seq<Observation>, now: int, rules: Rules) {
    && |s| > rules.minimumBaselineObservations
    && !Stale(s[|s| - 1], now, rules)
    && !(HasGap(s, rules) && rules.gapIsMissing)
  }

  /** The latest of the observations considered stands out from a history that is enough to tell. */
  predicate StandsOut(s: seq<Observation>, now: int, rules: Rules) {
    Evidenced(s, now, rules) && Stands(s[|s| - 1].delta, HistoryBaseline(s, rules), rules)
  }

  /** Main result: a spike is labelled exactly on evidence that exists: enough fresh, unbroken history, and a movement
      that stands out from it. */
  lemma SpikeNeedsEvidence(target: Series, now: int, rules: Rules)
    ensures IsSpike(EntryOf(target, now, rules).verdict) <==> StandsOut(Considered(target, rules), now, rules)
  {
    var s := Considered(target, rules);
    if s != [] { EntryFromStands(target.targetId, s, now, rules, HistoryBaseline(s, rules)); }
  }

  lemma EntryFromStands(id: Text, s: seq<Observation>, now: int, rules: Rules, b: Baseline)
    requires s != []
    ensures IsSpike(EntryFrom(id, s, now, rules, b).verdict)
            <==> Evidenced(s, now, rules) && Stands(s[|s| - 1].delta, b, rules)
  {
    SpikeStands(s[|s| - 1].delta, b, rules);
  }

  /**
   * Main result: negating every observation of a target negates the value and changes nothing else of its entry but
   * the label, and swaps positive and negative spikes exactly unless the latest movement is zero and stands out all
   * the same.
   */
  lemma MirroredTargetExactly(target: Series, now: int, rules: Rules)
    ensures var e, mirrored := EntryOf(target, now, rules), EntryOf(MirroredSeries(target), now, rules);
            var s := Considered(target, rules);
            && mirrored == e.(verdict := mirrored.verdict, value := 0.0 - e.value)
            && (mirrored.verdict == Swapped(e.verdict)
                <==> !(StandsOut(s, now, rules) && s[|s| - 1].delta == 0.0))
  {
    var s := Considered(target, rules);
    ConsideredMirrored(target, rules);
    SpikeNeedsEvidence(target, now, rules);
    if s != [] {
      HistoryMirrored(s, rules);
      EntryFromMirrored(target.targetId, s, now, rules, HistoryBaseline(s, rules));
    }
  }

  /** So with a positive floor the spikes always swap. */
  lemma MirroredTargetSwapsSpikes(target: Series, now: int, rules: Rules)
    requires rules.minimumAbsoluteDelta > 0.0
    ensures var e := EntryOf(target, now, rules);
            EntryOf(MirroredSeries(target), now, rules) == e.(verdict := Swapped(e.verdict), value := 0.0 - e.value)
  {
    MirroredTargetExactly(target, now, rules);
  }

  // --------------------------------------------------- a floor of zero, by example

  const DAY := 86400

  /** Three days' movements, and none on the fourth. */
  predicate Looks(s: seq<Observation>, deltas: seq<real>) {
    && |s| == 4 && |deltas| == 3 && Deltas(s[..3]) == deltas && s[3].delta == 0.0
    && forall i :: 0 <= i < 4 ==> s[i].observedAt == i * DAY
  }

  function FallingSeries(id: Text): Series {
    Series(id, [Observation(0, -11.0), Observation(DAY, -10.0), Observation(2 * DAY, -9.0), Observation(3 * DAY, 0.0)])
  }

  ghost predicate FloorIsZero(rules: Rules) {
    rules == Rules(24, 3, MedianAbsoluteDeviation, 1.0, 0.0, AbsoluteThresholdOnly, true, 48, 10, rules.squareRoot)
  }

  lemma SortIs(values: seq<real>, sorted: seq<real>)
    requires Rising(sorted) && multiset(values) == multiset(sorted)
    ensures Sort(values, RealOrder()) == sorted
  {
    SortRises(values);
    RisingUnique(Sort(values, RealOrder()), sorted);
  }

  lemma MiddleOfThree(s: seq<real>)
    requires |s| == 3
    ensures Middle(s) == s[1]
  {
    assert 3 / 2 == 1 && 3 % 2 == 1;
  }

  lemma MedianOfThree(sorted: seq<real>, values: seq<real>)
    requires |sorted| == 3 && Rising(sorted) && multiset(values) == multiset(sorted) && values != []
    ensures Median(values) == sorted[1]
  {
    SortIs(values, sorted);
    MiddleOfThree(sorted);
  }

  /** Three values one apart have the middle one as centre, and a median deviation of one. */
  lemma ThreeApart(values: seq<real>, rules: Rules)
    requires rules.baselineMethod == MedianAbsoluteDeviation
    requires |values| == 3 && values[1] == values[0] + 1.0 && values[2] == values[1] + 1.0
    ensures BaselineOf(values, rules) == Baseline(values[1], 1.4826)
  {
    MedianOfThree(values, values);
    DeviationsApart(values);
  }

  lemma DeviationsApart(values: seq<real>)
    requires |values| == 3 && values[1] == values[0] + 1.0 && values[2] == values[1] + 1.0
    ensures Median(Deviations(values, values[1])) == 1.0
  {
    var deviations, sorted: seq<real> := Deviations(values, values[1]), [0.0, 1.0, 1.0];
    assert deviations == [1.0, 0.0, 1.0];
    SwapFirst(1.0, 0.0, 1.0);
    MedianOfThree(sorted, deviations);
  }

  lemma SwapFirst(a: real, b: real, c: real)
    ensures multiset([a, b, c]) == multiset([b, a, c])
  {}

  lemma RisingIsConsidered(s: seq<Observation>, id: Text, rules: Rules)
    requires |s| == 4 && rules.maximumObservations >= 4
    requires forall i :: 0 <= i < 4 ==> s[i].observedAt == i * DAY
    ensures Considered(Series(id, s), rules) == s
  {
    assert s[3..] == [s[3]] && s[2..][1..] == s[3..] && s[1..][1..] == s[2..] && s[3..][1..] == [];
    assert Sort(s[3..], ByTime()) == s[3..];
    assert Sort(s[2..], ByTime()) == s[2..];
    assert Sort(s[1..], ByTime()) == s[1..];
    assert Sort(s, ByTime()) == s;
  }

  /** A zero movement stands out from a baseline ten from zero when the floor is zero. */
  lemma ZeroStandsOut(s: seq<Observation>, deltas: seq<real>, rules: Rules)
    requires Looks(s, deltas) && FloorIsZero(rules)
    requires BaselineOf(deltas, rules) == Baseline(-10.0, 1.4826) || BaselineOf(deltas, rules) == Baseline(10.0, 1.4826)
    ensures StandsOut(s, 3 * DAY, rules)
  {
    assert 1.4826 * rules.thresholdDeviations == 1.4826;
  }

  lemma ZeroIsPositive(target: Series, s: seq<Observation>, deltas: seq<real>, rules: Rules)
    requires Considered(target, rules) == s && Looks(s, deltas) && FloorIsZero(rules)
    requires BaselineOf(deltas, rules) == Baseline(-10.0, 1.4826) || BaselineOf(deltas, rules) == Baseline(10.0, 1.4826)
    ensures EntryOf(target, 3 * DAY, rules).verdict == PositiveSpike
  {
    ZeroStandsOut(s, deltas, rules);
    SpikeNeedsEvidence(target, 3 * DAY, rules);
    ZeroSpikesUp(target.targetId, s, 3 * DAY, rules, HistoryBaseline(s, rules));
  }

  /** When no movement is a spike, it is a positive one. */
  lemma ZeroSpikesUp(id: Text, s: seq<Observation>, now: int, rules: Rules, b: Baseline)
    requires s != [] && s[|s| - 1].delta == 0.0 && IsSpike(EntryFrom(id, s, now, rules, b).verdict)
    ensures EntryFrom(id, s, now, rules, b).verdict == PositiveSpike
  {}

  lemma PositiveBothWays(id: Text, s: seq<Observation>, deltas: seq<real>, rules: Rules)
    requires Looks(s, deltas) && FloorIsZero(rules) && BaselineOf(deltas, rules) == Baseline(-10.0, 1.4826)
    ensures EntryOf(Series(id, s), 3 * DAY, rules).verdict == PositiveSpike
    ensures EntryOf(MirroredSeries(Series(id, s)), 3 * DAY, rules).verdict == PositiveSpike
  {
    RisingIsConsidered(s, id, rules);
    ZeroIsPositive(Series(id, s), s, deltas, rules);
    ConsideredMirrored(Series(id, s), rules);
    MirroredDrop(s, 3);
    DeltasMirrored(s[..3]);
    BaselineNegated(deltas, rules);
    ZeroIsPositive(MirroredSeries(Series(id, s)), Mirrored(s), Negated(deltas), rules);
  }

  lemma FallingLooks(id: Text) returns (deltas: seq<real>)
    ensures Looks(FallingSeries(id).observations, deltas)
    ensures deltas[0] == -11.0 && deltas[1] == -10.0 && deltas[2] == -9.0
  {
    deltas := Deltas(FallingSeries(id).observations[..3]);
  }

  /** With a floor of zero the mirror breaks: no movement at all after a fall is a positive spike, and so it is after
      the mirrored rise. */
  lemma ZeroFloorBreaksTheMirror(id: Text, rules: Rules)
    requires FloorIsZero(rules)
    ensures EntryOf(FallingSeries(id), 3 * DAY, rules).verdict == PositiveSpike
    ensures EntryOf(MirroredSeries(FallingSeries(id)), 3 * DAY, rules).verdict == PositiveSpike
  {
    var deltas := FallingLooks(id);
    ThreeApart(deltas, rules);
    PositiveBothWays(id, FallingSeries(id).observations, deltas, rules);
  }
}
