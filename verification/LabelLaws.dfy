/** Every label of the anomaly feed, its reasons, its windows and its numbers, exactly, over the observations. */
module LabelLaws {
  import opened Decimals
  import opened Texts
  import opened Sorting
  import opened Anomaly
  import opened AnomalyLaws

  // ---------------------------------------------------- the observations considered

  ghost predicate InTimeOrder(s: seq<Observation>) {
    forall i, j :: 0 <= i <= j < |s| ==> s[i].observedAt <= s[j].observedAt
  }

  lemma SortedByTime(observations: seq<Observation>)
    ensures InTimeOrder(Sort(observations, ByTime()))
  {
    var sorted, leq := Sort(observations, ByTime()), ByTime();
    assert TotalPreorder(leq);
    SortSorted(observations, leq);
    forall i, j | 0 <= i <= j < |sorted| ensures sorted[i].observedAt <= sorted[j].observedAt {
      assert leq(sorted[i], sorted[j]);
    }
  }

  lemma LatestOfSorted(sorted: seq<Observation>, dropped: seq<Observation>, s: seq<Observation>)
    requires InTimeOrder(sorted) && |s| <= |sorted| && s == sorted[|sorted| - |s|..]
    requires dropped == sorted[..|sorted| - |s|]
    ensures dropped + s == sorted && InTimeOrder(s)
    ensures forall x, y :: x in dropped && y in s ==> x.observedAt <= y.observedAt
  {}

  /** The latest observations, in time order: all of them, or as many as the rules allow, the rest being no later. */
  lemma ConsideredExactly(target: Series, rules: Rules) returns (dropped: seq<Observation>)
    ensures var s, n := Considered(target, rules), rules.maximumObservations;
            && multiset(dropped + s) == multiset(target.observations) && InTimeOrder(s)
            && (forall x, y :: x in dropped && y in s ==> x.observedAt <= y.observedAt)
            && |s| == if n == 0 || n > |target.observations| then |target.observations| else n
  {
    var sorted := Sort(target.observations, ByTime());
    SortedByTime(target.observations);
    var s := Considered(target, rules);
    dropped := sorted[..|sorted| - |s|];
    LatestOfSorted(sorted, dropped, s);
  }

  // ------------------------------------------------------------ what decides a label

  /** The latest observation is older than the freshness limit. */
  ghost predicate IsOld(s: seq<Observation>, now: int, rules: Rules)
    requires s != []
  {
    now > s[|s| - 1].observedAt + rules.freshnessLimitHours * 3600
  }

  /** Fewer observations before the latest than a baseline needs. */
  ghost predicate IsShort(s: seq<Observation>, rules: Rules) { |s| < rules.minimumBaselineObservations + 1 }

  /** Some observation comes more than two intervals after the one before it, and the rules mind. */
  ghost predicate IsBroken(s: seq<Observation>, rules: Rules) {
    rules.gapIsMissing && exists i :: 0 < i < |s| && ComesLate(s, i, rules)
  }

  ghost predicate ComesLate(s: seq<Observation>, i: nat, rules: Rules)
    requires 0 < i < |s|
  {
    s[i].observedAt > s[i - 1].observedAt + 7200 * rules.observationIntervalHours
  }

  ghost predicate IsFlat(s: seq<Observation>, rules: Rules)
    requires s != []
  {
    HistoryBaseline(s, rules).Baseline? && HistoryBaseline(s, rules).spread == 0.0
  }

  /** Nothing stands in the way of a comparison. */
  ghost predicate IsComparable(s: seq<Observation>, now: int, rules: Rules) {
    s != [] && !IsOld(s, now, rules) && !IsShort(s, rules) && !IsBroken(s, rules)
  }

  lemma BrokenExactly(s: seq<Observation>, rules: Rules)
    ensures HasGap(s, rules) <==> exists i :: 0 < i < |s| && ComesLate(s, i, rules)
  {
    if i :| 0 < i < |s| && GapBefore(s, i, rules) { assert ComesLate(s, i, rules); }
    if i :| 0 < i < |s| && ComesLate(s, i, rules) { assert GapBefore(s, i, rules); }
  }

  /** The label of a movement against a baseline. */
  ghost predicate IsLabelOf(verdict: Label, delta: real, b: Baseline, rules: Rules) {
    match verdict
    case PositiveSpike => Stands(delta, b, rules) && delta >= 0.0
    case NegativeSpike => Stands(delta, b, rules) && delta < 0.0
    case InsufficientHistory => b.Baseline? && b.spread == 0.0 && rules.zeroBehaviour == NoHistoryOnZero
    case Normal =>
      !Stands(delta, b, rules) && !(b.Baseline? && b.spread == 0.0 && rules.zeroBehaviour == NoHistoryOnZero)
    case _ => false
  }

  lemma LabelIsExact(delta: real, b: Baseline, rules: Rules)
    ensures IsLabelOf(LabelFor(delta, b, rules).verdict, delta, b, rules)
  {
    SpikeStands(delta, b, rules);
  }

  /** Main result: exactly when each label is given. A spike is positive on a movement of at least zero and negative on
      one below, and neither is given but on fresh, long and unbroken history that the movement stands out from. */
  lemma LabelExactly(target: Series, now: int, rules: Rules)
    ensures var s, verdict := Considered(target, rules), EntryOf(target, now, rules).verdict;
            && (verdict == StaleObservation <==> s != [] && IsOld(s, now, rules))
            && (verdict == MissingObservation <==>
                  s == [] || (!IsOld(s, now, rules) && !IsShort(s, rules) && IsBroken(s, rules)))
            && (verdict == InsufficientHistory <==>
                  || (s != [] && !IsOld(s, now, rules) && IsShort(s, rules))
                  || (IsComparable(s, now, rules) && IsFlat(s, rules) && rules.zeroBehaviour == NoHistoryOnZero))
            && (verdict == PositiveSpike <==>
                  IsComparable(s, now, rules) && Stands(s[|s| - 1].delta, HistoryBaseline(s, rules), rules)
                  && s[|s| - 1].delta >= 0.0)
            && (verdict == NegativeSpike <==>
                  IsComparable(s, now, rules) && Stands(s[|s| - 1].delta, HistoryBaseline(s, rules), rules)
                  && s[|s| - 1].delta < 0.0)
  {
    var s := Considered(target, rules);
    if s != [] {
      BrokenExactly(s, rules);
      LabelIsExact(s[|s| - 1].delta, HistoryBaseline(s, rules), rules);
      LabelFromExactly(target.targetId, s, now, rules, HistoryBaseline(s, rules),
                       LabelFor(s[|s| - 1].delta, HistoryBaseline(s, rules), rules));
    }
  }

  lemma LabelFromExactly(id: Text, s: seq<Observation>, now: int, rules: Rules, b: Baseline, d: Decision)
    requires s != [] && d == LabelFor(s[|s| - 1].delta, b, rules)
    ensures EntryFrom(id, s, now, rules, b).verdict ==
            if IsOld(s, now, rules) then StaleObservation
            else if IsShort(s, rules) then InsufficientHistory
            else if IsBroken(s, rules) then MissingObservation
            else d.verdict
  {
    BrokenExactly(s, rules);
  }

  /** And the reasons that go with it. */
  lemma ReasonsExactly(target: Series, now: int, rules: Rules)
    ensures var s, reasons := Considered(target, rules), EntryOf(target, now, rules).reasons;
            && (reasons == [ObservationStale] <==> s != [] && IsOld(s, now, rules))
            && (reasons == [TooFewObservations] <==> s != [] && !IsOld(s, now, rules) && IsShort(s, rules))
            && (reasons == [ObservationMissing] <==>
                  s == [] || (!IsOld(s, now, rules) && !IsShort(s, rules) && IsBroken(s, rules)))
            && (reasons == [ZeroBaseline] <==> IsComparable(s, now, rules) && IsFlat(s, rules))
            && (reasons == [] <==> IsComparable(s, now, rules) && !IsFlat(s, rules))
  {
    var s := Considered(target, rules);
    if s != [] {
      ReasonsFromExactly(target.targetId, s, now, rules, HistoryBaseline(s, rules),
                         LabelFor(s[|s| - 1].delta, HistoryBaseline(s, rules), rules));
      LabelReasons(s[|s| - 1].delta, HistoryBaseline(s, rules), rules);
    }
  }

  lemma LabelReasons(delta: real, b: Baseline, rules: Rules)
    ensures LabelFor(delta, b, rules).reasons == if b.Baseline? && b.spread == 0.0 then [ZeroBaseline] else []
  {}

  lemma ReasonsFromExactly(id: Text, s: seq<Observation>, now: int, rules: Rules, b: Baseline, d: Decision)
    requires s != [] && d == LabelFor(s[|s| - 1].delta, b, rules)
    ensures EntryFrom(id, s, now, rules, b).reasons ==
            if IsOld(s, now, rules) then [ObservationStale]
            else if IsShort(s, rules) then [TooFewObservations]
            else if IsBroken(s, rules) then [ObservationMissing]
            else d.reasons
  {
    BrokenExactly(s, rules);
  }

  /** The observation's window is the interval up to it; a baseline has one only where the history was long enough, from
      its first observation to its last. */
  lemma WindowsExactly(target: Series, now: int, rules: Rules)
    ensures var s, e := Considered(target, rules), EntryOf(target, now, rules);
            && e.subjectId == target.targetId
            && (s == [] ==> e.observation == Window(now, now))
            && (s != [] ==>
                  && e.observation.endsAt == s[|s| - 1].observedAt
                  && e.observation.startsAt == s[|s| - 1].observedAt - 3600 * rules.observationIntervalHours)
            && (e.baseline == None <==> s == [] || IsOld(s, now, rules) || IsShort(s, rules))
            && (e.baseline.Some? && |s| > 1 ==> e.baseline.value == Window(s[0].observedAt, s[|s| - 2].observedAt))
            && (e.baseline.Some? && |s| == 1 ==>
                  e.baseline.value == Window(e.observation.startsAt, e.observation.startsAt))
  {
    var s := Considered(target, rules);
    if s != [] { WindowsFromExactly(target.targetId, s, now, rules, HistoryBaseline(s, rules)); }
  }

  lemma WindowsFromExactly(id: Text, s: seq<Observation>, now: int, rules: Rules, b: Baseline)
    requires s != []
    ensures var e := EntryFrom(id, s, now, rules, b);
            && e.subjectId == id && e.observation.endsAt == s[|s| - 1].observedAt
            && e.observation.startsAt == s[|s| - 1].observedAt - 3600 * rules.observationIntervalHours
            && (e.baseline == None <==> IsOld(s, now, rules) || IsShort(s, rules))
            && (e.baseline.Some? && |s| > 1 ==> e.baseline.value == Window(s[0].observedAt, s[|s| - 2].observedAt))
            && (e.baseline.Some? && |s| == 1 ==>
                  e.baseline.value == Window(e.observation.startsAt, e.observation.startsAt))
  {}

  /** The threshold a movement was held against: the floor, or the scaled spread if greater, or the floor alone on a
      flat baseline. */
  ghost predicate IsThreshold(threshold: real, b: Baseline, rules: Rules) {
    var floor := rules.minimumAbsoluteDelta;
    if b.NotANumber? then threshold == 0.0
    else if b.spread == 0.0 then threshold == floor
    else
      var scaled := b.spread * rules.thresholdDeviations;
      threshold >= floor && threshold >= scaled && (threshold == floor || threshold == scaled)
  }

  lemma LabelThreshold(delta: real, b: Baseline, rules: Rules)
    ensures IsThreshold(LabelFor(delta, b, rules).threshold, b, rules)
  {}

  /** The value shown is the latest movement and the threshold the one it was held against, both truncated. */
  lemma NumbersExactly(target: Series, now: int, rules: Rules)
    ensures var s, e := Considered(target, rules), EntryOf(target, now, rules);
            && e.value == (if s == [] then 0.0 else Truncate6(s[|s| - 1].delta))
            && (!IsComparable(s, now, rules) ==> e.threshold == Truncate6(rules.minimumAbsoluteDelta))
            && (IsComparable(s, now, rules) ==>
                  exists threshold :: IsThreshold(threshold, HistoryBaseline(s, rules), rules)
                                      && e.threshold == Truncate6(threshold))
  {
    var s := Considered(target, rules);
    if s != [] {
      var b := HistoryBaseline(s, rules);
      LabelThreshold(s[|s| - 1].delta, b, rules);
      NumbersFromExactly(target.targetId, s, now, rules, b, LabelFor(s[|s| - 1].delta, b, rules));
    }
  }

  lemma NumbersFromExactly(id: Text, s: seq<Observation>, now: int, rules: Rules, b: Baseline, d: Decision)
    requires s != [] && d == LabelFor(s[|s| - 1].delta, b, rules)
    ensures EntryFrom(id, s, now, rules, b).value == Truncate6(s[|s| - 1].delta)
    ensures EntryFrom(id, s, now, rules, b).threshold
         == Truncate6(if IsComparable(s, now, rules) then d.threshold else rules.minimumAbsoluteDelta)
  {
    BrokenExactly(s, rules);
  }

  // ------------------------------------------------------------------- the mean

  function Squares(values: seq<real>): (r: seq<real>)
    ensures |r| == |values|
  {
    seq(|values|, i requires 0 <= i < |values| => values[i] * values[i])
  }

  function Shifted(values: seq<real>, back: real): (r: seq<real>)
    ensures |r| == |values|
  {
    seq(|values|, i requires 0 <= i < |values| => values[i] - back)
  }

  lemma {:induction false} ShiftedTotal(values: seq<real>, back: real)
    ensures Total(Shifted(values, back)) == Total(values) - |values| as real * back
  {
    if values != [] {
      var init := values[..|values| - 1];
      ShiftedTotal(init, back);
      assert Shifted(values, back)[..|init|] == Shifted(init, back);
      OneMore(|init|, back);
    }
  }

  lemma OneMore(n: nat, x: real)
    ensures (n + 1) as real * x == n as real * x + x
  {}

  lemma SquareOfDifference(v: real, c: real)
    ensures (v - c) * (v - c) == v * v - c * v - c * (v - c)
  {}

  function Scaled(values: seq<real>, rate: real): (r: seq<real>)
    ensures |r| == |values|
  {
    seq(|values|, i requires 0 <= i < |values| => rate * values[i])
  }

  lemma Distribute(a: real, b: real, c: real)
    ensures a * (b + c) == a * b + a * c
  {}

  lemma {:induction false} ScaledTotal(values: seq<real>, rate: real)
    ensures Total(Scaled(values, rate)) == rate * Total(values)
  {
    if values != [] {
      var init, last := values[..|values| - 1], values[|values| - 1];
      ScaledTotal(init, rate);
      forall i | 0 <= i < |init| ensures Scaled(values, rate)[i] == Scaled(init, rate)[i] {
        assert init[i] == values[i];
      }
      assert Scaled(values, rate)[..|init|] == Scaled(init, rate);
      Distribute(rate, Total(init), last);
    }
  }

  /** Where every value is one less two others, so is the total. */
  lemma {:induction false} DifferencesTotal(values: seq<real>, from: seq<real>, less: seq<real>, more: seq<real>)
    requires |values| == |from| == |less| == |more|
    requires forall i :: 0 <= i < |values| ==> values[i] == from[i] - less[i] - more[i]
    ensures Total(values) == Total(from) - Total(less) - Total(more)
  {
    var n := |values|;
    if n > 0 { DifferencesTotal(values[..n - 1], from[..n - 1], less[..n - 1], more[..n - 1]); }
  }

  lemma SquaredDistancesTotal(values: seq<real>, c: real)
    ensures Total(SquaredDistances(values, c))
         == Total(Squares(values)) - Total(Scaled(values, c)) - Total(Scaled(Shifted(values, c), c))
  {
    forall i | 0 <= i < |values|
      ensures SquaredDistances(values, c)[i]
           == Squares(values)[i] - Scaled(values, c)[i] - Scaled(Shifted(values, c), c)[i]
    {
      SquareOfDifference(values[i], c);
    }
    DifferencesTotal(SquaredDistances(values, c), Squares(values), Scaled(values, c), Scaled(Shifted(values, c), c));
  }

  lemma Divided(total: real, n: real, mean: real)
    requires n > 0.0 && mean == total / n
    ensures n * mean == total
  {}

  /** The mean method's centre is where the distances of the values from it cancel out. */
  lemma MeanExactly(values: seq<real>, squareRoot: real -> real)
    requires values != []
    ensures var b := MeanBaseline(values, squareRoot); b.Baseline? && Total(Shifted(values, b.centre)) == 0.0
  {
    var mean := MeanBaseline(values, squareRoot).centre;
    Divided(Total(values), |values| as real, mean);
    ShiftedTotal(values, mean);
  }

  /** Its spread is the square root of the mean squared distance. */
  lemma SpreadExactly(values: seq<real>, squareRoot: real -> real) returns (variance: real)
    requires values != []
    ensures var b := MeanBaseline(values, squareRoot);
            && b.Baseline? && b.spread == squareRoot(variance)
            && |values| as real * variance == Total(SquaredDistances(values, b.centre))
  {
    var distances := Total(SquaredDistances(values, MeanBaseline(values, squareRoot).centre));
    variance := distances / |values| as real;
    Divided(distances, |values| as real, variance);
  }

  /** The squared distances add up to the squares, less the total times the centre the distances cancel out at. */
  lemma SquaresAboutMean(values: seq<real>, mean: real)
    requires Total(Shifted(values, mean)) == 0.0
    ensures Total(SquaredDistances(values, mean)) == Total(Squares(values)) - mean * Total(values)
  {
    SquaredDistancesTotal(values, mean);
    ScaledTotal(values, mean);
    ScaledTotal(Shifted(values, mean), mean);
  }

  // ------------------------------------------------------------------ the whole feed

  lemma ByTargetIsTotal()
    ensures TotalPreorder(ByTarget())
  {
    var leq := ByTarget();
    forall x: Series, y: Series ensures leq(x, y) || leq(y, x) { LessIsTotal(x.targetId, y.targetId); }
    forall x: Series, y: Series, z: Series | leq(x, y) && leq(y, z) ensures leq(x, z) {
      AtMostIsTransitive(x.targetId, y.targetId, z.targetId);
    }
  }

  /** One entry a target, in the order of the targets' names. */
  lemma EntriesInOrder(series: seq<Series>, now: int, rules: Rules)
    ensures var ordered := Sort(series, ByTarget());
            var entries := EntriesOf(ordered, now, rules);
            && multiset(ordered) == multiset(series)
            && (forall k :: 0 <= k < |entries| ==> entries[k] == EntryOf(ordered[k], now, rules))
            && forall i, j :: 0 <= i <= j < |entries| ==> AtMost(entries[i].subjectId, entries[j].subjectId)
  {
    var ordered, leq := Sort(series, ByTarget()), ByTarget();
    ByTargetIsTotal();
    SortSorted(series, leq);
    var entries := EntriesOf(ordered, now, rules);
    forall i, j | 0 <= i <= j < |entries| ensures AtMost(entries[i].subjectId, entries[j].subjectId) {
      assert leq(ordered[i], ordered[j]);
      WindowsExactly(ordered[i], now, rules);
      WindowsExactly(ordered[j], now, rules);
    }
  }
}
