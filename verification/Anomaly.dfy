/** The anomaly feed for chain targets: a rolling baseline, and the label of the latest observation against it. */
module Anomaly {
  import opened Decimals
  import opened Texts
  import opened Sequences
  import opened Sorting

  /** One observation of a target: Unix seconds, and the percentage movement against the one before. */
  datatype Observation = Observation(observedAt: int, delta: real)

  datatype Series = Series(targetId: Text, observations: seq<Observation>)

  datatype BaselineMethod = MedianAbsoluteDeviation | MeanStandardDeviation
  datatype ZeroBehaviour = NoHistoryOnZero | AbsoluteThresholdOnly

  datatype Rules = Rules(
    observationIntervalHours: int,
    minimumBaselineObservations: nat,
    baselineMethod: BaselineMethod,
    thresholdDeviations: real,
    minimumAbsoluteDelta: real,
    zeroBehaviour: ZeroBehaviour,
    gapIsMissing: bool,
    freshnessLimitHours: int,
    maximumObservations: nat,
    squareRoot: real -> real)

  datatype Label = PositiveSpike | NegativeSpike | Normal | StaleObservation | MissingObservation | InsufficientHistory

  datatype Reason = ZeroBaseline | TooFewObservations | ObservationStale | ObservationMissing

  /** The mean of no values is not a number, and neither then is the deviation from it. */
  datatype Baseline = Baseline(centre: real, spread: real) | NotANumber

  datatype Window = Window(startsAt: int, endsAt: int)

  datatype AnomalyEntry = AnomalyEntry(
    subjectId: Text,
    verdict: Label,
    observation: Window,
    baseline: Option<Window>,
    value: real,
    threshold: real,
    reasons: seq<Reason>)

  // ---------------------------------------------------------------- baseline

  function RealOrder(): (real, real) -> bool { (a: real, b: real) => a <= b }

  function Middle(s: seq<real>): real
    requires s != []
  {
    if |s| % 2 == 1 then s[|s| / 2] else (s[|s| / 2 - 1] + s[|s| / 2]) / 2.0
  }

  function Median(values: seq<real>): real {
    if values == [] then 0.0 else Middle(Sort(values, RealOrder()))
  }

  function Abs(x: real): real { if x < 0.0 then 0.0 - x else x }

  function Larger(a: real, b: real): real { if a < b then b else a }

  function Deviations(values: seq<real>, centre: real): (r: seq<real>)
    ensures |r| == |values|
  {
    seq(|values|, i requires 0 <= i < |values| => Abs(values[i] - centre))
  }

  function Total(values: seq<real>): real {
    if values == [] then 0.0 else Total(values[..|values| - 1]) + values[|values| - 1]
  }

  function SquaredDistances(values: seq<real>, centre: real): (r: seq<real>)
    ensures |r| == |values|
  {
    seq(|values|, i requires 0 <= i < |values| => (values[i] - centre) * (values[i] - centre))
  }

  function MeanBaseline(values: seq<real>, squareRoot: real -> real): Baseline {
    if values == [] then NotANumber
    else
      var mean := Total(values) / |values| as real;
      Baseline(mean, squareRoot(Total(SquaredDistances(values, mean)) / |values| as real))
  }

  function DeviationAbout(values: seq<real>, centre: real): Baseline {
    Baseline(centre, Median(Deviations(values, centre)) * 1.4826)
  }

  function MedianBaseline(values: seq<real>): Baseline { DeviationAbout(values, Median(values)) }

  function BaselineOf(values: seq<real>, rules: Rules): Baseline {
    if rules.baselineMethod == MeanStandardDeviation then MeanBaseline(values, rules.squareRoot)
    else MedianBaseline(values)
  }

  // ------------------------------------------------------------------- label

  datatype Decision = Decision(verdict: Label, threshold: real, reasons: seq<Reason>)

  function SpikeOf(delta: real): Label { if delta >= 0.0 then PositiveSpike else NegativeSpike }

  /** A comparison with what is not a number fails, so only the floor is tested; such a threshold prints as zero. */
  function LabelFor(delta: real, baseline: Baseline, rules: Rules): Decision {
    if baseline.NotANumber? then
      Decision(if Abs(delta) < rules.minimumAbsoluteDelta then Normal else SpikeOf(delta), 0.0, [])
    else LabelAgainst(delta, baseline.centre, baseline.spread, rules)
  }

  function LabelAgainst(delta: real, centre: real, spread: real, rules: Rules): Decision {
    var floor := rules.minimumAbsoluteDelta;
    var flat := spread == 0.0;
    if flat && rules.zeroBehaviour == NoHistoryOnZero then Decision(InsufficientHistory, floor, [ZeroBaseline])
    else
      var threshold := if flat then floor else Larger(floor, spread * rules.thresholdDeviations);
      var reasons := if flat then [ZeroBaseline] else [];
      if Abs(delta) < floor || Abs(delta - centre) < threshold then Decision(Normal, threshold, reasons)
      else Decision(SpikeOf(delta), threshold, reasons)
  }

  // ---------------------------------------------------------------- one target

  function ByTime(): (Observation, Observation) -> bool {
    (a: Observation, b: Observation) => a.observedAt <= b.observedAt
  }

  /** `slice(-n)`: the last `n`, and everything when `n` is zero. */
  function LastOf(s: seq<Observation>, n: nat): (r: seq<Observation>)
    ensures |r| <= |s|
  {
    if n == 0 || |s| <= n then s else s[|s| - n..]
  }

  function Considered(target: Series, rules: Rules): seq<Observation> {
    LastOf(Sort(target.observations, ByTime()), rules.maximumObservations)
  }

  /** More than two intervals after the observation before. */
  predicate GapBefore(s: seq<Observation>, i: nat, rules: Rules)
    requires 0 < i < |s|
  {
    s[i].observedAt - s[i - 1].observedAt > rules.observationIntervalHours * 3600 * 2
  }

  /** Two consecutive observations more than two intervals apart. */
  predicate HasGap(s: seq<Observation>, rules: Rules) {
    exists i :: 0 < i < |s| && GapBefore(s, i, rules)
  }

  function Deltas(s: seq<Observation>): (r: seq<real>)
    ensures |r| == |s|
  {
    seq(|s|, i requires 0 <= i < |s| => s[i].delta)
  }

  predicate Stale(latest: Observation, now: int, rules: Rules) {
    now - latest.observedAt > rules.freshnessLimitHours * 3600
  }

  /** The span of a history; an empty one is placed where the observation's window starts. */
  function Past(history: seq<Observation>, window: Window): Window {
    if history == [] then Window(window.startsAt, window.startsAt)
    else Window(history[0].observedAt, history[|history| - 1].observedAt)
  }

  /** The entry of a target with a latest observation, once it is known what the label would be. */
  function EntryDecided(id: Text, latest: Observation, history: seq<Observation>, gap: bool, now: int, rules: Rules,
                        d: Decision)
    : AnomalyEntry
  {
    var window := Window(latest.observedAt - rules.observationIntervalHours * 3600, latest.observedAt);
    var value, floor := Truncate6(latest.delta), Truncate6(rules.minimumAbsoluteDelta);
    if Stale(latest, now, rules) then AnomalyEntry(id, StaleObservation, window, None, value, floor, [ObservationStale])
    else if |history| < rules.minimumBaselineObservations then
      AnomalyEntry(id, InsufficientHistory, window, None, value, floor, [TooFewObservations])
    else if gap && rules.gapIsMissing then
      AnomalyEntry(id, MissingObservation, window, Some(Past(history, window)), value, floor, [ObservationMissing])
    else
      AnomalyEntry(id, d.verdict, window, Some(Past(history, window)), value, Truncate6(d.threshold), d.reasons)
  }

  /** The entry of a target, once the observations considered and their baseline are known. */
  function EntryFrom(id: Text, s: seq<Observation>, now: int, rules: Rules, b: Baseline): AnomalyEntry
    requires s != []
  {
    EntryDecided(id, s[|s| - 1], s[..|s| - 1], HasGap(s, rules), now, rules, LabelFor(s[|s| - 1].delta, b, rules))
  }

  /** The baseline of all but the latest observation. */
  function HistoryBaseline(s: seq<Observation>, rules: Rules): Baseline
    requires s != []
  {
    BaselineOf(Deltas(s[..|s| - 1]), rules)
  }

  function EntryOf(target: Series, now: int, rules: Rules): AnomalyEntry
  {
    var s := Considered(target, rules);
    if s == [] then
      AnomalyEntry(target.targetId, MissingObservation, Window(now, now), None, 0.0,
                   Truncate6(rules.minimumAbsoluteDelta),
                   [ObservationMissing])
    else EntryFrom(target.targetId, s, now, rules, HistoryBaseline(s, rules))
  }

  function ByTarget(): (Series, Series) -> bool {
    (a: Series, b: Series) => AtMost(a.targetId, b.targetId)
  }

  // ---------------------------------------------------------------- the loops

  method FindGap(s: seq<Observation>, rules: Rules) returns (gap: bool)
    ensures gap == HasGap(s, rules)
  {
    gap := false;
    for index := 0 to |s|
      invariant gap <==> exists i :: 0 < i < index && GapBefore(s, i, rules)
    {
      if index > 0 && GapBefore(s, index, rules) {
        gap := true;
      }
    }
  }

  /** Reasons and threshold are updated along the way; the label is decided last. */
  method DecideLabel(delta: real, baseline: Baseline, rules: Rules) returns (d: Decision)
    ensures d == LabelFor(delta, baseline, rules)
  {
    var reasons: seq<Reason> := [];
    var floor := rules.minimumAbsoluteDelta;
    if baseline.NotANumber? {
      d := Decision(if Abs(delta) < floor then Normal else SpikeOf(delta), 0.0, reasons);
    } else {
      var threshold := Larger(floor, baseline.spread * rules.thresholdDeviations);
      if baseline.spread == 0.0 {
        reasons := reasons + [ZeroBaseline];
        if rules.zeroBehaviour == NoHistoryOnZero { return Decision(InsufficientHistory, floor, reasons); }
        threshold := floor;
      }
      var distance := Abs(delta - baseline.centre);
      if Abs(delta) < floor || distance < threshold { return Decision(Normal, threshold, reasons); }
      d := Decision(SpikeOf(delta), threshold, reasons);
    }
  }

  method LabelTarget(target: Series, now: int, rules: Rules) returns (entry: AnomalyEntry)
    ensures entry == EntryOf(target, now, rules)
  {
    var s := LastOf(Sort(target.observations, ByTime()), rules.maximumObservations);
    var floor := rules.minimumAbsoluteDelta;
    if s == [] {
      return AnomalyEntry(target.targetId, MissingObservation, Window(now, now), None, 0.0, Truncate6(floor),
                          [ObservationMissing]);
    }
    var latest, history := s[|s| - 1], s[..|s| - 1];
    var window := Window(latest.observedAt - rules.observationIntervalHours * 3600, latest.observedAt);
    if now - latest.observedAt > rules.freshnessLimitHours * 3600 {
      return AnomalyEntry(target.targetId, StaleObservation, window, None, Truncate6(latest.delta), Truncate6(floor),
                          [ObservationStale]);
    }
    if |history| < rules.minimumBaselineObservations {
      return AnomalyEntry(target.targetId, InsufficientHistory, window, None, Truncate6(latest.delta),
                          Truncate6(floor), [TooFewObservations]);
    }
    var past := Past(history, window);
    var gap := FindGap(s, rules);
    if gap && rules.gapIsMissing {
      return AnomalyEntry(target.targetId, MissingObservation, window, Some(past), Truncate6(latest.delta),
                          Truncate6(floor), [ObservationMissing]);
    }
    var decided := DecideLabel(latest.delta, BaselineOf(Deltas(history), rules), rules);
    entry := AnomalyEntry(target.targetId, decided.verdict, window, Some(past), Truncate6(latest.delta),
                          Truncate6(decided.threshold), decided.reasons);
  }

  function EntriesOf(series: seq<Series>, now: int, rules: Rules): (entries: seq<AnomalyEntry>)
    ensures |entries| == |series|
  {
    seq(|series|, k requires 0 <= k < |series| => EntryOf(series[k], now, rules))
  }

  method ChainAnomalies(series: seq<Series>, now: int, rules: Rules) returns (entries: seq<AnomalyEntry>)
    ensures entries == EntriesOf(Sort(series, ByTarget()), now, rules)
  {
    var ordered := Sort(series, ByTarget());
    entries := [];
    ghost var all := EntriesOf(ordered, now, rules);
    for k := 0 to |ordered|
      invariant entries == all[..k]
    {
      TakeOneMore(all, k);
      var entry := LabelTarget(ordered[k], now, rules);
      assert entry == all[k];
      entries := entries + [entry];
    }
    assert all[..|ordered|] == all;
  }
}
