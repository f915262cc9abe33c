/** The collector the fuzzer uses: both collectors together, with a window of periodic snapshots. */
module CompositeCoverage {
  import opened Bytes
  import opened Execution
  import opened EdgeCoverage
  import opened FeatureCoverage
  import opened Repetition

  datatype Snapshot = Snapshot(timestamp: nat, executionCount: nat, edgeCoverage: real, featureCoverage: real)

  const PERIOD: nat := 50
  const MAX_HISTORY: nat := 10000
  const DRAINED: nat := 1000

  /** How many snapshots are left after `taken` of them: the window loses its oldest thousand whenever it overflows. */
  function WindowLength(taken: nat): (n: nat)
    ensures n <= MAX_HISTORY && n <= taken
    ensures n == 0 <==> taken == 0
  {
    if taken <= MAX_HISTORY then taken
    else MAX_HISTORY - DRAINED + 1 + (taken - MAX_HISTORY - 1) % DRAINED
  }

  /** Ten thousand snapshots fit; the next one costs the oldest thousand. */
  lemma WindowLengths(taken: nat)
    ensures taken <= 10000 ==> WindowLength(taken) == taken
    ensures WindowLength(10001) == 9001 == WindowLength(11001)
    ensures taken > 10000 ==> 9001 <= WindowLength(taken) <= 10000
  {
  }

  /** The window after `taken` snapshots: the most recent ones, one for each period, all showing full coverage. */
  ghost predicate Window(history: seq<Snapshot>, taken: nat) {
    && |history| == WindowLength(taken)
    && forall i :: 0 <= i < |history| ==>
         && history[i].executionCount == PERIOD * (taken - |history| + 1 + i)
         && history[i].edgeCoverage == history[i].featureCoverage == 100.0
  }

  /** One more snapshot, and the drain that keeps the window bounded. */
  lemma WindowStep(history: seq<Snapshot>, taken: nat, s: Snapshot)
    requires Window(history, taken)
    requires s.executionCount == PERIOD * (taken + 1) && s.edgeCoverage == s.featureCoverage == 100.0
    ensures var longer := history + [s];
            Window(if |longer| > MAX_HISTORY then longer[DRAINED..] else longer, taken + 1)
  {
    if taken > MAX_HISTORY {
      var r := taken - MAX_HISTORY - 1;
      assert (r + 1) % DRAINED == if r % DRAINED == DRAINED - 1 then 0 else r % DRAINED + 1;
    }
  }

  lemma PeriodStep(count: nat)
    requires count > 0
    ensures count / PERIOD == (count - 1) / PERIOD + if count % PERIOD == 0 then 1 else 0
  {
  }

  // ---------------------------------------------------------------- rates

  /** Rates are defined when the execution counts do not decrease; otherwise the `u64` difference underflows. */
  ghost predicate Monotone(h: seq<Snapshot>) {
    forall i, j :: 0 <= i <= j < |h| ==> h[i].executionCount <= h[j].executionCount
  }

  function Recent(h: seq<Snapshot>): (r: seq<Snapshot>)
    ensures |r| == if |h| < 100 then |h| else 100
  {
    h[if |h| < 100 then 0 else |h| - 100..]
  }

  function WindowCount(h: seq<Snapshot>): nat { if |h| < 100 then 0 else |h| - 99 }

  /** The mean gain in edge coverage over the hundred snapshots from number `i` on, if it is positive. */
  function WindowGain(h: seq<Snapshot>, i: nat): real
    requires i < WindowCount(h)
  {
    var gain := (h[i + 99].edgeCoverage - h[i].edgeCoverage) / 100.0;
    if gain < 0.0 then 0.0 else gain
  }

  function EdgeDiscoveryRates(h: seq<Snapshot>): seq<real> {
    seq(WindowCount(h), i requires 0 <= i < WindowCount(h) => WindowGain(h, i))
  }

  /** The gain in edge coverage per execution over the last hundred snapshots. */
  function DiscoveryRate(h: seq<Snapshot>): real {
    if |h| < 2 then 0.0
    else
      var start, end := Recent(h)[0], Recent(h)[|Recent(h)| - 1];
      if end.executionCount > start.executionCount
      then (end.edgeCoverage - start.edgeCoverage) / ((end.executionCount - start.executionCount) as real)
      else 0.0
  }

  /** The exponential moving average, with smoothing factor 0.1, of the first `k` coverage differences. */
  function Ema(h: seq<Snapshot>, k: nat): real
    requires k < |h| || k == 0
  {
    if k == 0 then 0.0 else 0.1 * (h[k].edgeCoverage - h[k - 1].edgeCoverage) + (1.0 - 0.1) * Ema(h, k - 1)
  }

  function GrowthRate(h: seq<Snapshot>): real {
    if |h| < 10 then 0.0 else Ema(h, |h| - 1)
  }

  /** The discovery rate times the executions is the gain, over the last hundred snapshots or all there are. */
  lemma RateTimesExecutions(h: seq<Snapshot>)
    requires |h| >= 2
    ensures var first, last := h[if |h| <= 100 then 0 else |h| - 100], h[|h| - 1];
            var executions := last.executionCount - first.executionCount;
            if executions > 0 then DiscoveryRate(h) * executions as real == last.edgeCoverage - first.edgeCoverage
            else DiscoveryRate(h) == 0.0
  {
    var r := Recent(h);
    var first, last := h[if |h| <= 100 then 0 else |h| - 100], h[|h| - 1];
    assert r[0] == first && r[|r| - 1] == last;
    if last.executionCount > first.executionCount {
      Quotient(last.edgeCoverage - first.edgeCoverage, (last.executionCount - first.executionCount) as real);
    }
  }

  lemma Quotient(a: real, b: real)
    requires b != 0.0
    ensures (a / b) * b == a
  {
  }

  function Tenths(k: nat): real { if k == 0 then 1.0 else 0.9 * Tenths(k - 1) }

  /** A moving average over constant growth approaches that growth: after `k` differences it lacks 0.9^k of it. */
  lemma {:induction false} SteadyGrowth(h: seq<Snapshot>, k: nat, growth: real)
    requires k < |h| || k == 0
    requires forall i :: 0 < i < |h| ==> h[i].edgeCoverage == h[i - 1].edgeCoverage + growth
    ensures Ema(h, k) == growth * (1.0 - Tenths(k))
  {
    if k > 0 {
      SteadyGrowth(h, k - 1, growth);
      MixedGrowth(growth, Tenths(k - 1));
      EmaStep(h, k, growth);
      assert Tenths(k) == 0.9 * Tenths(k - 1);
    }
  }

  lemma EmaStep(h: seq<Snapshot>, k: nat, growth: real)
    requires 0 < k < |h| && h[k].edgeCoverage == h[k - 1].edgeCoverage + growth
    ensures Ema(h, k) == 0.1 * growth + 0.9 * Ema(h, k - 1)
  {
  }

  lemma MixedGrowth(growth: real, t: real)
    ensures 0.1 * growth + 0.9 * (growth * (1.0 - t)) == growth * (1.0 - 0.9 * t)
  {
    assert growth * (1.0 - t) == growth - growth * t;
    assert growth * (1.0 - 0.9 * t) == growth - 0.9 * (growth * t);
  }

  /** A clamped gain is never negative, and a hundred times the gain when coverage grew. */
  lemma GainOfWindow(h: seq<Snapshot>, i: nat)
    requires i < WindowCount(h)
    ensures WindowGain(h, i) >= 0.0 && i + 99 < |h|
    ensures var gain := h[i + 99].edgeCoverage - h[i].edgeCoverage;
            100.0 * WindowGain(h, i) == if gain >= 0.0 then gain else 0.0
  {
  }

  /** A window of constant coverage has no growth, whatever its length. */
  lemma {:induction false} ConstantEma(h: seq<Snapshot>, k: nat)
    requires k < |h| || k == 0
    requires forall i :: 0 <= i < |h| ==> h[i].edgeCoverage == 100.0
    ensures Ema(h, k) == 0.0
  {
    if k > 0 {
      ConstantEma(h, k - 1);
    }
  }

  /**
   * Every window the collector can reach: the difference of execution counts is fifty for each step between the
   * first and the last recent snapshot, never negative, and all rates are exactly zero.
   */
  lemma ReachableRates(h: seq<Snapshot>, taken: nat)
    requires Window(h, taken)
    ensures Monotone(h)
    ensures |h| >= 2 ==>
              var r := Recent(h);
              r[|r| - 1].executionCount - r[0].executionCount == PERIOD * ((if |h| < 100 then |h| else 100) - 1) > 0
    ensures DiscoveryRate(h) == 0.0 && GrowthRate(h) == 0.0
    ensures forall rate :: rate in EdgeDiscoveryRates(h) ==> rate == 0.0
  {
    RecentSteps(h, taken);
    NoGain(h);
    if |h| >= 10 {
      ConstantEma(h, |h| - 1);
    }
    hide EdgeDiscoveryRates, Ema;
  }

  /** The first and the last recent snapshot are as many periods apart as there are steps between them. */
  lemma RecentSteps(h: seq<Snapshot>, taken: nat)
    requires Window(h, taken)
    ensures |h| >= 2 ==>
              var r := Recent(h);
              && r[|r| - 1].executionCount - r[0].executionCount == PERIOD * ((if |h| < 100 then |h| else 100) - 1) > 0
              && r[|r| - 1].edgeCoverage == r[0].edgeCoverage
  {
    if |h| >= 2 {
      var r := Recent(h);
      var first := if |h| < 100 then 0 else |h| - 100;
      assert r[0] == h[first] && r[|r| - 1] == h[|h| - 1];
    }
  }

  lemma NoGain(h: seq<Snapshot>)
    requires forall i :: 0 <= i < |h| ==> h[i].edgeCoverage == 100.0
    ensures forall rate :: rate in EdgeDiscoveryRates(h) ==> rate == 0.0
  {
  }

  class CompositeCoverageCollector {
    const edgeCollector: EdgeCoverageCollector
    const featureCollector: FeatureCoverageCollector
    var executionCount: nat
    var coverageHistory: seq<Snapshot>

    ghost predicate Valid()
      reads this, edgeCollector, featureCollector
    {
      && edgeCollector.Valid() && featureCollector.Valid()
      && executionCount == |edgeCollector.trace| == |featureCollector.results|
      && Window(coverageHistory, executionCount / PERIOD)
    }

    constructor (edges: EdgeCoverageCollector, features: FeatureCoverageCollector)
      requires edges.Valid() && edges.trace == []
      requires features.Valid() && features.results == []
      ensures Valid() && executionCount == 0
      ensures edgeCollector == edges && featureCollector == features
    {
      edgeCollector, featureCollector := edges, features;
      executionCount, coverageHistory := 0, [];
    }

    /**
     * `now` is the clock. An input that is not searchable makes the feature collector panic, when the execution is
     * already counted and its path recorded; the snapshot is then not taken. `isNew` says whether the path was new.
     */
    method RecordExecution(input: seq<Byte>, result: ExecutionResult, now: nat)
      returns (completed: bool, ghost isNew: bool)
      requires Valid()
      modifies this, edgeCollector, featureCollector
      ensures completed <==> Searchable(input)
      ensures executionCount == old(executionCount) + 1
      ensures edgeCollector.Valid()
      ensures edgeCollector.trace == old(edgeCollector.trace) + [edgeCollector.PathOf(input, result)]
      ensures isNew <==> edgeCollector.PathOf(input, result) !in old(edgeCollector.trace)
      ensures completed ==> Valid() && featureCollector.results == old(featureCollector.results) + [result]
      ensures completed && executionCount % 50 != 0 ==> coverageHistory == old(coverageHistory)
      ensures completed && executionCount % 50 == 0 ==>
                coverageHistory != []
                && coverageHistory[|coverageHistory| - 1] == Snapshot(now, executionCount, 100.0, 100.0)
      ensures !completed ==>
                && coverageHistory == old(coverageHistory) && featureCollector.results == old(featureCollector.results)
                && featureCollector.featureMap == old(featureCollector.featureMap)
    {
      hide Window, Searchable, EdgeCoverageCollector.Valid, FeatureCoverageCollector.Valid,
           EdgeCoverageCollector.PathOf, FeatureCoverageCollector.FeaturesOf;
      executionCount := executionCount + 1;
      PeriodStep(executionCount);
      isNew := edgeCollector.RecordExecution(input, result);
      completed := featureCollector.RecordExecution(input, result);
      if completed && executionCount % PERIOD == 0 {
        TakeSnapshot(now);
      }
    }

    method TakeSnapshot(now: nat)
      requires edgeCollector.Valid() && featureCollector.Valid()
      requires executionCount == |edgeCollector.trace| == |featureCollector.results|
      requires executionCount > 0 && executionCount % PERIOD == 0
      requires Window(coverageHistory, executionCount / PERIOD - 1)
      modifies this`coverageHistory
      ensures Window(coverageHistory, executionCount / PERIOD)
      ensures coverageHistory != []
      ensures coverageHistory[|coverageHistory| - 1] == Snapshot(now, executionCount, 100.0, 100.0)
    {
      hide Window, EdgeCoverageCollector.Valid, FeatureCoverageCollector.Valid;
      var edgeStats := edgeCollector.GetCoverageStats();
      var featureStats := featureCollector.GetCoverageStats();
      var snapshot := Snapshot(now, executionCount, edgeStats.coveragePercentage, featureStats.coveragePercentage);
      WindowStep(coverageHistory, executionCount / PERIOD - 1, snapshot);
      coverageHistory := coverageHistory + [snapshot];
      if |coverageHistory| > MAX_HISTORY {
        coverageHistory := coverageHistory[DRAINED..];
      }
    }

    method GetCoverageStats() returns (stats: CoverageStats)
      requires Valid()
      ensures stats == CoverageStats(executionCount, |set p | p in edgeCollector.trace|,
                                     if executionCount == 0 then 0.0 else 100.0, executionCount > 0)
    {
      var edgeStats := edgeCollector.GetCoverageStats();
      var featureStats := featureCollector.GetCoverageStats();
      stats := CoverageStats(executionCount, edgeStats.uniquePaths,
                             (edgeStats.coveragePercentage + featureStats.coveragePercentage) / 2.0,
                             edgeStats.newCoverageFound || featureStats.newCoverageFound);
    }

    method HasNewCoverage() returns (b: bool)
      requires Valid()
      ensures b <==> executionCount > 0
    {
      b := edgeCollector.HasNewCoverage();
      if !b {
        b := featureCollector.HasNewCoverage();
      }
    }

    /** The windows of a hundred snapshots, each with its clamped mean gain; nothing is ever gained. */
    method CalculateEdgeDiscoveryRate() returns (rates: seq<real>)
      ensures rates == EdgeDiscoveryRates(coverageHistory)
      ensures Valid() ==> forall i :: 0 <= i < |rates| ==> rates[i] == 0.0
    {
      hide EdgeDiscoveryRates, DiscoveryRate, GrowthRate, Monotone;
      rates := ClampedGains();
      if Valid() {
        RatesVanish();
        assert forall i :: 0 <= i < |rates| ==> rates[i] in rates;
      }
    }

    method ClampedGains() returns (rates: seq<real>)
      ensures rates == EdgeDiscoveryRates(coverageHistory)
    {
      rates := [];
      while |rates| + 100 <= |coverageHistory|
        invariant |rates| <= WindowCount(coverageHistory)
        invariant forall i :: 0 <= i < |rates| ==> rates[i] == WindowGain(coverageHistory, i)
      {
        var window := coverageHistory[|rates|..|rates| + 100];
        var rate := (window[99].edgeCoverage - window[0].edgeCoverage) / 100.0;
        rates := rates + [if rate < 0.0 then 0.0 else rate];
      }
    }

    method CalculateDiscoveryRate() returns (rate: real)
      requires Monotone(coverageHistory)
      ensures rate == DiscoveryRate(coverageHistory)
    {
      if |coverageHistory| < 2 {
        return 0.0;
      }
      var recent := Recent(coverageHistory);
      var start, end := recent[0], recent[|recent| - 1];
      var increase := end.edgeCoverage - start.edgeCoverage;
      var executionDelta: nat := end.executionCount - start.executionCount;
      if executionDelta > 0 {
        rate := increase / executionDelta as real;
      } else {
        rate := 0.0;
      }
    }

    method CalculateCoverageGrowthRate() returns (ema: real)
      ensures ema == GrowthRate(coverageHistory)
    {
      if |coverageHistory| < 10 {
        return 0.0;
      }
      ema := 0.0;
      var alpha := 0.1;
      for i := 1 to |coverageHistory|
        invariant ema == Ema(coverageHistory, i - 1)
      {
        var growth := coverageHistory[i].edgeCoverage - coverageHistory[i - 1].edgeCoverage;
        ema := alpha * growth + (1.0 - alpha) * ema;
      }
    }

    /** In every reachable state no rate ever shows any discovery. */
    lemma RatesVanish()
      requires Valid()
      ensures Monotone(coverageHistory)
      ensures forall rate :: rate in EdgeDiscoveryRates(coverageHistory) ==> rate == 0.0
      ensures DiscoveryRate(coverageHistory) == 0.0 && GrowthRate(coverageHistory) == 0.0
    {
      ReachableRates(coverageHistory, executionCount / PERIOD);
    }

    method Reset()
      requires Valid()
      modifies this, edgeCollector, featureCollector
      ensures Valid() && executionCount == 0
    {
      edgeCollector.Reset();
      featureCollector.Reset();
      executionCount, coverageHistory := 0, [];
    }
  }
}
