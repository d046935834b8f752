/** The statistics of verifier-sdk/src/benchmark.ts. Samples are reals; `round` is the rounding of one
    arithmetic operation, so exact arithmetic and double precision are two instances of one model. */
module Benchmark {
  import opened Wrappers
  import opened OrderStatistics

  /** The longest array of ECMAScript. */
  const MAX_LENGTH: nat := 0xFFFF_FFFF

  /** Rounding keeps the order, and keeps the integers an array index can need. */
  ghost predicate Rounding(round: real -> real) {
    && (forall x, y :: x <= y ==> round(x) <= round(y))
    && (forall x: real :: x.Floor as real == x && 0 <= x.Floor <= MAX_LENGTH ==> round(x) == x)
  }

  function Exact(x: real): real {
    x
  }

  function Ceiling(x: real): int {
    -((-x).Floor)
  }

  /** The share of `n` samples, rounded after the division and after the product. */
  function Share(n: nat, percentage: real, round: real -> real): real {
    round(Product(round(percentage / 100.0), n))
  }

  function Product(a: real, n: nat): real {
    a * n as real
  }

  function IndexOf(share: real): int {
    if Ceiling(share) >= 1 then Ceiling(share) - 1 else 0
  }

  function RankIndex(n: nat, percentage: real, round: real -> real): int {
    IndexOf(Share(n, percentage, round))
  }

  lemma RankInRange(n: nat, percentage: real, round: real -> real)
    requires Rounding(round) && 0 < n <= MAX_LENGTH && 0.0 <= percentage <= 100.0
    ensures 0 <= RankIndex(n, percentage, round) < n
  {
    var share, whole := round(percentage / 100.0), n as real;
    assert round(1.0) == 1.0;
    assert share <= 1.0;
    ProductMonotone(share, 1.0, n);
    assert Product(1.0, n) == whole && whole.Floor == n;
    assert round(Product(share, n)) <= round(whole) == whole;
  }

  lemma ProductMonotone(a: real, b: real, n: nat)
    requires a <= b
    ensures Product(a, n) <= Product(b, n)
  {
  }

  function Percentile(values: seq<real>, percentage: real, round: real -> real): Result<real> {
    if values == [] || percentage < 0.0 || percentage > 100.0 then Failure
    else
      var index := RankIndex(|values|, percentage, round);
      // Within the array, by RankInRange.
      if index < |values| then Success(Sort(values)[index]) else Failure
  }

  function Median(values: seq<real>, round: real -> real): Result<real> {
    if values == [] then Failure
    else
      var sorted, middle := Sort(values), |values| / 2;
      if |values| % 2 == 1 then Success(sorted[middle])
      else Success(round(round(sorted[middle - 1] + sorted[middle]) / 2.0))
  }

  lemma ShareReached(share: real, m: nat)
    requires m >= 1
    ensures m as real >= share <==> m > IndexOf(share)
  {
    assert Ceiling(share) as real - 1.0 < share <= Ceiling(share) as real;
  }

  /** At least `share` samples, and at least one, are at most `x`. */
  predicate Covers(values: seq<real>, share: real, x: real) {
    AtMost(values, x) >= 1 && AtMost(values, x) as real >= share
  }

  lemma {:induction false} CoversIff(values: seq<real>, share: real, x: real, index: nat)
    requires index == IndexOf(share) && index < |values|
    ensures Covers(values, share, x) <==> Sort(values)[index] <= x
  {
    if AtMost(values, x) >= 1 {
      ShareReached(share, AtMost(values, x));
    }
    OrderStatistic(values, index, x);
  }

  /** With any rounding of the share, the percentile is the least sample that covers it. */
  lemma {:induction false} PercentileCovers(values: seq<real>, percentage: real, round: real -> real, v: real)
    requires Percentile(values, percentage, round) == Success(v)
    ensures var share := Share(|values|, percentage, round);
      v in values && Covers(values, share, v) && forall x :: Covers(values, share, x) ==> v <= x
  {
    var share := Share(|values|, percentage, round);
    LeastCovering(values, share, v, IndexOf(share));
  }

  /** Nearest rank: in exact arithmetic the percentile is the least value that at least the given share
      of the samples does not exceed. */
  lemma {:induction false} PercentileIsNearestRank(values: seq<real>, percentage: real, v: real)
    requires 0 < |values| <= MAX_LENGTH && Percentile(values, percentage, Exact) == Success(v)
    ensures var share := percentage / 100.0 * |values| as real;
      v in values && Covers(values, share, v) && forall x :: Covers(values, share, x) ==> v <= x
  {
    var share := percentage / 100.0 * |values| as real;
    assert share == Share(|values|, percentage, Exact);
    LeastCovering(values, share, v, IndexOf(share));
  }

  lemma {:induction false} LeastCovering(values: seq<real>, share: real, v: real, index: nat)
    requires index == IndexOf(share) && index < |values| && v == Sort(values)[index]
    ensures v in values && Covers(values, share, v) && forall x :: Covers(values, share, x) ==> v <= x
  {
    SortIsSortedPermutation(values);
    assert Sort(values)[index] in multiset(Sort(values));
    CoversIff(values, share, v, index);
    forall x | Covers(values, share, x) ensures v <= x {
      CoversIff(values, share, x, index);
    }
  }

  /** The sample of rank k, counted from 0: more than k samples do not exceed it, and at most k are less. */
  ghost predicate RankValue(values: seq<real>, k: nat, v: real) {
    v in values && AtMost(values, v) > k && forall x :: x < v ==> AtMost(values, x) <= k
  }

  lemma {:induction false} RankValueIsUnique(values: seq<real>, k: nat, v: real, w: real)
    requires RankValue(values, k, v) && RankValue(values, k, w)
    ensures v == w
  {
    assert v < w ==> AtMost(values, v) <= k;
    assert w < v ==> AtMost(values, w) <= k;
  }

  lemma {:induction false} SortedIsRankValue(values: seq<real>, k: nat)
    requires k < |values|
    ensures RankValue(values, k, Sort(values)[k])
  {
    var v := Sort(values)[k];
    SortIsSortedPermutation(values);
    assert v in multiset(Sort(values));
    OrderStatistic(values, k, v);
    forall x | x < v ensures AtMost(values, x) <= k {
      OrderStatistic(values, k, x);
    }
  }

  /** The median is the middle sample, rounded or not, or the mean of the two middle ones, rounded after
      the sum and after the division. */
  lemma {:induction false} MedianIsMiddle(values: seq<real>, round: real -> real) returns (low: real, high: real)
    requires values != []
    ensures RankValue(values, (|values| - 1) / 2, low) && RankValue(values, |values| / 2, high)
    ensures Median(values, round)
         == Success(if |values| % 2 == 1 then high else round(round(low + high) / 2.0))
  {
    low, high := Sort(values)[(|values| - 1) / 2], Sort(values)[|values| / 2];
    SortedIsRankValue(values, (|values| - 1) / 2);
    SortedIsRankValue(values, |values| / 2);
  }

  /** Exactly which calls throw. */
  lemma {:induction false} StatisticsRefuse(values: seq<real>, percentage: real, round: real -> real)
    requires Rounding(round) && |values| <= MAX_LENGTH
    ensures Percentile(values, percentage, round).Failure? <==>
      values == [] || percentage < 0.0 || percentage > 100.0
    ensures Median(values, round).Failure? <==> values == []
  {
    if values != [] && 0.0 <= percentage <= 100.0 {
      RankInRange(|values|, percentage, round);
    }
  }

  lemma RankMonotone(n: nat, p: real, q: real, round: real -> real)
    requires Rounding(round) && p <= q
    ensures RankIndex(n, p, round) <= RankIndex(n, q, round)
  {
    var a, b := round(p / 100.0), round(q / 100.0);
    assert a <= b;
    ProductMonotone(a, b, n);
    assert round(Product(a, n)) <= round(Product(b, n));
  }

  lemma {:induction false} PercentileMonotone(values: seq<real>, p: real, q: real, round: real -> real)
    requires Rounding(round) && 0 < |values| <= MAX_LENGTH && 0.0 <= p <= q <= 100.0
    ensures Percentile(values, p, round).Success? && Percentile(values, q, round).Success?
    ensures Percentile(values, p, round).value <= Percentile(values, q, round).value
  {
    RankInRange(|values|, p, round);
    RankInRange(|values|, q, round);
    RankMonotone(|values|, p, q, round);
    SortIsSortedPermutation(values);
  }

  lemma {:induction false} MedianMonotone(a: seq<real>, b: seq<real>, round: real -> real)
    requires Rounding(round) && 0 < |a| == |b| && forall i :: 0 <= i < |a| ==> a[i] <= b[i]
    ensures Median(a, round).value <= Median(b, round).value
  {
    var middle := |a| / 2;
    OrderStatisticsMonotone(a, b, middle);
    if |a| % 2 == 0 {
      OrderStatisticsMonotone(a, b, middle - 1);
      var x, y := Sort(a)[middle - 1] + Sort(a)[middle], Sort(b)[middle - 1] + Sort(b)[middle];
      assert round(x) <= round(y);
      assert round(round(x) / 2.0) <= round(round(y) / 2.0);
    }
  }

  lemma {:induction false} StatisticsRestOnSort(a: seq<real>, b: seq<real>, percentage: real, round: real -> real)
    requires Sort(a) == Sort(b) && |a| == |b|
    ensures Percentile(a, percentage, round) == Percentile(b, percentage, round)
    ensures Median(a, round) == Median(b, round)
  {
    assert a == [] <==> b == [];
    assert RankIndex(|a|, percentage, round) == RankIndex(|b|, percentage, round);
  }

  /** Neither statistic depends on the order in which the samples arrived. */
  lemma {:induction false} OrderOfSamplesIsForgotten(a: seq<real>, b: seq<real>, percentage: real, round: real -> real)
    requires multiset(a) == multiset(b)
    ensures Percentile(a, percentage, round) == Percentile(b, percentage, round)
    ensures Median(a, round) == Median(b, round)
  {
    SortOfPermutation(a, b);
    SameLength(a, b);
    StatisticsRestOnSort(a, b, percentage, round);
  }

  // ---- Summaries ----

  datatype Latency = Latency(p50Ms: real, p95Ms: real, p99Ms: real)

  datatype Throughput = Throughput(concurrency: int, requestsPerSecond: real)

  datatype ScenarioTrial = ScenarioTrial(latency: Latency, throughput: seq<Throughput>)

  datatype ScenarioSummary = ScenarioSummary(
    p50Ms: real, p95Ms: real, p99Ms: real, maxRequestsPerSecond: real, throughputConcurrency: int)

  function Concurrencies(t: ScenarioTrial): (r: seq<int>)
    ensures |r| == |t.throughput| && forall i :: 0 <= i < |r| ==> r[i] == t.throughput[i].concurrency
  {
    seq(|t.throughput|, i requires 0 <= i < |t.throughput| => t.throughput[i].concurrency)
  }

  function Mapped(trials: seq<ScenarioTrial>, f: ScenarioTrial -> real): (r: seq<real>)
    ensures |r| == |trials| && forall i :: 0 <= i < |r| ==> r[i] == f(trials[i])
  {
    if trials == [] then [] else [f(trials[0])] + Mapped(trials[1..], f)
  }

  predicate SameSweep(trials: seq<ScenarioTrial>, levels: seq<int>) {
    forall i :: 0 <= i < |trials| ==> Concurrencies(trials[i]) == levels
  }

  /** The throughput of a trial at one level of its sweep. */
  function RateAt(level: nat): ScenarioTrial -> real {
    (t: ScenarioTrial) => if level < |t.throughput| then t.throughput[level].requestsPerSecond else 0.0
  }

  function MedianOf(values: seq<real>, round: real -> real): real
    requires values != []
  {
    Median(values, round).value
  }

  function ThroughputByConcurrency(trials: seq<ScenarioTrial>, levels: seq<int>, round: real -> real):
    (r: seq<Throughput>)
    requires trials != []
    ensures |r| == |levels|
    ensures forall i :: 0 <= i < |r| ==> r[i] == Throughput(levels[i], MedianOf(Mapped(trials, RateAt(i)), round))
  {
    seq(|levels|, i requires 0 <= i < |levels| =>
      Throughput(levels[i], MedianOf(Mapped(trials, RateAt(i)), round)))
  }

  /** `reduce` that replaces the best only by a strictly greater one. */
  function Peak(levels: seq<Throughput>): Throughput
    requires levels != []
  {
    var last := |levels| - 1;
    if last == 0 then levels[0]
    else
      var best := Peak(levels[..last]);
      if levels[last].requestsPerSecond > best.requestsPerSecond then levels[last] else best
  }

  predicate FirstMaximum(levels: seq<Throughput>, i: nat) {
    && i < |levels|
    && (forall j :: 0 <= j < |levels| ==> levels[j].requestsPerSecond <= levels[i].requestsPerSecond)
    && (forall j :: 0 <= j < i ==> levels[j].requestsPerSecond < levels[i].requestsPerSecond)
  }

  /** The peak is the first level of maximal throughput. */
  lemma {:induction false} PeakIsFirstMaximum(levels: seq<Throughput>) returns (i: nat)
    requires levels != []
    ensures FirstMaximum(levels, i) && levels[i] == Peak(levels)
  {
    var last := |levels| - 1;
    if last == 0 {
      i := 0;
    } else {
      i := PeakIsFirstMaximum(levels[..last]);
      assert forall j :: 0 <= j < last ==> levels[..last][j] == levels[j];
      if levels[last].requestsPerSecond > levels[i].requestsPerSecond {
        i := last;
      }
    }
  }

  function P50(t: ScenarioTrial): real {
    t.latency.p50Ms
  }

  function P95(t: ScenarioTrial): real {
    t.latency.p95Ms
  }

  function P99(t: ScenarioTrial): real {
    t.latency.p99Ms
  }

  function SummarizeScenarioTrials(trials: seq<ScenarioTrial>, round: real -> real): Result<ScenarioSummary> {
    if trials == [] then Failure
    else
      var levels := Concurrencies(trials[0]);
      if levels == [] || !SameSweep(trials, levels) then Failure
      else
        var peak := Peak(ThroughputByConcurrency(trials, levels, round));
        Success(ScenarioSummary(
          MedianOf(Mapped(trials, P50), round), MedianOf(Mapped(trials, P95), round),
          MedianOf(Mapped(trials, P99), round), peak.requestsPerSecond, peak.concurrency))
  }

  /** The latencies of a trial are percentiles of one batch of samples. */
  predicate Measured(t: ScenarioTrial, samples: seq<real>, round: real -> real) {
    && 0 < |samples| <= MAX_LENGTH
    && Percentile(samples, 50.0, round) == Success(t.latency.p50Ms)
    && Percentile(samples, 95.0, round) == Success(t.latency.p95Ms)
    && Percentile(samples, 99.0, round) == Success(t.latency.p99Ms)
  }

  /** Summaries of measured trials keep the order of their percentiles, with or without rounding. */
  lemma {:induction false} SummaryKeepsPercentileOrder(trials: seq<ScenarioTrial>, samples: seq<seq<real>>,
                                                      round: real -> real)
    requires Rounding(round) && |samples| == |trials|
    requires forall i :: 0 <= i < |trials| ==> Measured(trials[i], samples[i], round)
    ensures match SummarizeScenarioTrials(trials, round)
      case Failure => true
      case Success(summary) => summary.p50Ms <= summary.p95Ms <= summary.p99Ms
  {
    forall i | 0 <= i < |trials|
      ensures trials[i].latency.p50Ms <= trials[i].latency.p95Ms <= trials[i].latency.p99Ms
    {
      assert Measured(trials[i], samples[i], round);
      PercentileMonotone(samples[i], 50.0, 95.0, round);
      PercentileMonotone(samples[i], 95.0, 99.0, round);
    }
    if trials != [] {
      MedianMonotone(Mapped(trials, P50), Mapped(trials, P95), round);
      MedianMonotone(Mapped(trials, P95), Mapped(trials, P99), round);
    }
  }

  lemma {:induction false} MappedConcat(a: seq<ScenarioTrial>, b: seq<ScenarioTrial>, f: ScenarioTrial -> real)
    ensures Mapped(a + b, f) == Mapped(a, f) + Mapped(b, f)
  {
  }

  lemma {:induction false} MappedPermutation(a: seq<ScenarioTrial>, b: seq<ScenarioTrial>, f: ScenarioTrial -> real)
    requires multiset(a) == multiset(b)
    ensures multiset(Mapped(a, f)) == multiset(Mapped(b, f))
    decreases |a|
  {
    if a == [] {
      SameLength(a, b);
    } else {
      var i := PickHead(a, b);
      var rest := b[..i] + b[i + 1..];
      MappedPermutation(a[1..], rest, f);
      MappedConcat(b[..i], b[i + 1..], f);
      MappedConcat(b[..i], [b[i]] + b[i + 1..], f);
      MappedConcat([b[i]], b[i + 1..], f);
    }
  }

  lemma {:induction false} MediansAgree(a: seq<ScenarioTrial>, b: seq<ScenarioTrial>, f: ScenarioTrial -> real,
                                       round: real -> real)
    requires multiset(a) == multiset(b) && a != [] && b != []
    ensures MedianOf(Mapped(a, f), round) == MedianOf(Mapped(b, f), round)
  {
    MappedPermutation(a, b, f);
    OrderOfSamplesIsForgotten(Mapped(a, f), Mapped(b, f), 50.0, round);
  }

  lemma {:induction false} SummaryOfPermutation(a: seq<ScenarioTrial>, b: seq<ScenarioTrial>, round: real -> real)
    requires multiset(a) == multiset(b)
    requires SummarizeScenarioTrials(a, round).Success?
    ensures SummarizeScenarioTrials(b, round) == SummarizeScenarioTrials(a, round)
  {
    SameLength(a, b);
    var levels := Concurrencies(a[0]);
    forall i | 0 <= i < |b| ensures Concurrencies(b[i]) == levels {
      assert b[i] in multiset(a);
      var j :| 0 <= j < |a| && a[j] == b[i];
    }
    MediansAgree(a, b, P50, round);
    MediansAgree(a, b, P95, round);
    MediansAgree(a, b, P99, round);
    forall i | 0 <= i < |levels|
      ensures ThroughputByConcurrency(a, levels, round)[i] == ThroughputByConcurrency(b, levels, round)[i]
    {
      MediansAgree(a, b, RateAt(i), round);
    }
    assert ThroughputByConcurrency(a, levels, round) == ThroughputByConcurrency(b, levels, round);
  }

  /** A summary, or its failure, does not depend on the order in which the trials were run. */
  lemma {:induction false} SummaryForgetsTrialOrder(a: seq<ScenarioTrial>, b: seq<ScenarioTrial>, round: real -> real)
    requires multiset(a) == multiset(b)
    ensures SummarizeScenarioTrials(a, round) == SummarizeScenarioTrials(b, round)
  {
    if SummarizeScenarioTrials(a, round).Success? {
      SummaryOfPermutation(a, b, round);
    } else if SummarizeScenarioTrials(b, round).Success? {
      SummaryOfPermutation(b, a, round);
    }
  }

  /** `column` lists one figure of each trial. */
  ghost predicate Column(trials: seq<ScenarioTrial>, column: seq<real>, figure: ScenarioTrial -> real) {
    |column| == |trials| && forall i :: 0 <= i < |trials| ==> column[i] == figure(trials[i])
  }

  /** Each latency of a summary is the median of its own column. */
  lemma {:induction false} SummaryLatencies(trials: seq<ScenarioTrial>, round: real -> real,
                                           p50: seq<real>, p95: seq<real>, p99: seq<real>)
    requires Column(trials, p50, (t: ScenarioTrial) => t.latency.p50Ms)
    requires Column(trials, p95, (t: ScenarioTrial) => t.latency.p95Ms)
    requires Column(trials, p99, (t: ScenarioTrial) => t.latency.p99Ms)
    ensures match SummarizeScenarioTrials(trials, round)
      case Failure => true
      case Success(summary) =>
        && Median(p50, round) == Success(summary.p50Ms)
        && Median(p95, round) == Success(summary.p95Ms)
        && Median(p99, round) == Success(summary.p99Ms)
  {
    assert p50 == Mapped(trials, P50) && p95 == Mapped(trials, P95) && p99 == Mapped(trials, P99);
  }

  /** `rates[k]` lists the throughput of each trial at the level `k` of the common sweep. */
  ghost predicate Rates(trials: seq<ScenarioTrial>, levels: seq<int>, rates: seq<seq<real>>) {
    && SameSweep(trials, levels) && |rates| == |levels|
    && forall k :: 0 <= k < |levels| ==>
         |rates[k]| == |trials|
         && forall i :: 0 <= i < |trials| && k < |trials[i].throughput| ==>
              rates[k][i] == trials[i].throughput[k].requestsPerSecond
  }

  lemma {:induction false} RateIsMapped(trials: seq<ScenarioTrial>, levels: seq<int>, rates: seq<seq<real>>, k: nat)
    requires Rates(trials, levels, rates) && k < |levels|
    ensures rates[k] == Mapped(trials, RateAt(k))
  {
    forall i | 0 <= i < |trials| ensures rates[k][i] == Mapped(trials, RateAt(k))[i] {
      assert |Concurrencies(trials[i])| == |levels|;
    }
  }

  lemma {:induction false} MedianOfLevel(trials: seq<ScenarioTrial>, levels: seq<int>, rates: seq<seq<real>>,
                                        round: real -> real, k: nat)
    requires trials != [] && Rates(trials, levels, rates) && k < |levels|
    ensures Median(rates[k], round)
         == Success(ThroughputByConcurrency(trials, levels, round)[k].requestsPerSecond)
  {
    RateIsMapped(trials, levels, rates, k);
  }

  lemma {:induction false} SummaryPeak(trials: seq<ScenarioTrial>, round: real -> real, summary: ScenarioSummary,
                                      levels: seq<int>)
    requires SummarizeScenarioTrials(trials, round) == Success(summary) && SameSweep(trials, levels)
    ensures trials != [] && levels != []
    ensures Peak(ThroughputByConcurrency(trials, levels, round))
         == Throughput(summary.throughputConcurrency, summary.maxRequestsPerSecond)
  {
    assert Concurrencies(trials[0]) == levels;
  }

  lemma {:induction false} LevelMedians(trials: seq<ScenarioTrial>, round: real -> real, levels: seq<int>,
                                       rates: seq<seq<real>>) returns (medians: seq<real>)
    requires trials != [] && Rates(trials, levels, rates)
    ensures |medians| == |levels|
    ensures forall j :: 0 <= j < |levels| ==> Median(rates[j], round) == Success(medians[j])
    ensures forall j :: 0 <= j < |levels| ==>
      ThroughputByConcurrency(trials, levels, round)[j] == Throughput(levels[j], medians[j])
  {
    var table := ThroughputByConcurrency(trials, levels, round);
    medians := seq(|levels|, j requires 0 <= j < |levels| => table[j].requestsPerSecond);
    forall j | 0 <= j < |levels| ensures Median(rates[j], round) == Success(medians[j]) {
      MedianOfLevel(trials, levels, rates, round, j);
    }
  }

  lemma {:induction false} FirstMaximumOf(table: seq<Throughput>, levels: seq<int>, medians: seq<real>) returns (k: nat)
    requires |table| == |levels| == |medians| && table != []
    requires forall j :: 0 <= j < |levels| ==> table[j] == Throughput(levels[j], medians[j])
    ensures k < |levels| && Peak(table) == Throughput(levels[k], medians[k])
    ensures forall j :: 0 <= j < |levels| ==> medians[j] <= medians[k]
    ensures forall j :: 0 <= j < k ==> medians[j] < medians[k]
  {
    k := PeakIsFirstMaximum(table);
    forall j | 0 <= j < |levels| ensures medians[j] == table[j].requestsPerSecond {
    }
  }

  /** The two throughput figures of a summary belong to one level: the first whose median rate is maximal. */
  lemma {:induction false} SummaryThroughput(trials: seq<ScenarioTrial>, round: real -> real,
                                            summary: ScenarioSummary, levels: seq<int>, rates: seq<seq<real>>)
    returns (medians: seq<real>, k: nat)
    requires SummarizeScenarioTrials(trials, round) == Success(summary) && Rates(trials, levels, rates)
    ensures |medians| == |levels| && forall j :: 0 <= j < |levels| ==> Median(rates[j], round) == Success(medians[j])
    ensures k < |levels| && summary.throughputConcurrency == levels[k] && summary.maxRequestsPerSecond == medians[k]
    ensures forall j :: 0 <= j < |levels| ==> medians[j] <= medians[k]
    ensures forall j :: 0 <= j < k ==> medians[j] < medians[k]
  {
    SummaryPeak(trials, round, summary, levels);
    medians := LevelMedians(trials, round, levels, rates);
    k := FirstMaximumOf(ThroughputByConcurrency(trials, levels, round), levels, medians);
  }

  /** A summary needs a trial, a level, and the same levels in every trial. */
  lemma {:induction false} SummaryRefusedIff(trials: seq<ScenarioTrial>, round: real -> real)
    ensures SummarizeScenarioTrials(trials, round).Success? <==>
      && trials != [] && trials[0].throughput != []
      && forall i :: 0 <= i < |trials| ==>
           |trials[i].throughput| == |trials[0].throughput|
           && forall k :: 0 <= k < |trials[0].throughput| ==>
                trials[i].throughput[k].concurrency == trials[0].throughput[k].concurrency
  {
    if trials != [] {
      var levels := Concurrencies(trials[0]);
      forall i | 0 <= i < |trials|
        ensures Concurrencies(trials[i]) == levels <==>
          |trials[i].throughput| == |trials[0].throughput|
          && forall k :: 0 <= k < |trials[0].throughput| ==>
               trials[i].throughput[k].concurrency == trials[0].throughput[k].concurrency
      {
        assert forall k :: 0 <= k < |trials[i].throughput| ==>
          Concurrencies(trials[i])[k] == trials[i].throughput[k].concurrency;
      }
    }
  }
}
