/** The benchmark harness: it sweeps the fork-join threshold to find the best one
    per thread count, then runs all three strategies per thread count and
    cross-validates their outputs before recording their times. Elapsed times
    are inputs (functions of the run's coordinates); console output, CSV writing
    and process exit are not modelled: the logs are returned as values and a
    mismatch is a `Failure` result. */
module App {
  import opened Matrices
  import opened Generator
  import SequentialMultiplicator
  import ForkJoinMultiplicator
  import ParallelMultiplicator

  /** Matrix dimension the threshold sweep runs up to. */
  const N: int := 1024
  /** Repetitions per measured configuration. */
  const ITERATIONS: int := 10

  datatype Result<T, E> = Success(value: T) | Failure(error: E)

  // ---------------------------------------------------------------------------
  // equalResults

  /** equalResults reads c1[i][j], c2[i][j] and c3[i][j] for i, j < c1.length. */
  predicate Comparable(c1: array2<int>, c2: array2<int>, c3: array2<int>) {
    var n := c1.Length0;
    c1.Length1 >= n && c2.Length0 >= n && c2.Length1 >= n && c3.Length0 >= n && c3.Length1 >= n
  }

  /** The three matrices agree on every cell (i, j) with i, j < c1.length. */
  predicate AllEqual(c1: array2<int>, c2: array2<int>, c3: array2<int>)
    reads c1, c2, c3
    requires Comparable(c1, c2, c3)
  {
    forall i, j :: 0 <= i < c1.Length0 && 0 <= j < c1.Length0 ==> c1[i, j] == c2[i, j] && c1[i, j] == c3[i, j]
  }

  /** `equalResults`: scans the cells in row-major order and returns false at the
      first one where c1 differs from c2 or from c3; the early exit does not change
      the answer, which is exactly whether all three agree. */
  method EqualResults(c1: array2<int>, c2: array2<int>, c3: array2<int>) returns (eq: bool)
    requires Comparable(c1, c2, c3)
    ensures eq <==> AllEqual(c1, c2, c3)
  {
    var n := c1.Length0;
    var i := 0;
    while i < n
      invariant 0 <= i <= n
      invariant forall r, s :: 0 <= r < i && 0 <= s < n ==> c1[r, s] == c2[r, s] && c1[r, s] == c3[r, s]
    {
      var j := 0;
      while j < n
        invariant 0 <= j <= n
        invariant forall r, s :: 0 <= r < n && 0 <= s < n && (r < i || (r == i && s < j)) ==>
          c1[r, s] == c2[r, s] && c1[r, s] == c3[r, s]
      {
        if c1[i, j] != c2[i, j] || c1[i, j] != c3[i, j] {
          return false;
        }
        j := j + 1;
      }
      i := i + 1;
    }
    return true;
  }

  /** Outputs of which the first two hold different matrices fail the check. */
  lemma DifferentContentsNotAllEqual(c1: array2<int>, c2: array2<int>, c3: array2<int>)
    requires c1.Length0 == c1.Length1 == c2.Length0 == c2.Length1 == c3.Length0 == c3.Length1
    requires Contents(c1) != Contents(c2)
    ensures Comparable(c1, c2, c3) && !AllEqual(c1, c2, c3)
  {
    if AllEqual(c1, c2, c3) {
      ContentsFromCells(c2, Contents(c1));
    }
  }

  /** Outputs that all hold the same matrix pass the check. */
  lemma SameContentsAllEqual(c1: array2<int>, c2: array2<int>, c3: array2<int>)
    requires c1.Length0 == c1.Length1 == c2.Length0 == c2.Length1 == c3.Length0 == c3.Length1
    requires Contents(c1) == Contents(c2) && Contents(c1) == Contents(c3)
    ensures Comparable(c1, c2, c3) && AllEqual(c1, c2, c3)
  {
    var M := Contents(c1);
    forall i, j | 0 <= i < c1.Length0 && 0 <= j < c1.Length0
      ensures c1[i, j] == c2[i, j] && c1[i, j] == c3[i, j]
    {
      assert c1[i, j] == M[i][j] == Contents(c2)[i][j] == Contents(c3)[i][j];
    }
  }

  // ---------------------------------------------------------------------------
  // The threshold sweep: threshold = 1, 2, 4, ... while threshold <= N

  /** 2 to the power k. */
  function Pow2(k: nat): int {
    if k == 0 then 1 else 2 * Pow2(k - 1)
  }

  lemma {:induction false} Pow2Increasing(k: nat, l: nat)
    requires k < l
    ensures 1 <= Pow2(k) < Pow2(l)
    decreases l
  {
    if k < l - 1 {
      Pow2Increasing(k, l - 1);
    } else if k > 0 {
      Pow2Increasing(0, k);
    }
  }

  /** The thresholds the doubling loop visits from t on: t, 2t, 4t, ... while at most n. */
  function PowersFrom(t: int, n: int): seq<int>
    requires t >= 1
    decreases n - t
  {
    if t > n then [] else [t] + PowersFrom(2 * t, n)
  }

  /** The thresholds the sweep visits for matrix dimension n. */
  function Thresholds(n: int): seq<int> {
    PowersFrom(1, n)
  }

  /** The loop from t visits t first (if t <= n), doubles each time, stays within
      [t, n], and stops at the first value whose double exceeds n. */
  lemma {:induction false} PowersFromShape(t: int, n: int)
    requires t >= 1
    ensures var P := PowersFrom(t, n);
      && (|P| > 0 <==> t <= n)
      && (|P| > 0 ==> P[0] == t && 2 * P[|P| - 1] > n)
      && (forall k :: 0 <= k < |P| ==> t <= P[k] <= n)
      && (forall k :: 0 <= k < |P| - 1 ==> P[k + 1] == 2 * P[k])
    decreases n - t
  {
    if t <= n {
      PowersFromShape(2 * t, n);
      var P := PowersFrom(t, n);
      var Q := PowersFrom(2 * t, n);
      assert P == [t] + Q;
      forall k | 0 <= k < |P| - 1 ensures P[k + 1] == 2 * P[k] {
        if k > 0 {
          assert P[k] == Q[k - 1] && P[k + 1] == Q[k];
        }
      }
    }
  }

  lemma {:induction false} ThresholdAt(n: int, k: nat)
    requires k < |Thresholds(n)|
    ensures Thresholds(n)[k] == Pow2(k)
  {
    PowersFromShape(1, n);
    if k > 0 {
      ThresholdAt(n, k - 1);
    }
  }

  /** The sweep visits exactly 1, 2, 4, ... up to the largest power of two <= n, in
      increasing order: its k-th value is 2^k, a power of two is visited iff it is
      at most n, every visited value lies in [1, n], and for n >= 1 there is one. */
  lemma ThresholdsArePowersOfTwo(n: int)
    ensures var T := Thresholds(n);
      && (forall k :: 0 <= k < |T| ==> T[k] == Pow2(k) && 1 <= T[k] <= n)
      && (forall k: nat :: Pow2(k) <= n <==> k < |T|)
      && (forall k, l :: 0 <= k < l < |T| ==> T[k] < T[l])
      && (n >= 1 <==> |T| > 0)
  {
    var T := Thresholds(n);
    PowersFromShape(1, n);
    forall k | 0 <= k < |T| ensures T[k] == Pow2(k) {
      ThresholdAt(n, k);
    }
    forall k: nat ensures Pow2(k) <= n <==> k < |T| {
      if k < |T| {
        ThresholdAt(n, k);
      } else if k == |T| {
        if k > 0 {
          ThresholdAt(n, k - 1);
        }
      } else {
        Pow2Increasing(|T|, k);
        if |T| > 0 {
          ThresholdAt(n, |T| - 1);
        }
      }
    }
    forall k, l | 0 <= k < l < |T| ensures T[k] < T[l] {
      ThresholdAt(n, k);
      ThresholdAt(n, l);
      Pow2Increasing(k, l);
    }
  }

  // ---------------------------------------------------------------------------
  // Choosing the best threshold per thread count

  /** totalTime after the first `runs` fork-join runs with this thread count and threshold. */
  function TotalTime(time: (int, int, int) -> int, threads: int, threshold: int, runs: int): int
    decreases runs
  {
    if runs <= 0 then 0 else TotalTime(time, threads, threshold, runs - 1) + time(threads, threshold, runs - 1)
  }

  /** The total time of each threshold in `ts`, over ITERATIONS runs. */
  function Totals(time: (int, int, int) -> int, threads: int, ts: seq<int>): (r: seq<int>)
    ensures |r| == |ts|
  {
    seq(|ts|, k requires 0 <= k < |ts| => TotalTime(time, threads, ts[k], ITERATIONS))
  }

  /** The position the scan `if (x < best) best = x` settles on, scanning left to right. */
  function FirstMinIndex(s: seq<int>): (k: nat)
    requires |s| > 0
    ensures k < |s|
    decreases |s|
  {
    if |s| == 1 then 0
    else
      var k := FirstMinIndex(s[..|s| - 1]);
      if s[|s| - 1] < s[k] then |s| - 1 else k
  }

  /** Because the comparison is strict, the scan picks the FIRST minimum: no value
      is smaller, and every earlier value is strictly larger. */
  lemma {:induction false} FirstMinIndexIsFirstMinimum(s: seq<int>)
    requires |s| > 0
    ensures forall j :: 0 <= j < |s| ==> s[FirstMinIndex(s)] <= s[j]
    ensures forall j :: 0 <= j < FirstMinIndex(s) ==> s[j] > s[FirstMinIndex(s)]
    decreases |s|
  {
    if |s| > 1 {
      var p := s[..|s| - 1];
      FirstMinIndexIsFirstMinimum(p);
      assert forall j :: 0 <= j < |p| ==> p[j] == s[j];
    }
  }

  /** The threshold the sweep keeps for this thread count: the first visited
      threshold of least total time, or the initial 0 if none was visited. */
  function BestThreshold(time: (int, int, int) -> int, threads: int, n: int): int {
    var T := Thresholds(n);
    if |T| == 0 then 0 else T[FirstMinIndex(Totals(time, threads, T))]
  }

  /** The chosen threshold is a visited one, no visited threshold has a smaller
      total, and every smaller (earlier) threshold has a strictly larger total, so
      ties keep the earliest. The sentinel 0 survives only when nothing is visited,
      that is when n < 1. */
  lemma BestThresholdIsFirstMinimum(time: (int, int, int) -> int, threads: int, n: int)
    ensures var T := Thresholds(n); var best := BestThreshold(time, threads, n);
      && (best == 0 <==> n < 1)
      && (n >= 1 ==> best in T && 1 <= best <= n)
      && (forall h :: h in T ==> TotalTime(time, threads, best, ITERATIONS) <= TotalTime(time, threads, h, ITERATIONS))
      && (forall h :: h in T && h < best ==> TotalTime(time, threads, h, ITERATIONS) > TotalTime(time, threads, best, ITERATIONS))
  {
    var T := Thresholds(n);
    ThresholdsArePowersOfTwo(n);
    if |T| > 0 {
      var S := Totals(time, threads, T);
      var k := FirstMinIndex(S);
      FirstMinIndexIsFirstMinimum(S);
      forall h | h in T ensures S[k] <= TotalTime(time, threads, h, ITERATIONS) {
        var j :| 0 <= j < |T| && T[j] == h;
        assert S[j] == TotalTime(time, threads, h, ITERATIONS);
      }
      forall h | h in T && h < T[k] ensures TotalTime(time, threads, h, ITERATIONS) > S[k] {
        var j :| 0 <= j < |T| && T[j] == h;
        assert S[j] == TotalTime(time, threads, h, ITERATIONS);
        assert j < k;
      }
    }
  }

  // ---------------------------------------------------------------------------
  // The threshold log: one (threads, threshold, time) record per fork-join run

  datatype ThresholdRecord = ThresholdRecord(threads: int, threshold: int, time: int)

  /** The records of the first `runs` runs of one (threads, threshold) pair. */
  function RunRecords(time: (int, int, int) -> int, threads: int, threshold: int, runs: nat): (r: seq<ThresholdRecord>)
    ensures |r| == runs
  {
    seq(runs, k requires 0 <= k < runs => ThresholdRecord(threads, threshold, time(threads, threshold, k)))
  }

  /** The records of one thread count's sweep over the thresholds `ts`, in order. */
  function SweepRecords(time: (int, int, int) -> int, threads: int, ts: seq<int>): seq<ThresholdRecord>
    decreases |ts|
  {
    if ts == [] then []
    else SweepRecords(time, threads, ts[..|ts| - 1]) + RunRecords(time, threads, ts[|ts| - 1], ITERATIONS)
  }

  /** The whole threshold log for thread counts 1..maxThreads. */
  function ThresholdLog(time: (int, int, int) -> int, maxThreads: int, n: int): seq<ThresholdRecord>
    decreases maxThreads
  {
    if maxThreads <= 0 then []
    else ThresholdLog(time, maxThreads - 1, n) + SweepRecords(time, maxThreads, Thresholds(n))
  }

  /** How many records of `log` belong to the pair (threads, threshold). */
  function CountRuns(log: seq<ThresholdRecord>, threads: int, threshold: int): nat
    decreases |log|
  {
    if log == [] then 0
    else
      var last := log[|log| - 1];
      CountRuns(log[..|log| - 1], threads, threshold) + (if last.threads == threads && last.threshold == threshold then 1 else 0)
  }

  lemma {:induction false} CountRunsAppend(x: seq<ThresholdRecord>, y: seq<ThresholdRecord>, threads: int, threshold: int)
    ensures CountRuns(x + y, threads, threshold) == CountRuns(x, threads, threshold) + CountRuns(y, threads, threshold)
    decreases |y|
  {
    if y != [] {
      var y' := y[..|y| - 1];
      assert (x + y)[..|x + y| - 1] == x + y';
      assert (x + y)[|x + y| - 1] == y[|y| - 1];
      CountRunsAppend(x, y', threads, threshold);
    } else {
      assert x + y == x;
    }
  }

  lemma {:induction false} RunRecordsCount(time: (int, int, int) -> int, t: int, h: int, runs: nat, threads: int, threshold: int)
    ensures CountRuns(RunRecords(time, t, h, runs), threads, threshold)
         == if t == threads && h == threshold && runs > 0 then runs else 0
    decreases runs
  {
    if runs > 0 {
      var R := RunRecords(time, t, h, runs);
      var last := R[runs - 1];
      assert R == RunRecords(time, t, h, runs - 1) + [last];
      RunRecordsCount(time, t, h, runs - 1, threads, threshold);
      CountRunsAppend(RunRecords(time, t, h, runs - 1), [last], threads, threshold);
      assert CountRuns([last], threads, threshold) == (if t == threads && h == threshold then 1 else 0) by {
        assert [last][..0] == [];
      }
    }
  }

  lemma {:induction false} SweepRecordsCount(time: (int, int, int) -> int, t: int, ts: seq<int>, threads: int, threshold: int)
    requires forall k, l :: 0 <= k < l < |ts| ==> ts[k] < ts[l]
    ensures CountRuns(SweepRecords(time, t, ts), threads, threshold)
         == if t == threads && threshold in ts then ITERATIONS else 0
    decreases |ts|
  {
    if ts != [] {
      var p := ts[..|ts| - 1];
      var h := ts[|ts| - 1];
      SweepRecordsCount(time, t, p, threads, threshold);
      CountRunsAppend(SweepRecords(time, t, p), RunRecords(time, t, h, ITERATIONS), threads, threshold);
      RunRecordsCount(time, t, h, ITERATIONS, threads, threshold);
      assert ts == p + [h];
      assert h !in p;
    }
  }

  /** Per thread count 1..maxThreads the log holds exactly ITERATIONS records for
      each swept threshold, and no record for any other pair. */
  lemma {:induction false} ThresholdLogCount(time: (int, int, int) -> int, maxThreads: int, n: int, threads: int, threshold: int)
    ensures CountRuns(ThresholdLog(time, maxThreads, n), threads, threshold)
         == if 1 <= threads <= maxThreads && threshold in Thresholds(n) then ITERATIONS else 0
    decreases maxThreads
  {
    if maxThreads > 0 {
      ThresholdsArePowersOfTwo(n);
      ThresholdLogCount(time, maxThreads - 1, n, threads, threshold);
      CountRunsAppend(ThresholdLog(time, maxThreads - 1, n), SweepRecords(time, maxThreads, Thresholds(n)), threads, threshold);
      SweepRecordsCount(time, maxThreads, Thresholds(n), threads, threshold);
    }
  }

  // ---------------------------------------------------------------------------
  // thresholdAnalysis

  /** The matrices one strategy run needs from the harness: a and b of the
      generator's size. */
  predicate Inputs(a: array2<int>, b: array2<int>, size: nat) {
    a.Length0 == a.Length1 == b.Length0 == b.Length1 == size
  }

  /** The innermost loop of `thresholdAnalysis` for one (threads, threshold) pair:
      ITERATIONS fork-join runs, each on a fresh zero matrix; returns totalTime and
      the records it appends. */
  method TimeThreshold(threads: int, threshold: int, a: array2<int>, b: array2<int>,
                       generator: MatrixGenerator, time: (int, int, int) -> int)
    returns (totalTime: int, records: seq<ThresholdRecord>)
    requires threads >= 1 && threshold >= 1 && Inputs(a, b, generator.size)
    ensures totalTime == TotalTime(time, threads, threshold, ITERATIONS)
    ensures records == RunRecords(time, threads, threshold, ITERATIONS)
  {
    totalTime := 0;
    records := [];
    var i := 0;
    while i < ITERATIONS
      invariant 0 <= i <= ITERATIONS
      invariant totalTime == TotalTime(time, threads, threshold, i)
      invariant records == RunRecords(time, threads, threshold, i)
    {
      var c := generator.GenerateZero();
      ForkJoinMultiplicator.Multiply(threads, threshold, a, b, c);
      var forkJoinTime := time(threads, threshold, i);
      totalTime := totalTime + forkJoinTime;
      records := records + [ThresholdRecord(threads, threshold, forkJoinTime)];
      i := i + 1;
    }
  }

  /** The state of the best-threshold scan after the thresholds `visited`: while
      nothing is visited the initial values stand (`haveBest` false, threshold 0);
      afterwards it holds the first visited threshold of least total time and
      that total. */
  ghost predicate ScanState(time: (int, int, int) -> int, threads: int, visited: seq<int>,
                            haveBest: bool, bestThreshold: int, bestTime: int) {
    && (haveBest <==> |visited| > 0)
    && (!haveBest ==> bestThreshold == 0)
    && (haveBest ==>
          var S := Totals(time, threads, visited);
          bestThreshold == visited[FirstMinIndex(S)] && bestTime == S[FirstMinIndex(S)])
  }

  /** One more visited threshold h: the scan moves to h exactly when h's total is
      strictly below the best so far (or nothing was visited yet). */
  lemma ScanStep(time: (int, int, int) -> int, threads: int, visited: seq<int>,
                 haveBest: bool, bestThreshold: int, bestTime: int, h: int)
    requires ScanState(time, threads, visited, haveBest, bestThreshold, bestTime)
    ensures var x := TotalTime(time, threads, h, ITERATIONS);
      var moves := !haveBest || x < bestTime;
      ScanState(time, threads, visited + [h], true, if moves then h else bestThreshold, if moves then x else bestTime)
  {
    var S := Totals(time, threads, visited);
    var S' := Totals(time, threads, visited + [h]);
    assert S' == S + [TotalTime(time, threads, h, ITERATIONS)];
    assert S'[..|S'| - 1] == S;
  }

  /** The scan state after a whole sweep is the best threshold's definition. */
  lemma ScanResult(time: (int, int, int) -> int, threads: int, n: int,
                   haveBest: bool, bestThreshold: int, bestTime: int)
    requires ScanState(time, threads, Thresholds(n), haveBest, bestThreshold, bestTime)
    ensures bestThreshold == BestThreshold(time, threads, n)
  {
  }

  /** One more visited threshold appends that threshold's run records. */
  lemma SweepRecordsStep(time: (int, int, int) -> int, threads: int, visited: seq<int>, h: int)
    ensures SweepRecords(time, threads, visited + [h])
         == SweepRecords(time, threads, visited) + RunRecords(time, threads, h, ITERATIONS)
  {
    assert (visited + [h])[..|visited|] == visited;
  }

  /** The loop from t is the loop from 2t with t visited first. */
  lemma VisitNext(visited: seq<int>, t: int, n: int)
    requires t >= 1 && t <= n && visited + PowersFrom(t, n) == Thresholds(n)
    ensures (visited + [t]) + PowersFrom(2 * t, n) == Thresholds(n)
  {
    assert PowersFrom(t, n) == [t] + PowersFrom(2 * t, n);
  }

  /** The body of `thresholdAnalysis`'s loop for one thread count: sweep the
      thresholds 1, 2, 4, ... <= n, keeping the first of least total time (a total
      replaces the best only when strictly smaller). */
  method SweepThresholds(threads: int, n: int, a: array2<int>, b: array2<int>,
                         generator: MatrixGenerator, time: (int, int, int) -> int)
    returns (bestThreshold: int, records: seq<ThresholdRecord>)
    requires threads >= 1 && Inputs(a, b, generator.size)
    ensures bestThreshold == BestThreshold(time, threads, n)
    ensures records == SweepRecords(time, threads, Thresholds(n))
  {
    bestThreshold := 0;
    var bestTime := 0;
    var haveBest := false;  // false while bestTime still holds the initial Double.MAX_VALUE
    records := [];
    ghost var visited: seq<int> := [];
    var threshold := 1;
    while threshold <= n
      invariant threshold >= 1
      invariant visited + PowersFrom(threshold, n) == Thresholds(n)
      invariant records == SweepRecords(time, threads, visited)
      invariant ScanState(time, threads, visited, haveBest, bestThreshold, bestTime)
      decreases n - threshold
    {
      var totalTime, runs := TimeThreshold(threads, threshold, a, b, generator, time);
      SweepRecordsStep(time, threads, visited, threshold);
      ScanStep(time, threads, visited, haveBest, bestThreshold, bestTime, threshold);
      VisitNext(visited, threshold, n);
      records := records + runs;
      if !haveBest || totalTime < bestTime {
        bestTime := totalTime;
        bestThreshold := threshold;
      }
      haveBest := true;
      visited := visited + [threshold];
      threshold := threshold * 2;
    }
    assert visited == Thresholds(n);
    ScanResult(time, threads, n, haveBest, bestThreshold, bestTime);
  }

  /** The loop of `thresholdAnalysis` over thread counts 1..maxThreads: each
      thread count's sweep is logged in turn and its chosen threshold put into
      the map; entries for other thread counts are left as they were. */
  method SweepThreadCounts(maxThreads: int, n: int, a: array2<int>, b: array2<int>, generator: MatrixGenerator,
                           time: (int, int, int) -> int, bestThresholds: map<int, int>)
    returns (best: map<int, int>, log: seq<ThresholdRecord>)
    requires Inputs(a, b, generator.size)
    ensures log == ThresholdLog(time, maxThreads, n)
    ensures forall t :: 1 <= t <= maxThreads ==> t in best && best[t] == BestThreshold(time, t, n)
    ensures forall t :: !(1 <= t <= maxThreads) ==>
      (t in best <==> t in bestThresholds) && (t in best ==> best[t] == bestThresholds[t])
  {
    log := [];
    best := bestThresholds;
    var threads := 1;
    while threads <= maxThreads
      invariant 1 <= threads <= (if maxThreads < 0 then 1 else maxThreads + 1)
      invariant log == ThresholdLog(time, threads - 1, n)
      invariant forall t :: 1 <= t < threads ==> t in best && best[t] == BestThreshold(time, t, n)
      invariant forall t :: !(1 <= t < threads) ==>
        (t in best <==> t in bestThresholds) && (t in best ==> best[t] == bestThresholds[t])
    {
      var bestThreshold, records := SweepThresholds(threads, n, a, b, generator, time);
      log := log + records;
      best := best[threads := bestThreshold];
      threads := threads + 1;
    }
  }

  /** `thresholdAnalysis`: draws a and b from the generator, then sweeps every
      thread count 1..maxThreads with them. */
  method ThresholdAnalysis(maxThreads: int, n: int, generator: MatrixGenerator, time: (int, int, int) -> int, bestThresholds: map<int, int>)
    returns (best: map<int, int>, log: seq<ThresholdRecord>)
    modifies generator
    ensures generator.drawn == old(generator.drawn) + 2 * (generator.size * generator.size)
    ensures log == ThresholdLog(time, maxThreads, n)
    ensures forall t :: 1 <= t <= maxThreads ==> t in best && best[t] == BestThreshold(time, t, n)
    ensures forall t :: !(1 <= t <= maxThreads) ==>
      (t in best <==> t in bestThresholds) && (t in best ==> best[t] == bestThresholds[t])
  {
    var a := generator.Generate();
    var b := generator.Generate();
    best, log := SweepThreadCounts(maxThreads, n, a, b, generator, time, bestThresholds);
  }

  // ---------------------------------------------------------------------------
  // threadAnalysis

  /** A row of the thread results: a sequential baseline time (written with thread
      count 1 and empty strategy columns), or one thread count's fork-join and
      flat-parallel times. */
  datatype ThreadRecord =
    | SequentialRecord(sequentialTime: int)
    | StrategyRecord(threads: int, forkJoinTime: int, parallelTime: int)

  /** The cross-validation failed in this iteration for this thread count. */
  datatype Mismatch = Mismatch(iteration: int, threads: int)

  /** The strategy rows of one iteration for thread counts 1..maxThreads. */
  function StrategyRows(iteration: int, maxThreads: int, forkJoinTime: (int, int) -> int, parallelTime: (int, int) -> int): seq<ThreadRecord>
    decreases maxThreads
  {
    if maxThreads <= 0 then [] else
      StrategyRows(iteration, maxThreads - 1, forkJoinTime, parallelTime)
      + [StrategyRecord(maxThreads, forkJoinTime(iteration, maxThreads), parallelTime(iteration, maxThreads))]
  }

  /** The thread results of the first `iterations` iterations: each one the
      sequential row followed by the strategy rows. */
  function ThreadLog(iterations: int, maxThreads: int, sequentialTime: int -> int,
                     forkJoinTime: (int, int) -> int, parallelTime: (int, int) -> int): seq<ThreadRecord>
    decreases iterations
  {
    if iterations <= 0 then [] else
      ThreadLog(iterations - 1, maxThreads, sequentialTime, forkJoinTime, parallelTime)
      + [SequentialRecord(sequentialTime(iterations - 1))]
      + StrategyRows(iterations - 1, maxThreads, forkJoinTime, parallelTime)
  }

  lemma {:induction false} StrategyRowsShape(iteration: int, maxThreads: int, forkJoinTime: (int, int) -> int, parallelTime: (int, int) -> int)
    requires maxThreads >= 0
    ensures var R := StrategyRows(iteration, maxThreads, forkJoinTime, parallelTime);
      |R| == maxThreads && forall t :: 0 <= t < maxThreads ==> R[t] == StrategyRecord(t + 1, forkJoinTime(iteration, t + 1), parallelTime(iteration, t + 1))
    decreases maxThreads
  {
    if maxThreads > 0 {
      StrategyRowsShape(iteration, maxThreads - 1, forkJoinTime, parallelTime);
    }
  }

  /** Row-major offsets: position t of block i lies before the end of `blocks`
      blocks of m entries, and block i starts right after i blocks. */
  lemma RowMajorOffset(i: int, t: int, m: int, blocks: int)
    requires 0 <= i < blocks && 0 <= t < m
    ensures i * m + t < blocks * m
    ensures (i + 1) * m == i * m + m
  {
    assert (i + 1) * m <= blocks * m;
  }

  lemma {:induction false} ThreadLogLength(iterations: int, maxThreads: int, sequentialTime: int -> int,
                                           forkJoinTime: (int, int) -> int, parallelTime: (int, int) -> int)
    requires iterations >= 0 && maxThreads >= 0
    ensures |ThreadLog(iterations, maxThreads, sequentialTime, forkJoinTime, parallelTime)| == iterations * (maxThreads + 1)
    decreases iterations
  {
    if iterations > 0 {
      ThreadLogLength(iterations - 1, maxThreads, sequentialTime, forkJoinTime, parallelTime);
      StrategyRowsShape(iterations - 1, maxThreads, forkJoinTime, parallelTime);
      RowMajorOffset(iterations - 1, 0, maxThreads + 1, iterations);
    }
  }

  /** The log of the first j iterations is a prefix of the log of any later count. */
  lemma {:induction false} ThreadLogPrefix(j: int, iterations: int, maxThreads: int, sequentialTime: int -> int,
                                           forkJoinTime: (int, int) -> int, parallelTime: (int, int) -> int)
    requires 0 <= j <= iterations
    ensures var P := ThreadLog(j, maxThreads, sequentialTime, forkJoinTime, parallelTime);
      var L := ThreadLog(iterations, maxThreads, sequentialTime, forkJoinTime, parallelTime);
      |P| <= |L| && L[..|P|] == P
    decreases iterations
  {
    if j < iterations {
      ThreadLogPrefix(j, iterations - 1, maxThreads, sequentialTime, forkJoinTime, parallelTime);
      var P := ThreadLog(j, maxThreads, sequentialTime, forkJoinTime, parallelTime);
      var Q := ThreadLog(iterations - 1, maxThreads, sequentialTime, forkJoinTime, parallelTime);
      var rest := [SequentialRecord(sequentialTime(iterations - 1))] + StrategyRows(iterations - 1, maxThreads, forkJoinTime, parallelTime);
      assert ThreadLog(iterations, maxThreads, sequentialTime, forkJoinTime, parallelTime) == Q + rest;
      assert (Q + rest)[..|P|] == Q[..|P|];
    }
  }

  /** Iteration i appends its sequential row and then its strategy rows for
      thread counts 1..maxThreads, in that order. */
  lemma ThreadLogBlock(i: int, maxThreads: int, sequentialTime: int -> int,
                       forkJoinTime: (int, int) -> int, parallelTime: (int, int) -> int, t: int)
    requires 0 <= i && 0 <= t <= maxThreads
    ensures var P := ThreadLog(i, maxThreads, sequentialTime, forkJoinTime, parallelTime);
      var Q := ThreadLog(i + 1, maxThreads, sequentialTime, forkJoinTime, parallelTime);
      && |P| + t < |Q|
      && Q[|P| + t] == if t == 0 then SequentialRecord(sequentialTime(i))
                       else StrategyRecord(t, forkJoinTime(i, t), parallelTime(i, t))
  {
    var P := ThreadLog(i, maxThreads, sequentialTime, forkJoinTime, parallelTime);
    var R := StrategyRows(i, maxThreads, forkJoinTime, parallelTime);
    StrategyRowsShape(i, maxThreads, forkJoinTime, parallelTime);
    BlockAt(P, SequentialRecord(sequentialTime(i)), R, t);
  }

  lemma BlockAt(P: seq<ThreadRecord>, first: ThreadRecord, R: seq<ThreadRecord>, t: int)
    requires 0 <= t <= |R|
    ensures (P + [first] + R)[|P| + t] == if t == 0 then first else R[t - 1]
  {
  }

  /** Each iteration contributes one sequential row and then one row per thread
      count 1..maxThreads, in increasing thread order: entry t of block i (blocks
      of maxThreads + 1 rows) is iteration i's sequential row for t = 0 and its
      thread-count-t row otherwise. */
  lemma ThreadLogAt(iterations: int, maxThreads: int, sequentialTime: int -> int,
                    forkJoinTime: (int, int) -> int, parallelTime: (int, int) -> int, i: int, t: int)
    requires 0 <= i < iterations && 0 <= t <= maxThreads
    ensures var L := ThreadLog(iterations, maxThreads, sequentialTime, forkJoinTime, parallelTime);
      && |L| == iterations * (maxThreads + 1)
      && L[i * (maxThreads + 1) + t]
           == if t == 0 then SequentialRecord(sequentialTime(i))
              else StrategyRecord(t, forkJoinTime(i, t), parallelTime(i, t))
  {
    ThreadLogLength(iterations, maxThreads, sequentialTime, forkJoinTime, parallelTime);
    ThreadLogLength(i, maxThreads, sequentialTime, forkJoinTime, parallelTime);
    ThreadLogBlock(i, maxThreads, sequentialTime, forkJoinTime, parallelTime, t);
    ThreadLogPrefix(i + 1, iterations, maxThreads, sequentialTime, forkJoinTime, parallelTime);
  }

  /** The inner loop of `threadAnalysis` for one iteration: for each thread count
      run fork-join (with that count's best threshold) and flat-parallel (the pool
      running its queue in the order `schedule(iteration, threads)`), then record
      their times only once `equalResults` accepts all three outputs; a mismatch
      stops with a `Failure`. Since every strategy computes a·b, it never does. */
  method CompareThreadCounts(iteration: int, maxThreads: int, bestThresholds: map<int, int>,
                             a: array2<int>, b: array2<int>, cSequential: array2<int>, generator: MatrixGenerator,
                             forkJoinTime: (int, int) -> int, parallelTime: (int, int) -> int,
                             schedule: (int, int) -> seq<int>)
    returns (r: Result<seq<ThreadRecord>, Mismatch>)
    requires forall t :: 1 <= t <= maxThreads ==> t in bestThresholds && bestThresholds[t] >= 1
    requires forall t :: ParallelMultiplicator.IsSchedule(schedule(iteration, t), generator.size)
    requires Inputs(a, b, generator.size) && cSequential.Length0 == cSequential.Length1 == generator.size
    ensures r == if maxThreads >= 1 && Contents(cSequential) != Product(Contents(a), Contents(b))
                 then Failure(Mismatch(iteration, 1))
                 else Success(StrategyRows(iteration, maxThreads, forkJoinTime, parallelTime))
  {
    var results: seq<ThreadRecord> := [];
    var threads := 1;
    while threads <= maxThreads
      invariant 1 <= threads <= (if maxThreads < 0 then 1 else maxThreads + 1)
      invariant results == StrategyRows(iteration, threads - 1, forkJoinTime, parallelTime)
      invariant threads > 1 ==> Contents(cSequential) == Product(Contents(a), Contents(b))
    {
      var cParallel := generator.GenerateZero();
      var cForkJoin := generator.GenerateZero();
      var threshold := bestThresholds[threads];
      ForkJoinMultiplicator.Multiply(threads, threshold, a, b, cForkJoin);
      ParallelMultiplicator.Multiply(threads, a, b, cParallel, schedule(iteration, threads));
      var eq := EqualResults(cSequential, cParallel, cForkJoin);
      if Contents(cSequential) == Product(Contents(a), Contents(b)) {
        SameContentsAllEqual(cSequential, cParallel, cForkJoin);
      } else {
        DifferentContentsNotAllEqual(cSequential, cParallel, cForkJoin);
      }
      if !eq {
        return Failure(Mismatch(iteration, threads));
      }
      results := results + [StrategyRecord(threads, forkJoinTime(iteration, threads), parallelTime(iteration, threads))];
      threads := threads + 1;
    }
    assert StrategyRows(iteration, threads - 1, forkJoinTime, parallelTime) == StrategyRows(iteration, maxThreads, forkJoinTime, parallelTime);
    return Success(results);
  }

  /** `threadAnalysis`: draws a and b; in each of ITERATIONS iterations runs the
      sequential baseline once on a fresh zero matrix and records its time, then
      compares the other strategies for every thread count. The cross-validation
      never fails, so the whole log is produced. */
  method ThreadAnalysis(maxThreads: int, bestThresholds: map<int, int>, generator: MatrixGenerator,
                        sequentialTime: int -> int, forkJoinTime: (int, int) -> int, parallelTime: (int, int) -> int,
                        schedule: (int, int) -> seq<int>)
    returns (r: Result<seq<ThreadRecord>, Mismatch>)
    requires forall t :: 1 <= t <= maxThreads ==> t in bestThresholds && bestThresholds[t] >= 1
    requires forall i, t :: ParallelMultiplicator.IsSchedule(schedule(i, t), generator.size)
    modifies generator
    ensures generator.drawn == old(generator.drawn) + 2 * (generator.size * generator.size)
    ensures r == Success(ThreadLog(ITERATIONS, maxThreads, sequentialTime, forkJoinTime, parallelTime))
  {
    var a := generator.Generate();
    var b := generator.Generate();
    var results: seq<ThreadRecord> := [];
    var i := 0;
    while i < ITERATIONS
      invariant 0 <= i <= ITERATIONS
      invariant generator.drawn == old(generator.drawn) + 2 * (generator.size * generator.size)
      invariant Inputs(a, b, generator.size)
      invariant results == ThreadLog(i, maxThreads, sequentialTime, forkJoinTime, parallelTime)
    {
      var cSequential := generator.GenerateZero();
      SequentialMultiplicator.Multiply(a, b, cSequential);
      results := results + [SequentialRecord(sequentialTime(i))];
      var rows := CompareThreadCounts(i, maxThreads, bestThresholds, a, b, cSequential, generator,
                                      forkJoinTime, parallelTime, schedule);
      if rows.Failure? {
        return rows;
      }
      results := results + rows.value;
      i := i + 1;
    }
    return Success(results);
  }

  // ---------------------------------------------------------------------------
  // main

  /** The two phases in order, sharing one generator: the threshold sweep fills
      the best-threshold map for every thread count 1..maxThreads, so the lookups
      of the second phase are all defined and all positive, and the
      cross-validation of the second phase never fails. */
  method RunBenchmark(maxThreads: int, generator: MatrixGenerator, sweepTime: (int, int, int) -> int,
                      sequentialTime: int -> int, forkJoinTime: (int, int) -> int, parallelTime: (int, int) -> int,
                      schedule: (int, int) -> seq<int>)
    returns (bestThresholds: map<int, int>, thresholdLog: seq<ThresholdRecord>, threadResults: Result<seq<ThreadRecord>, Mismatch>)
    requires forall i, t :: ParallelMultiplicator.IsSchedule(schedule(i, t), generator.size)
    modifies generator
    ensures generator.drawn == old(generator.drawn) + 4 * (generator.size * generator.size)
    ensures thresholdLog == ThresholdLog(sweepTime, maxThreads, N)
    ensures forall t :: 1 <= t <= maxThreads ==> t in bestThresholds && bestThresholds[t] == BestThreshold(sweepTime, t, N)
    ensures threadResults == Success(ThreadLog(ITERATIONS, maxThreads, sequentialTime, forkJoinTime, parallelTime))
  {
    bestThresholds, thresholdLog := ThresholdAnalysis(maxThreads, N, generator, sweepTime, map[]);
    forall t | 1 <= t <= maxThreads ensures bestThresholds[t] >= 1 {
      BestThresholdIsFirstMinimum(sweepTime, t, N);
    }
    threadResults := ThreadAnalysis(maxThreads, bestThresholds, generator, sequentialTime, forkJoinTime, parallelTime, schedule);
  }
}
