# Concurrent matrix multiplication benchmark, modelled in Dafny

The benchmark multiplies dense square matrices in three ways:

- a sequential triple loop, which is the baseline;
- a fork-join strategy that bisects the row range until a slice is at most `threshold` rows long;
- a flat data-parallel strategy with one pool task per output row.

Its harness sweeps fork-join thresholds 1, 2, 4, ... up to N for every thread count and keeps the first threshold with the least total time. It then runs all three strategies for every thread count and cross-validates their outputs before it records their times.

The model has five modules:

- `Matrices` (`matrices.dfy`) holds the value-level specification:
  - `Dot`, the running sum as a left fold in increasing k;
  - `ProductRow` and `Product`;
  - `WithProductRows(A, B, C, rows)`: the output matrix after the row tasks for `rows` have run.
  
  It also proves that row tasks compose by set union. That is why every order of the tasks gives the same `c`.
- `SequentialMultiplicator`, `ForkJoinMultiplicator` and `ParallelMultiplicator` are imperative methods on `array2<int>`. Each one is proved against that specification through the ghost function `Contents`, and each one ends with `c` equal to `Product(a, b)`.
- `Generator` is the `MatrixGenerator` class. It has a fixed `size`, the seeded random stream as a function `stream` from draw number to value, and a counter `drawn` of how many values have been drawn.
- `App` is the harness:
  - `equalResults`;
  - the threshold sweep and best-threshold choice;
  - the threshold log;
  - the validate-then-record thread sweep;
  - the two phases composed in `RunBenchmark`.
  
  Elapsed times are function parameters. The CSV logs are returned as sequences of records, and a cross-validation mismatch is a `Failure` result.

## Model

| member | source | states |
|---|---|---|
| Matrices.RowTasksCompose | src/main/java/ar/edu/itba/pp/matrix/ParallelMultiplicator.java:22-30 | running the row tasks for R1 and then those for R2 leaves the same matrix as running the tasks for R1 ∪ R2; each task writes its own row only, with a value that depends only on a and b |
| Matrices.RowTasksCommute | src/main/java/ar/edu/itba/pp/matrix/ForkJoinMultiplicator.java:62-64 | two groups of row tasks give the same output in either order, so the fork/compute/join order of the two halves does not matter |
| Matrices.Dot | src/main/java/ar/edu/itba/pp/matrix/SequentialMultiplicator.java:12-15 | the running `sum` after m steps of `sum += a[i][k]*b[k][j]` for k = 0..m-1, starting from 0: a left fold in increasing k. It is the reference the loops' `sum` invariants are proved against |
| Matrices.ProductRow | src/main/java/ar/edu/itba/pp/matrix/SequentialMultiplicator.java:11-17 | row i of the product: the full fold for each column j, one entry per column |
| Matrices.Product | src/main/java/ar/edu/itba/pp/matrix/SequentialMultiplicator.java:10-18 | the n-by-n product, row by row; every strategy's method ends with c equal to it |
| Matrices.AllRowsGiveProduct | src/main/java/ar/edu/itba/pp/matrix/SequentialMultiplicator.java:10-18 | once every row 0..n-1 has been computed, the output is a·b whatever it held before |
| Matrices.DotRightIdentity | src/main/java/ar/edu/itba/pp/matrix/SequentialMultiplicator.java:12-15 | the first m steps of the fold with the identity on the right give a[i][j] when j < m, and 0 otherwise |
| Matrices.DotLeftIdentity | src/main/java/ar/edu/itba/pp/matrix/SequentialMultiplicator.java:12-15 | the same with the identity on the left: b[i][j] when i < m, and 0 otherwise |
| Matrices.IdentityIsUnit | src/main/java/ar/edu/itba/pp/matrix/SequentialMultiplicator.java:10-18 | the identity is a two-sided unit of the product; in particular identity·identity = identity |
| Matrices.TwoByTwoExample | src/main/java/ar/edu/itba/pp/matrix/SequentialMultiplicator.java:10-18 | [[1,2],[3,4]]·[[5,6],[7,8]] = [[19,22],[43,50]] |
| Matrices.ContentsFromCells | src/main/java/ar/edu/itba/pp/matrix/SequentialMultiplicator.java:16 | an array whose cells agree with a matrix of its shape holds that matrix |
| SequentialMultiplicator.Multiply | src/main/java/ar/edu/itba/pp/matrix/SequentialMultiplicator.java:6-18 | c ends equal to a·b, where each cell is the left fold over k; a and b are unchanged; the result does not depend on what c held; the loop invariant is that rows below i are final and the other rows are untouched |
| SequentialMultiplicator.MultiplyTwice | src/main/java/ar/edu/itba/pp/matrix/SequentialMultiplicator.java:6-18 | two runs on the same inputs, each into a freshly allocated matrix whatever it holds, give the same output, namely a·b |
| ForkJoinMultiplicator.Midpoint | src/main/java/ar/edu/itba/pp/matrix/ForkJoinMultiplicator.java:57 | the split point (startRow + endRow) / 2; Java's truncating division agrees with Dafny's on non-negative bounds; `SplitHalves` proves what it guarantees |
| ForkJoinMultiplicator.Leaves | src/main/java/ar/edu/itba/pp/matrix/ForkJoinMultiplicator.java:53-66 | the task tree's directly computed ranges, lower half before upper half; always at least one; `LeavesTile` and `NoForkIff` characterise them |
| ForkJoinMultiplicator.SplitHalves | src/main/java/ar/edu/itba/pp/matrix/ForkJoinMultiplicator.java:54-60 | when a range longer than threshold ≥ 1 splits at midRow = (startRow+endRow)/2, both halves are non-empty and strictly shorter, they are disjoint, and their union is the range |
| ForkJoinMultiplicator.NonPositiveThresholdRepeats | src/main/java/ar/edu/itba/pp/matrix/ForkJoinMultiplicator.java:54-60 | with threshold ≤ 0 a one-row range still splits, and its half [midRow, endRow) is the same range, so the recursion goes on without bound (in Java it ends in a `StackOverflowError`) |
| ForkJoinMultiplicator.LeavesTile | src/main/java/ar/edu/itba/pp/matrix/ForkJoinMultiplicator.java:53-66 | the ranges the task tree multiplies directly tile [startRow, endRow) with no gap and no overlap: the first starts at startRow, the last ends at endRow, consecutive leaves meet, and each leaf is at most threshold rows |
| ForkJoinMultiplicator.NoForkIff | src/main/java/ar/edu/itba/pp/matrix/ForkJoinMultiplicator.java:54-55 | a task computes directly without forking exactly when its range is at most threshold rows; in particular threshold ≥ n means the root never forks |
| ForkJoinMultiplicator.MultiplyDirectly | src/main/java/ar/edu/itba/pp/matrix/ForkJoinMultiplicator.java:68-78 | rows in [startRow, endRow) become the product rows, every other row of c is as before, and a and b are unchanged |
| ForkJoinMultiplicator.Compute | src/main/java/ar/edu/itba/pp/matrix/ForkJoinMultiplicator.java:53-66 | rows in [startRow, endRow) become the product rows and all other rows are as before; the recursion terminates (decreasing range length) and multiplies directly exactly the leaves of the task tree |
| ForkJoinMultiplicator.Multiply | src/main/java/ar/edu/itba/pp/matrix/ForkJoinMultiplicator.java:18-23 | running the root task on [0, n) leaves c equal to a·b, the sequential result, for any thread count and any threshold ≥ 1 |
| ParallelMultiplicator.ScheduleCoversRows | src/main/java/ar/edu/itba/pp/matrix/ParallelMultiplicator.java:20-31 | any order in which the pool runs the n queued tasks runs n of them, each for a row in 0..n-1, and covers every row |
| ParallelMultiplicator.RowTask | src/main/java/ar/edu/itba/pp/matrix/ParallelMultiplicator.java:22-30 | the task for row finalI sets c[finalI][j] to the fold for every j and leaves every other row, a and b unchanged |
| ParallelMultiplicator.Multiply | src/main/java/ar/edu/itba/pp/matrix/ParallelMultiplicator.java:16-31 | whatever order the pool runs the row tasks in (any permutation of the queue) and whatever the thread count, c ends equal to a·b |
| Generator.DrawOffsets | src/main/java/ar/edu/itba/pp/matrix/MatrixGenerator.java:18-22 | cell (i, j) takes draw i·size+j, which is below size·size, and no two cells take the same draw: each cell is assigned exactly once |
| Generator.MatrixGenerator.constructor | src/main/java/ar/edu/itba/pp/matrix/MatrixGenerator.java:10-13 | the generator has the given size and the seed's stream, and has drawn nothing |
| Generator.MatrixGenerator.Generate | src/main/java/ar/edu/itba/pp/matrix/MatrixGenerator.java:16-26 | returns a freshly allocated size-by-size matrix filled in row-major order with the next size·size draws, and advances the stream by exactly size·size |
| Generator.MatrixGenerator.GenerateZero | src/main/java/ar/edu/itba/pp/matrix/MatrixGenerator.java:28-38 | returns a freshly allocated size-by-size matrix of zeros and draws nothing |
| Generator.SameSeedSameMatrices | src/main/java/ar/edu/itba/pp/matrix/MatrixGenerator.java:10-26 | two generators with the same size and seed, asked in the same order, hand out identical matrices: the first and second size·size draws |
| App.EqualResults | src/main/java/ar/edu/itba/pp/App.java:45-54 | returns true if and only if c1[i][j] == c2[i][j] and c1[i][j] == c3[i][j] for all i, j < c1.length; the early return does not change the answer |
| App.SameContentsAllEqual | src/main/java/ar/edu/itba/pp/App.java:45-54 | three outputs that hold the same matrix pass the check |
| App.DifferentContentsNotAllEqual | src/main/java/ar/edu/itba/pp/App.java:45-54 | three outputs of which the first two hold different matrices fail the check |
| App.PowersFrom | src/main/java/ar/edu/itba/pp/App.java:88 | the thresholds the doubling loop visits from t while at most n; `PowersFromShape` characterises them |
| App.Thresholds | src/main/java/ar/edu/itba/pp/App.java:88 | the sweep started at threshold 1; `ThresholdsArePowersOfTwo` proves it is exactly the powers of two ≤ n |
| App.PowersFromShape | src/main/java/ar/edu/itba/pp/App.java:88 | the loop from t visits values in [t, n], starting at t and doubling each step, and stops at the first value whose double exceeds n; it visits something if and only if t ≤ n |
| App.ThresholdAt | src/main/java/ar/edu/itba/pp/App.java:88 | the k-th threshold visited is 2^k |
| App.ThresholdsArePowersOfTwo | src/main/java/ar/edu/itba/pp/App.java:88 | the sweep visits exactly the powers of two ≤ n, in increasing order, each in [1, n]; for n ≥ 1 it visits at least one |
| App.TotalTime | src/main/java/ar/edu/itba/pp/App.java:92-101 | `totalTime` after the first `runs` repetitions: the sum of their times in run order |
| App.FirstMinIndex | src/main/java/ar/edu/itba/pp/App.java:106-110 | the position the strict-< scan settles on, always within the sequence; `FirstMinIndexIsFirstMinimum` proves it is the first minimum |
| App.BestThreshold | src/main/java/ar/edu/itba/pp/App.java:85-111 | the threshold kept for one thread count: the first visited threshold of least total time, or the initial 0 when none is visited; `BestThresholdIsFirstMinimum` characterises it |
| App.FirstMinIndexIsFirstMinimum | src/main/java/ar/edu/itba/pp/App.java:106-110 | the strict-< scan keeps a value no other value is below, and every earlier value is strictly larger |
| App.BestThresholdIsFirstMinimum | src/main/java/ar/edu/itba/pp/App.java:85-111 | the kept threshold was visited and has a total ≤ every visited total; each smaller threshold has a strictly larger total. The initial 0 survives if and only if n < 1 |
| App.RunRecords | src/main/java/ar/edu/itba/pp/App.java:103 | the records of one (threads, threshold) pair's repetitions, one per run in run order |
| App.SweepRecords | src/main/java/ar/edu/itba/pp/App.java:88-104 | one thread count's records: each visited threshold's run records, in sweep order |
| App.ThresholdLog | src/main/java/ar/edu/itba/pp/App.java:82-104 | the whole threshold log: the sweeps of thread counts 1..maxThreads in order; `ThresholdLogCount` proves it holds ITERATIONS records per pair |
| App.CountRunsAppend | src/main/java/ar/edu/itba/pp/App.java:103 | the records of a pair in a concatenated log are those in each part |
| App.RunRecordsCount | src/main/java/ar/edu/itba/pp/App.java:94-104 | the repetitions of one (threads, threshold) pair log exactly `runs` records for that pair and none for any other |
| App.SweepRecordsCount | src/main/java/ar/edu/itba/pp/App.java:88-111 | one thread count's sweep logs exactly ITERATIONS records for each swept threshold and none for any other pair |
| App.ThresholdLogCount | src/main/java/ar/edu/itba/pp/App.java:82-115 | the whole threshold log holds exactly ITERATIONS records for each thread count 1..maxThreads and each swept threshold, and none for any other pair |
| App.TimeThreshold | src/main/java/ar/edu/itba/pp/App.java:92-104 | ITERATIONS fork-join runs on fresh zero matrices; returns the sum of their times and their records in run order |
| App.ScanStep | src/main/java/ar/edu/itba/pp/App.java:106-110 | after one more threshold the scan moves to it exactly when its total is strictly below the best so far, or when nothing was kept yet |
| App.ScanResult | src/main/java/ar/edu/itba/pp/App.java:85-111 | the scan state after the whole sweep is the best threshold |
| App.SweepRecordsStep | src/main/java/ar/edu/itba/pp/App.java:94-104 | one more threshold appends exactly its run records to the log |
| App.VisitNext | src/main/java/ar/edu/itba/pp/App.java:88 | the loop from t is t followed by the loop from 2t |
| App.SweepThresholds | src/main/java/ar/edu/itba/pp/App.java:85-111 | one thread count's sweep returns the first threshold of least total time (0 if none is visited) and logs ITERATIONS records for each threshold in sweep order |
| App.SweepThreadCounts | src/main/java/ar/edu/itba/pp/App.java:82-115 | for every thread count 1..maxThreads the map gets that count's best threshold, other keys keep their entries, and the log is the concatenation of the sweeps |
| App.ThresholdAnalysis | src/main/java/ar/edu/itba/pp/App.java:72-119 | draws a and b (2·size² draws), then fills the map for 1..maxThreads and returns the whole threshold log |
| App.StrategyRows | src/main/java/ar/edu/itba/pp/App.java:143-163 | one iteration's strategy rows: (threads, fork-join time, parallel time) for thread counts 1..maxThreads in order |
| App.ThreadLog | src/main/java/ar/edu/itba/pp/App.java:131-165 | the thread results after the first iterations: per iteration the sequential row (line 140) then the strategy rows (line 163); `ThreadLogAt` locates every row |
| App.StrategyRowsShape | src/main/java/ar/edu/itba/pp/App.java:143-164 | one iteration records one row per thread count 1..maxThreads, in increasing order |
| App.ThreadLogLength | src/main/java/ar/edu/itba/pp/App.java:131-165 | the thread log has (maxThreads + 1) rows per iteration |
| App.ThreadLogPrefix | src/main/java/ar/edu/itba/pp/App.java:131-165 | results are only appended: the log of earlier iterations is a prefix of the log of later ones |
| App.ThreadLogBlock | src/main/java/ar/edu/itba/pp/App.java:133-164 | iteration i appends its sequential row and then its thread-count rows 1..maxThreads |
| App.ThreadLogAt | src/main/java/ar/edu/itba/pp/App.java:131-165 | row t of block i is iteration i's sequential row when t = 0, and its row for thread count t otherwise |
| App.CompareThreadCounts | src/main/java/ar/edu/itba/pp/App.java:143-164 | for each thread count, runs fork-join with that count's best threshold and flat-parallel under any pool order, and appends the row only after `equalResults` accepts all three outputs. If the baseline output given to it is not a·b, the first thread count already mismatches: the result is `Failure(Mismatch(iteration, 1))` and no row is recorded. Otherwise it is `Success` with every row 1..maxThreads |
| App.ThreadAnalysis | src/main/java/ar/edu/itba/pp/App.java:121-168 | draws a and b; in each of ITERATIONS iterations records the sequential row and then the strategy rows; the cross-validation never fails, so the whole log is produced |
| App.RunBenchmark | src/main/java/ar/edu/itba/pp/App.java:23-35 | the threshold sweep defines a threshold ≥ 1 for every thread count 1..maxThreads, so the second phase's lookups are defined, and the benchmark completes with both logs |

## Left out

- Thread pools. `ForkJoinPool` and `ExecutorService`, their `shutdown`, `awaitTermination` and `shutdownNow`, and the `InterruptedException` handling are concurrency and pool lifecycle. Fork, join and pool submission are modelled as sequential calls:
  - fork-join computes the lower half [midRow, endRow) inline and then the forked upper half [startRow, midRow) at the join;
  - the flat pool runs its queue in an arbitrary order given as the permutation `order`.
  
  Concurrent interleavings of cell writes are not modelled. The informal reason an interleaving behaves like some serial order is that the tasks write disjoint rows and only read `a` and `b`. `RowTasksCompose` and `RowTasksCommute` prove only that all serial orders of whole tasks agree.
- The 60-second `awaitTermination` bound. The flat-parallel model assumes that `multiply` returns only after every row task has finished.
- Timing. `multiplyAndMeasure` and `System.currentTimeMillis` become time functions given as parameters, indexed by the run's coordinates.
- TimeThreshold: returns the integer total of its ITERATIONS runs. The source then divides that total into the `double` average `totalTime / ITERATIONS`. Rounding of that division is not modelled.
- SweepThresholds: compares totals rather than averages. The two orders agree because ITERATIONS is a positive constant, except for rounding of `double` division, which is not modelled.
- SweepThresholds: the initial `Double.MAX_VALUE` is modelled as a flag `haveBest`, meaning nothing has been kept yet. A time equal to `Double.MAX_VALUE` is not modelled.
- Output and exit:
  - `writeResults`, directory creation and all console printing are not modelled.
  - The logs are returned as sequences of records; their CSV formatting is left out.
  - `System.exit(1)` on a mismatch is a `Failure(Mismatch(iteration, threads))` result.
  - The final "Done!" message is not modelled.
- Floating point. Entries are `int`. Exact equality between strategies is captured by every strategy computing each cell as the same left fold over k.
- `java.util.Random`. `nextDouble` is abstracted as the stream `stream` fixed at construction, and the `SEED` constant is not given a value.
- Generator construction. `App.main` calls a one-argument `MatrixGenerator` constructor, but the class declares only `MatrixGenerator(size, seed)`. The generator is modelled as the class declares it, and `RunBenchmark` takes the generator as a parameter.
- `availableProcessors()`. The thread count is the parameter `maxThreads`.
- `bestTresholds.get(threads)` on a missing key and unboxing null. `CompareThreadCounts` and `ThreadAnalysis` require the key to be present and its threshold to be ≥ 1. `RunBenchmark` proves that the first phase guarantees this.
- 32-bit arithmetic. `threshold *= 2` and `startRow + endRow` are unbounded integers. For N = 1024 neither comes near 2^31.
- Sharing. The output matrix `c` is required to be a different array from `a` and `b`. The harness always passes a fresh zero matrix.
- The best-threshold map. The `bestThresholds` map that `thresholdAnalysis` mutates is passed in and returned as a value.
- `ThresholdAnalysis` sweep bound. It takes its sweep bound `n` as a parameter; `RunBenchmark` passes N = 1024, and the generator's size is its own constant.
- `analyze.py`. The statistics and plotting script is not part of this model.
- The `MatrixMultiplicator` interface. A shared `multiply(a, b, c)` shape with the predicate `Shaped` stands in for it.
