/** The divide-and-conquer strategy: a task over the row range [startRow, endRow)
    multiplies directly once the range is at most `threshold` rows long, and
    otherwise bisects it. The pool's fork and join are modelled as sequential
    calls: the lower half is computed inline and the forked upper half is run
    when it is joined, which is what a worker does when nobody steals the fork. */
module ForkJoinMultiplicator {
  import opened Matrices

  /** The split point: the sum of the bounds halved. Row indices are never negative, so Java's
      truncating division and Dafny's agree here. */
  function Midpoint(startRow: int, endRow: int): int
    requires 0 <= startRow <= endRow
  {
    (startRow + endRow) / 2
  }

  /** A task splits exactly when its range is longer than the threshold; with
      threshold >= 1 both halves are then non-empty and strictly shorter, they are
      disjoint, and together they are the task's range. */
  lemma SplitHalves(startRow: int, endRow: int, threshold: int)
    requires 0 <= startRow <= endRow && threshold >= 1 && endRow - startRow > threshold
    ensures startRow < Midpoint(startRow, endRow) < endRow
    ensures RowRange(startRow, Midpoint(startRow, endRow)) !! RowRange(Midpoint(startRow, endRow), endRow)
    ensures RowRange(startRow, Midpoint(startRow, endRow)) + RowRange(Midpoint(startRow, endRow), endRow)
         == RowRange(startRow, endRow)
  {
  }

  /** Why the threshold must be positive: with threshold <= 0 a one-row range
      still splits, and its lower half [midRow, endRow) is the range itself, so
      `compute` recurses on the same range without bound, which in Java ends in a
      `StackOverflowError` that `invoke` rethrows. */
  lemma NonPositiveThresholdRepeats(startRow: int, threshold: int)
    requires startRow >= 0 && threshold <= 0
    ensures (startRow + 1) - startRow > threshold
    ensures Midpoint(startRow, startRow + 1) == startRow
  {
  }

  /** The ranges the task tree multiplies directly, in the order the sequential
      model runs them (lower half before upper half). */
  function Leaves(startRow: int, endRow: int, threshold: int): (r: seq<(int, int)>)
    requires 0 <= startRow <= endRow && threshold >= 1
    ensures |r| >= 1
    decreases endRow - startRow
  {
    if endRow - startRow <= threshold then [(startRow, endRow)]
    else
      var midRow := Midpoint(startRow, endRow);
      Leaves(midRow, endRow, threshold) + Leaves(startRow, midRow, threshold)
  }

  /** The directly computed ranges tile [startRow, endRow): each is at most
      `threshold` rows, and consecutive leaves (lower half first) meet end to start. */
  lemma {:induction false} LeavesTile(startRow: int, endRow: int, threshold: int)
    requires 0 <= startRow <= endRow && threshold >= 1
    ensures var L := Leaves(startRow, endRow, threshold);
      && L[|L| - 1].0 == startRow && L[0].1 == endRow
      && (forall k :: 0 <= k < |L| ==> L[k].0 <= L[k].1 && L[k].1 - L[k].0 <= threshold)
      && (forall k :: 0 <= k < |L| - 1 ==> L[k + 1].1 == L[k].0)
    decreases endRow - startRow
  {
    if endRow - startRow > threshold {
      var midRow := Midpoint(startRow, endRow);
      LeavesTile(midRow, endRow, threshold);
      LeavesTile(startRow, midRow, threshold);
      var Lo := Leaves(midRow, endRow, threshold);
      var Up := Leaves(startRow, midRow, threshold);
      var L := Lo + Up;
      assert L == Leaves(startRow, endRow, threshold);
      forall k | 0 <= k < |L| - 1 ensures L[k + 1].1 == L[k].0 {
        if k < |Lo| - 1 {
          assert L[k] == Lo[k] && L[k + 1] == Lo[k + 1];
        } else if k == |Lo| - 1 {
          assert L[k] == Lo[|Lo| - 1] && L[k + 1] == Up[0];
        } else {
          assert L[k] == Up[k - |Lo|] && L[k + 1] == Up[k + 1 - |Lo|];
        }
      }
    }
  }

  /** A task forks exactly when its range is longer than the threshold; in
      particular threshold >= n means the root task on [0, n) never forks. */
  lemma NoForkIff(startRow: int, endRow: int, threshold: int)
    requires 0 <= startRow <= endRow && threshold >= 1
    ensures |Leaves(startRow, endRow, threshold)| == 1 <==> endRow - startRow <= threshold
  {
  }

  /** `multiplyDirectly`: for every row i in [startRow, endRow) and every column j,
      c[i][j] := the row-i, column-j dot product; no other cell is written. */
  method MultiplyDirectly(a: array2<int>, b: array2<int>, c: array2<int>, startRow: int, endRow: int, size: int)
    requires Shaped(a, b, c) && size == a.Length0
    requires 0 <= startRow <= endRow <= size
    modifies c
    ensures Contents(c) == WithProductRows(Contents(a), Contents(b), old(Contents(c)), RowRange(startRow, endRow))
    ensures unchanged(a) && unchanged(b)
  {
    ghost var A, B, C0 := Contents(a), Contents(b), Contents(c);
    var i := startRow;
    while i < endRow
      invariant startRow <= i <= endRow
      invariant forall r, s :: 0 <= r < size && 0 <= s < size ==>
        c[r, s] == if startRow <= r < i then Dot(A, B, r, s, size) else C0[r][s]
    {
      var j := 0;
      while j < size
        invariant 0 <= j <= size
        invariant forall r, s :: 0 <= r < size && 0 <= s < size ==>
          c[r, s] == if (startRow <= r < i) || (r == i && s < j) then Dot(A, B, r, s, size) else C0[r][s]
      {
        var sum := 0;
        var k := 0;
        while k < size
          invariant 0 <= k <= size
          invariant sum == Dot(A, B, i, j, k)
        {
          sum := sum + a[i, k] * b[k, j];
          k := k + 1;
        }
        c[i, j] := sum;
        j := j + 1;
      }
      i := i + 1;
    }
    ContentsFromCells(c, WithProductRows(A, B, C0, RowRange(startRow, endRow)));
  }

  /** `MultiplyTask.compute` on [startRow, endRow): afterwards the rows of the range
      hold the product's rows and every other row is as before; the ghost result
      lists the ranges it multiplied directly. */
  method Compute(a: array2<int>, b: array2<int>, c: array2<int>, startRow: int, endRow: int, size: int, threshold: int)
    returns (ghost leaves: seq<(int, int)>)
    requires Shaped(a, b, c) && size == a.Length0
    requires 0 <= startRow <= endRow <= size && threshold >= 1
    modifies c
    ensures Contents(c) == WithProductRows(Contents(a), Contents(b), old(Contents(c)), RowRange(startRow, endRow))
    ensures unchanged(a) && unchanged(b)
    ensures leaves == Leaves(startRow, endRow, threshold)
    decreases endRow - startRow
  {
    if endRow - startRow <= threshold {
      MultiplyDirectly(a, b, c, startRow, endRow, size);
      leaves := [(startRow, endRow)];
    } else {
      ghost var A, B, C0 := Contents(a), Contents(b), Contents(c);
      var midRow := Midpoint(startRow, endRow);
      SplitHalves(startRow, endRow, threshold);
      // the lower half runs inline first; the forked upper half runs at the join
      ghost var lower := Compute(a, b, c, midRow, endRow, size, threshold);
      ghost var upper := Compute(a, b, c, startRow, midRow, size, threshold);
      RowTasksCompose(A, B, C0, RowRange(midRow, endRow), RowRange(startRow, midRow));
      assert RowRange(midRow, endRow) + RowRange(startRow, midRow) == RowRange(startRow, endRow);
      leaves := lower + upper;
    }
  }

  /** `multiply`: run the root task on [0, n). With any thread count and any
      threshold >= 1 this leaves c equal to a·b, the sequential baseline's result. */
  method Multiply(threads: int, threshold: int, a: array2<int>, b: array2<int>, c: array2<int>)
    requires threads >= 1 && threshold >= 1
    requires Shaped(a, b, c)
    modifies c
    ensures Contents(c) == Product(Contents(a), Contents(b))
    ensures unchanged(a) && unchanged(b)
  {
    var n := a.Length0;
    ghost var C0 := Contents(c);
    ghost var leaves := Compute(a, b, c, 0, n, n, threshold);
    AllRowsGiveProduct(Contents(a), Contents(b), C0, RowRange(0, n));
  }
}
