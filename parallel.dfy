/** The flat data-parallel strategy: one task per output row, submitted to a
    fixed-size pool. The pool is modelled by the order in which it happens to run
    the queued tasks: any permutation of the queue, one task after another. */
module ParallelMultiplicator {
  import opened Matrices

  /** The row indices 0, 1, ..., n-1 in increasing order. */
  function Indices(n: nat): (r: seq<int>)
    ensures |r| == n && forall i :: 0 <= i < n ==> r[i] == i
  {
    seq(n, i requires 0 <= i < n => i)
  }

  /** `order` runs each of the n queued tasks exactly once: it is a permutation
      of the queue positions 0..n-1. */
  predicate IsSchedule(order: seq<int>, n: nat) {
    multiset(order) == multiset(Indices(n))
  }

  /** The rows whose tasks are among `ran`. */
  function RowsOf(ran: seq<int>): set<int> {
    set r | r in ran
  }

  /** A schedule runs n tasks, each for a row in 0..n-1, and between them the
      tasks of every row 0..n-1, whatever its order. */
  lemma ScheduleCoversRows(order: seq<int>, n: nat)
    requires IsSchedule(order, n)
    ensures |order| == n
    ensures forall t :: 0 <= t < |order| ==> 0 <= order[t] < n
    ensures RowsOf(order) == RowRange(0, n)
  {
    assert |multiset(order)| == |multiset(Indices(n))|;
    forall t | 0 <= t < |order| ensures 0 <= order[t] < n {
      assert order[t] in multiset(order);
      assert order[t] in Indices(n);
    }
    forall r | 0 <= r < n ensures r in RowsOf(order) {
      assert Indices(n)[r] == r;
      assert r in multiset(Indices(n));
    }
    forall r | r in RowsOf(order) ensures 0 <= r < n {
      assert r in multiset(order);
      assert r in Indices(n);
    }
  }

  /** The body of the task submitted for row `row` (finalI): for each column j,
      c[row][j] := the row-`row`, column-j dot product. It writes that row only. */
  method RowTask(a: array2<int>, b: array2<int>, c: array2<int>, row: int)
    requires Shaped(a, b, c) && 0 <= row < a.Length0
    modifies c
    ensures Contents(c) == WithProductRows(Contents(a), Contents(b), old(Contents(c)), {row})
    ensures unchanged(a) && unchanged(b)
  {
    var n := a.Length0;
    ghost var A, B, C0 := Contents(a), Contents(b), Contents(c);
    var j := 0;
    while j < n
      invariant 0 <= j <= n
      invariant forall r, s :: 0 <= r < n && 0 <= s < n ==>
        c[r, s] == if r == row && s < j then Dot(A, B, r, s, n) else C0[r][s]
    {
      var sum := 0;
      var k := 0;
      while k < n
        invariant 0 <= k <= n
        invariant sum == Dot(A, B, row, j, k)
      {
        sum := sum + a[row, k] * b[k, j];
        k := k + 1;
      }
      c[row, j] := sum;
      j := j + 1;
    }
    ContentsFromCells(c, WithProductRows(A, B, C0, {row}));
  }

  /** `multiply`: submit one task per row 0..n-1, then let the pool run the queue
      in the order `order`. Whatever the order and the thread count (which only
      sizes the pool), c ends up equal to a·b, the sequential baseline's result. */
  method Multiply(threads: int, a: array2<int>, b: array2<int>, c: array2<int>, order: seq<int>)
    requires threads >= 1
    requires Shaped(a, b, c)
    requires IsSchedule(order, a.Length0)
    modifies c
    ensures Contents(c) == Product(Contents(a), Contents(b))
    ensures unchanged(a) && unchanged(b)
  {
    var n := a.Length0;
    ghost var A, B, C0 := Contents(a), Contents(b), Contents(c);
    // submit one task per row, rows 0 to n-1 in increasing order
    var queue: seq<int> := [];
    var i := 0;
    while i < n
      invariant 0 <= i <= n
      invariant queue == Indices(i)
    {
      queue := queue + [i];
      i := i + 1;
    }
    // the pool runs the queued tasks at positions order[0], order[1], ... in turn
    ScheduleCoversRows(order, n);
    var k := 0;
    while k < |order|
      invariant 0 <= k <= |order| == n
      invariant forall t :: 0 <= t < n ==> 0 <= order[t] < n
      invariant Contents(c) == WithProductRows(A, B, C0, RowsOf(order[..k]))
    {
      RowTask(a, b, c, queue[order[k]]);
      RowTasksCompose(A, B, C0, RowsOf(order[..k]), {order[k]});
      assert order[..k + 1] == order[..k] + [order[k]];
      assert RowsOf(order[..k + 1]) == RowsOf(order[..k]) + {order[k]};
      k := k + 1;
    }
    assert order[..k] == order;
    AllRowsGiveProduct(A, B, C0, RowsOf(order));
  }
}
