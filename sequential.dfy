/** The single-threaded baseline: the triple loop every other strategy must match. */
module SequentialMultiplicator {
  import opened Matrices

  /** c := a·b, one cell at a time in row-major order; each cell is assigned
      (not accumulated), so the result does not depend on what c held. */
  method Multiply(a: array2<int>, b: array2<int>, c: array2<int>)
    requires Shaped(a, b, c)
    modifies c
    ensures Contents(c) == Product(Contents(a), Contents(b))
    ensures unchanged(a) && unchanged(b)
  {
    var n := a.Length0;
    ghost var A, B := Contents(a), Contents(b);
    var i := 0;
    while i < n
      invariant 0 <= i <= n
      invariant forall r, s :: 0 <= r < n && 0 <= s < n ==>
        c[r, s] == if r < i then Dot(A, B, r, s, n) else old(c[r, s])
    {
      var j := 0;
      while j < n
        invariant 0 <= j <= n
        invariant forall r, s :: 0 <= r < n && 0 <= s < n ==>
          c[r, s] == if r < i || (r == i && s < j) then Dot(A, B, r, s, n) else old(c[r, s])
      {
        var sum := 0;
        var k := 0;
        while k < n
          invariant 0 <= k <= n
          invariant sum == Dot(A, B, i, j, k)
        {
          sum := sum + a[i, k] * b[k, j];
          k := k + 1;
        }
        c[i, j] := sum;
        j := j + 1;
      }
      i := i + 1;
    }
    ContentsFromCells(c, Product(A, B));
  }

  /** Running the baseline twice on the same inputs, each time into a freshly
      allocated matrix whatever it holds, gives the same output both times. */
  method MultiplyTwice(a: array2<int>, b: array2<int>) returns (c1: array2<int>, c2: array2<int>)
    requires a.Length0 == a.Length1 == b.Length0 == b.Length1
    ensures Contents(c1) == Contents(c2) == Product(Contents(a), Contents(b))
  {
    var n := a.Length0;
    c1 := new int[n, n];
    Multiply(a, b, c1);
    c2 := new int[n, n];
    Multiply(a, b, c2);
  }
}
