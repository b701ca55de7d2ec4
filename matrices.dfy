/** Square integer matrices as values: the dot product every strategy
    accumulates, the matrix product they all compute, and the state a set of
    finished row tasks leaves in the output matrix. Entries are `int` where the
    benchmark uses `double`, so rounding is not modelled; every strategy sums
    each cell in the same left-to-right order, and that order is kept here. */
module Matrices {

  /** A matrix as a sequence of rows. */
  type Matrix = seq<seq<int>>

  /** M has n rows, each of n entries. */
  predicate IsSquare(M: Matrix, n: int) {
    |M| == n && forall i :: 0 <= i < |M| ==> |M[i]| == n
  }

  /** A and B are both n-by-n with n = |A|: what every strategy assumes of its inputs. */
  predicate Conformable(A: Matrix, B: Matrix) {
    IsSquare(A, |A|) && IsSquare(B, |A|)
  }

  /** The running sum after m steps of `sum += A[i][k] * B[k][j]` for k = 0, 1, ..., m-1,
      starting from `sum = 0`; a left fold in increasing k. */
  function Dot(A: Matrix, B: Matrix, i: int, j: int, m: int): int
    requires Conformable(A, B)
    requires 0 <= i < |A| && 0 <= j < |A| && 0 <= m <= |A|
    decreases m
  {
    if m == 0 then 0 else Dot(A, B, i, j, m - 1) + A[i][m - 1] * B[m - 1][j]
  }

  /** Row i of A·B. */
  function ProductRow(A: Matrix, B: Matrix, i: int): (r: seq<int>)
    requires Conformable(A, B) && 0 <= i < |A|
    ensures |r| == |A|
  {
    seq(|A|, j requires 0 <= j < |A| => Dot(A, B, i, j, |A|))
  }

  /** The product A·B. */
  function Product(A: Matrix, B: Matrix): (P: Matrix)
    requires Conformable(A, B)
    ensures IsSquare(P, |A|)
  {
    seq(|A|, i requires 0 <= i < |A| => ProductRow(A, B, i))
  }

  /** The row indices lo, lo+1, ..., hi-1. */
  function RowRange(lo: int, hi: int): (s: set<int>)
    ensures forall r :: r in s <==> lo <= r < hi
    decreases hi - lo
  {
    if hi <= lo then {} else RowRange(lo, hi - 1) + {hi - 1}
  }

  /** C with every row whose index is in `rows` replaced by that row of A·B:
      the output matrix after the row tasks for `rows` have run. */
  function WithProductRows(A: Matrix, B: Matrix, C: Matrix, rows: set<int>): (R: Matrix)
    requires Conformable(A, B) && IsSquare(C, |A|)
    ensures IsSquare(R, |A|)
  {
    seq(|C|, i requires 0 <= i < |C| => if i in rows then ProductRow(A, B, i) else C[i])
  }

  /** The n-by-n identity matrix. */
  function Identity(n: nat): (I: Matrix)
    ensures IsSquare(I, n)
  {
    seq(n, i requires 0 <= i < n => seq(n, j requires 0 <= j < n => if i == j then 1 else 0))
  }

  /** Row tasks compose: running the tasks for R1 and then those for R2 leaves
      the same matrix as running the tasks for R1 + R2 at once. */
  lemma RowTasksCompose(A: Matrix, B: Matrix, C: Matrix, R1: set<int>, R2: set<int>)
    requires Conformable(A, B) && IsSquare(C, |A|)
    ensures WithProductRows(A, B, WithProductRows(A, B, C, R1), R2) == WithProductRows(A, B, C, R1 + R2)
  {
    var L := WithProductRows(A, B, WithProductRows(A, B, C, R1), R2);
    var R := WithProductRows(A, B, C, R1 + R2);
    assert forall i :: 0 <= i < |C| ==> L[i] == R[i];
  }

  /** Because each row task writes only its own row, and what it writes depends
      only on A and B, two groups of row tasks give the same output in either order. */
  lemma RowTasksCommute(A: Matrix, B: Matrix, C: Matrix, R1: set<int>, R2: set<int>)
    requires Conformable(A, B) && IsSquare(C, |A|)
    ensures WithProductRows(A, B, WithProductRows(A, B, C, R1), R2)
         == WithProductRows(A, B, WithProductRows(A, B, C, R2), R1)
  {
    RowTasksCompose(A, B, C, R1, R2);
    RowTasksCompose(A, B, C, R2, R1);
    assert R1 + R2 == R2 + R1;
  }

  /** Once every row 0..n-1 has been computed, the output is A·B, whatever it held before. */
  lemma AllRowsGiveProduct(A: Matrix, B: Matrix, C: Matrix, rows: set<int>)
    requires Conformable(A, B) && IsSquare(C, |A|)
    requires RowRange(0, |A|) <= rows
    ensures WithProductRows(A, B, C, rows) == Product(A, B)
  {
    var W := WithProductRows(A, B, C, rows);
    var P := Product(A, B);
    forall i | 0 <= i < |A| ensures W[i] == P[i] {
      assert i in RowRange(0, |A|);
    }
  }

  /** The first m steps of the fold with the identity on the right pick out
      A[i][j] exactly when column j is among the first m. */
  lemma {:induction false} DotRightIdentity(A: Matrix, i: int, j: int, m: int)
    requires IsSquare(A, |A|) && 0 <= i < |A| && 0 <= j < |A| && 0 <= m <= |A|
    ensures Dot(A, Identity(|A|), i, j, m) == if j < m then A[i][j] else 0
  {
    if m > 0 {
      DotRightIdentity(A, i, j, m - 1);
    }
  }

  /** The same with the identity on the left: B[i][j] once row i is among the first m. */
  lemma {:induction false} DotLeftIdentity(B: Matrix, i: int, j: int, m: int)
    requires IsSquare(B, |B|) && 0 <= i < |B| && 0 <= j < |B| && 0 <= m <= |B|
    ensures Dot(Identity(|B|), B, i, j, m) == if i < m then B[i][j] else 0
  {
    if m > 0 {
      DotLeftIdentity(B, i, j, m - 1);
    }
  }

  /** The identity is a two-sided unit of the product, so in particular the product
      of the identity with itself is the identity. */
  lemma IdentityIsUnit(A: Matrix)
    requires IsSquare(A, |A|)
    ensures Product(A, Identity(|A|)) == A
    ensures Product(Identity(|A|), A) == A
  {
    var n := |A|;
    var I := Identity(n);
    forall i, j | 0 <= i < n && 0 <= j < n
      ensures Product(A, I)[i][j] == A[i][j] && Product(I, A)[i][j] == A[i][j]
    {
      DotRightIdentity(A, i, j, n);
      DotLeftIdentity(A, i, j, n);
    }
    assert forall i | 0 <= i < n :: Product(A, I)[i] == A[i];
    assert forall i | 0 <= i < n :: Product(I, A)[i] == A[i];
  }

  /** A worked two-by-two example: [[1,2],[3,4]]·[[5,6],[7,8]]. */
  lemma TwoByTwoExample()
    ensures Product([[1, 2], [3, 4]], [[5, 6], [7, 8]]) == [[19, 22], [43, 50]]
  {
    var A: Matrix := [[1, 2], [3, 4]];
    var B: Matrix := [[5, 6], [7, 8]];
    assert Dot(A, B, 0, 0, 2) == 19 && Dot(A, B, 0, 1, 2) == 22;
    assert Dot(A, B, 1, 0, 2) == 43 && Dot(A, B, 1, 1, 2) == 50;
    assert ProductRow(A, B, 0) == [19, 22];
    assert ProductRow(A, B, 1) == [43, 50];
  }

  /** The shared contract of the three strategies' `multiply(a, b, c)`: a, b and c all n-by-n
      with n = a.Length0, and c a separate output matrix. */
  predicate Shaped(a: array2<int>, b: array2<int>, c: array2<int>) {
    && a.Length1 == a.Length0
    && b.Length0 == a.Length0 && b.Length1 == a.Length0
    && c.Length0 == a.Length0 && c.Length1 == a.Length0
    && c != a && c != b
  }

  /** The value held by a two-dimensional array, row by row. */
  ghost function Contents(m: array2<int>): (M: Matrix)
    reads m
    ensures |M| == m.Length0 && forall i :: 0 <= i < m.Length0 ==> |M[i]| == m.Length1
    ensures forall i, j :: 0 <= i < m.Length0 && 0 <= j < m.Length1 ==> M[i][j] == m[i, j]
  {
    seq(m.Length0, i requires 0 <= i < m.Length0 reads m =>
      seq(m.Length1, j requires 0 <= j < m.Length1 reads m => m[i, j]))
  }

  /** An array whose cells agree with a matrix of its shape holds that matrix. */
  lemma ContentsFromCells(c: array2<int>, M: Matrix)
    requires |M| == c.Length0 && forall i :: 0 <= i < |M| ==> |M[i]| == c.Length1
    requires forall i, j :: 0 <= i < c.Length0 && 0 <= j < c.Length1 ==> c[i, j] == M[i][j]
    ensures Contents(c) == M
  {
    var C := Contents(c);
    forall i | 0 <= i < |M| ensures C[i] == M[i] {
      assert |C[i]| == |M[i]|;
      assert forall j :: 0 <= j < |M[i]| ==> C[i][j] == M[i][j];
    }
  }
}
