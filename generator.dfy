/** The matrix generator: fixed-size matrices filled from a seeded random stream,
    and all-zero output matrices. The values `random.nextDouble()` returns for the
    seed are abstracted as a stream, a function from draw number to entry; the
    generator's only changing state is how many values it has drawn. */
module Generator {
  import opened Matrices

  /** The size-by-size matrix filled row by row, left to right, from the stream
      values at positions start, start + 1, ..., start + size*size - 1. */
  function Drawn(stream: nat -> int, start: nat, size: nat): (M: Matrix)
    ensures IsSquare(M, size)
  {
    seq(size, i requires 0 <= i < size => seq(size, j requires 0 <= j < size => stream(start + i * size + j)))
  }

  /** Multiplying by a natural number keeps the order of naturals. */
  lemma {:induction false} MulMonotone(x: nat, y: nat, c: nat)
    requires x <= y
    ensures x * c <= y * c
    decreases y - x
  {
    if x < y {
      MulMonotone(x, y - 1, c);
      assert y * c == (y - 1) * c + c;
    }
  }

  /** Row-major filling gives each cell its own draw: cell (i, j) takes the draw
      at offset i*size + j, which is below size*size, and no two cells share one. */
  lemma DrawOffsets(size: nat, i: nat, j: nat, i': nat, j': nat)
    requires i < size && j < size && i' < size && j' < size
    ensures i * size + j < size * size
    ensures i * size + j == i' * size + j' ==> i == i' && j == j'
  {
    assert (i + 1) * size == i * size + size;
    MulMonotone(i + 1, size, size);
    if i < i' {
      MulMonotone(i + 1, i', size);
    } else if i' < i {
      assert (i' + 1) * size == i' * size + size;
      MulMonotone(i' + 1, i, size);
    }
  }

  class MatrixGenerator {
    /** The values `nextDouble()` returns, in order, for the generator's seed. */
    const stream: nat -> int
    /** The dimension of every matrix this generator makes; fixed at construction. */
    const size: nat
    /** How many values have been drawn from the stream so far. */
    var drawn: nat

    constructor (size: nat, stream: nat -> int)
      ensures this.size == size && this.stream == stream && drawn == 0
    {
      this.size := size;
      this.stream := stream;
      drawn := 0;
    }

    /** `generate`: a fresh size-by-size matrix whose cells take the next
        size*size draws in row-major order. */
    method Generate() returns (resp: array2<int>)
      modifies this
      ensures fresh(resp)
      ensures resp.Length0 == size && resp.Length1 == size
      ensures Contents(resp) == Drawn(stream, old(drawn), size)
      ensures drawn == old(drawn) + size * size
    {
      resp := new int[size, size];
      var i := 0;
      while i < size
        invariant 0 <= i <= size
        invariant drawn == old(drawn) + i * size
        invariant forall r, s :: 0 <= r < i && 0 <= s < size ==> resp[r, s] == stream(old(drawn) + r * size + s)
      {
        var j := 0;
        while j < size
          invariant 0 <= j <= size
          invariant drawn == old(drawn) + i * size + j
          invariant forall r, s :: 0 <= r < size && 0 <= s < size && (r < i || (r == i && s < j)) ==>
            resp[r, s] == stream(old(drawn) + r * size + s)
        {
          resp[i, j] := stream(drawn);
          drawn := drawn + 1;
          j := j + 1;
        }
        i := i + 1;
      }
      ContentsFromCells(resp, Drawn(stream, old(drawn), size));
    }

    /** `generateZero`: a fresh size-by-size matrix of zeros; draws nothing. */
    method GenerateZero() returns (resp: array2<int>)
      ensures fresh(resp)
      ensures resp.Length0 == size && resp.Length1 == size
      ensures forall i, j :: 0 <= i < size && 0 <= j < size ==> resp[i, j] == 0
    {
      resp := new int[size, size];
      var i := 0;
      while i < size
        invariant 0 <= i <= size
        invariant forall r, s :: 0 <= r < i && 0 <= s < size ==> resp[r, s] == 0
      {
        var j := 0;
        while j < size
          invariant 0 <= j <= size
          invariant forall r, s :: 0 <= r < size && 0 <= s < size && (r < i || (r == i && s < j)) ==> resp[r, s] == 0
        {
          resp[i, j] := 0;
          j := j + 1;
        }
        i := i + 1;
      }
    }
  }

  /** Reproducibility: two generators built for the same size and seed, asked for
      matrices in the same order, hand out identical matrices. */
  method SameSeedSameMatrices(size: nat, stream: nat -> int) returns (a1: array2<int>, b1: array2<int>, a2: array2<int>, b2: array2<int>)
    ensures Contents(a1) == Contents(a2) && Contents(b1) == Contents(b2)
    ensures Contents(a1) == Drawn(stream, 0, size) && Contents(b1) == Drawn(stream, size * size, size)
  {
    var g1 := new MatrixGenerator(size, stream);
    var g2 := new MatrixGenerator(size, stream);
    a1 := g1.Generate();
    b1 := g1.Generate();
    a2 := g2.Generate();
    b2 := g2.Generate();
  }
}
