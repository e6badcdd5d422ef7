/** Row-major index arithmetic shared by the GPU kernels. */
module Matrix {

  /** Edge of the shared tile of the matrix kernels. */
  const TILE_DIM: nat := 64

  /** Offset of a cell of a row-major matrix whose rows hold `width` elements. */
  function Flat(row: nat, col: nat, width: nat): nat {
    row * width + col
  }

  lemma {:induction false} FlatInBounds(row: nat, col: nat, height: nat, width: nat)
    requires row < height && col < width
    ensures Flat(row, col, width) < height * width
  {
    assert (row + 1) * width <= height * width;
  }

  lemma {:induction false} FlatMonotone(r: nat, c: nat, r': nat, width: nat)
    requires c < width && r < r'
    ensures Flat(r, c, width) < r' * width
  {
    assert (r + 1) * width <= r' * width;
  }

  lemma {:induction false} FlatInjective(r: nat, c: nat, r': nat, c': nat, width: nat)
    requires c < width && c' < width
    requires Flat(r, c, width) == Flat(r', c', width)
    ensures r == r' && c == c'
  {
    if r < r' {
      FlatMonotone(r, c, r', width);
    } else if r' < r {
      FlatMonotone(r', c', r, width);
    }
  }

  /** A coordinate b * m + i with i < m belongs to block b at offset i. */
  lemma {:induction false} BlockSplit(b: nat, i: nat, m: nat)
    requires i < m
    ensures (b * m + i) / m == b && (b * m + i) % m == i
  {
    FlatInjective((b * m + i) / m, (b * m + i) % m, b, i, m);
  }

  lemma {:induction false} ScaleMonotone(q: nat, q': nat, m: nat)
    requires q <= q'
    ensures q * m <= q' * m
  {
  }

  lemma {:induction false} QuotientGap(q: nat, q': nat, m: nat)
    requires q * m < (q' + 1) * m
    ensures q <= q'
  {
    if q' + 1 <= q {
      ScaleMonotone(q' + 1, q, m);
    }
  }

  lemma {:induction false} ModBounds(a: nat, m: nat)
    requires m > 0
    ensures a % m < m && a % m <= a
  {
    if a < m {
      BlockSplit(0, a, m);
    }
  }

  /** Within a strided loop, an index below the next iteration is not above the current one. */
  lemma {:induction false} StrideGap(a: nat, b: nat, m: nat)
    requires m > 0 && a % m == b % m && a < b + m
    ensures a <= b
  {
    var q, q', r := a / m, b / m, a % m;
    assert a == q * m + r && b == q' * m + r;
    QuotientGap(q, q', m);
    ScaleMonotone(q, q', m);
  }

  lemma {:induction false} StrideStep(a: nat, m: nat)
    requires m > 0
    ensures (a + m) % m == a % m
  {
    assert a + m == (a / m + 1) * m + a % m;
    BlockSplit(a / m + 1, a % m, m);
  }

  /** Element (row, col) of a matrix of height by width elements. */
  function Element<T>(m: seq<T>, height: nat, width: nat, row: nat, col: nat): T
    requires |m| == height * width && row < height && col < width
  {
    FlatInBounds(row, col, height, width);
    m[Flat(row, col, width)]
  }

  // ---------- what the square transpose kernels compute ----------

  function At<T>(m: seq<T>, size: nat, row: nat, col: nat): T
    requires |m| == size * size && row < size && col < size
  {
    Element(m, size, size, row, col)
  }

  /** The launch grid of size / TILE_DIM blocks per axis reaches this cell. */
  predicate Covered(size: nat, row: nat, col: nat) {
    row / TILE_DIM < size / TILE_DIM && col / TILE_DIM < size / TILE_DIM
  }

  /** The part of the matrix the launch reaches is transposed, the rest is as it was. */
  ghost predicate TransposedOver<T>(size: nat, inp: seq<T>, out0: seq<T>, out: seq<T>) {
    && |inp| == |out0| == |out| == size * size
    && forall row, col | 0 <= row < size && 0 <= col < size ::
         At(out, size, row, col) ==
         if Covered(size, row, col) then At(inp, size, col, row) else At(out0, size, row, col)
  }

  /** TransposedOver fixes the output: two kernels that meet it agree on every element. */
  lemma {:induction false} TransposedUnique<T>(size: nat, inp: seq<T>, out0: seq<T>, out: seq<T>, out': seq<T>)
    requires TransposedOver(size, inp, out0, out) && TransposedOver(size, inp, out0, out')
    ensures out == out'
  {
    forall i | 0 <= i < |out| ensures out[i] == out'[i] {
      var row, col := i / size, i % size;
      assert i == Flat(row, col, size);
      if row >= size {
        ScaleMonotone(size, row, size);
      }
      assert At(out, size, row, col) == At(out', size, row, col);
    }
  }

  /** The rows and columns below the last multiple of 64 are transposed, the rest is as it was. */
  lemma {:induction false} TransposedCell<T>(size: nat, inp: seq<T>, out0: seq<T>, out: seq<T>, row: nat, col: nat)
    requires TransposedOver(size, inp, out0, out) && row < size && col < size
    ensures row * size + col < |out| == |out0| && col * size + row < |inp|
    ensures out[row * size + col] ==
            if row < size - size % 64 && col < size - size % 64 then inp[col * size + row] else out0[row * size + col]
  {
    FlatInBounds(row, col, size, size);
    FlatInBounds(col, row, size, size);
    assert At(out, size, row, col) == out[row * size + col];
    assert At(inp, size, col, row) == inp[col * size + row];
    assert At(out0, size, row, col) == out0[row * size + col];
    BlockBelow(row, size, 64);
    BlockBelow(col, size, 64);
  }

  /** An index is in a whole block exactly when it is below the last multiple of the block size. */
  lemma {:induction false} BlockBelow(i: nat, size: nat, m: nat)
    requires m > 0
    ensures i / m < size / m <==> i < size - size % m
  {
    FlatBelow(i / m, i % m, size / m, m);
    assert i == Flat(i / m, i % m, m) && size == Flat(size / m, size % m, m);
  }

  lemma {:induction false} FlatBelow(q: nat, r: nat, q': nat, m: nat)
    requires r < m
    ensures q < q' <==> Flat(q, r, m) < q' * m
  {
    if q < q' {
      FlatMonotone(q, r, q', m);
    } else {
      ScaleMonotone(q', q, m);
    }
  }

  /** For a multiple of the tile edge the whole matrix is transposed, and twice is the identity. */
  lemma {:induction false} TransposedFully<T>(size: nat, inp: seq<T>, out0: seq<T>, out: seq<T>)
    requires size % TILE_DIM == 0 && TransposedOver(size, inp, out0, out)
    ensures forall row, col | 0 <= row < size && 0 <= col < size :: At(out, size, col, row) == At(inp, size, row, col)
    ensures forall out1, back :: TransposedOver(size, out, out1, back) ==> back == inp
  {
    forall row, col | 0 <= row < size && 0 <= col < size
      ensures At(out, size, col, row) == At(inp, size, row, col)
    {
      assert Covered(size, col, row);
    }
    forall out1, back | TransposedOver(size, out, out1, back) ensures back == inp {
      forall row, col | 0 <= row < size && 0 <= col < size
        ensures At(inp, size, row, col) ==
                if Covered(size, row, col) then At(out, size, col, row) else At(out1, size, row, col)
      {
        assert Covered(size, row, col);
      }
      TransposedUnique(size, out, out1, back, inp);
    }
  }
}
