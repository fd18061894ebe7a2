/**
 * What top_kernel computes, as functions of the contents of the input
 * matrix A.
 *
 * The kernel normalizes each element by the sum of the row SEGMENT that
 * lies in its own column tile (the row-sum loop only runs over the
 * TILE_C columns of the tile in the buffer), adds one to that sum, then
 * multiplies by the mean over all rows of the normalized values in its
 * column. Elements are exact reals: floating-point rounding is not modelled.
 */
module Normalize {
  import opened Tiling

  /** The contents of an N_ROWS x N_COLS matrix: entry(r, c) is A[r][c] for
      r < rows and c < cols; entries outside that range are never used. */
  datatype Matrix = Matrix(rows: nat, cols: nat, entry: (nat, nat) -> real)

  /** The dimensions fit the tile loops: both tile sizes divide the matrix. */
  predicate TileShape(rows: nat, cols: nat, tileR: nat, tileC: nat) {
    Divides(tileR, rows) && Divides(tileC, cols)
  }

  /** m[r][c0] + ... + m[r][c0 + n - 1], added left to right as the row-sum
      loop does. */
  function Prefix(m: Matrix, r: nat, c0: nat, n: nat): real
    decreases n
  {
    if n == 0 then 0.0 else Prefix(m, r, c0, n - 1) + m.entry(r, c0 + n - 1)
  }

  /** row_sum for row r of the tile whose columns start at jj. */
  function SegSum(m: Matrix, r: nat, jj: nat, tileC: nat): real {
    Prefix(m, r, jj, tileC)
  }

  /** row_sum + 1 for the tile row that holds element (r, c). */
  function Denom(m: Matrix, r: nat, c: nat, tileC: nat): real
    requires tileC > 0
  {
    SegSum(m, r, Origin(c, tileC), tileC) + 1.0
  }

  /** Every division `1.0 / (row_sum + 1.0)` the kernel performs is defined. */
  predicate DenomsNonzero(m: Matrix, tileC: nat) {
    Divides(tileC, m.cols) &&
    forall r: nat, c: nat | r < m.rows && c < m.cols :: Denom(m, r, c, tileC) != 0.0
  }

  /** The normalized value of element (r, c): A[r][c] * recip. */
  function Norm(m: Matrix, r: nat, c: nat, tileC: nat): real
    requires DenomsNonzero(m, tileC) && r < m.rows && c < m.cols
  {
    m.entry(r, c) * (1.0 / Denom(m, r, c, tileC))
  }

  /** Norm(m, 0, c) + ... + Norm(m, n - 1, c), in the row order in which
      pass 1 adds them into col_sum_global[c]. */
  function ColSum(m: Matrix, c: nat, n: nat, tileC: nat): real
    requires DenomsNonzero(m, tileC) && c < m.cols && n <= m.rows
    decreases n
  {
    if n == 0 then 0.0 else ColSum(m, c, n - 1, tileC) + Norm(m, n - 1, c, tileC)
  }

  /** scale_global[c]: the mean of column c's normalized values. */
  function Scale(m: Matrix, c: nat, tileC: nat): real
    requires DenomsNonzero(m, tileC) && c < m.cols && m.rows > 0
  {
    ColSum(m, c, m.rows, tileC) / (m.rows as real)
  }

  /** The value the kernel stores into C[r][c]. */
  function Output(m: Matrix, r: nat, c: nat, tileC: nat): real
    requires DenomsNonzero(m, tileC) && r < m.rows && c < m.cols
  {
    Norm(m, r, c, tileC) * Scale(m, c, tileC)
  }

  predicate Nonnegative(m: Matrix) {
    forall r: nat, c: nat | r < m.rows && c < m.cols :: m.entry(r, c) >= 0.0
  }

  // ---------------------------------------------------------------------
  // The tile loops compute these functions
  // ---------------------------------------------------------------------

  /** For the tile at column origin jj of a loop stepping by TILE_C, every
      element of the tile is divided by that tile row's row_sum + 1. */
  lemma DenomOfTile(m: Matrix, r: nat, jj: nat, j: nat, tileC: nat)
    requires tileC > 0 && Aligned(jj, tileC) && j < tileC
    ensures Denom(m, r, jj + j, tileC) == SegSum(m, r, jj, tileC) + 1.0
  {
    Offset(jj, j, tileC);
  }

  /** The kernel's `recip = 1.0 / (row_sum + 1.0)` for a tile row is defined. */
  lemma RecipDefined(m: Matrix, r: nat, jj: nat, tileC: nat)
    requires DenomsNonzero(m, tileC) && r < m.rows && Aligned(jj, tileC) && jj < m.cols
    ensures SegSum(m, r, jj, tileC) + 1.0 != 0.0
  {
    DenomOfTile(m, r, jj, 0, tileC);
  }

  /** The kernel's `A_tile[i][j] * recip` is the normalized value of element
      (r, jj + j). */
  lemma NormOfTile(m: Matrix, r: nat, jj: nat, j: nat, tileC: nat, recip: real)
    requires DenomsNonzero(m, tileC) && r < m.rows && Aligned(jj, tileC)
    requires j < tileC && jj + tileC <= m.cols
    requires SegSum(m, r, jj, tileC) + 1.0 != 0.0
    requires recip == 1.0 / (SegSum(m, r, jj, tileC) + 1.0)
    ensures m.entry(r, jj + j) * recip == Norm(m, r, jj + j, tileC)
  {
    DenomOfTile(m, r, jj, j, tileC);
  }

  // ---------------------------------------------------------------------
  // Properties of the transform
  // ---------------------------------------------------------------------

  /** With nonnegative entries a segment sum is nonnegative and bounds each
      of its entries. */
  lemma {:induction false} PrefixBounds(m: Matrix, r: nat, c0: nat, n: nat)
    requires Nonnegative(m) && r < m.rows && c0 + n <= m.cols
    ensures Prefix(m, r, c0, n) >= 0.0
    ensures forall c: nat | c0 <= c < c0 + n :: m.entry(r, c) <= Prefix(m, r, c0, n)
    decreases n
  {
    if n > 0 {
      PrefixBounds(m, r, c0, n - 1);
      assert m.entry(r, c0 + n - 1) >= 0.0;
    }
  }

  /** Nonnegative input makes every
      denominator at least one, so no division in the kernel is by zero. */
  lemma NonnegativeDenoms(m: Matrix, tileC: nat)
    requires Nonnegative(m) && Divides(tileC, m.cols)
    ensures DenomsNonzero(m, tileC)
    ensures forall r: nat, c: nat | r < m.rows && c < m.cols :: Denom(m, r, c, tileC) >= 1.0
  {
    forall r: nat, c: nat | r < m.rows && c < m.cols
      ensures Denom(m, r, c, tileC) >= 1.0
    {
      OriginAligned(c, tileC);
      UniqueTile(c, tileC, m.cols, Origin(c, tileC));
      PrefixBounds(m, r, Origin(c, tileC), tileC);
    }
  }

  /** With nonnegative input every normalized value lies in [0, 1). */
  lemma NormBounds(m: Matrix, r: nat, c: nat, tileC: nat)
    requires Nonnegative(m) && Divides(tileC, m.cols) && r < m.rows && c < m.cols
    ensures DenomsNonzero(m, tileC)
    ensures 0.0 <= Norm(m, r, c, tileC) < 1.0
  {
    NonnegativeDenoms(m, tileC);
    var o := Origin(c, tileC);
    OriginAligned(c, tileC);
    UniqueTile(c, tileC, m.cols, o);
    PrefixBounds(m, r, o, tileC);
    var x, d := m.entry(r, c), Denom(m, r, c, tileC);
    assert 0.0 <= x < d;
    ScaledBelowOne(x, d);
    assert Norm(m, r, c, tileC) == x * (1.0 / d);
  }

  lemma ScaledBelowOne(x: real, d: real)
    requires 0.0 <= x < d
    ensures 0.0 <= x * (1.0 / d) < 1.0
  {
    assert x * (1.0 / d) == x / d;
  }

  /** With nonnegative input a column sum over n > 0 rows lies in [0, n). */
  lemma {:induction false} ColSumBounds(m: Matrix, c: nat, n: nat, tileC: nat)
    requires Nonnegative(m) && Divides(tileC, m.cols) && c < m.cols && n <= m.rows
    ensures DenomsNonzero(m, tileC)
    ensures 0.0 <= ColSum(m, c, n, tileC) && (n > 0 ==> ColSum(m, c, n, tileC) < n as real)
    decreases n
  {
    NonnegativeDenoms(m, tileC);
    if n > 0 {
      ColSumBounds(m, c, n - 1, tileC);
      NormBounds(m, n - 1, c, tileC);
    }
  }

  /** With nonnegative input every output element lies in [0, 1). */
  lemma OutputBounds(m: Matrix, r: nat, c: nat, tileC: nat)
    requires Nonnegative(m) && Divides(tileC, m.cols) && r < m.rows && c < m.cols
    ensures DenomsNonzero(m, tileC)
    ensures 0.0 <= Output(m, r, c, tileC) < 1.0
  {
    NormBounds(m, r, c, tileC);
    ColSumBounds(m, c, m.rows, tileC);
    QuotientBelowOne(ColSum(m, c, m.rows, tileC), m.rows as real);
    var n, s := Norm(m, r, c, tileC), Scale(m, c, tileC);
    ProductBelowOne(n, s);
    assert Output(m, r, c, tileC) == n * s;
  }

  lemma QuotientBelowOne(x: real, n: real)
    requires 0.0 <= x < n
    ensures 0.0 <= x / n < 1.0
  {
    assert x / n * n == x;
  }

  lemma ProductBelowOne(x: real, y: real)
    requires 0.0 <= x < 1.0 && 0.0 <= y < 1.0
    ensures 0.0 <= x * y < 1.0
  {
    assert x * y <= x * 1.0;
  }

  /** When one column tile spans the whole width, the segment is the whole
      row: the kernel then normalizes by the full row sum plus one. */
  lemma FullRowWhenOneTile(m: Matrix, r: nat, c: nat)
    requires DenomsNonzero(m, m.cols) && r < m.rows && c < m.cols
    ensures Denom(m, r, c, m.cols) == Prefix(m, r, 0, m.cols) + 1.0
    ensures Norm(m, r, c, m.cols) == m.entry(r, c) / (Prefix(m, r, 0, m.cols) + 1.0)
  {
    Offset(0, c, m.cols);
  }

  /** A row segment that sums to zero leaves its elements unchanged by the
      normalization: the bias makes the denominator one. */
  lemma ZeroSegmentKeepsValue(m: Matrix, r: nat, jj: nat, c: nat, tileC: nat)
    requires DenomsNonzero(m, tileC) && r < m.rows && c < m.cols
    requires Aligned(jj, tileC) && jj <= c < jj + tileC
    requires SegSum(m, r, jj, tileC) == 0.0
    ensures Norm(m, r, c, tileC) == m.entry(r, c)
  {
    DenomOfTile(m, r, jj, c - jj, tileC);
    var d := Denom(m, r, c, tileC);
    assert d == 1.0;
    assert m.entry(r, c) * (1.0 / d) == m.entry(r, c);
  }

  /** A single-row matrix is scaled by its own normalized values. */
  lemma SingleRow(m: Matrix, r: nat, c: nat, tileC: nat)
    requires DenomsNonzero(m, tileC) && m.rows == 1 && r < 1 && c < m.cols
    ensures Scale(m, c, tileC) == Norm(m, 0, c, tileC)
    ensures Output(m, r, c, tileC) == Norm(m, 0, c, tileC) * Norm(m, 0, c, tileC)
  {
    assert ColSum(m, c, 1, tileC) == Norm(m, 0, c, tileC);
  }

  /** The 2 x 2 matrix of ones. */
  predicate Ones2x2(m: Matrix) {
    m.rows == 2 && m.cols == 2 &&
    forall i: nat, j: nat | i < 2 && j < 2 :: m.entry(i, j) == 1.0
  }

  /** In the matrix of ones every segment of width w sums to w, so every
      element normalizes to 1 / (w + 1). */
  lemma OnesNorm(m: Matrix, tileC: nat)
    requires Ones2x2(m) && (tileC == 1 || tileC == 2)
    ensures DenomsNonzero(m, tileC)
    ensures forall i: nat, j: nat | i < 2 && j < 2 :: Norm(m, i, j, tileC) == 1.0 / (tileC as real + 1.0)
  {
    var w := tileC as real + 1.0;
    forall i: nat, j: nat | i < 2 && j < 2
      ensures Denom(m, i, j, tileC) == w
    {
      if tileC == 1 {
        Offset(j, 0, 1);
        assert Prefix(m, i, j, 1) == m.entry(i, j);
      } else {
        Offset(0, j, 2);
        assert Prefix(m, i, 0, 1) == m.entry(i, 0);
      }
    }
    forall i: nat, j: nat | i < 2 && j < 2
      ensures Norm(m, i, j, tileC) == 1.0 / w
    {
      assert m.entry(i, j) == 1.0;
    }
  }

  /** The matrix of ones with one 2-wide column tile: row sums 2, normalized
      values 1/3, column means 1/3, output 1/9 everywhere. */
  lemma OnesOneTile(m: Matrix, r: nat, c: nat)
    requires Ones2x2(m) && r < 2 && c < 2
    ensures DenomsNonzero(m, 2)
    ensures Norm(m, r, c, 2) == 1.0 / 3.0 && Output(m, r, c, 2) == 1.0 / 9.0
  {
    OnesNorm(m, 2);
    assert ColSum(m, c, 1, 2) == 1.0 / 3.0;
    assert ColSum(m, c, 2, 2) == 2.0 / 3.0;
    assert Scale(m, c, 2) == 1.0 / 3.0;
  }

  /** The same matrix cut into 1-wide column tiles: every segment is a single
      element, so the normalized values are 1/2 and the output 1/4, not the
      1/9 of full-row normalization. The tile width changes the result. */
  lemma OnesNarrowTiles(m: Matrix, r: nat, c: nat)
    requires Ones2x2(m) && r < 2 && c < 2
    ensures DenomsNonzero(m, 1)
    ensures Norm(m, r, c, 1) == 1.0 / 2.0 && Output(m, r, c, 1) == 1.0 / 4.0
    ensures DenomsNonzero(m, 2) && Output(m, r, c, 1) != Output(m, r, c, 2)
  {
    OnesNorm(m, 1);
    assert ColSum(m, c, 1, 1) == 1.0 / 2.0;
    assert ColSum(m, c, 2, 1) == 1.0;
    assert Scale(m, c, 1) == 1.0 / 2.0;
    OnesOneTile(m, r, c);
  }
}
