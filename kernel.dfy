/**
 * top_kernel: the two-pass tiled normalize-and-scale transform.
 *
 * The kernel reads A (N_ROWS x N_COLS) through TILE_R x TILE_C buffers.
 * Pass 1 loads every tile, normalizes each tile row by its segment sum
 * plus one and adds the normalized values into col_sum_global. The scale
 * loop turns the column sums into means. Pass 2 reloads every tile,
 * recomputes the same normalization, multiplies by the column scale and
 * stores the tile into C. The dimensions are the array lengths; the tile
 * sizes are the buffer lengths. The ghost parameter m is the contents of
 * A, which the kernel only reads.
 */
module Kernel {
  import opened Tiling
  import opened Normalize

  /** A holds the matrix m. */
  ghost predicate Holds(A: array2<real>, m: Matrix)
    reads A
  {
    A.Length0 == m.rows && A.Length1 == m.cols &&
    forall r, c | 0 <= r < A.Length0 && 0 <= c < A.Length1 :: A[r, c] == m.entry(r, c)
  }

  /** tile holds the TILE_R x TILE_C block of m whose top-left corner is
      (ii, jj), as the load loop leaves it. */
  ghost predicate HoldsTile(tile: array2<real>, m: Matrix, ii: nat, jj: nat)
    reads tile
  {
    ii + tile.Length0 <= m.rows && jj + tile.Length1 <= m.cols &&
    forall i, j | 0 <= i < tile.Length0 && 0 <= j < tile.Length1 ::
      tile[i, j] == m.entry(ii + i, jj + j)
  }

  /** (r, c) lies in the h x w block whose top-left corner is (ii, jj). */
  predicate InBlock(r: int, c: int, ii: int, jj: int, h: int, w: int) {
    ii <= r < ii + h && jj <= c < jj + w
  }

  /** A per-cell count of writes (to C) or additions (into col_sum_global),
      with one more at (r, c). */
  ghost function Bump(writes: (int, int) -> nat, r: int, c: int): (int, int) -> nat {
    (x: int, y: int) => if x == r && y == c then writes(x, y) + 1 else writes(x, y)
  }

  /** init_global: a fresh column-sum vector of zeros. */
  method InitGlobal(cols: nat) returns (colSum: array<real>)
    ensures fresh(colSum) && colSum.Length == cols
    ensures forall j | 0 <= j < cols :: colSum[j] == 0.0
  {
    colSum := new real[cols];
    var j := 0;
    while j < cols
      invariant 0 <= j <= cols
      invariant forall j' | 0 <= j' < j :: colSum[j'] == 0.0
    {
      colSum[j] := 0.0;
      j := j + 1;
    }
  }

  /** load_tile1 / load_tile2: copy the block of A at (ii, jj) into the
      buffer; only the buffer changes. */
  method LoadTile(A: array2<real>, ii: nat, jj: nat, tile: array2<real>, ghost m: Matrix)
    requires tile != A && Holds(A, m)
    requires ii + tile.Length0 <= A.Length0 && jj + tile.Length1 <= A.Length1
    modifies tile
    ensures HoldsTile(tile, m, ii, jj)
  {
    var i := 0;
    while i < tile.Length0
      invariant 0 <= i <= tile.Length0
      invariant forall i', j' | 0 <= i' < i && 0 <= j' < tile.Length1 ::
        tile[i', j'] == m.entry(ii + i', jj + j')
    {
      var j := 0;
      while j < tile.Length1
        invariant 0 <= j <= tile.Length1
        invariant forall i', j' | 0 <= i' < i && 0 <= j' < tile.Length1 ::
          tile[i', j'] == m.entry(ii + i', jj + j')
        invariant forall j' | 0 <= j' < j :: tile[i, j'] == m.entry(ii + i, jj + j')
      {
        tile[i, j] := A[ii + i, jj + j];
        j := j + 1;
      }
      i := i + 1;
    }
  }

  /** The row-sum loop: row_sum over the TILE_C entries of buffer row i,
      which is the segment of row ii + i of A in the tile at column jj. */
  method RowSum(tile: array2<real>, i: nat, ghost m: Matrix, ghost ii: nat, ghost jj: nat)
    returns (rowSum: real)
    requires HoldsTile(tile, m, ii, jj) && i < tile.Length0
    ensures rowSum == SegSum(m, ii + i, jj, tile.Length1)
  {
    rowSum := 0.0;
    var j := 0;
    while j < tile.Length1
      invariant 0 <= j <= tile.Length1
      invariant rowSum == Prefix(m, ii + i, jj, j)
    {
      rowSum := rowSum + tile[i, j];
      j := j + 1;
    }
  }

  /** The innermost statements of norm_and_accum for buffer cell (i, j):
      `tmp_val = A_tile[i][j] * recip; col_sum_global[jj + j] += tmp_val`. */
  method AccumulateCell(tile: array2<real>, jj: nat, i: nat, j: nat, recip: real, colSum: array<real>,
                        ghost m: Matrix, ghost ii: nat)
    requires DenomsNonzero(m, tile.Length1) && HoldsTile(tile, m, ii, jj)
    requires Aligned(jj, tile.Length1) && i < tile.Length0 && j < tile.Length1 && colSum.Length == m.cols
    requires SegSum(m, ii + i, jj, tile.Length1) + 1.0 != 0.0
    requires recip == 1.0 / (SegSum(m, ii + i, jj, tile.Length1) + 1.0)
    modifies colSum
    ensures colSum[jj + j] == old(colSum[jj + j]) + Norm(m, ii + i, jj + j, tile.Length1)
    ensures forall c | 0 <= c < colSum.Length && c != jj + j :: colSum[c] == old(colSum[c])
  {
    NormOfTile(m, ii + i, jj, j, tile.Length1, recip);
    var tmpVal := tile[i, j] * recip;
    colSum[jj + j] := colSum[jj + j] + tmpVal;
  }

  /** One iteration of norm_and_accum: buffer row i holds row ii + i of A
      restricted to the column tile at jj. Each column of that tile receives
      the normalized value of its element of row ii + i, once; no other
      column changes. */
  method NormalizeAccumulateRow(tile: array2<real>, jj: nat, i: nat, colSum: array<real>,
                                ghost m: Matrix, ghost ii: nat, ghost adds0: (int, int) -> nat)
    returns (ghost adds: (int, int) -> nat)
    requires DenomsNonzero(m, tile.Length1) && HoldsTile(tile, m, ii, jj)
    requires Aligned(jj, tile.Length1) && i < tile.Length0 && colSum.Length == m.cols
    requires forall c | jj <= c < jj + tile.Length1 :: colSum[c] == ColSum(m, c, ii + i, tile.Length1)
    modifies colSum
    ensures forall c | jj <= c < jj + tile.Length1 :: colSum[c] == ColSum(m, c, ii + i + 1, tile.Length1)
    ensures forall c | 0 <= c < colSum.Length && !(jj <= c < jj + tile.Length1) :: colSum[c] == old(colSum[c])
    ensures forall r, c ::
      adds(r, c) == adds0(r, c) + (if InBlock(r, c, ii + i, jj, 1, tile.Length1) then 1 else 0)
  {
    var rowSum := RowSum(tile, i, m, ii, jj);
    RecipDefined(m, ii + i, jj, tile.Length1);
    var recip := 1.0 / (rowSum + 1.0);
    var j := 0;
    adds := adds0;
    while j < tile.Length1
      invariant 0 <= j <= tile.Length1
      invariant forall c | jj <= c < jj + j :: colSum[c] == old(colSum[c]) + Norm(m, ii + i, c, tile.Length1)
      invariant forall c | 0 <= c < colSum.Length && !(jj <= c < jj + j) :: colSum[c] == old(colSum[c])
      invariant forall r, c ::
        adds(r, c) == adds0(r, c) + (if r == ii + i && jj <= c < jj + j then 1 else 0)
    {
      AccumulateCell(tile, jj, i, j, recip, colSum, m, ii);
      adds := Bump(adds, ii + i, jj + j);
      j := j + 1;
    }
    forall c | jj <= c < jj + tile.Length1
      ensures colSum[c] == ColSum(m, c, ii + i + 1, tile.Length1)
    {
      assert colSum[c] == old(colSum[c]) + Norm(m, ii + i, c, tile.Length1);
    }
  }

  /** The body of tile_col1 for the tile at (ii, jj): load it, then run
      norm_and_accum over its rows. Afterwards the columns of the tile have
      accumulated rows ii .. ii + TILE_R - 1, each cell of the tile once; no
      other column changes. */
  method Pass1Tile(A: array2<real>, tile: array2<real>, ii: nat, jj: nat, colSum: array<real>,
                   ghost m: Matrix, ghost adds0: (int, int) -> nat)
    returns (ghost adds: (int, int) -> nat)
    requires tile != A && Holds(A, m) && DenomsNonzero(m, tile.Length1) && colSum.Length == m.cols
    requires ii + tile.Length0 <= m.rows && jj + tile.Length1 <= m.cols && Aligned(jj, tile.Length1)
    requires forall c | jj <= c < jj + tile.Length1 :: colSum[c] == ColSum(m, c, ii, tile.Length1)
    modifies tile, colSum
    ensures forall c | jj <= c < jj + tile.Length1 ::
      colSum[c] == ColSum(m, c, ii + tile.Length0, tile.Length1)
    ensures forall c | 0 <= c < colSum.Length && !(jj <= c < jj + tile.Length1) :: colSum[c] == old(colSum[c])
    ensures forall r, c ::
      adds(r, c) == adds0(r, c) + (if InBlock(r, c, ii, jj, tile.Length0, tile.Length1) then 1 else 0)
  {
    adds := adds0;
    LoadTile(A, ii, jj, tile, m);
    var i := 0;
    while i < tile.Length0
      invariant 0 <= i <= tile.Length0
      invariant HoldsTile(tile, m, ii, jj)
      invariant forall c | jj <= c < jj + tile.Length1 :: colSum[c] == ColSum(m, c, ii + i, tile.Length1)
      invariant forall c | 0 <= c < colSum.Length && !(jj <= c < jj + tile.Length1) :: colSum[c] == old(colSum[c])
      invariant forall r, c ::
        adds(r, c) == adds0(r, c) + (if InBlock(r, c, ii, jj, i, tile.Length1) then 1 else 0)
    {
      adds := NormalizeAccumulateRow(tile, jj, i, colSum, m, ii, adds);
      i := i + 1;
    }
  }

  /** One iteration of tile_row1: the tiles of the row strip at ii, left to
      right. Every column moves from the sum over rows below ii to the sum
      over rows below ii + TILE_R, each cell of the strip added once. */
  method Pass1Strip(A: array2<real>, tile: array2<real>, ii: nat, colSum: array<real>,
                    ghost m: Matrix, ghost adds0: (int, int) -> nat)
    returns (ghost adds: (int, int) -> nat)
    requires tile != A && Holds(A, m) && DenomsNonzero(m, tile.Length1) && colSum.Length == m.cols
    requires ii + tile.Length0 <= m.rows
    requires forall c | 0 <= c < colSum.Length :: colSum[c] == ColSum(m, c, ii, tile.Length1)
    modifies tile, colSum
    ensures forall c | 0 <= c < colSum.Length :: colSum[c] == ColSum(m, c, ii + tile.Length0, tile.Length1)
    ensures forall r, c ::
      adds(r, c) == adds0(r, c) + (if InBlock(r, c, ii, 0, tile.Length0, m.cols) then 1 else 0)
  {
    adds := adds0;
    var jj := 0;
    while jj < A.Length1
      invariant 0 <= jj <= A.Length1 && Aligned(jj, tile.Length1)
      invariant forall c | 0 <= c < jj :: colSum[c] == ColSum(m, c, ii + tile.Length0, tile.Length1)
      invariant forall c | jj <= c < colSum.Length :: colSum[c] == ColSum(m, c, ii, tile.Length1)
      invariant forall r, c ::
        adds(r, c) == adds0(r, c) + (if InBlock(r, c, ii, 0, tile.Length0, jj) then 1 else 0)
    {
      Step(jj, tile.Length1, A.Length1);
      adds := Pass1Tile(A, tile, ii, jj, colSum, m, adds);
      jj := jj + tile.Length1;
    }
  }

  /** Pass 1 (tile_row1 / tile_col1): starting from zeros, every column ends
      holding the sum of its normalized values over all rows, each cell of
      the matrix added exactly once and nothing outside it. */
  method Pass1(A: array2<real>, tile: array2<real>, colSum: array<real>, ghost m: Matrix)
    returns (ghost adds: (int, int) -> nat)
    requires tile != A && Holds(A, m) && DenomsNonzero(m, tile.Length1) && Divides(tile.Length0, m.rows)
    requires colSum.Length == m.cols
    requires forall c | 0 <= c < colSum.Length :: colSum[c] == 0.0
    modifies tile, colSum
    ensures forall c | 0 <= c < colSum.Length :: colSum[c] == ColSum(m, c, m.rows, tile.Length1)
    ensures forall r, c :: adds(r, c) == if InBlock(r, c, 0, 0, m.rows, m.cols) then 1 else 0
  {
    adds := (x: int, y: int) => 0;
    var ii := 0;
    while ii < A.Length0
      invariant 0 <= ii <= A.Length0 && Aligned(ii, tile.Length0)
      invariant forall c | 0 <= c < colSum.Length :: colSum[c] == ColSum(m, c, ii, tile.Length1)
      invariant forall r, c :: adds(r, c) == if InBlock(r, c, 0, 0, ii, m.cols) then 1 else 0
    {
      Step(ii, tile.Length0, A.Length0);
      adds := Pass1Strip(A, tile, ii, colSum, m, adds);
      ii := ii + tile.Length0;
    }
  }

  /** compute_scale: scale_global[j] = col_sum_global[j] / N_ROWS; the column
      sums are only read. */
  method ComputeScale(colSum: array<real>, rows: nat) returns (scale: array<real>)
    requires rows > 0
    ensures fresh(scale) && scale.Length == colSum.Length
    ensures forall j | 0 <= j < colSum.Length :: scale[j] == colSum[j] / (rows as real)
  {
    scale := new real[colSum.Length];
    var j := 0;
    while j < colSum.Length
      invariant 0 <= j <= colSum.Length
      invariant forall j' | 0 <= j' < j :: scale[j'] == colSum[j'] / (rows as real)
    {
      scale[j] := colSum[j] / (rows as real);
      j := j + 1;
    }
  }

  /** One iteration of norm_and_scale: recompute the normalization of buffer
      row i exactly as pass 1 did, multiply by the column scale and fill row
      i of C_tile; the other rows of C_tile keep their values. */
  method NormalizeScaleRow(tile: array2<real>, jj: nat, i: nat, scale: array<real>, cTile: array2<real>,
                           ghost m: Matrix, ghost ii: nat)
    requires DenomsNonzero(m, tile.Length1) && HoldsTile(tile, m, ii, jj)
    requires Aligned(jj, tile.Length1) && i < tile.Length0 && scale.Length == m.cols
    requires cTile != tile && cTile.Length0 == tile.Length0 && cTile.Length1 == tile.Length1
    modifies cTile
    ensures forall j | 0 <= j < tile.Length1 ::
      cTile[i, j] == Norm(m, ii + i, jj + j, tile.Length1) * scale[jj + j]
    ensures forall i', j | 0 <= i' < cTile.Length0 && i' != i && 0 <= j < cTile.Length1 ::
      cTile[i', j] == old(cTile[i', j])
  {
    var rowSum := RowSum(tile, i, m, ii, jj);
    RecipDefined(m, ii + i, jj, tile.Length1);
    var recip := 1.0 / (rowSum + 1.0);
    var j := 0;
    while j < tile.Length1
      invariant 0 <= j <= tile.Length1
      invariant forall j' | 0 <= j' < j ::
        cTile[i, j'] == Norm(m, ii + i, jj + j', tile.Length1) * scale[jj + j']
      invariant forall i', j' | 0 <= i' < cTile.Length0 && i' != i && 0 <= j' < cTile.Length1 ::
        cTile[i', j'] == old(cTile[i', j'])
    {
      NormOfTile(m, ii + i, jj, j, tile.Length1, recip);
      var tmpVal := tile[i, j] * recip;
      cTile[i, j] := tmpVal * scale[jj + j];
      j := j + 1;
    }
  }

  /** The norm_and_scale loop of pass 2: C_tile receives, row after row, the
      normalized values of the tile in the buffer times their column scales. */
  method NormalizeScaleTile(tile: array2<real>, jj: nat, scale: array<real>, cTile: array2<real>,
                            ghost m: Matrix, ghost ii: nat)
    requires DenomsNonzero(m, tile.Length1) && HoldsTile(tile, m, ii, jj)
    requires Aligned(jj, tile.Length1) && scale.Length == m.cols
    requires cTile != tile && cTile.Length0 == tile.Length0 && cTile.Length1 == tile.Length1
    modifies cTile
    ensures forall i, j | 0 <= i < tile.Length0 && 0 <= j < tile.Length1 ::
      cTile[i, j] == Norm(m, ii + i, jj + j, tile.Length1) * scale[jj + j]
  {
    var i := 0;
    while i < tile.Length0
      invariant 0 <= i <= tile.Length0
      invariant forall i', j | 0 <= i' < i && 0 <= j < tile.Length1 ::
        cTile[i', j] == Norm(m, ii + i', jj + j, tile.Length1) * scale[jj + j]
    {
      NormalizeScaleRow(tile, jj, i, scale, cTile, m, ii);
      i := i + 1;
    }
  }

  /** One row of store_tile: copy the buffer row for row `row` of C into
      columns jj .. jj + TILE_C - 1 of that row; every other cell of C keeps
      its value. */
  method StoreRow(cTile: array2<real>, C: array2<real>, ii: nat, jj: nat, row: nat,
                  ghost writes0: (int, int) -> nat)
    returns (ghost writes: (int, int) -> nat)
    requires cTile != C && ii <= row < ii + cTile.Length0
    requires ii + cTile.Length0 <= C.Length0 && jj + cTile.Length1 <= C.Length1
    modifies C
    ensures forall c | jj <= c < jj + cTile.Length1 :: C[row, c] == cTile[row - ii, c - jj]
    ensures forall r, c | 0 <= r < C.Length0 && 0 <= c < C.Length1 &&
      !InBlock(r, c, row, jj, 1, cTile.Length1) :: C[r, c] == old(C[r, c])
    ensures forall r, c ::
      writes(r, c) == writes0(r, c) + (if InBlock(r, c, row, jj, 1, cTile.Length1) then 1 else 0)
  {
    writes := writes0;
    var j := 0;
    while j < cTile.Length1
      invariant 0 <= j <= cTile.Length1
      invariant forall c | jj <= c < jj + j :: C[row, c] == cTile[row - ii, c - jj]
      invariant forall r, c | 0 <= r < C.Length0 && 0 <= c < C.Length1 &&
        !InBlock(r, c, row, jj, 1, j) :: C[r, c] == old(C[r, c])
      invariant forall r, c ::
        writes(r, c) == writes0(r, c) + (if InBlock(r, c, row, jj, 1, j) then 1 else 0)
    {
      C[row, jj + j] := cTile[row - ii, j];
      writes := Bump(writes, row, jj + j);
      j := j + 1;
    }
  }

  /** store_tile: copy C_tile into the block of C at (ii, jj); every other
      cell of C keeps its value. The ghost count records that each cell of
      the block is written once and no other cell is written. */
  method StoreTile(cTile: array2<real>, C: array2<real>, ii: nat, jj: nat, ghost writes0: (int, int) -> nat)
    returns (ghost writes: (int, int) -> nat)
    requires cTile != C
    requires ii + cTile.Length0 <= C.Length0 && jj + cTile.Length1 <= C.Length1
    modifies C
    ensures forall r, c | InBlock(r, c, ii, jj, cTile.Length0, cTile.Length1) ::
      C[r, c] == cTile[r - ii, c - jj]
    ensures forall r, c | 0 <= r < C.Length0 && 0 <= c < C.Length1 &&
      !InBlock(r, c, ii, jj, cTile.Length0, cTile.Length1) :: C[r, c] == old(C[r, c])
    ensures forall r, c ::
      writes(r, c) == writes0(r, c) + (if InBlock(r, c, ii, jj, cTile.Length0, cTile.Length1) then 1 else 0)
  {
    writes := writes0;
    var i := 0;
    while i < cTile.Length0
      invariant 0 <= i <= cTile.Length0
      invariant forall r, c | InBlock(r, c, ii, jj, i, cTile.Length1) :: C[r, c] == cTile[r - ii, c - jj]
      invariant forall r, c | 0 <= r < C.Length0 && 0 <= c < C.Length1 &&
        !InBlock(r, c, ii, jj, i, cTile.Length1) :: C[r, c] == old(C[r, c])
      invariant forall r, c ::
        writes(r, c) == writes0(r, c) + (if InBlock(r, c, ii, jj, i, cTile.Length1) then 1 else 0)
    {
      writes := StoreRow(cTile, C, ii, jj, ii + i, writes);
      i := i + 1;
    }
  }

  /** The body of tile_col2 for the tile at (ii, jj): reload it, fill C_tile
      row by row, then store it. Afterwards each cell of the tile's block in
      C holds its normalized value times its column scale and has been
      written once; no other cell of C changes. */
  method Pass2Tile(A: array2<real>, C: array2<real>, tile: array2<real>, cTile: array2<real>,
                   ii: nat, jj: nat, scale: array<real>, ghost m: Matrix, ghost writes0: (int, int) -> nat)
    returns (ghost writes: (int, int) -> nat)
    requires A != C && tile != A && tile != C && cTile != A && cTile != C && cTile != tile
    requires Holds(A, m) && C.Length0 == m.rows && C.Length1 == m.cols
    requires cTile.Length0 == tile.Length0 && cTile.Length1 == tile.Length1
    requires DenomsNonzero(m, tile.Length1) && scale.Length == m.cols
    requires ii + tile.Length0 <= m.rows && jj + tile.Length1 <= m.cols && Aligned(jj, tile.Length1)
    modifies tile, cTile, C
    ensures forall r, c | InBlock(r, c, ii, jj, tile.Length0, tile.Length1) ::
      C[r, c] == Norm(m, r, c, tile.Length1) * scale[c]
    ensures forall r, c | 0 <= r < C.Length0 && 0 <= c < C.Length1 &&
      !InBlock(r, c, ii, jj, tile.Length0, tile.Length1) :: C[r, c] == old(C[r, c])
    ensures forall r, c ::
      writes(r, c) == writes0(r, c) + (if InBlock(r, c, ii, jj, tile.Length0, tile.Length1) then 1 else 0)
  {
    LoadTile(A, ii, jj, tile, m);
    NormalizeScaleTile(tile, jj, scale, cTile, m, ii);
    writes := StoreTile(cTile, C, ii, jj, writes0);
    forall r, c | InBlock(r, c, ii, jj, tile.Length0, tile.Length1)
      ensures C[r, c] == Norm(m, r, c, tile.Length1) * scale[c]
    {
      assert C[r, c] == cTile[r - ii, c - jj];
    }
  }

  /** One iteration of tile_row2: the tiles of the row strip at ii, left to
      right. Afterwards every cell of the strip holds its normalized value
      times its column scale and has been written once; the other rows of C
      keep their values. */
  method Pass2Strip(A: array2<real>, C: array2<real>, tile: array2<real>, cTile: array2<real>,
                    ii: nat, scale: array<real>, ghost m: Matrix, ghost writes0: (int, int) -> nat)
    returns (ghost writes: (int, int) -> nat)
    requires A != C && tile != A && tile != C && cTile != A && cTile != C && cTile != tile
    requires Holds(A, m) && C.Length0 == m.rows && C.Length1 == m.cols
    requires cTile.Length0 == tile.Length0 && cTile.Length1 == tile.Length1
    requires DenomsNonzero(m, tile.Length1) && scale.Length == m.cols
    requires ii + tile.Length0 <= m.rows
    modifies tile, cTile, C
    ensures forall r, c | InBlock(r, c, ii, 0, tile.Length0, C.Length1) ::
      C[r, c] == Norm(m, r, c, tile.Length1) * scale[c]
    ensures forall r, c | 0 <= r < C.Length0 && 0 <= c < C.Length1 && !(ii <= r < ii + tile.Length0) ::
      C[r, c] == old(C[r, c])
    ensures forall r, c ::
      writes(r, c) == writes0(r, c) + (if InBlock(r, c, ii, 0, tile.Length0, C.Length1) then 1 else 0)
  {
    writes := writes0;
    var jj := 0;
    while jj < A.Length1
      invariant 0 <= jj <= A.Length1 && Aligned(jj, tile.Length1)
      invariant forall r, c | InBlock(r, c, ii, 0, tile.Length0, jj) ::
        C[r, c] == Norm(m, r, c, tile.Length1) * scale[c]
      invariant forall r, c | 0 <= r < C.Length0 && 0 <= c < C.Length1 && !InBlock(r, c, ii, 0, tile.Length0, jj) ::
        C[r, c] == old(C[r, c])
      invariant forall r, c ::
        writes(r, c) == writes0(r, c) + (if InBlock(r, c, ii, 0, tile.Length0, jj) then 1 else 0)
    {
      Step(jj, tile.Length1, A.Length1);
      writes := Pass2Tile(A, C, tile, cTile, ii, jj, scale, m, writes);
      jj := jj + tile.Length1;
    }
  }

  /** Pass 2 (tile_row2 / tile_col2): every cell of C ends holding its
      normalized value times its column scale, and has been written exactly
      once; nothing outside the matrix is written. */
  method Pass2(A: array2<real>, C: array2<real>, tile: array2<real>, cTile: array2<real>,
               scale: array<real>, ghost m: Matrix)
    returns (ghost writes: (int, int) -> nat)
    requires A != C && tile != A && tile != C && cTile != A && cTile != C && cTile != tile
    requires Holds(A, m) && C.Length0 == m.rows && C.Length1 == m.cols
    requires cTile.Length0 == tile.Length0 && cTile.Length1 == tile.Length1
    requires DenomsNonzero(m, tile.Length1) && Divides(tile.Length0, m.rows)
    requires scale.Length == m.cols
    modifies tile, cTile, C
    ensures forall r, c | 0 <= r < C.Length0 && 0 <= c < C.Length1 ::
      C[r, c] == Norm(m, r, c, tile.Length1) * scale[c]
    ensures forall r, c :: writes(r, c) == if InBlock(r, c, 0, 0, C.Length0, C.Length1) then 1 else 0
  {
    writes := (x: int, y: int) => 0;
    var ii := 0;
    while ii < A.Length0
      invariant 0 <= ii <= A.Length0 && Aligned(ii, tile.Length0)
      invariant forall r, c | 0 <= r < ii && 0 <= c < C.Length1 ::
        C[r, c] == Norm(m, r, c, tile.Length1) * scale[c]
      invariant forall r, c :: writes(r, c) == if InBlock(r, c, 0, 0, ii, C.Length1) then 1 else 0
    {
      Step(ii, tile.Length0, A.Length0);
      writes := Pass2Strip(A, C, tile, cTile, ii, scale, m, writes);
      ii := ii + tile.Length0;
    }
  }

  /** top_kernel: for A holding m, C receives in every cell the element of A
      normalized by its tile-row segment sum plus one, times the mean of its
      column's normalized values. Each cell of A is added into the column
      sums exactly once, each cell of C is written exactly once, nothing
      outside the matrix is touched, and A is only read. */
  method TopKernel(A: array2<real>, C: array2<real>, tileR: nat, tileC: nat, ghost m: Matrix)
    returns (ghost adds: (int, int) -> nat, ghost writes: (int, int) -> nat)
    requires A != C && Holds(A, m) && C.Length0 == m.rows && C.Length1 == m.cols
    requires m.rows > 0 && TileShape(m.rows, m.cols, tileR, tileC)
    requires DenomsNonzero(m, tileC)
    modifies C
    ensures unchanged(A)
    ensures forall r, c | 0 <= r < C.Length0 && 0 <= c < C.Length1 :: C[r, c] == Output(m, r, c, tileC)
    ensures forall r, c :: adds(r, c) == if InBlock(r, c, 0, 0, A.Length0, A.Length1) then 1 else 0
    ensures forall r, c :: writes(r, c) == if InBlock(r, c, 0, 0, C.Length0, C.Length1) then 1 else 0
  {
    var aTile := new real[tileR, tileC];
    var cTile := new real[tileR, tileC];
    var colSum := InitGlobal(A.Length1);
    adds := Pass1(A, aTile, colSum, m);
    var scale := ComputeScale(colSum, A.Length0);
    writes := Pass2(A, C, aTile, cTile, scale, m);
  }
}
