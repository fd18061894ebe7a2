# top_kernel: tiled row normalization and column scaling

This project models `top_kernel` of `2026_Spring/lab1/top.cpp`. The kernel is
a high-level-synthesis kernel. It reads an `N_ROWS x N_COLS` matrix `A` through
`TILE_R x TILE_C` on-chip buffers and writes a matrix `C` of the same shape.
It makes two passes over the tiles, visiting them in row-major tile order.

- **Setup.** `init_global` zeroes the column-sum vector `col_sum_global`.
- **Pass 1.** Each tile is loaded into `A_tile`. For each buffer row, the
  kernel sums the row's `TILE_C` entries into `row_sum` and forms
  `recip = 1 / (row_sum + 1)`. It then adds each `A_tile[i][j] * recip` into
  `col_sum_global[jj + j]`.
- **Scale.** `compute_scale` divides each column sum by `N_ROWS`, giving
  `scale_global`.
- **Pass 2.** Each tile is reloaded and normalized again with the same
  formulas. Each value is multiplied by `scale_global[jj + j]` into `C_tile`,
  and `store_tile` copies the tile into `C`.

The model has three modules, one per file:

- `Tiling` (`tiling.dfy`) covers the index arithmetic of the tile loops.
  - `Aligned(o, t)` holds for the values `0, t, 2t, ...` that a loop
    `o += t` reaches.
  - `Origin(x, t)` is the origin of the tile that holds index `x`.
  - The lemmas show that, when the tile size divides the extent, the loops
    stay in bounds and reach every index from exactly one tile.
- `Normalize` (`normalize.dfy`) states what the kernel computes. These are
  functions of a heap-free value `Matrix`, the contents of `A`:
  - `SegSum`, the row-segment sum;
  - `Denom`, that sum plus one;
  - `Norm`, the normalized element;
  - `ColSum`, the column sum of normalized values, added in row order;
  - `Scale`, the column mean;
  - `Output`, the value stored into `C`.

  It also holds the properties of this transform.
- `Kernel` (`kernel.dfy`) is the kernel itself, written imperatively.
  - `A` and `C` are `array2<real>`. `A_tile` and `C_tile` are `array2<real>`
    buffers. `col_sum_global` and `scale_global` are `array<real>`.
  - Every `for` loop of the source is a `while` loop with invariants.
  - Each named loop of the source becomes one method, proved against the
    `Normalize` functions.
  - A ghost parameter `m` is the contents of `A`.
  - Ghost per-cell counters record two things: each cell of `A` is added into
    the column sums exactly once, and each cell of `C` is written exactly once.

The matrix dimensions are the lengths of `A`, and the tile sizes are the
lengths of the buffers `TopKernel` allocates. `TileShape` requires both tile
sizes to divide the matrix dimensions. The source has no remainder tiles, so it
needs this too. `AlignedIsMultiple` shows that the requirement is the usual
`N % T == 0`.

### The row sum covers one tile segment, not the whole row

The row-sum loop (`top.cpp:60-64`) runs over the `TILE_C` entries of the
current buffer row only. Each element is therefore divided by the sum of its
row segment inside its own column tile, plus one. It is not divided by the
full row sum plus one (full-row normalization). The model follows the code:
`Denom` uses `SegSum` at `Origin(c, TILE_C)`.

Two lemmas describe the difference:

- `FullRowWhenOneTile` proves that the two agree when `TILE_C == N_COLS`.
- `OnesNarrowTiles` exhibits the 2 x 2 matrix of ones where they differ. With
  1-wide tiles every output is 1/4. With one 2-wide tile, the full-row
  normalization gives 1/9, which `OnesOneTile` proves.

### Nonnegative input

The divisions `1 / (row_sum + 1)` (`top.cpp:66`, `top.cpp:116`) are defined
only when no segment sum is -1. `TopKernel` requires `DenomsNonzero`, which
states exactly that. `NonnegativeDenoms` proves that nonnegative input
implies it, with every denominator at least 1.

## Model

| member | source | states |
|---|---|---|
| Tiling.Origin | 2026_Spring/lab1/top.cpp:44 | the tile of the column loop `jj += TILE_C` that holds index x starts at or below x and extends past it |
| Tiling.OriginAligned | 2026_Spring/lab1/top.cpp:44 | the tile origin of any index is a value the tile loop visits |
| Tiling.Step | 2026_Spring/lab1/top.cpp:43-44 | when the tile size divides the extent, an aligned origin below the extent leaves room for a whole tile, and the next origin is aligned again |
| Tiling.Offset | 2026_Spring/lab1/top.cpp:48-50 | inside the tile at an aligned origin o, index o + j belongs to tile o |
| Tiling.UniqueTile | 2026_Spring/lab1/top.cpp:43-52 | each index below the extent lies in exactly one visited tile, and that tile fits in the extent |
| Tiling.AlignedIsMultiple | 2026_Spring/lab1/top.cpp:43-44 | the origins the tile loops visit are exactly the multiples of the tile size, both directions |
| Normalize.Prefix | 2026_Spring/lab1/top.cpp:57-64 | definition: the entries m[r][c0], ..., m[r][c0 + n - 1] added left to right, as the row-sum loop accumulates `row_sum` from 0 |
| Normalize.SegSum | 2026_Spring/lab1/top.cpp:57-64 | definition: `row_sum` for row r of the tile at column origin jj, the sum of the TILE_C entries of that row inside the tile only |
| Normalize.Denom | 2026_Spring/lab1/top.cpp:66 | definition: `row_sum + 1` for element (r, c), where row_sum is the segment sum of the column tile that holds c |
| Normalize.Norm | 2026_Spring/lab1/top.cpp:66-72 | definition: the normalized value `A[r][c] * recip`, with recip = 1 / Denom; pass 2 recomputes the same value at line 121 |
| Normalize.ColSum | 2026_Spring/lab1/top.cpp:74 | definition: the sum of Norm over rows 0 .. n - 1 of column c, in the row order in which `col_sum_global[jj + j] += tmp_val` adds them |
| Normalize.Scale | 2026_Spring/lab1/top.cpp:88 | definition: `scale_global[c]`, the column sum over all N_ROWS rows divided by N_ROWS |
| Normalize.Output | 2026_Spring/lab1/top.cpp:122 | definition: the value stored into C[r][c], Norm times Scale of column c |
| Normalize.DenomOfTile | 2026_Spring/lab1/top.cpp:57-66 | every element of a tile row is divided by that tile row's row_sum + 1 |
| Normalize.RecipDefined | 2026_Spring/lab1/top.cpp:66 | the reciprocal of a tile row's row_sum + 1 is defined whenever no denominator of the matrix is zero |
| Normalize.NormOfTile | 2026_Spring/lab1/top.cpp:66-72 | `A_tile[i][j] * recip` is the normalized value of element (ii + i, jj + j) |
| Normalize.PrefixBounds | 2026_Spring/lab1/top.cpp:60-64 | with nonnegative entries, a segment sum is nonnegative and bounds each of its entries |
| Normalize.NonnegativeDenoms | 2026_Spring/lab1/top.cpp:66 | with nonnegative entries every denominator is at least 1, so no division by zero occurs |
| Normalize.NormBounds | 2026_Spring/lab1/top.cpp:66-72 | with nonnegative entries every normalized value lies in [0, 1) |
| Normalize.ColSumBounds | 2026_Spring/lab1/top.cpp:74 | with nonnegative entries, a column sum over n rows is nonnegative, and below n when n > 0 |
| Normalize.OutputBounds | 2026_Spring/lab1/top.cpp:122 | with nonnegative entries every output element lies in [0, 1) |
| Normalize.FullRowWhenOneTile | 2026_Spring/lab1/top.cpp:60-66 | when one column tile spans the matrix, the denominator is the full row sum plus one |
| Normalize.ZeroSegmentKeepsValue | 2026_Spring/lab1/top.cpp:66-72 | a row segment summing to zero leaves its elements unchanged by the normalization |
| Normalize.SingleRow | 2026_Spring/lab1/top.cpp:86-89 | for a single-row matrix the column scale is the element's own normalized value |
| Normalize.OnesNorm | 2026_Spring/lab1/top.cpp:60-72 | in the 2 x 2 matrix of ones every element normalizes to 1 / (TILE_C + 1) |
| Normalize.OnesOneTile | 2026_Spring/lab1/top.cpp:55-122 | in the 2 x 2 matrix of ones with one 2-wide tile, normalized values are 1/3 and outputs are 1/9 |
| Normalize.OnesNarrowTiles | 2026_Spring/lab1/top.cpp:60-66 | with 1-wide tiles the same matrix gives normalized values 1/2 and outputs 1/4, unlike with one 2-wide tile |
| Kernel.InitGlobal | 2026_Spring/lab1/top.cpp:35-38 | a fresh column-sum vector of N_COLS zeros |
| Kernel.LoadTile | 2026_Spring/lab1/top.cpp:47-52 | the buffer holds the block of A at (ii, jj); A stays in bounds and only the buffer changes |
| Kernel.RowSum | 2026_Spring/lab1/top.cpp:57-64 | row_sum is the row's segment sum over the current column tile only |
| Kernel.AccumulateCell | 2026_Spring/lab1/top.cpp:72-74 | col_sum_global[jj + j] grows by the normalized value of the cell, and no other slot changes |
| Kernel.NormalizeAccumulateRow | 2026_Spring/lab1/top.cpp:55-76 | each column of the tile goes from the column sum over rows below ii + i to the one over rows up to ii + i; other columns are unchanged; each cell of the row is added once |
| Kernel.Pass1Tile | 2026_Spring/lab1/top.cpp:44-76 | the tile's columns accumulate rows ii .. ii + TILE_R - 1; other columns are unchanged; each cell of the tile is added once |
| Kernel.Pass1Strip | 2026_Spring/lab1/top.cpp:44-77 | a row strip moves every column sum from rows below ii to rows below ii + TILE_R, each cell of the strip added once |
| Kernel.Pass1 | 2026_Spring/lab1/top.cpp:43-78 | from zeros, col_sum_global[c] ends as the sum over all rows of the normalized values of column c; every cell of the matrix is added exactly once and nothing outside it |
| Kernel.ComputeScale | 2026_Spring/lab1/top.cpp:83-89 | scale_global[j] is col_sum_global[j] / N_ROWS; the column sums are only read |
| Kernel.NormalizeScaleRow | 2026_Spring/lab1/top.cpp:106-124 | buffer row i of C_tile holds the normalized values of the row, recomputed as in pass 1, times their column scales; other rows unchanged |
| Kernel.NormalizeScaleTile | 2026_Spring/lab1/top.cpp:106-124 | every cell of C_tile holds its normalized value times its column scale |
| Kernel.StoreRow | 2026_Spring/lab1/top.cpp:128-131 | one buffer row is copied into its row of C, each cell written once and no other cell changed |
| Kernel.StoreTile | 2026_Spring/lab1/top.cpp:127-132 | the block of C at (ii, jj) equals C_tile, each of its cells written once; every other cell of C keeps its value |
| Kernel.Pass2Tile | 2026_Spring/lab1/top.cpp:95-133 | the tile's block of C holds normalized values times column scales, written once; the rest of C is unchanged |
| Kernel.Pass2Strip | 2026_Spring/lab1/top.cpp:95-133 | the strip's rows of C hold their final values, written once; other rows are unchanged |
| Kernel.Pass2 | 2026_Spring/lab1/top.cpp:94-134 | every cell of C holds its normalized value times its column scale and is written exactly once; nothing outside C's range is written |
| Kernel.TopKernel | 2026_Spring/lab1/top.cpp:6-135 | C[r][c] is A[r][c] / (segment sum + 1) times the mean over all rows of column c's normalized values; each cell of A is added once, each cell of C is written once, and A is unchanged |

## Left out

- `#pragma HLS` directives: interface bindings, storage binding, array partitioning, pipelining and unrolling. They schedule hardware and do not change the computed values.
- Floating-point behaviour of `data_t`: `data_t` is an exact `real`. Rounding, reduction order, reciprocal-versus-division differences, and NaN or infinity propagation are not modelled.
- `dcl.h`, which defines `data_t`, `N_ROWS` and `N_COLS`, is not part of this model. The dimensions are the lengths of `A` and `C`.
- The fixed `TILE_R = TILE_C = 32` (`top.cpp:3-4`) is generalised to any tile sizes that divide the dimensions.
- `tmp_tile` (`top.cpp:73`) is written in pass 1 and never read, so it is not modelled.
- TopKernel: requires `A` and `C` to be distinct arrays. Aliasing of the two AXI ports is not modelled.
- TopKernel: requires `DenomsNonzero` rather than handling a segment sum of -1. The source divides by zero there, and floating point then yields infinity or NaN.
- The ghost matrix `m` stands for the contents of `A`. The kernel methods receive it alongside `A` and require that `A` holds it.
