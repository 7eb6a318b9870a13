# NeuralWake field assembly in Dafny

NeuralWake predicts the velocity field behind a wind turbine with an ensemble
of small neural networks. Each sub-network outputs one patch of the wake.
`WakeNet.CompareContour` turns those patches into a 2D wake grid. This project
models that assembly pipeline and proves its index arithmetic and its value
transformations:

1. **Input vector.** The first `inputs` of the four normalised conditions
   (speed, turbulence intensity, yaw, hub height) form the network input.
2. **Buffer fill.** A zero buffer of `dimx * dimy` values receives patch `ii`
   of sub-network `ii` in the slice from offset `ii * out_piece`, clipped to
   the end of the buffer as numpy clips slices.
3. **Background filter.** When `fltr < 1`, every buffer value above
   `ws * fltr` becomes the inlet speed `ws`.
4. **Grid assembly**, by one of three policies:
   - row-major reshape to `dimy x dimx`;
   - column-major: reshape to `dimx x dimy`, then transpose;
   - block tiler (`cubes == 1`): `dim1 x dim2` blocks go left to right, then
     top to bottom, into a `dimy x dimx` array, driven by the running counters
     `ii`/`jj`. The result is the array's transpose.
5. **Inlet-speed replacement.** In a copy of the grid, every value exactly
   equal to `ws` becomes the free-stream speed `u_stream`.

Modules:

- `Arith` (`arith.dfy`): flat indices and quotient/remainder facts.
- `Buffer` (`buffer.dfy`): the fill loop and the filter, as methods on an
  `array<real>`. They are specified by the functions `Filled` and `Filtered`.
- `Layout` (`layout.dfy`): the three assembly policies. The block tiler is a
  method on an `array2<real>`. Its loop invariant ties the counters to the
  block number and says which cells already hold their final value.
- `Contour` (`contour.dfy`): the configuration, input selection, inlet
  replacement, the whole pipeline (`CompareContour`) and its end-to-end
  specification `Field`.

The trained ensemble is a parameter `net: (seq<real>, int) -> seq<real>`:
`net(v, ii)` is the patch of sub-network `ii` for input `v`. Values are
mathematical reals. The configuration globals (`rows`, `out_piece`, `dimx`,
`dimy`, `cubes`, `dim1`, `dim2`, `row_major`, `fltr`, `inputs`) are the
fields of `Contour.Config`.

Notes on what the code does:

- The block tiler returns `alpha.T`, a grid of `dimx` rows and `dimy`
  columns. The row-major and column-major policies return `dimy` rows and
  `dimx` columns. The shapes agree only for square grids. `Contour.GridRows`
  and `Contour.GridCols` state the shape for each policy.
- A single tile as large as the grid gives the transpose of the row-major
  grid. This equals the column-major grid only when `dimx == dimy`
  (`Layout.WholeGridTile`).
- A buffer that the patches do not fill is not an error. The unfilled tail
  keeps its zeros (`Buffer.Filled`, `Buffer.FilledAt`).
- Patches that run past the end of the buffer are clipped like any numpy
  slice. With `out_piece == 1`, a patch past the end meets an empty slice, and
  its single value broadcasts into it without error: the surplus patches are
  silently dropped (`Buffer.Overlay`, `Buffer.Filled`). With any other
  `out_piece`, a clipped slice is shorter than the patch and numpy raises a
  broadcasting error. `Buffer.FillFits` states exactly when the fill succeeds,
  and `FillBuffer` and `ValidConfig` require it.
- The filter runs on the flat buffer before assembly. Since it works value
  by value, the order does not change the result.

## Model

| member | source | states |
|---|---|---|
| `Contour.InputVector` | Code/NeuralWake.py:213-221 | There is an input vector exactly when `inputs` is 1 to 4. It is then the first `inputs` of (speed, ti, yaw, hub height). |
| `Buffer.ConcatAt` | Code/NeuralWake.py:225 | With equal-length patches, value `t` of patch `ii` sits at position `ii * out_piece + t` of the concatenation. |
| `Buffer.ConcatSnoc` | Code/NeuralWake.py:224-225 | Appending one more patch appends it to the end of the concatenation, after the earlier segments. |
| `Buffer.ConcatLength` | Code/NeuralWake.py:224-225 | `rows` patches of `out_piece` values fill `rows * out_piece` positions. |
| `Buffer.FillFits` | Code/NeuralWake.py:224-225 | Defines when numpy's fill succeeds: all patches fit in the buffer, or each patch is one value, so a patch past the end meets an empty slice and is dropped. |
| `Buffer.Filled` | Code/NeuralWake.py:205-225 | The filled buffer has exactly `dimx * dimy` values: the patches in index order, then zeros, cut off at the end of the buffer. |
| `Buffer.FilledAt` | Code/NeuralWake.py:205-225 | Buffer position `k` holds value `k % out_piece` of sub-network `k / out_piece`'s patch while `k < rows * out_piece`, and 0 after that. This holds whether the patches fall short of the buffer or run past it. |
| `Buffer.Overlay` | Code/NeuralWake.py:225 | The slice assignment from `offset` keeps the buffer's length. Position `offset + t` holds patch value `t` where it lies inside the buffer, and every position outside the slice keeps its value. |
| `Buffer.FilledStep` | Code/NeuralWake.py:224-225 | The buffer after patches `0..ii` is the buffer after patches `0..ii-1` with patch `ii` written, clipped, from offset `ii * out_piece`. |
| `Buffer.WritePatch` | Code/NeuralWake.py:225 | The in-place slice assignment leaves the array equal to `Overlay` of its old contents. |
| `Buffer.FillBuffer` | Code/NeuralWake.py:205-225 | For patches numpy can write (`FillFits`), the loop returns a fresh array equal to `Filled`: the patches in index order followed by zeros, clipped at the end. The invariant is that the array equals `Filled` of the patches written so far. |
| `Buffer.Filtered` | Code/NeuralWake.py:228-229 | The filter keeps the buffer's length. |
| `Buffer.ApplyFilter` | Code/NeuralWake.py:228-229 | The in-place masked assignment gives `Filtered`. With `fltr < 1`, a value above `ws * fltr` becomes `ws` and any other value is kept. With `fltr >= 1`, nothing changes. |
| `Buffer.FilterBound` | Code/NeuralWake.py:228-229 | After an active filter, every value is `ws` or at most `ws * fltr`. |
| `Buffer.FilterKeepsBackground` | Code/NeuralWake.py:228-229 | Values at or below `ws * fltr` pass unchanged. A buffer with nothing above the threshold is left as it is. |
| `Buffer.FilterIdempotent` | Code/NeuralWake.py:228-229 | Filtering twice equals filtering once, for every `ws` and `fltr`. |
| `Layout.Cells` | Code/NeuralWake.py:237 | The contents of a 2D array as rows: `Length0` rows of `Length1` values, cell for cell. |
| `Layout.Transpose` | Code/NeuralWake.py:247 | `.T` of an `h x w` grid is `w x h`, with `t[c][r] == g[r][c]`. |
| `Layout.TransposeTwice` | Code/NeuralWake.py:252 | Transposing twice gives the grid back. |
| `Layout.Row` | Code/NeuralWake.py:255 | Row `i` of the reshape has `w` values, and value `j` is buffer position `i * w + j`. |
| `Layout.RowMajor` | Code/NeuralWake.py:255 | The row-major reshape is an `h x w` grid. |
| `Layout.RowMajorAt` | Code/NeuralWake.py:254-255 | Row-major: `grid[i][j] == buf[i * dimx + j]`. |
| `Layout.RowMajorFlatten` | Code/NeuralWake.py:255 | Flattening the row-major grid gives the buffer back. |
| `Layout.FlattenRowMajor` | Code/NeuralWake.py:255 | Reshaping the flattening of a grid gives the grid back. |
| `Layout.ColumnMajor` | Code/NeuralWake.py:252 | Reshape to `(dimx, dimy)` then transpose gives a `dimy x dimx` grid. |
| `Layout.ColumnMajorAt` | Code/NeuralWake.py:250-252 | Column-major: `grid[i][j] == buf[j * dimy + i]`. |
| `Layout.ColumnMajorFlatten` | Code/NeuralWake.py:252 | Reading the column-major grid column by column gives the buffer back. |
| `Layout.BlockOf` | Code/NeuralWake.py:238 | Block numbers are never negative. |
| `Layout.BlockIndex` | Code/NeuralWake.py:240 | The buffer position read into cell `(r, c)` lies inside the slice `BlockOf(r, c) * dd .. BlockOf(r, c) * dd + dd - 1` of its block, where `dd = dim1 * dim2`. |
| `Layout.BlockCounts` | Code/NeuralWake.py:238 | With even division, the grid is `(dimy / dim1) * (dimx / dim2)` blocks of `dim1 * dim2` cells. This is the loop's iteration count. |
| `Layout.BlockIndexInRange` | Code/NeuralWake.py:238-240 | Every cell of `alpha` belongs to a block below the iteration count and reads a position inside the buffer. |
| `Layout.BlockCellIndex` | Code/NeuralWake.py:238-240 | Every buffer position is read by some cell: no value is dropped. |
| `Layout.BlockIndexCell` | Code/NeuralWake.py:238-240 | The cell that reads a cell's buffer position is that same cell. |
| `Layout.BlockIndexInjective` | Code/NeuralWake.py:238-240 | No two cells read the same buffer position: the address map from cells to buffer positions is one to one. |
| `Layout.InsideBlock` | Code/NeuralWake.py:240 | A cell in block `k`'s rectangle belongs to block `k`. It reads `k * dd` plus its row-major offset in the block. |
| `Layout.BlockRectangle` | Code/NeuralWake.py:240 | A cell of block `k` lies inside block `k`'s rectangle. |
| `Layout.BlockPlacement` | Code/NeuralWake.py:240-245 | With `ii == (k / nb) * dim1` and `jj == (k % nb) * dim2`, a cell is in block `k` if and only if it is in rows `ii..ii+dim1-1` and columns `jj..jj+dim2-1`. Cell `(ii + a, jj + b)` then reads `buf[k * dd + a * dim2 + b]`. |
| `Layout.CounterAdvance` | Code/NeuralWake.py:242-245 | Advancing `jj` by `dim2`, and wrapping to 0 with `ii += dim1` at the right edge, yields block `k + 1`'s counters. |
| `Layout.AdvanceCounters` | Code/NeuralWake.py:242-245 | The counter update turns block `k`'s counters `((k / nb) * dim1, (k % nb) * dim2)` into block `k + 1`'s. |
| `Layout.TilerStart` | Code/NeuralWake.py:236 | The iteration count `dimx * dimy / (dim1 * dim2)` equals the number of blocks, `(dimy / dim1) * (dimx / dim2)`. |
| `Layout.BlockInBounds` | Code/NeuralWake.py:238-240 | Within the iteration count, block `k` fits inside `alpha` and its slice fits inside the buffer. |
| `Layout.Placed` | Code/NeuralWake.py:237-245 | Defines the value the tiler leaves in cell `(r, c)` of `alpha`: buffer position `BlockIndex(r, c)`. |
| `Layout.BlockGrid` | Code/NeuralWake.py:237-245 | The filled `alpha` is a `dimy x dimx` grid. |
| `Layout.BlockTiled` | Code/NeuralWake.py:247 | The tiler returns a `dimx x dimy` grid, transposed relative to the other policies. |
| `Layout.BlockTiledAt` | Code/NeuralWake.py:237-247 | Block-tiled: `result[c][r]` is the buffer value that block `BlockOf(r, c)` places at row `r`, column `c` of `alpha`. |
| `Layout.WholeGridTile` | Code/NeuralWake.py:232-247 | A single `dimy x dimx` tile gives the transpose of the row-major grid. It equals the column-major grid when `dimx == dimy`. |
| `Layout.BlockValue` | Code/NeuralWake.py:240 | Defines value `(a, b)` of the `(dim1, dim2)` reshape of a block's slice: slice position `a * dim2 + b`. |
| `Layout.WriteBlock` | Code/NeuralWake.py:240 | The slice assignment writes block value `(r - ii, c - jj)` into each cell of the rectangle and leaves every other cell unchanged. |
| `Layout.PlaceBlock` | Code/NeuralWake.py:240-245 | One iteration: if blocks `0..k-1` hold their final values, then after writing block `k` at the counters, blocks `0..k` do. Every cell of a later block keeps its old value. |
| `Layout.AllBlocksPlaced` | Code/NeuralWake.py:238-247 | Once every block below the count is placed, `alpha` is `BlockGrid`. |
| `Layout.AssembleBlocks` | Code/NeuralWake.py:232-247 | The tiler loop returns `BlockTiled` of the buffer. The loop invariant is `jj == (k % nb) * dim2`, `ii == (k / nb) * dim1`, every cell of blocks `0..k-1` holds its placed value, and every cell of blocks `k` onward is still 0. So each cell is written by its own block's iteration and by no other. |
| `Contour.GridRows` | Code/NeuralWake.py:232-255 | Defines the number of rows of the returned grid: `dimx` for the block tiler (`alpha.T`), `dimy` for the two reshape policies. |
| `Contour.GridCols` | Code/NeuralWake.py:232-255 | Defines the number of columns of the returned grid: `dimy` for the block tiler, `dimx` for the two reshape policies. |
| `Contour.SourceIndex` | Code/NeuralWake.py:232-255 | Defines the buffer position that feeds cell `(i, j)` under each policy: `BlockIndex(j, i)` for the tiler, `j * dimy + i` column-major, `i * dimx + j` row-major. |
| `Contour.Assemble` | Code/NeuralWake.py:232-255 | The configured policy yields a `GridRows x GridCols` grid. |
| `Contour.AssembleAt` | Code/NeuralWake.py:232-255 | Each cell of the assembled grid is the buffer value at the cell's source position, and that position lies inside the buffer. |
| `Contour.ValidConfig` | Code/NeuralWake.py:213-240 | A valid configuration (1 to 4 inputs, patches numpy can write into the buffer, and for the tiler positive blocks that divide the grid) always yields an input tensor. |
| `Contour.Replaced` | Code/NeuralWake.py:304-307 | The replacement keeps the grid's shape. |
| `Contour.ReplaceInlet` | Code/NeuralWake.py:304-307 | The copy is a fresh array with the grid's shape. Each cell is `u_stream` where the grid holds exactly `ws`, and the grid's value elsewhere. The input grid is a value, so it is not modified. |
| `Contour.ReplacedHasNoInlet` | Code/NeuralWake.py:307 | With `ws != u_stream`, no `ws` remains after the replacement. |
| `Contour.ReplacedExtremes` | Code/NeuralWake.py:307 | A grid without `ws` is unchanged. A grid made only of `ws` becomes a grid made only of `u_stream`. |
| `Contour.PostProcess` | Code/NeuralWake.py:228-307 | An output becomes `u_stream` when it is above an active filter's threshold or equal to `ws`. Otherwise it is kept. |
| `Contour.PostProcessCell` | Code/NeuralWake.py:228-307 | A grid cell holding filtered buffer position `k` comes out of the replacement as `PostProcess` of the buffer value at `k`. |
| `Contour.Field` | Code/NeuralWake.py:204-307 | The returned field is `GridRows x GridCols`: `dimx x dimy` for the tiler, `dimy x dimx` otherwise. |
| `Contour.CompareContour` | Code/NeuralWake.py:204-307 | Fill, filter, assemble and replace produce a fresh `GridRows x GridCols` array whose contents are `Field`. |
| `Contour.FieldAt` | Code/NeuralWake.py:224-307 | End to end: cell `(i, j)` is output `k % out_piece` of sub-network `k / out_piece`, or 0 past the last patch, for its source position `k`. The filter and the inlet replacement are then applied. |
| `Contour.BackgroundCell` | Code/NeuralWake.py:228-307 | When every network output exceeds `ws * fltr` under an active filter, and the patches cover the grid, a cell of the returned grid is `u_stream`. |
| `Contour.FieldAllBackground` | Code/NeuralWake.py:228-307 | Under the same conditions, the whole returned grid is `u_stream`. |

## Left out

- The neural networks themselves (`WakeNet.__init__`, `forward`, `tansig`,
  `purelin`): PyTorch layers and floating-point numerics. Each patch is the
  value of the `net` parameter.
- The normalisation statistics and the normalisation of the conditions
  (random sampling, mean, standard deviation). The normalised conditions are
  given as reals.
- The analytical Floris oracle, `time.time()` timings, the error metric and
  the `(final, timings, error)` return of the timing mode: an external
  library, the wall clock and floating-point rounding.
- Plotting and printing with matplotlib, and `saveWeights` (file I/O).
- Floating-point arithmetic: values are reals. NaN compares unequal in
  `final == ws` and `neural > ws * fltr`, and that behaviour is not modelled.
- The loop bound `int(dimx*dimy/(dim1*dim2))` uses float division followed by
  truncation. The model uses exact integer division, which agrees whenever
  the blocks divide the grid evenly.
- The block tiler with block sizes that do not divide the grid, where numpy
  truncates slices. `TilingFits` requires even division.
- Contour.ValidConfig: an `inputs` value outside 1 to 4 leaves the input
  tensor undefined. With `rows > 0`, the first call of `forward` fails. With
  `rows == 0`, `forward` is never called and the source returns the
  zero-filled grid after the filter and the replacement. The model requires
  1 to 4 in both cases, so it leaves out that `rows == 0` run.
- Contour.ValidConfig: patches that overflow the grid with `out_piece != 1`
  make numpy's slice assignment raise a broadcasting error. The model
  requires `FillFits` instead of modelling that failure. Overflowing
  single-value patches are modelled: they are dropped.
- Layout.TilingFits: `dim1 == 0` or `dim2 == 0` makes the iteration count
  raise `ZeroDivisionError`. The model requires positive block sizes instead
  of modelling that failure.
- Contour.ReplaceInlet: the numpy view shared between `neural` and `alpha.T`
  or the reshaped buffer is not modelled. The grid handed to the replacement
  is a value, so the copy taken by `np.copy` is the fresh array the method
  returns.
