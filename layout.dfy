/** The three addressing policies that turn the flat buffer into a 2D wake
    grid: row-major reshape, column-major reshape followed by a transpose,
    and the block tiler, which places dim1 x dim2 blocks left to right, then
    top to bottom, into a dimy x dimx array and returns its transpose. */
module Layout {
  import opened Arith
  import opened Buffer

  /** `g` has `h` rows of `w` values. */
  predicate IsGrid(g: seq<seq<real>>, h: nat, w: nat)
  {
    |g| == h && forall i :: 0 <= i < h ==> |g[i]| == w
  }

  /** The contents of a 2D array, row by row. */
  function Cells(a: array2<real>): (g: seq<seq<real>>)
    reads a
    ensures IsGrid(g, a.Length0, a.Length1)
    ensures forall i, j :: 0 <= i < a.Length0 && 0 <= j < a.Length1 ==> g[i][j] == a[i, j]
  {
    seq(a.Length0, i requires 0 <= i < a.Length0 reads a =>
      seq(a.Length1, j requires 0 <= j < a.Length1 reads a => a[i, j]))
  }

  /** numpy's `.T` on a grid whose rows are `w` wide. */
  function Transpose(g: seq<seq<real>>, w: nat): (t: seq<seq<real>>)
    requires forall r :: 0 <= r < |g| ==> |g[r]| == w
    ensures IsGrid(t, w, |g|)
    ensures forall c, r :: 0 <= c < w && 0 <= r < |g| ==> t[c][r] == g[r][c]
  {
    seq(w, c requires 0 <= c < w => seq(|g|, r requires 0 <= r < |g| => g[r][c]))
  }

  /** Transposing twice gives the grid back. */
  lemma TransposeTwice(g: seq<seq<real>>, h: nat, w: nat)
    requires IsGrid(g, h, w)
    ensures Transpose(Transpose(g, w), h) == g
  {
    var t := Transpose(Transpose(g, w), h);
    forall i | 0 <= i < h ensures t[i] == g[i] {}
  }

  /** Row `i` of the h x w reshape of `buf`: the `w` values from position i * w on. */
  function Row(buf: seq<real>, h: nat, w: nat, i: nat): (s: seq<real>)
    requires |buf| == h * w && i < h
    ensures |s| == w
    ensures forall j :: 0 <= j < w ==> FlatIndex(i, j, w) < |buf| && s[j] == buf[FlatIndex(i, j, w)]
  {
    RowBounds(i, h, w);
    buf[i * w .. i * w + w]
  }

  /** numpy's `reshape(buf, (h, w))`: `h` consecutive rows of `w` values. */
  function RowMajor(buf: seq<real>, h: nat, w: nat): (g: seq<seq<real>>)
    requires |buf| == h * w
    ensures IsGrid(g, h, w)
  {
    seq(h, i requires 0 <= i < h => Row(buf, h, w, i))
  }

  /** Row-major assembly: cell (i, j) is buffer value i * w + j. */
  lemma RowMajorAt(buf: seq<real>, h: nat, w: nat)
    requires |buf| == h * w
    ensures forall i, j :: 0 <= i < h && 0 <= j < w ==>
      FlatIndex(i, j, w) < |buf| && RowMajor(buf, h, w)[i][j] == buf[FlatIndex(i, j, w)]
  {
    forall i, j | 0 <= i < h && 0 <= j < w
      ensures FlatIndex(i, j, w) < |buf| && RowMajor(buf, h, w)[i][j] == buf[FlatIndex(i, j, w)]
    {
      assert RowMajor(buf, h, w)[i] == Row(buf, h, w, i);
    }
  }

  /** Flattening a row-major grid gives back the buffer it was reshaped from. */
  lemma RowMajorFlatten(buf: seq<real>, h: nat, w: nat)
    requires |buf| == h * w
    ensures Concat(RowMajor(buf, h, w)) == buf
  {
    var g := RowMajor(buf, h, w);
    ConcatLength(g, w);
    RowMajorAt(buf, h, w);
    forall k | 0 <= k < |buf| ensures Concat(g)[k] == buf[k] {
      PositiveFactor(h, w);
      QuotientBound(k, w, h);
      ConcatAt(g, w, k / w, k % w);
    }
  }

  /** Reshaping the flattening of an h x w grid gives back the grid. */
  lemma FlattenRowMajor(g: seq<seq<real>>, h: nat, w: nat)
    requires IsGrid(g, h, w)
    ensures |Concat(g)| == h * w && RowMajor(Concat(g), h, w) == g
  {
    ConcatLength(g, w);
    var r := RowMajor(Concat(g), h, w);
    RowMajorAt(Concat(g), h, w);
    forall i | 0 <= i < h ensures r[i] == g[i] {
      forall j | 0 <= j < w ensures r[i][j] == g[i][j] {
        ConcatAt(g, w, i, j);
      }
    }
  }

  /** numpy's `reshape(buf, (dimx, dimy)).T`. */
  function ColumnMajor(buf: seq<real>, dimx: nat, dimy: nat): (g: seq<seq<real>>)
    requires |buf| == dimx * dimy
    ensures IsGrid(g, dimy, dimx)
  {
    Transpose(RowMajor(buf, dimx, dimy), dimy)
  }

  /** Column-major assembly: cell (i, j) is buffer value j * dimy + i, so the
      buffer runs down the columns of the grid. */
  lemma ColumnMajorAt(buf: seq<real>, dimx: nat, dimy: nat)
    requires |buf| == dimx * dimy
    ensures forall i, j :: 0 <= i < dimy && 0 <= j < dimx ==>
      FlatIndex(j, i, dimy) < |buf| && ColumnMajor(buf, dimx, dimy)[i][j] == buf[FlatIndex(j, i, dimy)]
  {
    RowMajorAt(buf, dimx, dimy);
  }

  /** Reading a column-major grid column by column gives back the buffer. */
  lemma ColumnMajorFlatten(buf: seq<real>, dimx: nat, dimy: nat)
    requires |buf| == dimx * dimy
    ensures Concat(Transpose(ColumnMajor(buf, dimx, dimy), dimx)) == buf
  {
    TransposeTwice(RowMajor(buf, dimx, dimy), dimx, dimy);
    RowMajorFlatten(buf, dimx, dimy);
  }

  // ---------------------------------------------------------------- block tiler

  /** The tiler's configuration: positive block sizes that divide the grid evenly. */
  predicate TilingFits(dimx: nat, dimy: nat, dim1: nat, dim2: nat)
  {
    0 < dim1 && 0 < dim2 && dimx % dim2 == 0 && dimy % dim1 == 0
  }

  /** Number of the block that covers cell (r, c) of the dimy x dimx array,
      counting blocks left to right, then top to bottom. */
  function BlockOf(r: nat, c: nat, dimx: nat, dim1: nat, dim2: nat): (k: int)
    requires 0 < dim1 && 0 < dim2
    ensures 0 <= k
  {
    DivMod(r, dim1);
    DivMod(dimx, dim2);
    DivMod(c, dim2);
    MulMonotone(0, r / dim1, dimx / dim2);
    (r / dim1) * (dimx / dim2) + c / dim2
  }

  /** Buffer position written into cell (r, c): the start of its block plus
      the cell's row-major position inside the dim1 x dim2 block, so inside
      the block's own slice of the buffer. */
  function BlockIndex(r: nat, c: nat, dimx: nat, dim1: nat, dim2: nat): (idx: int)
    requires 0 < dim1 && 0 < dim2
    ensures BlockOf(r, c, dimx, dim1, dim2) * (dim1 * dim2) <= idx
    ensures idx < BlockOf(r, c, dimx, dim1, dim2) * (dim1 * dim2) + dim1 * dim2
  {
    DivMod(r, dim1);
    DivMod(c, dim2);
    FlatIndexBound(r % dim1, c % dim2, dim1, dim2);
    BlockOf(r, c, dimx, dim1, dim2) * (dim1 * dim2) + FlatIndex(r % dim1, c % dim2, dim2)
  }

  /** Cell (row, column) of the dimy x dimx array that receives buffer position k. */
  function BlockCell(k: nat, dimx: nat, dimy: nat, dim1: nat, dim2: nat): (rc: (int, int))
    requires TilingFits(dimx, dimy, dim1, dim2) && k < dimx * dimy
  {
    BlockCounts(dimx, dimy, dim1, dim2);
    MulPos(dim1, dim2);
    var nb := dimx / dim2;
    var blk, off := k / (dim1 * dim2), k % (dim1 * dim2);
    ((blk / nb) * dim1 + off / dim2, (blk % nb) * dim2 + off % dim2)
  }

  /** Evenly divided, the grid holds (dimy / dim1) * (dimx / dim2) blocks of dim1 * dim2 cells. */
  lemma BlockCounts(dimx: nat, dimy: nat, dim1: nat, dim2: nat)
    requires TilingFits(dimx, dimy, dim1, dim2)
    ensures dimx == (dimx / dim2) * dim2 && dimy == (dimy / dim1) * dim1
    ensures dimx * dimy == ((dimy / dim1) * (dimx / dim2)) * (dim1 * dim2)
    ensures 0 < dimx ==> 0 < dimx / dim2
  {
    var nb, mb := dimx / dim2, dimy / dim1;
    assert dimx * dimy == (nb * dim2) * (mb * dim1);
  }

  /** Every cell lies in one of the (dimy / dim1) * (dimx / dim2) blocks and
      reads a position inside the buffer. */
  lemma BlockIndexInRange(r: nat, c: nat, dimx: nat, dimy: nat, dim1: nat, dim2: nat)
    requires TilingFits(dimx, dimy, dim1, dim2) && r < dimy && c < dimx
    ensures 0 <= BlockOf(r, c, dimx, dim1, dim2) < (dimy / dim1) * (dimx / dim2)
    ensures 0 <= BlockIndex(r, c, dimx, dim1, dim2) < dimx * dimy
  {
    var nb, mb, dd := dimx / dim2, dimy / dim1, dim1 * dim2;
    BlockCounts(dimx, dimy, dim1, dim2);
    QuotientBound(r, dim1, mb);
    QuotientBound(c, dim2, nb);
    var q, p := r / dim1, c / dim2;
    var blk := BlockOf(r, c, dimx, dim1, dim2);
    assert blk == q * nb + p;
    RowBounds(q, mb, nb);
    assert 0 <= blk < mb * nb;
    FlatIndexBound(r % dim1, c % dim2, dim1, dim2);
    RowBounds(blk, mb * nb, dd);
  }

  /** Buffer position k lands in a cell of the array, and that cell reads k back:
      every buffer value is placed. */
  lemma BlockCellIndex(k: nat, dimx: nat, dimy: nat, dim1: nat, dim2: nat)
    requires TilingFits(dimx, dimy, dim1, dim2) && k < dimx * dimy
    ensures var (r, c) := BlockCell(k, dimx, dimy, dim1, dim2);
      0 <= r < dimy && 0 <= c < dimx && BlockIndex(r, c, dimx, dim1, dim2) == k
  {
    var nb, mb, dd := dimx / dim2, dimy / dim1, dim1 * dim2;
    BlockCounts(dimx, dimy, dim1, dim2);
    MulPos(dim1, dim2);
    QuotientBound(k, dd, mb * nb);
    var blk, off := k / dd, k % dd;
    QuotientBound(off, dim2, dim1);
    var a, b := off / dim2, off % dim2;
    QuotientBound(blk, nb, mb);
    var q, p := blk / nb, blk % nb;
    var (r, c) := BlockCell(k, dimx, dimy, dim1, dim2);
    assert r == q * dim1 + a && c == p * dim2 + b;
    RowBounds(q, mb, dim1);
    RowBounds(p, nb, dim2);
    DivModUnique(r, dim1, q, a);
    DivModUnique(c, dim2, p, b);
    assert BlockOf(r, c, dimx, dim1, dim2) == blk;
    assert FlatIndex(r % dim1, c % dim2, dim2) == off;
  }

  /** The cell that reads buffer position BlockIndex(r, c) is (r, c) itself:
      no two cells read the same position, so each cell is written once. */
  lemma BlockIndexCell(r: nat, c: nat, dimx: nat, dimy: nat, dim1: nat, dim2: nat)
    requires TilingFits(dimx, dimy, dim1, dim2) && r < dimy && c < dimx
    ensures 0 <= BlockIndex(r, c, dimx, dim1, dim2) < dimx * dimy
    ensures BlockCell(BlockIndex(r, c, dimx, dim1, dim2), dimx, dimy, dim1, dim2) == (r, c)
  {
    BlockIndexInRange(r, c, dimx, dimy, dim1, dim2);
    BlockCounts(dimx, dimy, dim1, dim2);
    var nb, mb, dd := dimx / dim2, dimy / dim1, dim1 * dim2;
    QuotientBound(r, dim1, mb);
    QuotientBound(c, dim2, nb);
    var q, p, a, b := r / dim1, c / dim2, r % dim1, c % dim2;
    var blk := BlockOf(r, c, dimx, dim1, dim2);
    var off := FlatIndex(a, b, dim2);
    FlatIndexBound(a, b, dim1, dim2);
    DivModUnique(BlockIndex(r, c, dimx, dim1, dim2), dd, blk, off);
    DivModUnique(off, dim2, a, b);
    DivModUnique(blk, nb, q, p);
  }

  /** Two cells that read the same buffer position are the same cell. */
  lemma BlockIndexInjective(r: nat, c: nat, r': nat, c': nat, dimx: nat, dimy: nat, dim1: nat, dim2: nat)
    requires TilingFits(dimx, dimy, dim1, dim2)
    requires r < dimy && c < dimx && r' < dimy && c' < dimx
    requires BlockIndex(r, c, dimx, dim1, dim2) == BlockIndex(r', c', dimx, dim1, dim2)
    ensures r == r' && c == c'
  {
    BlockIndexCell(r, c, dimx, dimy, dim1, dim2);
    BlockIndexCell(r', c', dimx, dimy, dim1, dim2);
  }

  /** A cell inside the rectangle of block k belongs to block k and reads the
      block's start plus its row-major offset inside the block. */
  lemma InsideBlock(k: nat, r: nat, c: nat, dimx: nat, dim1: nat, dim2: nat)
    requires 0 < dim1 && 0 < dim2 && 0 < dimx / dim2
    requires (k / (dimx / dim2)) * dim1 <= r < (k / (dimx / dim2)) * dim1 + dim1
    requires (k % (dimx / dim2)) * dim2 <= c < (k % (dimx / dim2)) * dim2 + dim2
    ensures BlockOf(r, c, dimx, dim1, dim2) == k
    ensures BlockIndex(r, c, dimx, dim1, dim2)
      == k * (dim1 * dim2) + FlatIndex(r - (k / (dimx / dim2)) * dim1, c - (k % (dimx / dim2)) * dim2, dim2)
  {
    var nb := dimx / dim2;
    var q, p := k / nb, k % nb;
    DivMod(k, nb);
    DivModUnique(r, dim1, q, r - q * dim1);
    DivModUnique(c, dim2, p, c - p * dim2);
    assert BlockOf(r, c, dimx, dim1, dim2) == q * nb + p;
  }

  /** A cell of block k lies inside block k's rectangle. */
  lemma BlockRectangle(k: nat, r: nat, c: nat, dimx: nat, dim1: nat, dim2: nat)
    requires 0 < dim1 && 0 < dim2 && dimx % dim2 == 0 && c < dimx
    requires BlockOf(r, c, dimx, dim1, dim2) == k
    ensures (k / (dimx / dim2)) * dim1 <= r < (k / (dimx / dim2)) * dim1 + dim1
    ensures (k % (dimx / dim2)) * dim2 <= c < (k % (dimx / dim2)) * dim2 + dim2
  {
    var nb := dimx / dim2;
    var q, p := r / dim1, c / dim2;
    DivMod(r, dim1);
    DivMod(dimx, dim2);
    QuotientBound(c, dim2, nb);
    assert k == q * nb + p;
    DivModUnique(k, nb, q, p);
  }

  /** Block k belongs to block k's rectangle and nothing else does: with the
      tiler's counters ii == (k / nb) * dim1 and jj == (k % nb) * dim2, nb the
      number of blocks per row, block k covers exactly rows ii .. ii+dim1-1 and
      columns jj .. jj+dim2-1, and cell (ii + a, jj + b) reads buffer position
      k * dim1 * dim2 + a * dim2 + b. */
  lemma BlockPlacement(k: nat, r: nat, c: nat, dimx: nat, dimy: nat, dim1: nat, dim2: nat)
    requires TilingFits(dimx, dimy, dim1, dim2) && 0 < dimx && c < dimx
    ensures var nb := dimx / dim2;
      var ii, jj := (k / nb) * dim1, (k % nb) * dim2;
      (BlockOf(r, c, dimx, dim1, dim2) == k <==> ii <= r < ii + dim1 && jj <= c < jj + dim2)
      && (BlockOf(r, c, dimx, dim1, dim2) == k ==>
            BlockIndex(r, c, dimx, dim1, dim2) == k * (dim1 * dim2) + FlatIndex(r - ii, c - jj, dim2))
  {
    BlockCounts(dimx, dimy, dim1, dim2);
    var nb := dimx / dim2;
    var ii, jj := (k / nb) * dim1, (k % nb) * dim2;
    if ii <= r < ii + dim1 && jj <= c < jj + dim2 {
      InsideBlock(k, r, c, dimx, dim1, dim2);
    }
    if BlockOf(r, c, dimx, dim1, dim2) == k {
      BlockRectangle(k, r, c, dimx, dim1, dim2);
      InsideBlock(k, r, c, dimx, dim1, dim2);
    }
  }

  /** The tiler's counters after block k: jj moves right by dim2 and, on
      reaching the right edge, wraps to 0 while ii moves down by dim1; either
      way they become the counters of block k + 1. */
  lemma CounterAdvance(k: nat, dimx: nat, dim1: nat, dim2: nat)
    requires 0 < dim1 && 0 < dim2 && dimx % dim2 == 0 && 0 < dimx / dim2
    ensures var nb := dimx / dim2;
      var jj := (k % nb) * dim2 + dim2;
      (jj >= dimx ==> (k + 1) % nb == 0 && ((k + 1) / nb) * dim1 == (k / nb) * dim1 + dim1)
      && (jj < dimx ==> ((k + 1) % nb) * dim2 == jj && ((k + 1) / nb) * dim1 == (k / nb) * dim1)
  {
    var nb := dimx / dim2;
    DivMod(dimx, dim2);
    DivMod(k, nb);
    DivModStep(k, nb);
    if k % nb + 1 < nb {
      RowBounds(k % nb + 1, nb, dim2);
    }
  }

  /** While k is below the number of blocks, block k fits inside the array
      and inside the buffer. */
  lemma BlockInBounds(k: nat, dimx: nat, dimy: nat, dim1: nat, dim2: nat)
    requires TilingFits(dimx, dimy, dim1, dim2)
    requires k < (dimy / dim1) * (dimx / dim2)
    ensures 0 < dimx / dim2
    ensures (k / (dimx / dim2)) * dim1 + dim1 <= dimy
    ensures (k % (dimx / dim2)) * dim2 + dim2 <= dimx
    ensures 0 <= k * (dim1 * dim2) && k * (dim1 * dim2) + dim1 * dim2 <= dimx * dimy
  {
    var nb, mb := dimx / dim2, dimy / dim1;
    BlockCounts(dimx, dimy, dim1, dim2);
    assert 0 < nb;
    QuotientBound(k, nb, mb);
    RowBounds(k / nb, mb, dim1);
    RowBounds(k % nb, nb, dim2);
    RowBounds(k, mb * nb, dim1 * dim2);
  }

  /** The value the tiler leaves in cell (r, c) of the dimy x dimx array. */
  function Placed(buf: seq<real>, dimx: nat, dimy: nat, dim1: nat, dim2: nat, r: nat, c: nat): real
    requires TilingFits(dimx, dimy, dim1, dim2) && |buf| == dimx * dimy && r < dimy && c < dimx
  {
    BlockIndexInRange(r, c, dimx, dimy, dim1, dim2);
    buf[BlockIndex(r, c, dimx, dim1, dim2)]
  }

  /** The dimy x dimx array `alpha` once every block is placed. */
  function BlockGrid(buf: seq<real>, dimx: nat, dimy: nat, dim1: nat, dim2: nat): (g: seq<seq<real>>)
    requires TilingFits(dimx, dimy, dim1, dim2) && |buf| == dimx * dimy
    ensures IsGrid(g, dimy, dimx)
  {
    seq(dimy, r requires 0 <= r < dimy =>
      seq(dimx, c requires 0 <= c < dimx => Placed(buf, dimx, dimy, dim1, dim2, r, c)))
  }

  /** Block-tiled assembly: the transpose of the filled array, a dimx x dimy grid. */
  function BlockTiled(buf: seq<real>, dimx: nat, dimy: nat, dim1: nat, dim2: nat): (g: seq<seq<real>>)
    requires TilingFits(dimx, dimy, dim1, dim2) && |buf| == dimx * dimy
    ensures IsGrid(g, dimx, dimy)
  {
    Transpose(BlockGrid(buf, dimx, dimy, dim1, dim2), dimx)
  }

  /** Block-tiled result: cell [c][r] holds the buffer value that block
      BlockOf(r, c) placed at row r, column c of the array; each buffer value
      lands in exactly one cell (BlockCellIndex, BlockIndexCell). */
  lemma BlockTiledAt(buf: seq<real>, dimx: nat, dimy: nat, dim1: nat, dim2: nat)
    requires TilingFits(dimx, dimy, dim1, dim2) && |buf| == dimx * dimy
    ensures forall c, r :: 0 <= c < dimx && 0 <= r < dimy ==>
      0 <= BlockIndex(r, c, dimx, dim1, dim2) < |buf| &&
      BlockTiled(buf, dimx, dimy, dim1, dim2)[c][r] == buf[BlockIndex(r, c, dimx, dim1, dim2)]
  {
    forall c, r | 0 <= c < dimx && 0 <= r < dimy
      ensures 0 <= BlockIndex(r, c, dimx, dim1, dim2) < |buf|
    {
      BlockIndexInRange(r, c, dimx, dimy, dim1, dim2);
    }
  }

  /** A single block as large as the grid: the tiler returns the transpose of
      the row-major grid, which is the column-major grid when the grid is square. */
  lemma WholeGridTile(buf: seq<real>, dimx: nat, dimy: nat)
    requires 0 < dimx && 0 < dimy && |buf| == dimx * dimy
    ensures TilingFits(dimx, dimy, dimy, dimx)
    ensures BlockTiled(buf, dimx, dimy, dimy, dimx) == Transpose(RowMajor(buf, dimy, dimx), dimx)
    ensures dimx == dimy ==> BlockTiled(buf, dimx, dimy, dimy, dimx) == ColumnMajor(buf, dimx, dimy)
  {
    assert dimx % dimx == 0 && dimy % dimy == 0;
    var g := BlockGrid(buf, dimx, dimy, dimy, dimx);
    var rm := RowMajor(buf, dimy, dimx);
    RowMajorAt(buf, dimy, dimx);
    forall r | 0 <= r < dimy ensures g[r] == rm[r] {
      forall c | 0 <= c < dimx ensures g[r][c] == rm[r][c] {
        DivModUnique(r, dimy, 0, r);
        DivModUnique(c, dimx, 0, c);
        DivModUnique(dimx, dimx, 1, 0);
        assert BlockOf(r, c, dimx, dimy, dimx) == 0;
        assert BlockIndex(r, c, dimx, dimy, dimx) == FlatIndex(r, c, dimx);
      }
    }
    assert g == rm;
    if dimx == dimy {
      RowMajorAt(buf, dimx, dimy);
    }
  }

  /** Value (a, b) of a block of dim1 * dim2 buffer values reshaped to (dim1, dim2). */
  function BlockValue(block: seq<real>, dim1: nat, dim2: nat, a: nat, b: nat): real
    requires |block| == dim1 * dim2 && a < dim1 && b < dim2
  {
    FlatIndexBound(a, b, dim1, dim2);
    block[FlatIndex(a, b, dim2)]
  }

  /** Writes a block of dim1 * dim2 buffer values, reshaped to (dim1, dim2),
      into rows ii .. ii+dim1-1 and columns jj .. jj+dim2-1 of `alpha` (numpy's
      slice assignment); no other cell changes. */
  method WriteBlock(alpha: array2<real>, block: seq<real>, ii: nat, jj: nat, dim1: nat, dim2: nat)
    requires ii + dim1 <= alpha.Length0 && jj + dim2 <= alpha.Length1
    requires |block| == dim1 * dim2
    modifies alpha
    ensures forall r, c :: 0 <= r < alpha.Length0 && 0 <= c < alpha.Length1 ==>
      alpha[r, c] == if ii <= r < ii + dim1 && jj <= c < jj + dim2
                     then BlockValue(block, dim1, dim2, r - ii, c - jj)
                     else old(alpha[r, c])
  {
    forall r, c | ii <= r < ii + dim1 && jj <= c < jj + dim2 {
      alpha[r, c] := BlockValue(block, dim1, dim2, r - ii, c - jj);
    }
  }

  /** Once every block below the block count is placed, the array is BlockGrid. */
  lemma AllBlocksPlaced(alpha: array2<real>, buf: seq<real>, dimx: nat, dimy: nat, dim1: nat, dim2: nat)
    requires TilingFits(dimx, dimy, dim1, dim2) && |buf| == dimx * dimy
    requires alpha.Length0 == dimy && alpha.Length1 == dimx
    requires forall r, c ::
      0 <= r < dimy && 0 <= c < dimx && BlockOf(r, c, dimx, dim1, dim2) < (dimy / dim1) * (dimx / dim2)
      ==> alpha[r, c] == Placed(buf, dimx, dimy, dim1, dim2, r, c)
    ensures Cells(alpha) == BlockGrid(buf, dimx, dimy, dim1, dim2)
  {
    var want := BlockGrid(buf, dimx, dimy, dim1, dim2);
    forall r | 0 <= r < dimy ensures Cells(alpha)[r] == want[r] {
      forall c | 0 <= c < dimx ensures Cells(alpha)[r][c] == want[r][c] {
        BlockIndexInRange(r, c, dimx, dimy, dim1, dim2);
      }
    }
  }

  /** One step of the tiler: block k, the buffer's values k * dim1 * dim2 ..
      (k + 1) * dim1 * dim2 - 1, is written at the counters (ii, jj) of block k,
      after which every cell of blocks 0 .. k holds its placed value and every
      cell of a later block is left as it was. */
  method PlaceBlock(alpha: array2<real>, buf: seq<real>, k: nat, ii: nat, jj: nat,
                    dimx: nat, dimy: nat, dim1: nat, dim2: nat)
    requires TilingFits(dimx, dimy, dim1, dim2) && |buf| == dimx * dimy
    requires alpha.Length0 == dimy && alpha.Length1 == dimx
    requires k < (dimy / dim1) * (dimx / dim2)
    requires 0 < dimx / dim2 ==> ii == (k / (dimx / dim2)) * dim1 && jj == (k % (dimx / dim2)) * dim2
    requires forall r, c :: 0 <= r < dimy && 0 <= c < dimx && BlockOf(r, c, dimx, dim1, dim2) < k ==>
      alpha[r, c] == Placed(buf, dimx, dimy, dim1, dim2, r, c)
    modifies alpha
    ensures forall r, c :: 0 <= r < dimy && 0 <= c < dimx && BlockOf(r, c, dimx, dim1, dim2) < k + 1 ==>
      alpha[r, c] == Placed(buf, dimx, dimy, dim1, dim2, r, c)
    ensures forall r, c :: 0 <= r < dimy && 0 <= c < dimx && k < BlockOf(r, c, dimx, dim1, dim2) ==>
      alpha[r, c] == old(alpha[r, c])
  {
    BlockInBounds(k, dimx, dimy, dim1, dim2);
    var block := buf[k * (dim1 * dim2) .. k * (dim1 * dim2) + dim1 * dim2];
    WriteBlock(alpha, block, ii, jj, dim1, dim2);
    forall r, c | 0 <= r < dimy && 0 <= c < dimx && BlockOf(r, c, dimx, dim1, dim2) < k + 1
      ensures alpha[r, c] == Placed(buf, dimx, dimy, dim1, dim2, r, c)
    {
      BlockPlacement(k, r, c, dimx, dimy, dim1, dim2);
      if ii <= r < ii + dim1 && jj <= c < jj + dim2 {
        FlatIndexBound(r - ii, c - jj, dim1, dim2);
      }
    }
    forall r, c | 0 <= r < dimy && 0 <= c < dimx && k < BlockOf(r, c, dimx, dim1, dim2)
      ensures alpha[r, c] == old(alpha[r, c])
    {
      BlockPlacement(k, r, c, dimx, dimy, dim1, dim2);
    }
  }

  /** The tiler's iteration count is the number of blocks. */
  lemma TilerStart(dimx: nat, dimy: nat, dim1: nat, dim2: nat)
    requires TilingFits(dimx, dimy, dim1, dim2)
    ensures (dimx * dimy) / (dim1 * dim2) == (dimy / dim1) * (dimx / dim2)
  {
    DivOfProducts(dimy, dimx, dim1, dim2);
    assert dimy * dimx == dimx * dimy;
  }

  /** The counter update after block k: jj moves right by dim2 and, on
      reaching the right edge, wraps to 0 while ii moves down by dim1. */
  method AdvanceCounters(k: nat, ii: nat, jj: nat, dimx: nat, dim1: nat, dim2: nat)
    returns (ii': nat, jj': nat)
    requires 0 < dim1 && 0 < dim2 && dimx % dim2 == 0 && 0 < dimx / dim2
    requires ii == (k / (dimx / dim2)) * dim1 && jj == (k % (dimx / dim2)) * dim2
    ensures ii' == ((k + 1) / (dimx / dim2)) * dim1 && jj' == ((k + 1) % (dimx / dim2)) * dim2
  {
    CounterAdvance(k, dimx, dim1, dim2);
    ii', jj' := ii, jj + dim2;
    if jj' >= dimx {
      jj' := 0;
      ii' := ii + dim1;
    }
  }

  /** The block tiler: a zero dimy x dimx array receives block k, k = 0, 1, ...,
      at the running counters (ii, jj), which advance by dim2 columns and wrap to
      the next dim1 rows at the right edge; the result is the array's transpose. */
  method AssembleBlocks(neural: array<real>, dimx: nat, dimy: nat, dim1: nat, dim2: nat)
    returns (grid: seq<seq<real>>)
    requires TilingFits(dimx, dimy, dim1, dim2) && neural.Length == dimx * dimy
    ensures grid == BlockTiled(neural[..], dimx, dimy, dim1, dim2)
  {
    var jj: nat, ii: nat := 0, 0;
    var alpha := new real[dimy, dimx]((_, _) => 0.0);
    var buf := neural[..];
    var total := (dimx * dimy) / (dim1 * dim2);
    TilerStart(dimx, dimy, dim1, dim2);
    if 0 < dimx / dim2 {
      DivModUnique(0, dimx / dim2, 0, 0);
    }
    var k := 0;
    while k < total
      invariant 0 <= k <= total
      invariant 0 < dimx / dim2 ==> ii == (k / (dimx / dim2)) * dim1 && jj == (k % (dimx / dim2)) * dim2
      invariant forall r, c :: 0 <= r < dimy && 0 <= c < dimx && BlockOf(r, c, dimx, dim1, dim2) < k ==>
        alpha[r, c] == Placed(buf, dimx, dimy, dim1, dim2, r, c)
      invariant forall r, c :: 0 <= r < dimy && 0 <= c < dimx && k <= BlockOf(r, c, dimx, dim1, dim2) ==>
        alpha[r, c] == 0.0
    {
      BlockInBounds(k, dimx, dimy, dim1, dim2);
      PlaceBlock(alpha, buf, k, ii, jj, dimx, dimy, dim1, dim2);
      ii, jj := AdvanceCounters(k, ii, jj, dimx, dim1, dim2);
      k := k + 1;
    }
    AllBlocksPlaced(alpha, buf, dimx, dimy, dim1, dim2);
    grid := Transpose(Cells(alpha), dimx);
  }
}
