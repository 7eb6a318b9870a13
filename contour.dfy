/** WakeNet.CompareContour after the network has run: the condition vector
    handed to every sub-network, the flat buffer of their patches, the
    background filter, the grid assembly chosen by the configuration, and the
    copy of the grid in which the turbine's inlet speed is replaced by the
    farm's free-stream speed. */
module Contour {
  import opened Arith
  import opened Buffer
  import opened Layout

  datatype Option<T> = None | Some(value: T)

  /** The settings CompareContour reads from the configuration module. */
  datatype Config = Config(
    inputs: int,    // number of normalised conditions fed to the network
    rows: nat,      // number of sub-networks
    outPiece: nat,  // values per sub-network patch
    dimx: nat,      // grid width
    dimy: nat,      // grid height
    cubes: int,     // 1 selects the block tiler
    dim1: nat,      // block height
    dim2: nat,      // block width
    rowMajor: int,  // 0 selects column-major assembly (when cubes != 1)
    fltr: real)     // background filter ratio; 1.0 or more switches the filter off

  /** What the configuration must satisfy for CompareContour to run: a known
      number of inputs (so that there is an input tensor), patches that numpy
      can write into the grid's buffer, and positive blocks that divide the
      grid evenly when the tiler is selected. */
  predicate ValidConfig(cfg: Config): (ok: bool)
    ensures ok ==> forall speed, ti, yw, hb :: InputVector(cfg.inputs, speed, ti, yw, hb).Some?
  {
    && 1 <= cfg.inputs <= 4
    && FillFits(cfg.rows, cfg.outPiece, cfg.dimx * cfg.dimy)
    && (cfg.cubes == 1 ==> TilingFits(cfg.dimx, cfg.dimy, cfg.dim1, cfg.dim2))
  }

  /** The input tensor: the first `inputs` of the normalised speed, turbulence
      intensity, yaw and hub height; no tensor for any other count. */
  function InputVector(inputs: int, speed: real, ti: real, yw: real, hb: real): (v: Option<seq<real>>)
    ensures v.Some? <==> 1 <= inputs <= 4
    ensures v.Some? ==> v.value == [speed, ti, yw, hb][..inputs]
  {
    if inputs == 1 then Some([speed])
    else if inputs == 2 then Some([speed, ti])
    else if inputs == 3 then Some([speed, ti, yw])
    else if inputs == 4 then Some([speed, ti, yw, hb])
    else None
  }

  /** Rows of the assembled grid: the block tiler returns the transpose of a
      dimy x dimx array, the other two policies a dimy x dimx grid. */
  function GridRows(cfg: Config): nat
  {
    if cfg.cubes == 1 then cfg.dimx else cfg.dimy
  }

  function GridCols(cfg: Config): nat
  {
    if cfg.cubes == 1 then cfg.dimy else cfg.dimx
  }

  /** The grid assembled from the flat buffer by the configured policy. */
  function Assemble(cfg: Config, buf: seq<real>): (g: seq<seq<real>>)
    requires ValidConfig(cfg) && |buf| == cfg.dimx * cfg.dimy
    ensures IsGrid(g, GridRows(cfg), GridCols(cfg))
  {
    if cfg.cubes == 1 then BlockTiled(buf, cfg.dimx, cfg.dimy, cfg.dim1, cfg.dim2)
    else if cfg.rowMajor == 0 then ColumnMajor(buf, cfg.dimx, cfg.dimy)
    else RowMajor(buf, cfg.dimy, cfg.dimx)
  }

  /** Buffer position that feeds cell (i, j) of the assembled grid. */
  function SourceIndex(cfg: Config, i: nat, j: nat): int
    requires ValidConfig(cfg)
  {
    if cfg.cubes == 1 then BlockIndex(j, i, cfg.dimx, cfg.dim1, cfg.dim2)
    else if cfg.rowMajor == 0 then FlatIndex(j, i, cfg.dimy)
    else FlatIndex(i, j, cfg.dimx)
  }

  /** Every cell of the assembled grid is the buffer value at its source position. */
  lemma AssembleAt(cfg: Config, buf: seq<real>, i: nat, j: nat)
    requires ValidConfig(cfg) && |buf| == cfg.dimx * cfg.dimy
    requires i < GridRows(cfg) && j < GridCols(cfg)
    ensures 0 <= SourceIndex(cfg, i, j) < |buf|
    ensures Assemble(cfg, buf)[i][j] == buf[SourceIndex(cfg, i, j)]
  {
    if cfg.cubes == 1 {
      BlockTiledAt(buf, cfg.dimx, cfg.dimy, cfg.dim1, cfg.dim2);
    } else if cfg.rowMajor == 0 {
      ColumnMajorAt(buf, cfg.dimx, cfg.dimy);
    } else {
      RowMajorAt(buf, cfg.dimy, cfg.dimx);
    }
  }

  /** The copy of the grid in which every value exactly equal to the inlet
      speed `ws` becomes the free-stream speed `uStream`. */
  function Replaced(g: seq<seq<real>>, ws: real, uStream: real): (f: seq<seq<real>>)
    ensures |f| == |g| && forall i :: 0 <= i < |g| ==> |f[i]| == |g[i]|
  {
    seq(|g|, i requires 0 <= i < |g| =>
      seq(|g[i]|, j requires 0 <= j < |g[i]| => if g[i][j] == ws then uStream else g[i][j]))
  }

  /** Inlet-speed replacement: `final` is a fresh copy of the grid with every
      value equal to ws set to uStream and every other value kept. */
  method ReplaceInlet(neural: seq<seq<real>>, h: nat, w: nat, ws: real, uStream: real)
    returns (final: array2<real>)
    requires IsGrid(neural, h, w)
    ensures fresh(final)
    ensures final.Length0 == h && final.Length1 == w
    ensures forall i, j :: 0 <= i < h && 0 <= j < w ==>
      final[i, j] == (if neural[i][j] == ws then uStream else neural[i][j])
    ensures Cells(final) == Replaced(neural, ws, uStream)
  {
    final := new real[h, w]((i, j) requires 0 <= i < h && 0 <= j < w => neural[i][j]);
    forall i, j | 0 <= i < h && 0 <= j < w && final[i, j] == ws {
      final[i, j] := uStream;
    }
    ghost var want := Replaced(neural, ws, uStream);
    forall i | 0 <= i < h ensures Cells(final)[i] == want[i] {
      assert forall j :: 0 <= j < w ==> Cells(final)[i][j] == want[i][j];
    }
  }

  /** With ws different from uStream, no value equal to ws survives the replacement. */
  lemma ReplacedHasNoInlet(g: seq<seq<real>>, ws: real, uStream: real)
    requires ws != uStream
    ensures forall i, j :: 0 <= i < |g| && 0 <= j < |g[i]| ==> Replaced(g, ws, uStream)[i][j] != ws
  {
  }

  /** A grid without the inlet speed comes out unchanged; a grid made only of
      the inlet speed comes out made only of the free-stream speed. */
  lemma ReplacedExtremes(g: seq<seq<real>>, ws: real, uStream: real)
    ensures (forall i, j :: 0 <= i < |g| && 0 <= j < |g[i]| ==> g[i][j] != ws) ==> Replaced(g, ws, uStream) == g
    ensures (forall i, j :: 0 <= i < |g| && 0 <= j < |g[i]| ==> g[i][j] == ws) ==>
      forall i, j :: 0 <= i < |g| && 0 <= j < |g[i]| ==> Replaced(g, ws, uStream)[i][j] == uStream
  {
    if forall i, j :: 0 <= i < |g| && 0 <= j < |g[i]| ==> g[i][j] != ws {
      forall i | 0 <= i < |g| ensures Replaced(g, ws, uStream)[i] == g[i] {}
    }
  }

  /** What happens to one network output on its way to the returned grid:
      the background filter, then the inlet-speed replacement. */
  function PostProcess(x: real, ws: real, fltr: real, uStream: real): (r: real)
    ensures (fltr < 1.0 && x > ws * fltr) || x == ws ==> r == uStream
    ensures !(fltr < 1.0 && x > ws * fltr) && x != ws ==> r == x
  {
    var y := if fltr < 1.0 && x > ws * fltr then ws else x;
    if y == ws then uStream else y
  }

  /** The grid CompareContour returns (without timings) for the normalised
      conditions and the given network. */
  function Field(cfg: Config, net: Network, speed: real, ti: real, yw: real, hb: real, ws: real, uStream: real)
    : (f: seq<seq<real>>)
    requires ValidConfig(cfg) && PatchesHaveSize(net, cfg.rows, cfg.outPiece)
    ensures IsGrid(f, GridRows(cfg), GridCols(cfg))
  {
    var inpt := InputVector(cfg.inputs, speed, ti, yw, hb).value;
    var buf := Filled(net, inpt, cfg.rows, cfg.outPiece, cfg.dimx * cfg.dimy);
    Replaced(Assemble(cfg, Filtered(buf, ws, cfg.fltr)), ws, uStream)
  }

  /** CompareContour's field assembly: fill the buffer from every sub-network,
      filter it, assemble the grid by the configured policy, and return a copy
      with the inlet speed replaced by the free-stream speed. */
  method CompareContour(cfg: Config, net: Network, speedNorm: real, tiNorm: real, ywNorm: real, hbNorm: real,
                        ws: real, uStream: real)
    returns (final: array2<real>)
    requires ValidConfig(cfg) && PatchesHaveSize(net, cfg.rows, cfg.outPiece)
    ensures fresh(final)
    ensures final.Length0 == GridRows(cfg) && final.Length1 == GridCols(cfg)
    ensures Cells(final) == Field(cfg, net, speedNorm, tiNorm, ywNorm, hbNorm, ws, uStream)
  {
    var inpt := InputVector(cfg.inputs, speedNorm, tiNorm, ywNorm, hbNorm).value;
    var neural := FillBuffer(net, inpt, cfg.rows, cfg.outPiece, cfg.dimx * cfg.dimy);
    ApplyFilter(neural, ws, cfg.fltr);
    var grid: seq<seq<real>>;
    if cfg.cubes == 1 {
      grid := AssembleBlocks(neural, cfg.dimx, cfg.dimy, cfg.dim1, cfg.dim2);
    } else if cfg.rowMajor == 0 {
      grid := ColumnMajor(neural[..], cfg.dimx, cfg.dimy);
    } else {
      grid := RowMajor(neural[..], cfg.dimy, cfg.dimx);
    }
    final := ReplaceInlet(grid, GridRows(cfg), GridCols(cfg), ws, uStream);
  }

  /** The value a buffer position carries before post-processing: the network
      output there, or the fill's zero past the last patch. */
  function SourceValue(cfg: Config, net: Network, inpt: seq<real>, k: int): real
    requires PatchesHaveSize(net, cfg.rows, cfg.outPiece) && 0 <= k
  {
    if k < cfg.rows * cfg.outPiece then PatchValue(net, inpt, cfg.rows, cfg.outPiece, k) else 0.0
  }

  /** A grid cell that holds filtered buffer position k comes out of the
      replacement as PostProcess of the buffer value at k. */
  lemma PostProcessCell(g: seq<seq<real>>, buf: seq<real>, ws: real, fltr: real, uStream: real,
                        i: nat, j: nat, k: nat)
    requires i < |g| && j < |g[i]| && k < |buf|
    requires g[i][j] == Filtered(buf, ws, fltr)[k]
    ensures Replaced(g, ws, uStream)[i][j] == PostProcess(buf[k], ws, fltr, uStream)
  {
  }

  /** End to end: cell (i, j) of the returned grid is the value at its source
      position k (value k % outPiece of sub-network k / outPiece, or zero past
      the last patch), after the filter and the inlet-speed replacement. */
  lemma FieldAt(cfg: Config, net: Network, speed: real, ti: real, yw: real, hb: real, ws: real, uStream: real,
                i: nat, j: nat)
    requires ValidConfig(cfg) && PatchesHaveSize(net, cfg.rows, cfg.outPiece)
    requires i < GridRows(cfg) && j < GridCols(cfg)
    ensures 0 <= SourceIndex(cfg, i, j) < cfg.dimx * cfg.dimy
    ensures Field(cfg, net, speed, ti, yw, hb, ws, uStream)[i][j]
      == PostProcess(SourceValue(cfg, net, InputVector(cfg.inputs, speed, ti, yw, hb).value, SourceIndex(cfg, i, j)),
                     ws, cfg.fltr, uStream)
  {
    var inpt := InputVector(cfg.inputs, speed, ti, yw, hb).value;
    var buf := Filled(net, inpt, cfg.rows, cfg.outPiece, cfg.dimx * cfg.dimy);
    var filtered := Filtered(buf, ws, cfg.fltr);
    var g := Assemble(cfg, filtered);
    assert Field(cfg, net, speed, ti, yw, hb, ws, uStream) == Replaced(g, ws, uStream);
    AssembleAt(cfg, filtered, i, j);
    var k := SourceIndex(cfg, i, j);
    FilledAt(net, inpt, cfg.rows, cfg.outPiece, cfg.dimx * cfg.dimy, k);
    PostProcessCell(g, buf, ws, cfg.fltr, uStream, i, j, k);
  }

  /** Sub-network outputs all above the threshold of an active filter. */
  ghost predicate AllAboveThreshold(net: Network, rows: nat, outPiece: nat, ws: real, fltr: real)
    requires PatchesHaveSize(net, rows, outPiece)
  {
    forall v: seq<real>, ii: int, t: int :: 0 <= ii < rows && 0 <= t < outPiece ==> net(v, ii)[t] > ws * fltr
  }

  /** One cell of the grid when every output is above the threshold of an active filter. */
  lemma BackgroundCell(cfg: Config, net: Network, speed: real, ti: real, yw: real, hb: real,
                       ws: real, uStream: real, i: nat, j: nat)
    requires ValidConfig(cfg) && PatchesHaveSize(net, cfg.rows, cfg.outPiece)
    requires cfg.dimx * cfg.dimy <= cfg.rows * cfg.outPiece
    requires cfg.fltr < 1.0 && AllAboveThreshold(net, cfg.rows, cfg.outPiece, ws, cfg.fltr)
    requires i < GridRows(cfg) && j < GridCols(cfg)
    ensures Field(cfg, net, speed, ti, yw, hb, ws, uStream)[i][j] == uStream
  {
    FieldAt(cfg, net, speed, ti, yw, hb, ws, uStream, i, j);
    var k := SourceIndex(cfg, i, j);
    PositiveFactor(cfg.rows, cfg.outPiece);
    QuotientBound(k, cfg.outPiece, cfg.rows);
  }

  /** When the patches cover the grid, the filter is on and every sub-network
      output exceeds ws * fltr, the whole returned grid is the free-stream speed. */
  lemma FieldAllBackground(cfg: Config, net: Network, speed: real, ti: real, yw: real, hb: real,
                           ws: real, uStream: real)
    requires ValidConfig(cfg) && PatchesHaveSize(net, cfg.rows, cfg.outPiece)
    requires cfg.dimx * cfg.dimy <= cfg.rows * cfg.outPiece
    requires cfg.fltr < 1.0 && AllAboveThreshold(net, cfg.rows, cfg.outPiece, ws, cfg.fltr)
    ensures forall i, j :: 0 <= i < GridRows(cfg) && 0 <= j < GridCols(cfg) ==>
      Field(cfg, net, speed, ti, yw, hb, ws, uStream)[i][j] == uStream
  {
    forall i, j | 0 <= i < GridRows(cfg) && 0 <= j < GridCols(cfg)
      ensures Field(cfg, net, speed, ti, yw, hb, ws, uStream)[i][j] == uStream
    {
      BackgroundCell(cfg, net, speed, ti, yw, hb, ws, uStream, i, j);
    }
  }
}
