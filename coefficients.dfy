/**
 * The DCT coefficient callbacks handed to libjpeg-turbo's lossless
 * transform (`blank_image`, `BlankImage.callback` and `fill_background`),
 * and the small structures built around them.
 *
 * libjpeg-turbo calls a callback with a buffer of `w * h` 16-bit
 * coefficients of one component. The callback views the buffer as `h / 8`
 * rows of `w / 8` blocks of 64 coefficients, block `(y, x)` starting at
 * `(y * (w / 8) + x) * 64`, and coefficient 0 of a block is its DC value.
 */
module Coefficients {
  import opened Wrappers
  import opened Geometry
  import opened PyBytes
  import opened TileGrid

  /** libjpeg-turbo's `tjregion`. */
  datatype CroppingRegion = CroppingRegion(x: int, y: int, w: int, h: int)

  /** `TJXOP_NONE`, the transform that leaves the image as it is. */
  const TjxopNone := 0
  /** `TJXOPT_PERFECT`, refuse a transform that would not be lossless. */
  const TjxoptPerfect := 1

  /** `tjMCUWidth` and `tjMCUHeight`, indexed by subsampling (4:4:4, 4:2:2, 4:2:0, grey, 4:4:0, 4:1:1). */
  const McuWidths: seq<int> := [8, 16, 16, 8, 8, 32]
  const McuHeights: seq<int> := [8, 8, 16, 8, 16, 8]

  /** The rows and columns of 8x8 blocks the buffer is viewed as. */
  datatype BlockGrid = BlockGrid(rows: nat, cols: nat)

  /**
   * `get_np_coeffs`: the `w * h` coefficients as `h // 8` rows of `w // 8`
   * blocks of 64. numpy refuses the shape with `ValueError` unless the two
   * counts agree, which they do exactly when the region is empty or whole
   * blocks in both axes.
   */
  function BlockLayout(region: CroppingRegion): (r: Result<BlockGrid>)
    requires region.w >= 0 && region.h >= 0
    ensures r.Ok? <==> region.w == 0 || region.h == 0 || (region.w % 8 == 0 && region.h % 8 == 0)
    ensures r.Err? ==> r.error == ValueError
    ensures r.Ok? ==> r.value.rows == region.h / 8 && r.value.cols == region.w / 8
    ensures r.Ok? ==> r.value.rows * r.value.cols * 64 == region.w * region.h
  {
    var rows := region.h / 8;
    var cols := region.w / 8;
    LayoutFits(region.w, region.h);
    if rows * cols * 64 == region.w * region.h then Ok(BlockGrid(rows, cols)) else Err(ValueError)
  }

  /** `(h // 8) * (w // 8) * 64 == w * h` exactly when one side is 0 or both are multiples of 8. */
  lemma LayoutFits(w: nat, h: nat)
    ensures (h / 8) * (w / 8) * 64 == w * h <==> w == 0 || h == 0 || (w % 8 == 0 && h % 8 == 0)
  {
    var rows, cols := h / 8, w / 8;
    assert (rows * 8) * (cols * 8) == rows * cols * 64;
    if w > 0 && h > 0 && !(w % 8 == 0 && h % 8 == 0) {
      assert rows * 8 <= h && cols * 8 <= w;
      MulMonotone(rows * 8, h, cols * 8);
      MulMonotone(cols * 8, w, h);
      if w % 8 != 0 {
        assert cols * 8 < w;
        MulMonotone(cols * 8 + 1, w, h);
      } else {
        assert rows * 8 < h;
        MulMonotone(rows * 8 + 1, h, cols * 8);
        assert cols * 8 == w;
      }
    }
  }

  /** The row of the block holding flat coefficient `i`. */
  function BlockRow(i: nat, cols: nat): nat
    requires cols > 0
  {
    (i / 64) / cols
  }

  /** The column of the block holding flat coefficient `i`. */
  function BlockCol(i: nat, cols: nat): nat
    requires cols > 0
  {
    (i / 64) % cols
  }

  /** Coefficient `k` of block `(y, c)` sits at `(y * cols + c) * 64 + k`. */
  lemma FlatIndex(y: nat, c: nat, k: nat, cols: nat)
    requires c < cols && k < 64
    ensures ((y * cols + c) * 64 + k) % 64 == k
    ensures BlockRow((y * cols + c) * 64 + k, cols) == y && BlockCol((y * cols + c) * 64 + k, cols) == c
  {
    var i := (y * cols + c) * 64 + k;
    DivModUnique(i, 64, y * cols + c, k);
    DivModUnique(y * cols + c, cols, y, c);
  }

  /** Every flat index is its block's start plus its place in the block. */
  lemma BlockOfIndex(i: nat, cols: nat)
    requires cols > 0
    ensures i == (BlockRow(i, cols) * cols + BlockCol(i, cols)) * 64 + i % 64
  {
  }

  /** A block inside a grid of `rows` rows starts at least 64 before its end. */
  lemma BlockInside(y: nat, c: nat, rows: nat, cols: nat)
    requires y < rows && c < cols
    ensures (y * cols + c) * 64 + 64 <= rows * cols * 64
  {
    MulMonotone(y + 1, rows, cols);
  }

  /** Every index below `rows * cols * 64` lies in a block of one of the rows. */
  lemma RowInside(i: nat, rows: nat, cols: nat)
    requires cols > 0 && i < rows * cols * 64
    ensures BlockRow(i, cols) < rows
  {
    assert i / 64 < rows * cols;
    if BlockRow(i, cols) >= rows {
      MulMonotone(rows, BlockRow(i, cols), cols);
      BlockOfIndex(i, cols);
    }
  }

  // ------------------------------------------------------- blank_image

  /** The callback data of `blank_image`: the image's subsampling and the DC value to write. */
  datatype BlankStruct = BlankStruct(subsample: int, lum: int)

  /** The transform structure passed to libjpeg-turbo; the address of the C callback is not modelled. */
  datatype BlankTransform = BlankTransform(region: CroppingRegion, op: int, options: int, data: BlankStruct)

  /** `BlankImage.callback_data`. */
  function CallbackData(subsample: int, luminance: int): (d: BlankStruct)
    ensures d.subsample == subsample && d.lum == luminance
  {
    BlankStruct(subsample, luminance)
  }

  /** `BlankImage.transform`: the region, no geometric operation, a perfect transform, and the data. */
  function Transform(region: CroppingRegion, data: BlankStruct): (t: BlankTransform)
    ensures t.op == TjxopNone && t.options == TjxoptPerfect
    ensures t.region == region && t.data == data
  {
    BlankTransform(region, TjxopNone, TjxoptPerfect, data)
  }

  /**
   * `blank_image` and `BlankImage.callback`: every coefficient is zeroed,
   * then coefficient 0 of each block inside the component's MCUs is set to
   * the DC value, which is `lum` for luminance (component 0) and 0 for
   * chroma. So luminance ends with `lum` as the DC of every block and 0
   * elsewhere, chroma all 0; the callback returns 1. A chroma subsampling
   * outside the MCU tables raises `IndexError` after the zeroing.
   */
  method BlankImage(coeffs: array<int>, arrayRegion: CroppingRegion, componentId: int, data: BlankStruct)
    returns (r: Result<int>)
    requires arrayRegion.w >= 0 && arrayRegion.h >= 0 && coeffs.Length == arrayRegion.w * arrayRegion.h
    modifies coeffs
    ensures BlockLayout(arrayRegion).Err? ==> r == Err(ValueError) && coeffs[..] == old(coeffs[..])
    ensures BlockLayout(arrayRegion).Ok? ==>
      (r.Ok? <==> componentId == 0 || -|McuWidths| <= data.subsample < |McuWidths|)
      && (r.Ok? ==> r.value == 1) && (r.Err? ==> r.error == IndexError)
      && forall i :: 0 <= i < coeffs.Length ==>
           coeffs[i] == (if componentId == 0 && i % 64 == 0 then data.lum else 0)
  {
    var layout := BlockLayout(arrayRegion);
    if layout.Err? {
      return Err(ValueError);
    }
    var grid := layout.value;
    var dc, subsampling := if componentId == 0 then data.lum else 0, if componentId == 0 then 0 else data.subsample;
    forall i | 0 <= i < coeffs.Length {
      coeffs[i] := 0;
    }
    var mcuWidth := Index(McuWidths, subsampling);
    if mcuWidth.Err? {
      return Err(IndexError);
    }
    var mcuHeight := Index(McuHeights, subsampling).value;
    var columns := FloorDiv(arrayRegion.w, mcuWidth.value);
    var rows := FloorDiv(arrayRegion.h, mcuHeight);
    assert columns <= grid.cols && rows <= grid.rows by {
      MulMonotone(8, mcuWidth.value, columns);
      MulMonotone(8, mcuHeight, rows);
    }
    for x := 0 to columns
      invariant forall i :: 0 <= i < coeffs.Length ==>
        coeffs[i] == (if i % 64 == 0 && BlockCol(i, grid.cols) < x && BlockRow(i, grid.cols) < rows then dc else 0)
    {
      SetDcColumn(coeffs, grid, x, rows, dc);
    }
    forall i | 0 <= i < coeffs.Length
      ensures coeffs[i] == (if componentId == 0 && i % 64 == 0 then data.lum else 0)
    {
      if componentId == 0 {
        RowInside(i, grid.rows, grid.cols);
      }
    }
    return Ok(1);
  }

  /**
   * The inner loop of `blank_image`: coefficient 0 of the blocks of column
   * `x` in the first `rows` rows is set to `dc`, and nothing else changes.
   */
  method SetDcColumn(coeffs: array<int>, grid: BlockGrid, x: nat, rows: nat, dc: int)
    requires x < grid.cols && rows <= grid.rows && coeffs.Length == grid.rows * grid.cols * 64
    modifies coeffs
    ensures forall i :: 0 <= i < coeffs.Length ==>
      coeffs[i] == (if i % 64 == 0 && BlockCol(i, grid.cols) == x && BlockRow(i, grid.cols) < rows then dc else old(coeffs[i]))
  {
    for y := 0 to rows
      invariant forall i :: 0 <= i < coeffs.Length ==>
        coeffs[i] == (if i % 64 == 0 && BlockCol(i, grid.cols) == x && BlockRow(i, grid.cols) < y then dc else old(coeffs[i]))
    {
      var at := (y * grid.cols + x) * 64;
      BlockInside(y, x, grid.rows, grid.cols);
      ghost var before := coeffs[..];
      coeffs[at] := dc;
      forall i | 0 <= i < coeffs.Length
        ensures coeffs[i] == (if i % 64 == 0 && BlockCol(i, grid.cols) == x && BlockRow(i, grid.cols) < y + 1 then dc else old(coeffs[i]))
      {
        FlatIndex(y, x, 0, grid.cols);
        BlockOfIndex(i, grid.cols);
        if i != at {
          assert coeffs[i] == before[i];
        }
      }
    }
  }

  // --------------------------------------------------- fill_background

  /** The callback data of `fill_background`: the image width and height and the value to fill with. */
  datatype BackgroundStruct = BackgroundStruct(w: int, h: int, lum: int)

  /** numpy accepts `x` as an index into a row of `cols` blocks, counting negative ones from the end. */
  predicate Usable(x: int, cols: int)
  {
    -cols <= x < cols
  }

  /**
   * The `x` where the fill loop over `lo .. hi` stops: the first `x` numpy
   * cannot use as a block column of a row of `cols` blocks, or `hi` when
   * every `x` is usable.
   */
  function FillStop(lo: int, hi: int, cols: nat): (s: int)
    ensures lo < hi ==> lo <= s <= hi
    ensures forall x :: lo <= x < s ==> Usable(x, cols)
    ensures lo < hi && s < hi ==> !Usable(s, cols)
    ensures hi <= lo ==> s == hi
  {
    if hi <= lo then hi
    else if lo < -(cols as int) then lo
    else if hi <= cols then hi
    else Max(lo, cols)
  }

  /**
   * Block column `c` is written by the loop over `x` in `lo .. stop`,
   * numpy counting a negative `x` from the end of the row.
   */
  predicate FilledColumn(c: int, cols: int, lo: int, stop: int)
  {
    (lo <= c < stop) || (lo <= c - cols < stop)
  }

  /**
   * `fill_background`: for luminance only, every coefficient of the blocks
   * of every row whose column lies from `w // 8` up to the plane width
   * `// 8` is set to `lum`; all other coefficients, and chroma, are left as
   * they were. A column numpy cannot index raises `IndexError` once the
   * columns before it are filled; otherwise the callback returns 1.
   */
  method FillBackground(coeffs: array<int>, arrayRegion: CroppingRegion, planeRegion: CroppingRegion,
                        componentId: int, data: BackgroundStruct) returns (r: Result<int>)
    requires arrayRegion.w >= 0 && arrayRegion.h >= 0 && coeffs.Length == arrayRegion.w * arrayRegion.h
    modifies coeffs
    ensures componentId != 0 ==> r == Ok(1) && coeffs[..] == old(coeffs[..])
    ensures componentId == 0 && BlockLayout(arrayRegion).Err? ==> r == Err(ValueError) && coeffs[..] == old(coeffs[..])
    ensures componentId == 0 && BlockLayout(arrayRegion).Ok? ==>
      var grid := BlockLayout(arrayRegion).value;
      var lo := FloorDiv(data.w, 8);
      var hi := FloorDiv(planeRegion.w, 8);
      var stop := FillStop(lo, hi, grid.cols);
      (r.Ok? <==> grid.rows == 0 || stop == hi)
      && (r.Ok? ==> r.value == 1) && (r.Err? ==> r.error == IndexError)
      && forall i :: 0 <= i < coeffs.Length ==>
           coeffs[i] == (if FilledColumn(BlockCol(i, grid.cols), grid.cols, lo, stop) then data.lum else old(coeffs[i]))
  {
    if componentId != 0 {
      return Ok(1);
    }
    var layout := BlockLayout(arrayRegion);
    if layout.Err? {
      return Err(ValueError);
    }
    var grid := layout.value;
    var lo := FloorDiv(data.w, 8);
    var hi := FloorDiv(planeRegion.w, 8);
    ghost var start := coeffs[..];
    if grid.rows == 0 {
      assert coeffs.Length == 0;
      return Ok(1);
    }
    var x := lo;
    while x < hi
      invariant lo <= x && (x <= hi || x == lo)
      invariant forall z :: lo <= z < x ==> Usable(z, grid.cols)
      invariant forall i :: 0 <= i < coeffs.Length ==>
        coeffs[i] == (if FilledColumn(BlockCol(i, grid.cols), grid.cols, lo, x) then data.lum else start[i])
      decreases hi - x
    {
      if !Usable(x, grid.cols) {
        FirstUnusable(lo, hi, grid.cols, x);
        return Err(IndexError);
      }
      var c := if x >= 0 then x else x + grid.cols;
      ghost var before := coeffs[..];
      FillColumn(coeffs, grid, c, data.lum);
      forall i | 0 <= i < coeffs.Length
        ensures coeffs[i] == (if FilledColumn(BlockCol(i, grid.cols), grid.cols, lo, x + 1) then data.lum else start[i])
      {
        assert FilledColumn(BlockCol(i, grid.cols), grid.cols, lo, x + 1)
               <==> FilledColumn(BlockCol(i, grid.cols), grid.cols, lo, x) || BlockCol(i, grid.cols) == c;
      }
      x := x + 1;
    }
    if lo < hi {
      assert x == hi;
    }
    return Ok(1);
  }

  /**
   * The inner loop of `fill_background`: all 64 coefficients of block
   * column `c` in every row are set to `lum`, and nothing else changes.
   */
  method FillColumn(coeffs: array<int>, grid: BlockGrid, c: nat, lum: int)
    requires c < grid.cols && coeffs.Length == grid.rows * grid.cols * 64
    modifies coeffs
    ensures forall i :: 0 <= i < coeffs.Length ==>
      coeffs[i] == (if BlockCol(i, grid.cols) == c then lum else old(coeffs[i]))
  {
    for y := 0 to grid.rows
      invariant forall i :: 0 <= i < coeffs.Length ==>
        coeffs[i] == (if BlockCol(i, grid.cols) == c && BlockRow(i, grid.cols) < y then lum else old(coeffs[i]))
    {
      var at := (y * grid.cols + c) * 64;
      BlockInside(y, c, grid.rows, grid.cols);
      ghost var before := coeffs[..];
      forall k | 0 <= k < 64 {
        coeffs[at + k] := lum;
      }
      forall i | 0 <= i < coeffs.Length
        ensures coeffs[i] == (if BlockCol(i, grid.cols) == c && BlockRow(i, grid.cols) < y + 1 then lum else old(coeffs[i]))
      {
        BlockOfIndex(i, grid.cols);
        if at <= i < at + 64 {
          FlatIndex(y, c, i - at, grid.cols);
        } else {
          assert coeffs[i] == before[i];
        }
      }
    }
    forall i | 0 <= i < coeffs.Length
      ensures BlockRow(i, grid.cols) < grid.rows
    {
      RowInside(i, grid.rows, grid.cols);
    }
  }

  /** The first unusable column after usable ones is where the fill loop stops. */
  lemma FirstUnusable(lo: int, hi: int, cols: nat, x: int)
    requires lo <= x < hi
    requires forall z :: lo <= z < x ==> Usable(z, cols)
    requires !Usable(x, cols)
    ensures FillStop(lo, hi, cols) == x
  {
    if x > lo {
      assert Usable(x - 1, cols);
    }
  }

  /**
   * The blocks left of the image, columns below `w // 8` when that is not
   * negative, are never written; when the filled columns all lie inside
   * the row, exactly the columns from `w // 8` up to the plane's are.
   */
  lemma FillKeepsTheImage(c: int, cols: int, lo: int, hi: int)
    requires 0 <= c < cols && 0 <= lo
    ensures c < lo ==> !FilledColumn(c, cols, lo, FillStop(lo, hi, cols))
    ensures hi <= cols ==> (FilledColumn(c, cols, lo, FillStop(lo, hi, cols)) <==> lo <= c < hi)
  {
  }

  // ------------------------------------------------------ crop set-up

  /**
   * `__need_fill_background`: the crop reaches past the right or the
   * bottom edge of the image, and the background is not black.
   */
  predicate NeedFillBackground(crop: CroppingRegion, imageSize: (int, int), luminance: int)
  {
    (crop.x + crop.w > imageSize.0 || crop.y + crop.h > imageSize.1) && luminance != 0
  }

  /**
   * Crops inside a 2048 x 1024 image need no fill, one past its bottom
   * edge does; with a black background none does.
   */
  lemma NeedFillExamples()
    ensures !NeedFillBackground(CroppingRegion(0, 0, 512, 512), (2048, 1024), 1)
    ensures !NeedFillBackground(CroppingRegion(0, 0, 2048, 1024), (2048, 1024), 1)
    ensures !NeedFillBackground(CroppingRegion(1024, 0, 1024, 1024), (2048, 1024), 1)
    ensures NeedFillBackground(CroppingRegion(0, 0, 2048, 2048), (2048, 1024), 1)
    ensures !NeedFillBackground(CroppingRegion(0, 0, 2048, 2048), (2048, 1024), 0)
  {
  }

  /** `__define_cropping_regions`: one region per `(x, y, w, h)` tuple, in order. */
  function DefineCroppingRegions(parameters: seq<(int, int, int, int)>): (r: seq<CroppingRegion>)
    ensures |r| == |parameters|
    ensures forall i :: 0 <= i < |r| ==>
      r[i].x == parameters[i].0 && r[i].y == parameters[i].1 && r[i].w == parameters[i].2 && r[i].h == parameters[i].3
  {
    if parameters == [] then []
    else
      var p := parameters[0];
      [CroppingRegion(p.0, p.1, p.2, p.3)] + DefineCroppingRegions(parameters[1..])
  }
}
