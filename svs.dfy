/**
 * Aperio SVS levels. The right and bottom edge tiles of a reduced level can
 * be stored with zero length; such an edge is detected once, and a tile on
 * a corrupt edge is replaced by a tile made from the parent level (the next
 * level of higher resolution), made once and then kept. Two generations are
 * modelled: the pages of `opentile/svs_tiler.py` and the images of
 * `opentile/formats/svs/svs_image.py`. Decoding, resampling and encoding the
 * replacement tile are foreign code and appear as the abstract `downscale`.
 */
module Svs {
  import opened Wrappers
  import opened PyBytes
  import opened Geometry
  import opened TileGrid
  import opened JpegSplice
  import opened JpegConcat
  import opened Memo

  // ---------------------------------------------------------------- edges

  /** The right edge scanned for zero-length tiles: column `w - 1`, rows `0 .. h - 2`. */
  function RightEdge(tiled: Size): Region
  {
    Region(Point(tiled.width - 1, 0), Size(1, tiled.height - 1))
  }

  /** The bottom edge scanned for zero-length tiles: row `h - 1`, columns `0 .. w - 2`. */
  function BottomEdge(tiled: Size): Region
  {
    Region(Point(0, tiled.height - 1), Size(tiled.width - 1, 1))
  }

  /**
   * On a grid of at least one tile, the right edge is the last column
   * without its last tile, the bottom edge the last row without its last
   * tile: the corner tile is scanned by neither.
   */
  lemma EdgesExcludeCorner(tiled: Size, p: Point)
    requires Positive(tiled)
    ensures p in RegionPoints(RightEdge(tiled)) <==> p.x == tiled.width - 1 && 0 <= p.y < tiled.height - 1
    ensures p in RegionPoints(BottomEdge(tiled)) <==> p.y == tiled.height - 1 && 0 <= p.x < tiled.width - 1
    ensures p == Point(tiled.width - 1, tiled.height - 1) ==>
      p !in RegionPoints(RightEdge(tiled)) && p !in RegionPoints(BottomEdge(tiled))
  {
    RightEdgeTiles(tiled);
    BottomEdgeTiles(tiled);
    var right := RegionPoints(RightEdge(tiled));
    var bottom := RegionPoints(BottomEdge(tiled));
    if p.x == tiled.width - 1 && 0 <= p.y < tiled.height - 1 {
      assert right[p.y] == p;
    }
    if p.y == tiled.height - 1 && 0 <= p.x < tiled.width - 1 {
      assert bottom[p.x] == p;
    }
  }

  /** The right edge lists the tiles of the last column from the top, the corner left out. */
  lemma RightEdgeTiles(tiled: Size)
    requires Positive(tiled)
    ensures |RegionPoints(RightEdge(tiled))| == tiled.height - 1
    ensures forall i :: 0 <= i < tiled.height - 1 ==> RegionPoints(RightEdge(tiled))[i] == RightEdgeTile(tiled, i)
  {
    var right := RegionPoints(RightEdge(tiled));
    forall i | 0 <= i < tiled.height - 1
      ensures right[i] == RightEdgeTile(tiled, i)
    {
      DivModUnique(i, 1, i, 0);
    }
  }

  /** The bottom edge lists the tiles of the last row from the left, the corner left out. */
  lemma BottomEdgeTiles(tiled: Size)
    requires Positive(tiled)
    ensures |RegionPoints(BottomEdge(tiled))| == tiled.width - 1
    ensures forall i :: 0 <= i < tiled.width - 1 ==> RegionPoints(BottomEdge(tiled))[i] == BottomEdgeTile(tiled, i)
  {
    var bottom := RegionPoints(BottomEdge(tiled));
    var w := tiled.width - 1;
    assert |bottom| == w by { assert w * 1 == w; }
    forall i | 0 <= i < w
      ensures bottom[i] == BottomEdgeTile(tiled, i)
    {
      DivModUnique(i, w, 0, i);
    }
  }

  /**
   * `_detect_corrupt_edge` as the loop goes: the tiles of the edge in
   * order, stopping at the first one whose byte count is 0. A frame index
   * outside the byte counts raises `IndexError` when the scan reaches it.
   */
  function EdgeScan(byteCounts: seq<int>, tiled: Size, tiles: seq<Point>): (r: Result<bool>)
    decreases |tiles|
  {
    if tiles == [] then Ok(false)
    else
      var count :- Index(byteCounts, FrameIndex(tiles[0], tiled));
      if count == 0 then Ok(true) else EdgeScan(byteCounts, tiled, tiles[1..])
  }

  /**
   * When every tile of the scan has a frame, the scan finds corruption
   * exactly when some tile of it has byte count 0.
   */
  lemma {:induction false} EdgeScanIsAnyZero(byteCounts: seq<int>, tiled: Size, tiles: seq<Point>)
    requires forall i :: 0 <= i < |tiles| ==> 0 <= FrameIndex(tiles[i], tiled) < |byteCounts|
    ensures EdgeScan(byteCounts, tiled, tiles) ==
      Ok(exists i :: 0 <= i < |tiles| && byteCounts[FrameIndex(tiles[i], tiled)] == 0)
    decreases |tiles|
  {
    if tiles != [] {
      var rest := tiles[1..];
      assert forall i :: 0 <= i < |rest| ==> rest[i] == tiles[i + 1];
      EdgeScanIsAnyZero(byteCounts, tiled, rest);
      if byteCounts[FrameIndex(tiles[0], tiled)] != 0 {
        if exists i :: 0 <= i < |tiles| && ZeroLength(byteCounts, tiled, tiles[i]) {
          var i :| 0 <= i < |tiles| && ZeroLength(byteCounts, tiled, tiles[i]);
          assert rest[i - 1] == tiles[i];
        }
      }
    }
  }

  /** `_detect_corrupt_edge`: walk the edge tiles and stop at the first zero-length frame. */
  method DetectCorruptEdge(byteCounts: seq<int>, tiled: Size, edge: Region) returns (r: Result<bool>)
    requires edge.size.width >= 0 && edge.size.height >= 0
    ensures r == EdgeScan(byteCounts, tiled, RegionPoints(edge))
  {
    var tiles := RegionPoints(edge);
    var i := 0;
    while i < |tiles|
      invariant 0 <= i <= |tiles|
      invariant EdgeScan(byteCounts, tiled, tiles) == EdgeScan(byteCounts, tiled, tiles[i..])
    {
      assert tiles[i..][1..] == tiles[i + 1..];
      var count := Index(byteCounts, FrameIndex(tiles[i], tiled));
      if count.Err? {
        return Err(count.error);
      }
      if count.value == 0 {
        return Ok(true);
      }
      i := i + 1;
    }
    return Ok(false);
  }

  /**
   * `_detect_corrupt_edges` once the gate is passed: the right edge is
   * scanned first, then the bottom edge.
   */
  function ScanEdges(byteCounts: seq<int>, tiled: Size): (r: Result<(bool, bool)>)
    requires Positive(tiled)
  {
    var right :- EdgeScan(byteCounts, tiled, RegionPoints(RightEdge(tiled)));
    var bottom :- EdgeScan(byteCounts, tiled, RegionPoints(BottomEdge(tiled)));
    Ok((right, bottom))
  }

  /** The tile of the right edge in row `y`. */
  function RightEdgeTile(tiled: Size, y: int): Point { Point(tiled.width - 1, y) }

  /** The tile of the bottom edge in column `x`. */
  function BottomEdgeTile(tiled: Size, x: int): Point { Point(x, tiled.height - 1) }

  /** The tile at `p` is stored with no bytes. */
  predicate ZeroLength(byteCounts: seq<int>, tiled: Size, p: Point)
  {
    0 <= FrameIndex(p, tiled) < |byteCounts| && byteCounts[FrameIndex(p, tiled)] == 0
  }

  /**
   * For a grid with one byte count per tile, the right edge is corrupt
   * exactly when one of its tiles above the corner has byte count 0.
   */
  lemma RightEdgeScan(byteCounts: seq<int>, tiled: Size)
    requires Positive(tiled) && |byteCounts| == tiled.width * tiled.height
    ensures EdgeScan(byteCounts, tiled, RegionPoints(RightEdge(tiled))) ==
      Ok(exists y :: 0 <= y < tiled.height - 1 && ZeroLength(byteCounts, tiled, RightEdgeTile(tiled, y)))
  {
    var right := RegionPoints(RightEdge(tiled));
    RightEdgeTiles(tiled);
    forall i | 0 <= i < |right|
      ensures 0 <= FrameIndex(right[i], tiled) < |byteCounts|
    {
      FrameIndexOnGrid(right[i], tiled);
    }
    EdgeScanIsAnyZero(byteCounts, tiled, right);
  }

  /**
   * For a grid with one byte count per tile, the bottom edge is corrupt
   * exactly when one of its tiles left of the corner has byte count 0.
   */
  lemma BottomEdgeScan(byteCounts: seq<int>, tiled: Size)
    requires Positive(tiled) && |byteCounts| == tiled.width * tiled.height
    ensures EdgeScan(byteCounts, tiled, RegionPoints(BottomEdge(tiled))) ==
      Ok(exists x :: 0 <= x < tiled.width - 1 && ZeroLength(byteCounts, tiled, BottomEdgeTile(tiled, x)))
  {
    var bottom := RegionPoints(BottomEdge(tiled));
    BottomEdgeTiles(tiled);
    forall i | 0 <= i < |bottom|
      ensures 0 <= FrameIndex(bottom[i], tiled) < |byteCounts|
    {
      FrameIndexOnGrid(bottom[i], tiled);
    }
    EdgeScanIsAnyZero(byteCounts, tiled, bottom);
  }

  /**
   * For a grid with one byte count per tile, the scan of both edges
   * succeeds and flags each edge exactly when one of its tiles, the corner
   * left out, has byte count 0.
   */
  lemma ScanEdgesFindsZeroTiles(byteCounts: seq<int>, tiled: Size)
    requires Positive(tiled) && |byteCounts| == tiled.width * tiled.height
    ensures ScanEdges(byteCounts, tiled) == Ok((
      exists y :: 0 <= y < tiled.height - 1 && ZeroLength(byteCounts, tiled, RightEdgeTile(tiled, y)),
      exists x :: 0 <= x < tiled.width - 1 && ZeroLength(byteCounts, tiled, BottomEdgeTile(tiled, x))))
  {
    RightEdgeScan(byteCounts, tiled);
    BottomEdgeScan(byteCounts, tiled);
  }

  /** `SvsTiledPage._detect_corrupt_edges`: nothing is corrupt at pyramid index 0. */
  function CorruptEdgesOfPage(byteCounts: seq<int>, tiled: Size, pyramidIndex: int): (r: Result<(bool, bool)>)
    requires Positive(tiled)
    ensures pyramidIndex == 0 ==> r == Ok((false, false))
    ensures pyramidIndex != 0 ==> r == ScanEdges(byteCounts, tiled)
  {
    if pyramidIndex == 0 then Ok((false, false)) else ScanEdges(byteCounts, tiled)
  }

  /** `SvsTiledImage._detect_corrupt_edges`: nothing is corrupt without a parent level. */
  function CorruptEdgesOfImage(byteCounts: seq<int>, tiled: Size, parent: Option<int>): (r: Result<(bool, bool)>)
    requires Positive(tiled)
    ensures parent.None? ==> r == Ok((false, false))
    ensures parent.Some? ==> r == ScanEdges(byteCounts, tiled)
  {
    if parent.None? then Ok((false, false)) else ScanEdges(byteCounts, tiled)
  }

  /** `_tile_is_at_right_edge`. */
  predicate AtRightEdge(p: Point, tiled: Size) { p.x == tiled.width - 1 }

  /** `_tile_is_at_bottom_edge`. */
  predicate AtBottomEdge(p: Point, tiled: Size) { p.y == tiled.height - 1 }

  /** `_tile_is_corrupt`: on the right edge when it is corrupt, or on the bottom edge when that one is. */
  predicate TileIsCorrupt(edges: (bool, bool), p: Point, tiled: Size)
  {
    (edges.0 && AtRightEdge(p, tiled)) || (edges.1 && AtBottomEdge(p, tiled))
  }

  // --------------------------------------------------------- scaled tiles

  /**
   * `int(pow(2, pyramid_index - parent.pyramid_index))`: a power of two,
   * and 0 when the parent would be the smaller level.
   */
  function Scale(pyramidIndex: int, parentIndex: int): (r: nat)
    ensures pyramidIndex >= parentIndex ==> r >= 1
    ensures pyramidIndex < parentIndex ==> r == 0
  {
    if pyramidIndex < parentIndex then 0 else Pow2(pyramidIndex - parentIndex)
  }

  /**
   * `Region(tile_point, Size(1, 1)) * scale`: the parent tiles, row by row,
   * that a tile of this level is made from.
   */
  function ParentTiles(p: Point, scale: nat): (r: seq<Point>)
    ensures |r| == scale * scale
  {
    RegionPoints(Region(Point(p.x * scale, p.y * scale), Size(scale, scale)))
  }

  /**
   * The parent tiles are exactly the tiles that shrink to `p` under the
   * scale: each lies in the `scale × scale` block of `p`, and each tile of
   * that block is requested.
   */
  lemma ParentTilesAreTheBlock(p: Point, scale: nat, q: Point)
    requires scale >= 1
    ensures q in ParentTiles(p, scale) <==> FloorDiv(q.x, scale) == p.x && FloorDiv(q.y, scale) == p.y
  {
    if q in ParentTiles(p, scale) {
      ParentTileInBlock(p, scale, q);
    } else if FloorDiv(q.x, scale) == p.x && FloorDiv(q.y, scale) == p.y {
      BlockTileRequested(p, scale, q);
    }
  }

  lemma ParentTileInBlock(p: Point, scale: nat, q: Point)
    requires scale >= 1 && q in ParentTiles(p, scale)
    ensures FloorDiv(q.x, scale) == p.x && FloorDiv(q.y, scale) == p.y
  {
    var tiles := ParentTiles(p, scale);
    var i :| 0 <= i < |tiles| && tiles[i] == q;
    assert q.x == p.x * scale + i % scale && q.y == p.y * scale + i / scale;
    DivModUnique(q.x, scale, p.x, i % scale);
    assert 0 <= i / scale < scale by { DivBelowSquare(i, scale); }
    DivModUnique(q.y, scale, p.y, i / scale);
  }

  lemma DivBelowSquare(i: int, s: int)
    requires s >= 1 && 0 <= i < s * s
    ensures 0 <= i / s < s
  {
    if i / s >= s {
      MulMonotone(s, i / s, s);
    }
  }

  lemma BlockTileRequested(p: Point, scale: nat, q: Point)
    requires scale >= 1 && FloorDiv(q.x, scale) == p.x && FloorDiv(q.y, scale) == p.y
    ensures q in ParentTiles(p, scale)
  {
    var tiles := ParentTiles(p, scale);
    var dx := q.x - p.x * scale;
    var dy := q.y - p.y * scale;
    assert 0 <= dx < scale && 0 <= dy < scale;
    var i := dy * scale + dx;
    assert i < scale * scale by { MulMonotone(dy + 1, scale, scale); }
    DivModUnique(i, scale, dy, dx);
    assert tiles[i] == Point(p.x * scale + i % scale, p.y * scale + i / scale);
    assert tiles[i] == q;
  }

  /**
   * `_get_scaled_tile`: without a parent `ValueError`; otherwise the
   * replacement made (by the foreign `downscale`) from the parent tiles of
   * the point's block.
   */
  function ScaledTile(pyramidIndex: int, parent: Option<int>, downscale: seq<Point> -> Result<bytes>, p: Point): (r: Result<bytes>)
    ensures parent.None? ==> r == Err(ValueError)
    ensures parent.Some? ==> r == downscale(ParentTiles(p, Scale(pyramidIndex, parent.value)))
  {
    if parent.None? then Err(ValueError)
    else downscale(ParentTiles(p, Scale(pyramidIndex, parent.value)))
  }

  // --------------------------------------------------------------- levels

  /**
   * A tiled SVS level: its native page, pyramid index, the pyramid index of
   * its parent level if it has one, its corrupt-edge flags and whether it
   * is JPEG compressed.
   */
  datatype SvsLevel = SvsLevel(
    native: NativePage,
    pyramidIndex: int,
    parent: Option<int>,
    edges: (bool, bool),
    isJpeg: bool,
    downscale: seq<Point> -> Result<bytes>)

  /**
   * `SvsTiledPage.get_tile`: a tile on a corrupt edge is the scaled
   * replacement; any other is the native tile, with the Adobe APP14
   * colour-space segment added when the level is JPEG.
   */
  function PageTile(level: SvsLevel, read: (int, int) -> bytes, p: Point): (r: Result<bytes>)
    ensures TileIsCorrupt(level.edges, p, level.native.tiled) ==>
      r == ScaledTile(level.pyramidIndex, level.parent, level.downscale, p)
    ensures !TileIsCorrupt(level.edges, p, level.native.tiled) ==>
      (r.Ok? <==> NativeTile(level.native, read, p).Ok?)
    ensures !TileIsCorrupt(level.edges, p, level.native.tiled) && r.Ok? && level.isJpeg ==>
      r.value == AddColorSpaceFix(NativeTile(level.native, read, p).value)
    ensures !TileIsCorrupt(level.edges, p, level.native.tiled) && r.Ok? && !level.isJpeg ==>
      r.value == NativeTile(level.native, read, p).value
  {
    if TileIsCorrupt(level.edges, p, level.native.tiled) then ScaledTile(level.pyramidIndex, level.parent, level.downscale, p)
    else
      var tile :- NativeTile(level.native, read, p);
      if level.isJpeg then Ok(AddColorSpaceFix(tile)) else Ok(tile)
  }

  /**
   * `SvsTiledImage.get_tile`: a tile on a corrupt edge is the scaled
   * replacement; any other is the native tile, whose tables and colour fix
   * the native image adds.
   */
  function ImageTile(level: SvsLevel, read: (int, int) -> bytes, p: Point): (r: Result<bytes>)
    ensures TileIsCorrupt(level.edges, p, level.native.tiled) ==>
      r == ScaledTile(level.pyramidIndex, level.parent, level.downscale, p)
    ensures !TileIsCorrupt(level.edges, p, level.native.tiled) ==> r == NativeTile(level.native, read, p)
  {
    if TileIsCorrupt(level.edges, p, level.native.tiled) then ScaledTile(level.pyramidIndex, level.parent, level.downscale, p)
    else NativeTile(level.native, read, p)
  }

  /** A tiled SVS level with its dictionary of replacement tiles. */
  class SvsTiledLevel {
    const level: SvsLevel
    const read: (int, int) -> bytes
    /** `_fixed_tiles`: replacement tiles made so far, by point. */
    const fixed: Memo<Point, bytes>

    ghost predicate Valid()
      reads this, fixed
    {
      fixed.Valid() && fixed.compute == (p => ScaledTile(level.pyramidIndex, level.parent, level.downscale, p))
    }

    constructor(level: SvsLevel, read: (int, int) -> bytes)
      ensures Valid() && this.level == level && this.read == read
      ensures fresh(fixed) && fixed.stored == map[]
    {
      this.level := level;
      this.read := read;
      fixed := new Memo(p => ScaledTile(level.pyramidIndex, level.parent, level.downscale, p));
    }

    /**
     * `_get_fixed_tile`: the replacement for `p`, made on the first request
     * and kept, so that later requests return the same bytes without
     * making it again.
     */
    method GetFixedTile(p: Point) returns (r: Result<bytes>)
      requires Valid()
      modifies fixed
      ensures Valid()
      ensures r == ScaledTile(level.pyramidIndex, level.parent, level.downscale, p)
      ensures p in old(fixed.stored) ==> r == Ok(old(fixed.stored)[p]) && fixed.computed == old(fixed.computed)
    {
      r := fixed.Get(p);
    }

    /** `SvsTiledPage.get_tile`, with the replacement tiles kept. */
    method GetPageTile(p: Point) returns (r: Result<bytes>)
      requires Valid()
      modifies fixed
      ensures Valid()
      ensures r == PageTile(level, read, p)
    {
      if TileIsCorrupt(level.edges, p, level.native.tiled) {
        r := GetFixedTile(p);
        return;
      }
      var tile := NativeTile(level.native, read, p);
      if tile.Ok? && level.isJpeg {
        r := Ok(AddColorSpaceFix(tile.value));
      } else {
        r := tile;
      }
    }

    /** `SvsTiledImage.get_tile`, with the replacement tiles kept. */
    method GetImageTile(p: Point) returns (r: Result<bytes>)
      requires Valid()
      modifies fixed
      ensures Valid()
      ensures r == ImageTile(level, read, p)
    {
      if TileIsCorrupt(level.edges, p, level.native.tiled) {
        r := GetFixedTile(p);
      } else {
        r := NativeTile(level.native, read, p);
      }
    }

    /**
     * `SvsTiledImage.get_tiles`: when any requested tile is corrupt, the
     * tiles are made one by one through `get_tile`; otherwise the native
     * batch read is used. Either way the result is one tile per position,
     * in request order, each what `get_tile` gives.
     */
    method GetImageTiles(positions: seq<Point>) returns (r: Result<seq<bytes>>)
      requires Valid()
      modifies fixed
      ensures Valid()
      ensures r == TilesOneByOne(positions, p => ImageTile(level, read, p))
    {
      if exists i :: 0 <= i < |positions| && TileIsCorrupt(level.edges, positions[i], level.native.tiled) {
        var tiles: seq<bytes> := [];
        for i := 0 to |positions|
          invariant Valid()
          invariant TilesOneByOne(positions[..i], p => ImageTile(level, read, p)) == Ok(tiles)
        {
          assert positions[..i + 1][..i] == positions[..i];
          var tile := GetImageTile(positions[i]);
          if tile.Err? {
            TilesOneByOneStop(positions, i, p => ImageTile(level, read, p));
            return Err(tile.error);
          }
          tiles := tiles + [tile.value];
        }
        assert positions[..|positions|] == positions;
        return Ok(tiles);
      }
      BatchIsOneByOne(level.native, read, positions);
      NativeAgreesOffEdges(positions);
      r := NativeTilesBatch(level.native, read, positions);
    }

    /** Where no requested tile is corrupt, `get_tile` is the native tile. */
    lemma NativeAgreesOffEdges(positions: seq<Point>)
      requires forall i :: 0 <= i < |positions| ==> !TileIsCorrupt(level.edges, positions[i], level.native.tiled)
      ensures TilesOneByOne(positions, p => NativeTile(level.native, read, p))
        == TilesOneByOne(positions, p => ImageTile(level, read, p))
    {
      TilesOneByOneAgree(positions, p => NativeTile(level.native, read, p), p => ImageTile(level, read, p));
    }
  }

  // ------------------------------------------------ striped and LZW images

  /**
   * `SvsStripedPage.get_tile` (first generation): only `(0, 0)` exists; it
   * is all the page's scans joined with the page's JPEG tables and the
   * colour-space fix.
   */
  function StripedPageTile(frames: TiffFrames, read: (int, int) -> bytes, tables: Option<bytes>,
                           decode: bytes -> ScanHeader, p: Point): (r: Result<bytes>)
    requires |frames.dataOffsets| <= |frames.byteCounts|
    ensures p != Point(0, 0) ==> r == Err(ValueError)
    ensures p == Point(0, 0) ==>
      r == ScansFrameOlder(AllScans(frames, read), tables, true, decode)
  {
    if p != Point(0, 0) then Err(ValueError)
    else ScansFrameOlder(AllScans(frames, read), tables, true, decode)
  }

  /**
   * `SvsStripedImage.get_tile`: the same, joined by the newer
   * `concatenate_scans` with the image's colour-fix switch.
   */
  function StripedImageTile(frames: TiffFrames, read: (int, int) -> bytes, tables: Option<bytes>, rgbFix: bool,
                            decode: bytes -> ScanHeader, p: Point): (r: Result<bytes>)
    requires |frames.dataOffsets| <= |frames.byteCounts|
    ensures p != Point(0, 0) ==> r == Err(ValueError)
    ensures p == Point(0, 0) ==> r == ScansFrame(AllScans(frames, read), tables, rgbFix, decode)
  {
    if p != Point(0, 0) then Err(ValueError)
    else ScansFrame(AllScans(frames, read), tables, rgbFix, decode)
  }

  /** The frames `0 .. len(dataoffsets) - 1` of a page, in order. */
  function AllScans(frames: TiffFrames, read: (int, int) -> bytes): (r: seq<bytes>)
    requires |frames.dataOffsets| <= |frames.byteCounts|
    ensures |r| == |frames.dataOffsets|
    ensures forall i :: 0 <= i < |r| ==> ReadFrame(frames, read, i) == Ok(r[i])
  {
    seq(|frames.dataOffsets|, i requires 0 <= i < |frames.dataOffsets| => read(frames.dataOffsets[i], frames.byteCounts[i]))
  }

  /**
   * `get_decoded_tile` of the LZW label: only `(0, 0)` exists; its rows are
   * decoded by foreign code.
   */
  function LzwDecodedTile<T>(p: Point, decodeRows: () -> Result<T>): (r: Result<T>)
    ensures p != Point(0, 0) ==> r == Err(ValueError)
    ensures p == Point(0, 0) ==> r == decodeRows()
  {
    if p != Point(0, 0) then Err(ValueError) else decodeRows()
  }

  // ---------------------------------------------------------------- tiler

  /** The pages of the first-generation SVS tiler. */
  datatype SvsPage =
    | StripedOverview(page: TiffPageInfo)
    | LzwLabel(page: TiffPageInfo)
      /** A level page; every level but 0 is made from the level above it. */
    | TiledLevel(page: TiffPageInfo, level: int, parent: Option<PageKey>)

  /**
   * The series the constructor found: the last "Baseline" (else 0), the
   * last "Label" and the last "Macro".
   */
  datatype SvsSeries = SvsSeries(series: seq<TiffSeries>, levelIndex: int, labelIndex: Option<int>, overviewIndex: Option<int>)

  function NewSvsSeries(series: seq<TiffSeries>): (r: SvsSeries)
    ensures r.series == series
    ensures r.labelIndex == LastNamed(series, "Label") && r.overviewIndex == LastNamed(series, "Macro")
    ensures LastNamed(series, "Baseline").Some? ==> r.levelIndex == LastNamed(series, "Baseline").value
    ensures LastNamed(series, "Baseline").None? ==> r.levelIndex == 0
  {
    var level := LastNamed(series, "Baseline");
    SvsSeries(series, if level.Some? then level.value else 0, LastNamed(series, "Label"), LastNamed(series, "Macro"))
  }

  /**
   * What `get_page` creates for a key: the overview series gives the
   * striped page, the label series the LZW page, the level series a level
   * page whose parent is the page one level up (for level > 0, created
   * first); any other series raises `NotImplementedError`.
   */
  function CreateSvsPage(t: SvsSeries, key: PageKey): (r: Result<SvsPage>)
    decreases if key.level > 0 then key.level else 0
  {
    if Some(key.series) == t.overviewIndex then
      var page :- PageAt(t.series, key.series, key.level, key.page);
      Ok(StripedOverview(page))
    else if Some(key.series) == t.labelIndex then
      var page :- PageAt(t.series, key.series, key.level, key.page);
      Ok(LzwLabel(page))
    else if key.series == t.levelIndex then
      if key.level > 0 then
        var parent :- CreateSvsPage(t, PageKey(key.series, key.level - 1, key.page));
        var page :- PageAt(t.series, key.series, key.level, key.page);
        Ok(TiledLevel(page, key.level, Some(PageKey(key.series, key.level - 1, key.page))))
      else
        var page :- PageAt(t.series, key.series, key.level, key.page);
        Ok(TiledLevel(page, key.level, None))
    else Err(NotImplementedError)
  }

  /**
   * The overview series, checked first, gives the striped page and the
   * label series the LZW page; level 0 has no parent, level `n > 0` has
   * level `n - 1` as its parent; and a series that is none of the three
   * raises `NotImplementedError`.
   */
  lemma CreateSvsPageShape(t: SvsSeries, key: PageKey)
    ensures var r := CreateSvsPage(t, key);
      r.Ok? && r.value.TiledLevel? ==>
        key.series == t.levelIndex && r.value.level == key.level
        && (key.level > 0 ==> r.value.parent == Some(PageKey(key.series, key.level - 1, key.page)))
        && (key.level <= 0 ==> r.value.parent.None?)
    ensures Some(key.series) != t.overviewIndex && Some(key.series) != t.labelIndex && key.series != t.levelIndex ==>
      CreateSvsPage(t, key) == Err(NotImplementedError)
    ensures (key.series == t.levelIndex && Some(key.series) != t.overviewIndex && Some(key.series) != t.labelIndex
      && key.level > 0 && CreateSvsPage(t, key).Ok?) ==>
      CreateSvsPage(t, PageKey(key.series, key.level - 1, key.page)).Ok?
    ensures Some(key.series) == t.overviewIndex ==>
      var p := PageAt(t.series, key.series, key.level, key.page);
      CreateSvsPage(t, key) == (if p.Ok? then Ok(StripedOverview(p.value)) else Err(p.error))
    ensures Some(key.series) != t.overviewIndex && Some(key.series) == t.labelIndex ==>
      var p := PageAt(t.series, key.series, key.level, key.page);
      CreateSvsPage(t, key) == (if p.Ok? then Ok(LzwLabel(p.value)) else Err(p.error))
  {
  }

  /** The first-generation SVS tiler's page dictionary. */
  class SvsTiler {
    const t: SvsSeries
    var pages: map<PageKey, SvsPage>

    /** Every stored page is what would be created for its key, and its parent is stored too. */
    ghost predicate Valid()
      reads this
    {
      (forall key :: key in pages ==> CreateSvsPage(t, key) == Ok(pages[key]))
      && (forall key :: key in pages && pages[key].TiledLevel? && pages[key].parent.Some? ==> pages[key].parent.value in pages)
    }

    constructor(t: SvsSeries)
      ensures Valid() && this.t == t && pages == map[]
    {
      this.t := t;
      pages := map[];
    }

    /**
     * `get_page`: a stored page is returned as it is; otherwise the page is
     * created (a level page after its parent has been got, and so stored)
     * and stored. Nothing stored is ever replaced.
     */
    method GetPage(key: PageKey) returns (r: Result<SvsPage>)
      requires Valid()
      modifies this
      ensures Valid()
      ensures r == CreateSvsPage(t, key)
      ensures key in old(pages) ==> pages == old(pages)
      ensures forall k :: k in old(pages) ==> k in pages && pages[k] == old(pages)[k]
      ensures r.Ok? ==> key in pages
      ensures r.Ok? && r.value.TiledLevel? && r.value.parent.Some? ==> r.value.parent.value in pages
      decreases if key.level > 0 then key.level else 0
    {
      if key in pages {
        return Ok(pages[key]);
      }
      var created: Result<SvsPage>;
      if Some(key.series) == t.overviewIndex {
        var page := PageAt(t.series, key.series, key.level, key.page);
        created := if page.Ok? then Ok(StripedOverview(page.value)) else Err(page.error);
      } else if Some(key.series) == t.labelIndex {
        var page := PageAt(t.series, key.series, key.level, key.page);
        created := if page.Ok? then Ok(LzwLabel(page.value)) else Err(page.error);
      } else if key.series == t.levelIndex {
        var parentKey: Option<PageKey> := None;
        if key.level > 0 {
          var parent := GetPage(PageKey(key.series, key.level - 1, key.page));
          if parent.Err? {
            return Err(parent.error);
          }
          parentKey := Some(PageKey(key.series, key.level - 1, key.page));
        }
        var page := PageAt(t.series, key.series, key.level, key.page);
        created := if page.Ok? then Ok(TiledLevel(page.value, key.level, parentKey)) else Err(page.error);
      } else {
        created := Err(NotImplementedError);
      }
      if created.Err? {
        return created;
      }
      pages := pages[key := created.value];
      r := created;
    }
  }
}
