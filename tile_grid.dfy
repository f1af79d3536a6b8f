/**
 * The tile grid shared by every page or image of a TIFF file: how many tiles
 * cover the image, which positions are inside, and which stored frame holds
 * the tile at a position. Frames are read through an abstract
 * `read(offset, count)`; file handles and locking are not part of the model.
 */
module TileGrid {
  import opened Wrappers
  import opened PyBytes
  import opened Geometry
  import opened JpegSplice
  import BitStream

  /** The tile size of a page: its TIFF tile size when tiled, else the whole image. */
  function PageTileSize(imageSize: Size, tiffTileSize: Option<Size>): Size
  {
    if tiffTileSize.Some? then tiffTileSize.value else imageSize
  }

  /**
   * `tiled_size`: `(1, 1)` for the tile size `(0, 0)`, otherwise the ceiling
   * division of the image size by the tile size; a single zero component
   * raises `ZeroDivisionError`.
   */
  function TiledSize(imageSize: Size, tileSize: Size): (r: Result<Size>)
    ensures tileSize == Size(0, 0) ==> r == Ok(Size(1, 1))
    ensures tileSize != Size(0, 0) ==> (r.Ok? <==> tileSize.width != 0 && tileSize.height != 0)
    ensures r.Err? ==> r.error == ZeroDivisionError
    ensures r.Ok? && Positive(tileSize) ==>
      (r.value.width - 1) * tileSize.width < imageSize.width <= r.value.width * tileSize.width
      && (r.value.height - 1) * tileSize.height < imageSize.height <= r.value.height * tileSize.height
  {
    if tileSize == Size(0, 0) then Ok(Size(1, 1))
    else if tileSize.width == 0 || tileSize.height == 0 then Err(ZeroDivisionError)
    else Ok(Size(CeilDivInt(imageSize.width, tileSize.width), CeilDivInt(imageSize.height, tileSize.height)))
  }

  /** A page that is not tiled is one tile: its tile size is its image size. */
  lemma UntiledPageIsOneTile(imageSize: Size)
    requires Positive(imageSize)
    ensures TiledSize(imageSize, PageTileSize(imageSize, None)) == Ok(Size(1, 1))
  {
    var w, h := imageSize.width, imageSize.height;
    BitStream.DivisionUnique(-w, w, -1, 0);
    BitStream.DivisionUnique(-h, h, -1, 0);
  }

  /** `tiled_region` of the first generation: from (0, 0), of size `tiled_size - 1`. */
  function TiledRegionFirst(tiled: Size): (r: Region)
    ensures r.start == Point(0, 0) && r.size.width == tiled.width - 1 && r.size.height == tiled.height - 1
  {
    Region(Point(0, 0), Size(tiled.width - 1, tiled.height - 1))
  }

  /** `tiled_region` of the second generation: from (0, 0), of size `tiled_size`. */
  function TiledRegion(tiled: Size): (r: Region)
    ensures r.start == Point(0, 0) && r.size == tiled
  {
    Region(Point(0, 0), tiled)
  }

  /**
   * `_check_if_tile_inside_image`: only the upper bounds are checked, so a
   * negative position counts as inside.
   */
  predicate InsideImage(p: Point, tiled: Size)
  {
    p.x < tiled.width && p.y < tiled.height
  }

  /** `_tile_point_to_frame_index`: row-major, `y * tiled.w + x`. */
  function FrameIndex(p: Point, tiled: Size): int
  {
    p.y * tiled.width + p.x
  }

  /**
   * On the grid the frame index is a bijection onto `[0, w * h)`: in range,
   * and the position is recovered from the index.
   */
  lemma FrameIndexOnGrid(p: Point, tiled: Size)
    requires 0 <= p.x < tiled.width && 0 <= p.y < tiled.height
    ensures 0 <= FrameIndex(p, tiled) < tiled.width * tiled.height
    ensures FrameIndex(p, tiled) % tiled.width == p.x && FrameIndex(p, tiled) / tiled.width == p.y
  {
    var w := tiled.width;
    var i := FrameIndex(p, tiled);
    assert i < (p.y + 1) * w by {
      assert (p.y + 1) * w == p.y * w + w;
    }
    assert (p.y + 1) * w <= tiled.height * w by {
      MulMonotone(p.y + 1, tiled.height, w);
    }
    DivModUnique(i, w, p.y, p.x);
  }

  lemma MulMonotone(a: int, b: int, w: int)
    requires a <= b && w >= 0
    ensures a * w <= b * w
  {
    assert b * w - a * w == (b - a) * w;
  }

  lemma DivModUnique(i: int, w: int, q: int, r: int)
    requires w > 0 && 0 <= r < w && i == q * w + r
    ensures i % w == r && i / w == q
  {
    var q0, r0 := i / w, i % w;
    assert (q - q0) * w == r0 - r;
    if q > q0 {
      assert (q - q0) * w >= w by { MulMonotone(1, q - q0, w); }
    } else if q < q0 {
      assert (q0 - q) * w >= w by { MulMonotone(1, q0 - q, w); }
    }
  }

  /** Two grid positions with the same frame index are the same position. */
  lemma FrameIndexInjective(p: Point, q: Point, tiled: Size)
    requires 0 <= p.x < tiled.width && 0 <= p.y < tiled.height
    requires 0 <= q.x < tiled.width && 0 <= q.y < tiled.height
    requires FrameIndex(p, tiled) == FrameIndex(q, tiled)
    ensures p == q
  {
    FrameIndexOnGrid(p, tiled);
    FrameIndexOnGrid(q, tiled);
  }

  /**
   * Walking the tiled region row by row visits frames 0, 1, 2, ... in
   * order: `get_all_tiles` with and without `raw` visit the same frames.
   */
  lemma RegionWalkIsFrameOrder(tiled: Size, i: int)
    requires Positive(tiled) && 0 <= i < tiled.width * tiled.height
    ensures FrameIndex(RegionPoints(TiledRegion(tiled))[i], tiled) == i
  {
    var w := tiled.width;
    assert i == (i / w) * w + i % w;
  }

  /** The stored frames of a TIFF page: where each frame starts and how long it is. */
  datatype TiffFrames = TiffFrames(dataOffsets: seq<int>, byteCounts: seq<int>)

  /**
   * `_read_frame`: the frame at a Python list index of the offsets and byte
   * counts (negative indices count from the end), read through `read`.
   */
  function ReadFrame(frames: TiffFrames, read: (int, int) -> bytes, index: int): (r: Result<bytes>)
    ensures r.Ok? <==> -|frames.dataOffsets| <= index < |frames.dataOffsets| && -|frames.byteCounts| <= index < |frames.byteCounts|
    ensures r.Err? ==> r.error == IndexError
    ensures r.Ok? && 0 <= index ==> r.value == read(frames.dataOffsets[index], frames.byteCounts[index])
  {
    var offset :- Index(frames.dataOffsets, index);
    var count :- Index(frames.byteCounts, index);
    Ok(read(offset, count))
  }

  /**
   * `_read_frames`: the frames at all indices, in order; any index outside
   * either list raises `IndexError` before anything is read.
   */
  function ReadFrames(frames: TiffFrames, read: (int, int) -> bytes, indices: seq<int>): (r: Result<seq<bytes>>)
    ensures r.Ok? <==> forall i :: 0 <= i < |indices| ==> ReadFrame(frames, read, indices[i]).Ok?
    ensures r.Err? ==> r.error == IndexError
    ensures r.Ok? ==> |r.value| == |indices|
    ensures r.Ok? ==> forall i :: 0 <= i < |indices| ==> ReadFrame(frames, read, indices[i]) == Ok(r.value[i])
  {
    if forall i :: 0 <= i < |indices| ==> ReadFrame(frames, read, indices[i]).Ok? then
      Ok(seq(|indices|, i requires 0 <= i < |indices| => ReadFrame(frames, read, indices[i]).value))
    else Err(IndexError)
  }

  /** `get_all_tiles(raw=True)`: frames 0 .. area - 1, in index order. */
  function AllFramesRaw(frames: TiffFrames, read: (int, int) -> bytes, tiled: Size): (r: Result<seq<bytes>>)
    requires tiled.width * tiled.height >= 0
    ensures r.Ok? ==> |r.value| == tiled.width * tiled.height
    ensures r.Ok? ==> forall i :: 0 <= i < |r.value| ==> ReadFrame(frames, read, i) == Ok(r.value[i])
  {
    ReadFrames(frames, read, seq(tiled.width * tiled.height, i => i))
  }

  /** The table splice of `Jpeg.add_jpeg_tables` of the second generation, with its colour-fix switch. */
  function AddTables(frame: bytes, tables: bytes, rgbFix: bool): bytes
  {
    if rgbFix then AddJpegTablesAndRgbFix(frame, tables) else AddJpegTables(frame, tables)
  }

  /** A natively tiled page: its frames, grid and optional shared JPEG tables. */
  datatype NativePage = NativePage(frames: TiffFrames, tiled: Size, jpegTables: Option<bytes>, rgbFix: bool)

  /**
   * `NativeTiledPage.get_tile` / `NativeTiledTiffImage.get_tile`: the frame
   * at the row-major index, with the tables spliced in when the page has
   * them. The position is not checked against the grid.
   */
  function NativeTile(page: NativePage, read: (int, int) -> bytes, p: Point): (r: Result<bytes>)
    ensures r.Ok? <==> ReadFrame(page.frames, read, FrameIndex(p, page.tiled)).Ok?
    ensures r.Ok? && page.jpegTables.None? ==> r.value == ReadFrame(page.frames, read, FrameIndex(p, page.tiled)).value
    ensures r.Ok? && page.jpegTables.Some? ==>
      r.value == AddTables(ReadFrame(page.frames, read, FrameIndex(p, page.tiled)).value, page.jpegTables.value, page.rgbFix)
  {
    var frame :- ReadFrame(page.frames, read, FrameIndex(p, page.tiled));
    if page.jpegTables.Some? then Ok(AddTables(frame, page.jpegTables.value, page.rgbFix)) else Ok(frame)
  }

  /** `OpenTilePage.get_tiles`: `get_tile` of each position in order; the first failure is raised. */
  function TilesOneByOne(positions: seq<Point>, getTile: Point -> Result<bytes>): (r: Result<seq<bytes>>)
    ensures r.Ok? ==> |r.value| == |positions|
    ensures r.Ok? ==> forall i :: 0 <= i < |positions| ==> getTile(positions[i]) == Ok(r.value[i])
    ensures r.Err? ==> exists i :: 0 <= i < |positions| && getTile(positions[i]).Err? && r.error == getTile(positions[i]).error
    decreases |positions|
  {
    if positions == [] then Ok([])
    else
      var n := |positions| - 1;
      var init :- TilesOneByOne(positions[..n], getTile);
      var last :- getTile(positions[n]);
      Ok(init + [last])
  }

  /** Two tile functions that agree on the requested positions give the same tiles. */
  lemma {:induction false} TilesOneByOneAgree(positions: seq<Point>, f: Point -> Result<bytes>, g: Point -> Result<bytes>)
    requires forall i :: 0 <= i < |positions| ==> f(positions[i]) == g(positions[i])
    ensures TilesOneByOne(positions, f) == TilesOneByOne(positions, g)
    decreases |positions|
  {
    if positions != [] {
      var n := |positions| - 1;
      forall i | 0 <= i < n
        ensures f(positions[..n][i]) == g(positions[..n][i])
      {
        assert positions[..n][i] == positions[i];
      }
      TilesOneByOneAgree(positions[..n], f, g);
      assert f(positions[n]) == g(positions[n]);
    }
  }

  /** A failure at position `i` of a one-by-one read is the failure of the whole read. */
  lemma {:induction false} TilesOneByOneStop(positions: seq<Point>, i: nat, f: Point -> Result<bytes>)
    requires i < |positions| && TilesOneByOne(positions[..i], f).Ok? && f(positions[i]).Err?
    ensures TilesOneByOne(positions, f) == Err(f(positions[i]).error)
    decreases |positions|
  {
    var n := |positions| - 1;
    if i < n {
      assert positions[..n][..i] == positions[..i];
      TilesOneByOneStop(positions[..n], i, f);
    } else {
      assert positions[..n] == positions[..i];
    }
  }

  /**
   * `NativeTiledTiffImage.get_tiles`: all frames read in one batch, then
   * the tables spliced into each.
   */
  function NativeTilesBatch(page: NativePage, read: (int, int) -> bytes, positions: seq<Point>): (r: Result<seq<bytes>>)
  {
    var indices := seq(|positions|, i requires 0 <= i < |positions| => FrameIndex(positions[i], page.tiled));
    var frames :- ReadFrames(page.frames, read, indices);
    if page.jpegTables.Some? then
      Ok(seq(|frames|, i requires 0 <= i < |frames| => AddTables(frames[i], page.jpegTables.value, page.rgbFix)))
    else Ok(frames)
  }

  /**
   * The batch read gives exactly what reading the positions one by one
   * gives: one tile per position, in request order, and `IndexError` when
   * any position has no frame.
   */
  lemma BatchIsOneByOne(page: NativePage, read: (int, int) -> bytes, positions: seq<Point>)
    ensures NativeTilesBatch(page, read, positions) == TilesOneByOne(positions, p => NativeTile(page, read, p))
  {
    var getTile := p => NativeTile(page, read, p);
    var indices := seq(|positions|, i requires 0 <= i < |positions| => FrameIndex(positions[i], page.tiled));
    var batch := NativeTilesBatch(page, read, positions);
    var single := TilesOneByOne(positions, getTile);
    if forall i :: 0 <= i < |positions| ==> getTile(positions[i]).Ok? {
      assert single.Ok?;
      assert forall i :: 0 <= i < |indices| ==> ReadFrame(page.frames, read, indices[i]).Ok?;
      assert batch.Ok?;
      assert |batch.value| == |single.value|;
      forall i | 0 <= i < |positions|
        ensures batch.value[i] == single.value[i]
      {
        assert getTile(positions[i]) == Ok(single.value[i]);
        assert ReadFrame(page.frames, read, indices[i]) == Ok(ReadFrames(page.frames, read, indices).value[i]);
      }
      assert batch.value == single.value;
    } else {
      var k :| 0 <= k < |positions| && getTile(positions[k]).Err?;
      assert ReadFrame(page.frames, read, indices[k]).Err?;
      assert batch == Err(IndexError);
      assert single.Err?;
    }
  }

  /** What `get_decoded_tile` returns: a white tile for positions off the grid, else the decoded frame. */
  datatype DecodedTile = WhiteTile(size: Size) | Decoded(frame: bytes)

  /**
   * `get_decoded_tile`: a position off the grid gives a `tile_size` × 3
   * array of 255 without reading any frame; otherwise the frame is read
   * and handed to the (abstract) decoder.
   */
  function DecodedNativeTile(page: NativePage, read: (int, int) -> bytes, tileSize: Size, p: Point): (r: Result<DecodedTile>)
    ensures !InsideImage(p, page.tiled) ==> r == Ok(WhiteTile(tileSize))
    ensures InsideImage(p, page.tiled) ==> (r.Ok? <==> NativeTile(page, read, p).Ok?)
    ensures InsideImage(p, page.tiled) && r.Ok? ==> r.value == Decoded(NativeTile(page, read, p).value)
  {
    if !InsideImage(p, page.tiled) then Ok(WhiteTile(tileSize))
    else
      var frame :- NativeTile(page, read, p);
      Ok(Decoded(frame))
  }

  /** tifffile's `COMPRESSION.JPEG`. */
  const JpegCompression := 7

  /**
   * The compression guard of `TiffImage`: a non-`None` list of supported
   * compressions must contain the page's compression, else
   * `NotImplementedError`.
   */
  function CheckCompression(supported: Option<seq<int>>, compression: int): (r: Result<()>)
    ensures r.Ok? <==> supported.None? || compression in supported.value
    ensures r.Err? ==> r.error == NotImplementedError
  {
    if supported.Some? && compression !in supported.value then Err(NotImplementedError) else Ok(())
  }

  /** The key `(series, level, page)` of a page of the file. */
  datatype PageKey = PageKey(series: int, level: int, page: int)

  /** `Tiler.get_label` / `get_overview`: no series index raises `ValueError`, else page `page` of level 0. */
  function AssociatedKey(seriesIndex: Option<int>, page: int): (r: Result<PageKey>)
    ensures r.Ok? <==> seriesIndex.Some?
    ensures r.Err? ==> r.error == ValueError
    ensures r.Ok? ==> r.value == PageKey(seriesIndex.value, 0, page)
  {
    if seriesIndex.None? then Err(ValueError) else Ok(PageKey(seriesIndex.value, 0, page))
  }

  /**
   * `get_tile` of an image stored as one frame (an untiled NDPI or OME
   * page, an SVS striped image): only position `(0, 0)` exists, and it is
   * frame 0 exactly as stored; any other position raises `ValueError`
   * without reading.
   */
  function SingleFrameTile(frames: TiffFrames, read: (int, int) -> bytes, p: Point): (r: Result<bytes>)
    ensures p != Point(0, 0) ==> r == Err(ValueError)
    ensures p == Point(0, 0) ==> r == ReadFrame(frames, read, 0)
    ensures r.Ok? <==> p == Point(0, 0) && |frames.dataOffsets| > 0 && |frames.byteCounts| > 0
  {
    if p != Point(0, 0) then Err(ValueError) else ReadFrame(frames, read, 0)
  }

  // ------------------------------------------------------- file structure

  /** What the tilers read from a TIFF page: whether it is tiled, and `chunks[1]`. */
  datatype TiffPageInfo = TiffPageInfo(isTiled: bool, chunkWidth: int)

  /** A series of the file: its name and its levels, each a list of pages. */
  datatype TiffSeries = TiffSeries(name: string, levels: seq<seq<TiffPageInfo>>)

  /** `series[s].levels[l].pages[p]` with Python list indexing. */
  function PageAt(series: seq<TiffSeries>, s: int, l: int, p: int): (r: Result<TiffPageInfo>)
    ensures r.Err? ==> r.error == IndexError
  {
    var ser :- Index(series, s);
    var level :- Index(ser.levels, l);
    Index(level, p)
  }

  /** The index of the last series with the given name, as the constructor's loop leaves it. */
  function LastNamed(series: seq<TiffSeries>, name: string): (r: Option<int>)
    ensures r.Some? ==> 0 <= r.value < |series| && series[r.value].name == name
    ensures r.Some? ==> forall i :: r.value < i < |series| ==> series[i].name != name
    ensures r.None? ==> forall i :: 0 <= i < |series| ==> series[i].name != name
  {
    if series == [] then None
    else if series[|series| - 1].name == name then Some(|series| - 1)
    else LastNamed(series[..|series| - 1], name)
  }
}
