/**
 * The NDPI images of the second generation of the tiler: sorting requested
 * tile positions into frame jobs, producing the tiles of each job from one
 * extended frame, and the frame geometry of one-frame and striped levels.
 * The foreign JPEG calls (`crop_multiple`, `get_mcu`) and the file reads are
 * parameters.
 */
module NdpiImages {
  import opened Wrappers
  import opened PyBytes
  import opened Geometry
  import opened JpegSplice
  import opened JpegConcat
  import opened NdpiTiles
  import opened TileGrid
  import opened Grouping

  // ------------------------------------------------------------- frame jobs

  /**
   * The tile made for a requested position: the tiled size is computed (a
   * zero tile dimension raises), a position outside it raises `ValueError`,
   * then the frame size for the position is
   * asked for, then the tile is constructed.
   */
  function MakeTile(p: Point, tiled: Result<Size>, tileSize: Size, frameSizeFor: Point -> Result<Size>): (r: Result<Tile>)
    ensures tiled.Err? ==> r == Err(tiled.error)
    ensures tiled.Ok? && !InsideImage(p, tiled.value) ==> r == Err(ValueError)
    ensures r.Ok? ==> tiled.Ok? && InsideImage(p, tiled.value)
    ensures r.Ok? ==> r.value.position == p && r.value.tileSize == tileSize
    ensures r.Ok? ==> frameSizeFor(p) == Ok(r.value.frameSize)
  {
    var t :- tiled;
    if !InsideImage(p, t) then Err(ValueError)
    else
      var frameSize :- frameSizeFor(p);
      NewTile(p, tileSize, frameSize)
  }

  /**
   * The tiles for the first `n` positions, in order; the first position
   * that fails decides the error.
   */
  function MakeTiles(positions: seq<Point>, n: nat, tiled: Result<Size>, tileSize: Size, frameSizeFor: Point -> Result<Size>)
    : (r: Result<seq<Tile>>)
    requires n <= |positions|
    ensures r.Ok? ==> |r.value| == n
  {
    if n == 0 then Ok([])
    else
      var init :- MakeTiles(positions, n - 1, tiled, tileSize, frameSizeFor);
      var last :- MakeTile(positions[n - 1], tiled, tileSize, frameSizeFor);
      Ok(init + [last])
  }

  /** A list that succeeds holds, at each index, the tile made for the position there. */
  lemma {:induction false} MakeTilesPointwise(positions: seq<Point>, n: nat, tiled: Result<Size>, tileSize: Size, frameSizeFor: Point -> Result<Size>)
    requires n <= |positions| && MakeTiles(positions, n, tiled, tileSize, frameSizeFor).Ok?
    ensures forall i :: 0 <= i < n ==>
      MakeTile(positions[i], tiled, tileSize, frameSizeFor) == Ok(MakeTiles(positions, n, tiled, tileSize, frameSizeFor).value[i])
  {
    if n > 0 {
      MakeTilesPointwise(positions, n - 1, tiled, tileSize, frameSizeFor);
    }
  }

  /** Position `i` is the first that cannot be made into a tile, and it fails with `e`. */
  predicate FirstFailure(positions: seq<Point>, i: nat, e: Error, tiled: Result<Size>, tileSize: Size, frameSizeFor: Point -> Result<Size>)
    requires i < |positions|
  {
    MakeTile(positions[i], tiled, tileSize, frameSizeFor) == Err(e)
    && forall j :: 0 <= j < i ==> MakeTile(positions[j], tiled, tileSize, frameSizeFor).Ok?
  }

  /** A failing list fails with the error of its first position that cannot be made into a tile. */
  lemma {:induction false} MakeTilesFirstError(positions: seq<Point>, n: nat, tiled: Result<Size>, tileSize: Size, frameSizeFor: Point -> Result<Size>)
    requires n <= |positions| && MakeTiles(positions, n, tiled, tileSize, frameSizeFor).Err?
    ensures exists i :: 0 <= i < n && FirstFailure(positions, i, MakeTiles(positions, n, tiled, tileSize, frameSizeFor).error, tiled, tileSize, frameSizeFor)
  {
    var e := MakeTiles(positions, n, tiled, tileSize, frameSizeFor).error;
    if MakeTiles(positions, n - 1, tiled, tileSize, frameSizeFor).Err? {
      MakeTilesFirstError(positions, n - 1, tiled, tileSize, frameSizeFor);
      var i :| 0 <= i < n - 1 && FirstFailure(positions, i, e, tiled, tileSize, frameSizeFor);
      assert FirstFailure(positions, i, e, tiled, tileSize, frameSizeFor);
    } else {
      MakeTilesPointwise(positions, n - 1, tiled, tileSize, frameSizeFor);
      assert FirstFailure(positions, n - 1, e, tiled, tileSize, frameSizeFor);
    }
  }

  /** Once the first `i` positions fail, the first `m >= i` fail with the same error. */
  lemma {:induction false} MakeTilesFailure(positions: seq<Point>, i: nat, m: nat, tiled: Result<Size>, tileSize: Size, frameSizeFor: Point -> Result<Size>)
    requires i <= m <= |positions| && MakeTiles(positions, i, tiled, tileSize, frameSizeFor).Err?
    ensures MakeTiles(positions, m, tiled, tileSize, frameSizeFor) == MakeTiles(positions, i, tiled, tileSize, frameSizeFor)
    decreases m
  {
    if i < m {
      MakeTilesFailure(positions, i, m - 1, tiled, tileSize, frameSizeFor);
    }
  }

  /** The key the frame jobs are sorted by. */
  function FrameOf(t: Tile): Point
  {
    t.FramePosition()
  }

  /**
   * The frame jobs of `tiles`: one per frame position, in order of first
   * appearance, each holding the tiles of its frame. The dictionary of the
   * source maps each job's frame position to the job, so in insertion
   * order it is this list.
   */
  ghost predicate JobsOf(jobs: seq<NdpiFrameJob>, tiles: seq<Tile>)
    reads set j | 0 <= j < |jobs| :: jobs[j]
  {
    var keys := Keys(tiles, FrameOf);
    |jobs| == |keys|
    && forall j :: 0 <= j < |jobs| ==>
      jobs[j].position == keys[j] && jobs[j].Valid() && jobs[j].tiles == Group(tiles, FrameOf, keys[j])
  }

  /** The tile joins job `j`, the job of its frame position. */
  method JoinJob(jobs: seq<NdpiFrameJob>, ghost made: seq<Tile>, tile: Tile, j: nat)
    requires JobsOf(jobs, made) && j < |jobs| && jobs[j].position == FrameOf(tile)
    modifies jobs[j]
    ensures JobsOf(jobs, made + [tile])
  {
    KeysSnoc(made, tile, FrameOf);
    var _ := jobs[j].Append(tile);
    forall i | 0 <= i < |jobs|
      ensures jobs[i].Valid() && jobs[i].tiles == Group(made + [tile], FrameOf, jobs[i].position)
    {
      GroupSnoc(made, tile, FrameOf, jobs[i].position);
      if i != j {
        assert jobs[i].position != jobs[j].position;
      }
    }
  }

  /** A new job for a tile whose frame position no job has yet extends the jobs. */
  lemma StartJob(jobs: seq<NdpiFrameJob>, made: seq<Tile>, tile: Tile, job: NdpiFrameJob)
    requires JobsOf(jobs, made) && forall j :: 0 <= j < |jobs| ==> jobs[j].position != FrameOf(tile)
    requires job.Valid() && job.position == FrameOf(tile) && job.tiles == [tile]
    ensures JobsOf(jobs + [job], made + [tile])
  {
    KeysSnoc(made, tile, FrameOf);
    GroupOfAbsentKey(made, FrameOf, FrameOf(tile));
    var jobs' := jobs + [job];
    forall i | 0 <= i < |jobs'|
      ensures jobs'[i].Valid() && jobs'[i].tiles == Group(made + [tile], FrameOf, jobs'[i].position)
    {
      GroupSnoc(made, tile, FrameOf, jobs'[i].position);
    }
  }

  /** One tile sorted into the jobs: it joins the job of its frame position, or starts a new one. */
  method SortTile(jobs: seq<NdpiFrameJob>, ghost made: seq<Tile>, tile: Tile) returns (jobs': seq<NdpiFrameJob>)
    requires JobsOf(jobs, made)
    modifies set j | 0 <= j < |jobs| :: jobs[j]
    ensures JobsOf(jobs', made + [tile])
    ensures |jobs| <= |jobs'| && forall j :: 0 <= j < |jobs| ==> jobs'[j] == jobs[j]
    ensures forall j :: |jobs| <= j < |jobs'| ==> fresh(jobs'[j])
  {
    if j :| 0 <= j < |jobs| && jobs[j].position == FrameOf(tile) {
      JoinJob(jobs, made, tile, j);
      jobs' := jobs;
    } else {
      var job := new NdpiFrameJob(tile);
      StartJob(jobs, made, tile, job);
      jobs' := jobs + [job];
    }
  }

  /** The tile for position `i`, after the first `i` positions made `made`. */
  method NextTile(positions: seq<Point>, i: nat, ghost made: seq<Tile>, tiled: Result<Size>, tileSize: Size, frameSizeFor: Point -> Result<Size>)
    returns (r: Result<Tile>)
    requires i < |positions| && MakeTiles(positions, i, tiled, tileSize, frameSizeFor) == Ok(made)
    ensures r.Err? ==> MakeTiles(positions, |positions|, tiled, tileSize, frameSizeFor) == Err(r.error)
    ensures r.Ok? ==> MakeTiles(positions, i + 1, tiled, tileSize, frameSizeFor) == Ok(made + [r.value])
  {
    r := MakeTile(positions[i], tiled, tileSize, frameSizeFor);
    if r.Err? {
      MakeTilesFailure(positions, i + 1, |positions|, tiled, tileSize, frameSizeFor);
    }
  }

  /**
   * `_sort_into_frame_jobs`: each position is made into a tile (the first
   * position that fails raises its error), and the tiles are collected in
   * a dictionary of frame jobs keyed by frame position, whose values are
   * returned in insertion order.
   */
  method SortIntoFrameJobs(positions: seq<Point>, tiled: Result<Size>, tileSize: Size, frameSizeFor: Point -> Result<Size>)
    returns (r: Result<seq<NdpiFrameJob>>)
    ensures MakeTiles(positions, |positions|, tiled, tileSize, frameSizeFor).Err? ==>
      r == Err(MakeTiles(positions, |positions|, tiled, tileSize, frameSizeFor).error)
    ensures MakeTiles(positions, |positions|, tiled, tileSize, frameSizeFor).Ok? ==>
      r.Ok? && JobsOf(r.value, MakeTiles(positions, |positions|, tiled, tileSize, frameSizeFor).value)
    ensures r.Ok? ==> forall j :: 0 <= j < |r.value| ==> fresh(r.value[j])
  {
    var jobs: seq<NdpiFrameJob> := [];
    ghost var made: seq<Tile> := [];
    var i := 0;
    while i < |positions|
      invariant 0 <= i <= |positions|
      invariant MakeTiles(positions, i, tiled, tileSize, frameSizeFor) == Ok(made)
      invariant JobsOf(jobs, made)
      invariant forall j :: 0 <= j < |jobs| ==> fresh(jobs[j])
    {
      var made1 := NextTile(positions, i, made, tiled, tileSize, frameSizeFor);
      if made1.Err? {
        return Err(made1.error);
      }
      jobs := SortTile(jobs, made, made1.value);
      made := made + [made1.value];
      i := i + 1;
    }
    return Ok(jobs);
  }

  // --------------------------------------------------------- level geometry

  /** How the frames of a tiled NDPI level are stored. */
  datatype Layout =
      /** One frame holds the whole level; `mcu` is what the JPEG library reports for it. */
    | OneFrame(mcu: Result<Size>)
      /** Stripes of `stripeSize` pixels, `stripedSize` of them across and down, under one `jpegHeader`. */
    | Striped(stripeSize: Size, stripedSize: Size, jpegHeader: bytes)

  /** A tiled NDPI level: its pixel size, the requested tile size and the way its frames are stored. */
  datatype NdpiLevel = NdpiLevel(imageSize: Size, tileSize: Size, layout: Layout)
  {
    /** `_get_file_frame_size`: the level size for one frame, the stripe size for stripes. */
    function FileFrameSize(): Size
    {
      if layout.OneFrame? then imageSize else layout.stripeSize
    }

    /** `frame_size`: the default read size, the larger of tile and stored frame in each axis. */
    function FrameSize(): Size
    {
      MaxSize(tileSize, FileFrameSize())
    }

    /** `tiled_size` of the level. */
    function Tiled(): Result<Size>
    {
      TiledSize(imageSize, tileSize)
    }

    /**
     * `suggested_minimum_chunk_size`: how many tiles one frame row holds,
     * at least one.
     */
    function SuggestedMinimumChunkSize(): (r: Result<int>)
      ensures r.Err? <==> tileSize.width == 0
      ensures r.Err? ==> r.error == ZeroDivisionError
      ensures r.Ok? ==> r.value >= 1
      ensures r.Ok? && tileSize.width > 0 && r.value > 1 ==>
        r.value * tileSize.width <= FrameSize().width < (r.value + 1) * tileSize.width
    {
      if tileSize.width == 0 then Err(ZeroDivisionError)
      else Ok(Max(FloorDiv(FrameSize().width, tileSize.width), 1))
    }

    /** `_get_frame_size_for_tile` of the level's kind of image. */
    function FrameSizeForTile(p: Point): Result<Size>
    {
      match layout
      case OneFrame(_) => OneFrameReadSize(FrameSize(), tileSize)
      case Striped(stripe, striped, _) =>
        var tiled :- Tiled();
        Ok(StripedReadSize(p, tiled, tileSize, stripe, striped, FrameSize()))
    }
  }

  /** The frame-size function of a level, as one value. */
  function FrameSizeFn(level: NdpiLevel): Point -> Result<Size>
  {
    p => level.FrameSizeForTile(p)
  }

  /**
   * The read size of a one-frame level, `(frame_size // tile_size + 1) *
   * tile_size`: the smallest multiple of the tile size that is strictly
   * larger than the frame, in each axis.
   */
  function OneFrameReadSize(frameSize: Size, tileSize: Size): (r: Result<Size>)
    ensures r.Err? <==> tileSize.width == 0 || tileSize.height == 0
    ensures r.Err? ==> r.error == ZeroDivisionError
    ensures r.Ok? && Positive(tileSize) ==>
      r.value.width % tileSize.width == 0 && r.value.height % tileSize.height == 0
      && frameSize.width < r.value.width <= frameSize.width + tileSize.width
      && frameSize.height < r.value.height <= frameSize.height + tileSize.height
  {
    if tileSize.width == 0 || tileSize.height == 0 then Err(ZeroDivisionError)
    else
      var w := (FloorDiv(frameSize.width, tileSize.width) + 1) * tileSize.width;
      var h := (FloorDiv(frameSize.height, tileSize.height) + 1) * tileSize.height;
      assert tileSize.width > 0 ==> w % tileSize.width == 0 by {
        if tileSize.width > 0 {
          MultipleMod(FloorDiv(frameSize.width, tileSize.width) + 1, tileSize.width);
        }
      }
      assert tileSize.height > 0 ==> h % tileSize.height == 0 by {
        if tileSize.height > 0 {
          MultipleMod(FloorDiv(frameSize.height, tileSize.height) + 1, tileSize.height);
        }
      }
      Ok(Size(w, h))
  }

  lemma MultipleMod(k: int, t: int)
    requires t > 0
    ensures (k * t) % t == 0
  {
    DivModUnique(k * t, t, k, 0);
  }

  /**
   * `_is_partial_frame` and `_get_frame_size_for_tile` of a striped level:
   * in the last tile column, when stripes are narrower than tiles, the
   * frame only reaches to the right edge of the striped image; likewise for
   * the last row. Elsewhere it is the default frame size.
   */
  function StripedReadSize(p: Point, tiled: Size, tileSize: Size, stripe: Size, striped: Size, frameSize: Size): Size
  {
    var partialX := p.x == tiled.width - 1 && stripe.width < tileSize.width;
    var partialY := p.y == tiled.height - 1 && stripe.height < tileSize.height;
    Size(
      if partialX then stripe.width * striped.width - p.x * tileSize.width else frameSize.width,
      if partialY then stripe.height * striped.height - p.y * tileSize.height else frameSize.height)
  }

  /**
   * In the last column of a level whose tiled width covers the striped
   * image, a partial frame is what is left of the image there: at least one
   * pixel and at most one tile wide. The same holds for rows.
   */
  lemma PartialFrameIsImageRest(p: Point, tiled: Size, tileSize: Size, stripe: Size, striped: Size, frameSize: Size)
    requires Positive(tileSize) && Positive(stripe) && Positive(striped)
    requires TiledSize(Size(stripe.width * striped.width, stripe.height * striped.height), tileSize) == Ok(tiled)
    requires p.x == tiled.width - 1 && stripe.width < tileSize.width
    ensures var w := StripedReadSize(p, tiled, tileSize, stripe, striped, frameSize).width;
      0 < w <= tileSize.width
  {
    var imageWidth := stripe.width * striped.width;
    assert imageWidth > 0 by { MulMonotone(1, striped.width, stripe.width); }
  }

  /**
   * Tile (99, 74) of a level of 100 × 75 tiles of 512 pixels, stored as
   * 25 × 4768 stripes of 2048 × 8 pixels, is read from a 2048 × 256 frame:
   * the last row is partial, the last column is not.
   */
  lemma StripedReadSizeExample()
    ensures StripedReadSize(Point(99, 74), Size(100, 75), Size(512, 512), Size(2048, 8), Size(25, 4768), Size(2048, 512))
      == Size(2048, 256)
  {
  }

  /**
   * `stripe_region` of `_read_extended_frame`: it starts at the stripe that
   * holds the tile's upper left pixel and spans `frame_size // stripe_size`
   * stripes, at least one, in each axis. A zero stripe dimension raises
   * `ZeroDivisionError`.
   */
  function StripeRegion(position: Point, frameSize: Size, tileSize: Size, stripe: Size): (r: Result<Region>)
    ensures r.Err? <==> stripe.width == 0 || stripe.height == 0
    ensures r.Err? ==> r.error == ZeroDivisionError
    ensures r.Ok? ==> r.value.size.width >= 1 && r.value.size.height >= 1
    ensures r.Ok? && Positive(stripe) ==>
      r.value.start.x * stripe.width <= position.x * tileSize.width < (r.value.start.x + 1) * stripe.width
      && r.value.start.y * stripe.height <= position.y * tileSize.height < (r.value.start.y + 1) * stripe.height
    ensures r.Ok? && Positive(stripe) && frameSize.width >= stripe.width ==>
      r.value.size.width * stripe.width <= frameSize.width
    ensures r.Ok? && Positive(stripe) && frameSize.height >= stripe.height ==>
      r.value.size.height * stripe.height <= frameSize.height
  {
    if stripe.width == 0 || stripe.height == 0 then Err(ZeroDivisionError)
    else
      var start := Point(FloorDiv(position.x * tileSize.width, stripe.width), FloorDiv(position.y * tileSize.height, stripe.height));
      var size := MaxSize(Size(FloorDiv(frameSize.width, stripe.width), FloorDiv(frameSize.height, stripe.height)), Size(1, 1));
      Ok(Region(start, size))
  }

  /** `_get_stripe_position_to_index`: stripes are numbered row by row. */
  function StripeIndex(p: Point, striped: Size): int
  {
    p.x + p.y * striped.width
  }

  /** With 25 stripe columns, stripe (50, 0) is number 50 and stripe (20, 20) number 520. */
  lemma StripeIndexExamples()
    ensures StripeIndex(Point(50, 0), Size(25, 4768)) == 50
    ensures StripeIndex(Point(20, 20), Size(25, 4768)) == 520
  {
  }

  /** The stripe numbers of a region, visited row by row. */
  function StripeIndices(region: Region, striped: Size): (r: seq<int>)
    requires region.size.width >= 0 && region.size.height >= 0
    ensures |r| == region.size.width * region.size.height
    ensures forall i :: 0 <= i < |r| ==> r[i] == StripeIndex(RegionPoints(region)[i], striped)
  {
    var points := RegionPoints(region);
    seq(|points|, i requires 0 <= i < |points| => StripeIndex(points[i], striped))
  }

  /**
   * A region that lies within the striped image names each of its stripes
   * once, and every number is a stripe of the image.
   */
  lemma StripeIndicesDistinct(region: Region, striped: Size)
    requires region.size.width >= 1 && region.size.height >= 1
    requires 0 <= region.start.x && region.start.x + region.size.width <= striped.width
    requires 0 <= region.start.y && region.start.y + region.size.height <= striped.height
    ensures Distinct(StripeIndices(region, striped))
    ensures forall i :: 0 <= i < |StripeIndices(region, striped)| ==>
      0 <= StripeIndices(region, striped)[i] < striped.width * striped.height
  {
    var points := RegionPoints(region);
    var indices := StripeIndices(region, striped);
    forall i | 0 <= i < |points|
      ensures 0 <= indices[i] < striped.width * striped.height
    {
      StripePointOnGrid(region, striped, i);
    }
    forall i, j | 0 <= i < j < |indices|
      ensures indices[i] != indices[j]
    {
      if indices[i] == indices[j] {
        StripePointOnGrid(region, striped, i);
        StripePointOnGrid(region, striped, j);
        FrameIndexInjective(points[i], points[j], striped);
      }
    }
  }

  /** The `i`-th point of the region lies on the stripe grid and its index is the frame index of that point. */
  lemma StripePointOnGrid(region: Region, striped: Size, i: int)
    requires region.size.width >= 1 && region.size.height >= 1
    requires 0 <= region.start.x && region.start.x + region.size.width <= striped.width
    requires 0 <= region.start.y && region.start.y + region.size.height <= striped.height
    requires 0 <= i < |RegionPoints(region)|
    ensures var p := RegionPoints(region)[i];
      0 <= p.x < striped.width && 0 <= p.y < striped.height
      && |StripeIndices(region, striped)| == |RegionPoints(region)|
      && StripeIndices(region, striped)[i] == FrameIndex(p, striped)
      && 0 <= StripeIndices(region, striped)[i] < striped.width * striped.height
  {
    var w := region.size.width;
    assert i / w < region.size.height by {
      DivBelow(i, w, region.size.height);
    }
    FrameIndexOnGrid(RegionPoints(region)[i], striped);
  }

  lemma DivBelow(i: int, w: int, h: int)
    requires w > 0 && 0 <= i < w * h
    ensures i / w < h
  {
    if i / w >= h {
      MulMonotone(h, i / w, w);
    }
  }

  // -------------------------------------------------------- extended frames

  /**
   * The test `image % mcu != 0` in either axis, with Python's short-circuit
   * `or`: a zero MCU dimension that is reached raises `ZeroDivisionError`.
   */
  function McuMisaligned(imageSize: Size, mcu: Size): (r: Result<bool>)
    ensures Positive(mcu) ==> r == Ok(imageSize.width % mcu.width != 0 || imageSize.height % mcu.height != 0)
  {
    if mcu.width == 0 then Err(ZeroDivisionError)
    else if FloorMod(imageSize.width, mcu.width) != 0 then Ok(true)
    else if mcu.height == 0 then Err(ZeroDivisionError)
    else Ok(FloorMod(imageSize.height, mcu.height) != 0)
  }

  /** `Size.ceil_div(image_size, mcu) * mcu`: the image size rounded up to whole MCUs. */
  function WholeMcuSize(imageSize: Size, mcu: Size): (r: Result<Size>)
    ensures r.Err? <==> mcu.width == 0 || mcu.height == 0
    ensures r.Ok? && Positive(mcu) ==>
      r.value.width % mcu.width == 0 && imageSize.width <= r.value.width < imageSize.width + mcu.width
      && r.value.height % mcu.height == 0 && imageSize.height <= r.value.height < imageSize.height + mcu.height
  {
    if mcu.width == 0 || mcu.height == 0 then Err(ZeroDivisionError)
    else
      var w := CeilDivInt(imageSize.width, mcu.width);
      var h := CeilDivInt(imageSize.height, mcu.height);
      assert mcu.width > 0 ==> (w * mcu.width) % mcu.width == 0 by {
        if mcu.width > 0 { MultipleMod(w, mcu.width); }
      }
      assert mcu.height > 0 ==> (h * mcu.height) % mcu.height == 0 by {
        if mcu.height > 0 { MultipleMod(h, mcu.height); }
      }
      Ok(Size(w * mcu.width, h * mcu.height))
  }

  /**
   * The frame a one-frame level crops from: only position (0, 0) is
   * accepted; frame 0 is read, and its header is rewritten to the size
   * rounded up to whole MCUs when the level size is not a whole number of
   * MCUs.
   */
  function OneFrameSource(imageSize: Size, mcu: Result<Size>, frames: TiffFrames, read: (int, int) -> bytes, position: Point)
    : (r: Result<bytes>)
    ensures position != Point(0, 0) ==> r == Err(ValueError)
    ensures position == Point(0, 0) && ReadFrame(frames, read, 0).Ok? && mcu.Ok? && Positive(mcu.value) ==>
      var frame := ReadFrame(frames, read, 0).value;
      (imageSize.width % mcu.value.width == 0 && imageSize.height % mcu.value.height == 0 ==> r == Ok(frame))
      && (imageSize.width % mcu.value.width != 0 || imageSize.height % mcu.value.height != 0 ==>
            r == SetFrameSize(frame, WholeMcuSize(imageSize, mcu.value).value))
  {
    if position != Point(0, 0) then Err(ValueError)
    else
      var frame :- ReadFrame(frames, read, 0);
      var m :- mcu;
      var misaligned :- McuMisaligned(imageSize, m);
      if !misaligned then Ok(frame)
      else
        var even :- WholeMcuSize(imageSize, m);
        SetFrameSize(frame, even)
  }

  /**
   * `_read_extended_frame` of a one-frame level: one crop of `frame_size`
   * from the corner of the frame; it succeeds exactly when the source frame
   * is read and the crop gives at least one tile.
   */
  function OneFrameExtended(imageSize: Size, mcu: Result<Size>, frames: TiffFrames, read: (int, int) -> bytes,
                            crop: (bytes, seq<CropBox>) -> Result<seq<bytes>>, position: Point, frameSize: Size)
    : (r: Result<bytes>)
    ensures position != Point(0, 0) ==> r == Err(ValueError)
    ensures var source := OneFrameSource(imageSize, mcu, frames, read, position);
      var box := [CropBox(0, 0, frameSize.width, frameSize.height)];
      source.Ok? && crop(source.value, box).Ok? && |crop(source.value, box).value| >= 1 ==> r.Ok?
    ensures r.Ok? ==>
      var source := OneFrameSource(imageSize, mcu, frames, read, position);
      source.Ok? && crop(source.value, [CropBox(0, 0, frameSize.width, frameSize.height)]).Ok?
      && |crop(source.value, [CropBox(0, 0, frameSize.width, frameSize.height)]).value| >= 1
      && r.value == crop(source.value, [CropBox(0, 0, frameSize.width, frameSize.height)]).value[0]
  {
    var source :- OneFrameSource(imageSize, mcu, frames, read, position);
    var cropped :- crop(source, [CropBox(0, 0, frameSize.width, frameSize.height)]);
    Index(cropped, 0)
  }

  /**
   * `_read_extended_frame` of a striped level: the stored header with its
   * size set to the frame size, then the stripes of the stripe region, read
   * one after the other, as fragments of one frame.
   */
  function StripedFrame(tileSize: Size, stripe: Size, striped: Size, jpegHeader: bytes, frames: TiffFrames,
                        read: (int, int) -> bytes, position: Point, frameSize: Size): Result<bytes>
  {
    var header :- SetFrameSize(jpegHeader, frameSize);
    var region :- StripeRegion(position, frameSize, tileSize, stripe);
    FragmentsFrame(StripeReads(region, striped, frames, read), header)
  }

  /** What reading each stripe of the region, in region order, gives. */
  function StripeReads(region: Region, striped: Size, frames: TiffFrames, read: (int, int) -> bytes): (r: seq<Result<bytes>>)
    requires region.size.width >= 0 && region.size.height >= 0
    ensures |r| == region.size.width * region.size.height
    ensures forall i :: 0 <= i < |r| ==> r[i] == ReadFrame(frames, read, StripeIndices(region, striped)[i])
  {
    var indices := StripeIndices(region, striped);
    seq(|indices|, i requires 0 <= i < |indices| => ReadFrame(frames, read, indices[i]))
  }

  /** `_read_extended_frame` of the level, without its caches. */
  function ExtendedFrame(level: NdpiLevel, frames: TiffFrames, read: (int, int) -> bytes,
                         crop: (bytes, seq<CropBox>) -> Result<seq<bytes>>, position: Point, frameSize: Size): Result<bytes>
  {
    match level.layout
    case OneFrame(mcu) => OneFrameExtended(level.imageSize, mcu, frames, read, crop, position, frameSize)
    case Striped(stripe, striped, jpegHeader) =>
      StripedFrame(level.tileSize, stripe, striped, jpegHeader, frames, read, position, frameSize)
  }

  // ------------------------------------------------------------------ tiles

  /**
   * `_crop_to_tiles`: the frame is cropped once per tile (a `JpegCropError`
   * becomes `ValueError`), and the crops are collected in a dictionary keyed
   * by tile position; too few crops raise `IndexError`.
   */
  function CropToTiles(tiles: seq<Tile>, frame: bytes, crop: (bytes, seq<CropBox>) -> Result<seq<bytes>>)
    : (r: Result<seq<(Point, bytes)>>)
    ensures crop(frame, CropsOf(tiles)) == Err(JpegCropError) ==> r == Err(ValueError)
    ensures r.Ok? ==> crop(frame, CropsOf(tiles)).Ok? && |tiles| <= |crop(frame, CropsOf(tiles)).value|
  {
    var cropped := crop(frame, CropsOf(tiles));
    if cropped.Err? then Err(if cropped.error == JpegCropError then ValueError else cropped.error)
    else if |cropped.value| < |tiles| then Err(IndexError)
    else Ok(DictOf(seq(|tiles|, i requires 0 <= i < |tiles| => (tiles[i].position, cropped.value[i]))))
  }

  /** The position of a tile. */
  function PositionOf(t: Tile): Point
  {
    t.position
  }

  /** With tiles at distinct positions, there is one crop per tile, in tile order. */
  lemma CropToTilesDistinct(tiles: seq<Tile>, frame: bytes, crop: (bytes, seq<CropBox>) -> Result<seq<bytes>>)
    requires KeysDistinct(tiles, PositionOf) && CropToTiles(tiles, frame, crop).Ok?
    ensures Values(CropToTiles(tiles, frame, crop).value) == crop(frame, CropsOf(tiles)).value[..|tiles|]
  {
    var cropped := crop(frame, CropsOf(tiles)).value;
    var items := seq(|tiles|, i requires 0 <= i < |tiles| => (tiles[i].position, cropped[i]));
    assert KeysDistinct(items, KeyOf) by {
      forall i, j | 0 <= i < j < |items|
        ensures KeyOf(items[i]) != KeyOf(items[j])
      {
        assert PositionOf(tiles[i]) != PositionOf(tiles[j]);
      }
    }
    DictOfDistinct(items);
  }

  /**
   * The tiles of the first `n` frame jobs, job after job, given what
   * creating each job gives; the first failure is raised.
   */
  function JobsTiles(created: seq<Result<seq<(Point, bytes)>>>, n: nat): Result<seq<bytes>>
    requires n <= |created|
  {
    if n == 0 then Ok([])
    else
      var init :- JobsTiles(created, n - 1);
      var dict :- created[n - 1];
      Ok(init + Values(dict))
  }

  /** `_create_tiles` of a job at `position` with `frameSize`: its extended frame, cropped into its tiles. */
  function CreatedTiles(level: NdpiLevel, frames: TiffFrames, read: (int, int) -> bytes,
                        crop: (bytes, seq<CropBox>) -> Result<seq<bytes>>, position: Point, frameSize: Size, tiles: seq<Tile>)
    : Result<seq<(Point, bytes)>>
  {
    var frame :- ExtendedFrame(level, frames, read, crop, position, frameSize);
    CropToTiles(tiles, frame, crop)
  }

  /** What creating the job of each group gives: a job is at its first tile's frame position and frame size. */
  function JobResults(level: NdpiLevel, frames: TiffFrames, read: (int, int) -> bytes,
                      crop: (bytes, seq<CropBox>) -> Result<seq<bytes>>, groups: seq<seq<Tile>>)
    : (r: seq<Result<seq<(Point, bytes)>>>)
    requires forall j :: 0 <= j < |groups| ==> groups[j] != []
    ensures |r| == |groups|
  {
    seq(|groups|, j requires 0 <= j < |groups| =>
      CreatedTiles(level, frames, read, crop, groups[j][0].FramePosition(), groups[j][0].frameSize, groups[j]))
  }

  /** A job whose tiles are at distinct positions gives one tile per tile. */
  lemma CreatedTilesLength(level: NdpiLevel, frames: TiffFrames, read: (int, int) -> bytes,
                           crop: (bytes, seq<CropBox>) -> Result<seq<bytes>>, position: Point, frameSize: Size, tiles: seq<Tile>)
    requires KeysDistinct(tiles, PositionOf)
    requires CreatedTiles(level, frames, read, crop, position, frameSize, tiles).Ok?
    ensures |CreatedTiles(level, frames, read, crop, position, frameSize, tiles).value| == |tiles|
  {
    var frame := ExtendedFrame(level, frames, read, crop, position, frameSize).value;
    CropToTilesDistinct(tiles, frame, crop);
  }

  /** Every group of a grouping holds at least one element. */
  lemma GroupsNonEmpty<T, K>(xs: seq<T>, key: T -> K)
    ensures forall j :: 0 <= j < |Groups(xs, key)| ==> Groups(xs, key)[j] != []
  {
    forall j | 0 <= j < |Groups(xs, key)|
      ensures Groups(xs, key)[j] != []
    {
      GroupOfPresentKey(xs, key, Keys(xs, key)[j]);
    }
  }

  /**
   * `get_tiles` of a tiled level: the positions are sorted into frame jobs,
   * and the tiles of each job are produced, job after job.
   */
  function GetTilesSpec(level: NdpiLevel, frames: TiffFrames, read: (int, int) -> bytes,
                        crop: (bytes, seq<CropBox>) -> Result<seq<bytes>>, positions: seq<Point>): Result<seq<bytes>>
  {
    var tiles :- MakeTiles(positions, |positions|, level.Tiled(), level.tileSize, FrameSizeFn(level));
    var groups := Groups(tiles, FrameOf);
    GroupsNonEmpty(tiles, FrameOf);
    JobsTiles(JobResults(level, frames, read, crop, groups), |groups|)
  }

  /** Once the first `i` jobs fail, the first `m >= i` fail the same way. */
  lemma {:induction false} JobsTilesStop(created: seq<Result<seq<(Point, bytes)>>>, i: nat, m: nat)
    requires i <= m <= |created| && JobsTiles(created, i).Err?
    ensures JobsTiles(created, m) == JobsTiles(created, i)
    decreases m
  {
    if i < m {
      JobsTilesStop(created, i, m - 1);
    }
  }

  /** When every job gives one tile per tile, the first `n` jobs give as many tiles as their groups hold. */
  lemma {:induction false} JobsTilesLength(created: seq<Result<seq<(Point, bytes)>>>, groups: seq<seq<Tile>>, n: nat)
    requires n <= |created| == |groups|
    requires forall j :: 0 <= j < |groups| && created[j].Ok? ==> |created[j].value| == |groups[j]|
    requires JobsTiles(created, n).Ok?
    ensures |JobsTiles(created, n).value| == |Flatten(groups[..n])|
  {
    if n > 0 {
      JobsTilesLength(created, groups, n - 1);
      assert groups[..n][..n - 1] == groups[..n - 1];
    }
  }

  /** With tiles at distinct positions, every job that succeeds gives one tile per tile of its group. */
  lemma JobsMatchGroups(level: NdpiLevel, frames: TiffFrames, read: (int, int) -> bytes,
                        crop: (bytes, seq<CropBox>) -> Result<seq<bytes>>, tiles: seq<Tile>)
    requires KeysDistinct(tiles, PositionOf)
    requires forall j :: 0 <= j < |Groups(tiles, FrameOf)| ==> Groups(tiles, FrameOf)[j] != []
    ensures var groups := Groups(tiles, FrameOf);
      var created := JobResults(level, frames, read, crop, groups);
      forall j :: 0 <= j < |groups| && created[j].Ok? ==> |created[j].value| == |groups[j]|
  {
    var keys := Keys(tiles, FrameOf);
    var groups := Groups(tiles, FrameOf);
    var created := JobResults(level, frames, read, crop, groups);
    forall j | 0 <= j < |groups| && created[j].Ok?
      ensures |created[j].value| == |groups[j]|
    {
      var g := groups[j];
      GroupKeysDistinct(tiles, FrameOf, keys[j], PositionOf);
      CreatedTilesLength(level, frames, read, crop, g[0].FramePosition(), g[0].frameSize, g);
    }
  }

  /** Tiles made from distinct positions are at distinct positions. */
  lemma MadeTilesDistinct(positions: seq<Point>, tiled: Result<Size>, tileSize: Size, frameSizeFor: Point -> Result<Size>)
    requires Distinct(positions) && MakeTiles(positions, |positions|, tiled, tileSize, frameSizeFor).Ok?
    ensures KeysDistinct(MakeTiles(positions, |positions|, tiled, tileSize, frameSizeFor).value, PositionOf)
  {
    var tiles := MakeTiles(positions, |positions|, tiled, tileSize, frameSizeFor).value;
    MakeTilesPointwise(positions, |positions|, tiled, tileSize, frameSizeFor);
    forall i, j | 0 <= i < j < |tiles|
      ensures PositionOf(tiles[i]) != PositionOf(tiles[j])
    {
      assert tiles[i].position == positions[i] && tiles[j].position == positions[j];
    }
  }

  /**
   * `get_tiles` of distinct positions returns one tile per position: the
   * frame jobs share the tiles out among themselves, and within a job no
   * two tiles are at one position.
   */
  lemma GetTilesCount(level: NdpiLevel, frames: TiffFrames, read: (int, int) -> bytes,
                      crop: (bytes, seq<CropBox>) -> Result<seq<bytes>>, positions: seq<Point>)
    requires Distinct(positions)
    ensures GetTilesSpec(level, frames, read, crop, positions).Ok? ==>
      |GetTilesSpec(level, frames, read, crop, positions).value| == |positions|
  {
    if GetTilesSpec(level, frames, read, crop, positions).Err? { return; }
    var tiles := MakeTiles(positions, |positions|, level.Tiled(), level.tileSize, FrameSizeFn(level)).value;
    MadeTilesDistinct(positions, level.Tiled(), level.tileSize, FrameSizeFn(level));
    var groups := Groups(tiles, FrameOf);
    GroupsNonEmpty(tiles, FrameOf);
    var created := JobResults(level, frames, read, crop, groups);
    JobsMatchGroups(level, frames, read, crop, tiles);
    JobsTilesLength(created, groups, |groups|);
    GroupsPartition(tiles, FrameOf);
    assert groups[..|groups|] == groups;
    assert |Flatten(groups)| == |multiset(Flatten(groups))| == |multiset(tiles)| == |tiles|;
  }

  /** `get_tile`: element 0 of `get_tiles` of the one position. */
  function GetTileSpec(level: NdpiLevel, frames: TiffFrames, read: (int, int) -> bytes,
                       crop: (bytes, seq<CropBox>) -> Result<seq<bytes>>, position: Point): Result<bytes>
  {
    var tiles :- GetTilesSpec(level, frames, read, crop, [position]);
    Index(tiles, 0)
  }

  /** `get_tile` fails only where `get_tiles` of the one position fails: that list is never empty. */
  lemma GetTileOfTiles(level: NdpiLevel, frames: TiffFrames, read: (int, int) -> bytes,
                       crop: (bytes, seq<CropBox>) -> Result<seq<bytes>>, position: Point)
    ensures GetTileSpec(level, frames, read, crop, position).Ok? <==> GetTilesSpec(level, frames, read, crop, [position]).Ok?
  {
    if GetTilesSpec(level, frames, read, crop, [position]).Ok? {
      GetTilesCount(level, frames, read, crop, [position]);
    }
  }

  // ------------------------------------------------------------ the image

  /**
   * A tiled NDPI image: a level, its stored frames, and the cache of
   * rewritten stripe headers by frame size that `_read_extended_frame`
   * fills. The file read and the JPEG library's `crop_multiple` are
   * parameters.
   */
  class NdpiTiledImage {
    const level: NdpiLevel
    const frames: TiffFrames
    const read: (int, int) -> bytes
    const crop: (bytes, seq<CropBox>) -> Result<seq<bytes>>
    var headers: map<Size, bytes>

    /** Every cached header is the stored header with its size set to its key. */
    ghost predicate Valid()
      reads this
    {
      forall s :: s in headers ==> level.layout.Striped? && SetFrameSize(level.layout.jpegHeader, s) == Ok(headers[s])
    }

    constructor (level: NdpiLevel, frames: TiffFrames, read: (int, int) -> bytes, crop: (bytes, seq<CropBox>) -> Result<seq<bytes>>)
      ensures Valid() && headers == map[]
      ensures this.level == level && this.frames == frames && this.read == read && this.crop == crop
    {
      this.level := level;
      this.frames := frames;
      this.read := read;
      this.crop := crop;
      headers := map[];
    }

    /**
     * `_read_extended_frame`: for stripes, the header for the frame size is
     * taken from the cache or made and stored; the frame is the same as
     * without the cache.
     */
    method ReadExtendedFrame(position: Point, frameSize: Size) returns (r: Result<bytes>)
      requires Valid()
      modifies this
      ensures Valid()
      ensures r == ExtendedFrame(level, frames, read, crop, position, frameSize)
      ensures old(headers).Keys <= headers.Keys <= old(headers).Keys + {frameSize}
    {
      match level.layout
      case OneFrame(mcu) =>
        r := OneFrameExtended(level.imageSize, mcu, frames, read, crop, position, frameSize);
      case Striped(_, _, _) =>
        r := ReadStripedFrame(position, frameSize);
    }

    /** The striped case of `_read_extended_frame`: the cached header, then the stripes of the region. */
    method ReadStripedFrame(position: Point, frameSize: Size) returns (r: Result<bytes>)
      requires Valid() && level.layout.Striped?
      modifies this
      ensures Valid()
      ensures r == StripedFrame(level.tileSize, level.layout.stripeSize, level.layout.stripedSize,
                                level.layout.jpegHeader, frames, read, position, frameSize)
      ensures old(headers).Keys <= headers.Keys <= old(headers).Keys + {frameSize}
    {
      var header := StripeHeader(frameSize);
      if header.Err? {
        return Err(header.error);
      }
      var region := StripeRegion(position, frameSize, level.tileSize, level.layout.stripeSize);
      if region.Err? {
        return Err(region.error);
      }
      r := ConcatenateFragments(StripeReads(region.value, level.layout.stripedSize, frames, read), header.value);
    }

    /** The stored stripe header with its size set to `frameSize`, from the cache or made and stored. */
    method StripeHeader(frameSize: Size) returns (r: Result<bytes>)
      requires Valid() && level.layout.Striped?
      modifies this
      ensures Valid()
      ensures r == SetFrameSize(level.layout.jpegHeader, frameSize)
      ensures frameSize !in old(headers) && r.Ok? ==> headers == old(headers)[frameSize := r.value]
      ensures frameSize in old(headers) || r.Err? ==> headers == old(headers)
    {
      if frameSize in headers {
        return Ok(headers[frameSize]);
      }
      r := ManipulateHeader(level.layout.jpegHeader, Some(frameSize), None);
      if r.Ok? {
        headers := headers[frameSize := r.value];
      }
    }

    /** `_create_tiles`: the job's extended frame, cropped into its tiles. */
    method CreateTiles(job: NdpiFrameJob) returns (r: Result<seq<(Point, bytes)>>)
      requires Valid()
      modifies this
      ensures Valid()
      ensures r == CreatedTiles(level, frames, read, crop, job.position, job.frameSize, job.tiles)
    {
      var frame := ReadExtendedFrame(job.position, job.frameSize);
      if frame.Err? {
        return Err(frame.error);
      }
      r := CropToTiles(job.tiles, frame.value, crop);
    }

    /**
     * `get_tiles`: the positions are sorted into frame jobs, and the tiles
     * of each job are created, job after job.
     */
    method GetTiles(positions: seq<Point>) returns (r: Result<seq<bytes>>)
      requires Valid()
      modifies this
      ensures Valid()
      ensures r == GetTilesSpec(level, frames, read, crop, positions)
    {
      var sorted := SortIntoFrameJobs(positions, level.Tiled(), level.tileSize, FrameSizeFn(level));
      if sorted.Err? {
        return Err(sorted.error);
      }
      var jobs := sorted.value;
      ghost var tiles := MakeTiles(positions, |positions|, level.Tiled(), level.tileSize, FrameSizeFn(level)).value;
      ghost var groups := Groups(tiles, FrameOf);
      GroupsNonEmpty(tiles, FrameOf);
      ghost var created := JobResults(level, frames, read, crop, groups);
      forall i | 0 <= i < |jobs|
        ensures created[i] == CreatedTiles(level, frames, read, crop, jobs[i].position, jobs[i].frameSize, jobs[i].tiles)
      {
        assert jobs[i].Valid() && jobs[i].tiles == groups[i];
      }
      r := CreateJobsTiles(jobs, created);
    }

    /** The tiles of the frame jobs, job after job, where `created` is what creating each job gives. */
    method CreateJobsTiles(jobs: seq<NdpiFrameJob>, ghost created: seq<Result<seq<(Point, bytes)>>>) returns (r: Result<seq<bytes>>)
      requires Valid() && |created| == |jobs|
      requires forall i {:trigger jobs[i]} :: 0 <= i < |jobs| ==>
        created[i] == CreatedTiles(level, frames, read, crop, jobs[i].position, jobs[i].frameSize, jobs[i].tiles)
      modifies this
      ensures Valid()
      ensures r == JobsTiles(created, |created|)
    {
      var out: seq<bytes> := [];
      var j := 0;
      while j < |jobs|
        invariant 0 <= j <= |jobs|
        invariant Valid()
        invariant JobsTiles(created, j) == Ok(out)
      {
        var dict := CreateTiles(jobs[j]);
        if dict.Err? {
          JobsTilesStop(created, j + 1, |created|);
          return Err(dict.error);
        }
        out := out + Values(dict.value);
        j := j + 1;
      }
      return Ok(out);
    }

    /** `get_tile`: the first tile that `get_tiles` returns for the one position. */
    method GetTile(position: Point) returns (r: Result<bytes>)
      requires Valid()
      modifies this
      ensures Valid()
      ensures r == GetTileSpec(level, frames, read, crop, position)
    {
      var tiles := GetTiles([position]);
      if tiles.Err? {
        return Err(tiles.error);
      }
      r := Index(tiles.value, 0);
    }
  }
}
