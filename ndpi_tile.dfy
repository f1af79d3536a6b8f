/**
 * NDPI tiles and frame jobs. A tile of a tiled NDPI level is cut out of a
 * larger frame; the tile knows which frame (by the position of its upper
 * left tile) and where inside that frame it lies. A frame job collects the
 * tiles that are cut from one frame.
 */
module NdpiTiles {
  import opened Wrappers
  import opened Geometry

  /**
   * A tile at `position` of size `tileSize`, cut from a frame of
   * `frameSize`. Equality of tiles is equality of these three values, as
   * in the source's `__eq__`.
   */
  datatype NdpiTile = NdpiTile(position: Point, tileSize: Size, frameSize: Size)
  {
    /** The divisions made at construction do not divide by zero. */
    predicate WellFormed()
    {
      tileSize.width != 0 && tileSize.height != 0
      && Max(frameSize.width, tileSize.width) != 0 && Max(frameSize.height, tileSize.height) != 0
    }

    /** `max(frame_size // tile_size, (1, 1))`: tiles per frame in each axis, at least one. */
    function TilesPerFrame(): (r: Size)
      requires WellFormed()
      ensures r.width >= 1 && r.height >= 1
    {
      MaxSize(Size(FloorDiv(frameSize.width, tileSize.width), FloorDiv(frameSize.height, tileSize.height)), Size(1, 1))
    }

    /** `(position * tile_size) % max(frame_size, tile_size)`, the pixel offset inside the frame. */
    function Inside(): Point
      requires WellFormed()
    {
      var wrap := MaxSize(frameSize, tileSize);
      Point(FloorMod(position.x * tileSize.width, wrap.width), FloorMod(position.y * tileSize.height, wrap.height))
    }

    function Left(): int
      requires WellFormed()
    {
      Inside().x
    }

    function Top(): int
      requires WellFormed()
    {
      Inside().y
    }

    /** The width of the tile inside the frame: always the tile width. */
    function Width(): int { tileSize.width }

    /** The height of the tile inside the frame: always the tile height. */
    function Height(): int { tileSize.height }

    /** `(position // tiles_per_frame) * tiles_per_frame`: the first tile of the frame. */
    function FramePosition(): (r: Point)
      requires WellFormed()
      ensures r.x <= position.x < r.x + TilesPerFrame().width
      ensures r.y <= position.y < r.y + TilesPerFrame().height
    {
      var per := TilesPerFrame();
      Point(FloorDiv(position.x, per.width) * per.width, FloorDiv(position.y, per.height) * per.height)
    }
  }

  /** A tile whose construction succeeded. */
  type Tile = t: NdpiTile | t.WellFormed() witness NdpiTile(Point(0, 0), Size(1, 1), Size(1, 1))

  /** Constructing an `NdpiTile`: a zero divisor raises `ZeroDivisionError`. */
  function NewTile(position: Point, tileSize: Size, frameSize: Size): (r: Result<Tile>)
    ensures r.Ok? <==> NdpiTile(position, tileSize, frameSize).WellFormed()
    ensures r.Ok? ==> r.value == NdpiTile(position, tileSize, frameSize)
    ensures r.Err? ==> r.error == ZeroDivisionError
  {
    var t := NdpiTile(position, tileSize, frameSize);
    if t.WellFormed() then Ok(t) else Err(ZeroDivisionError)
  }

  /**
   * When the frame holds whole tiles, the crop offset of a tile is its
   * distance from the frame's first tile, in pixels: the tile lies in the
   * frame its frame position names.
   */
  lemma OffsetFromFramePosition(t: Tile)
    requires Positive(t.tileSize) && Positive(t.frameSize)
    requires Max(t.frameSize.width, t.tileSize.width) % t.tileSize.width == 0
    requires Max(t.frameSize.height, t.tileSize.height) % t.tileSize.height == 0
    ensures t.Left() == (t.position.x - t.FramePosition().x) * t.tileSize.width
    ensures t.Top() == (t.position.y - t.FramePosition().y) * t.tileSize.height
  {
    OffsetInAxis(t.position.x, t.tileSize.width, t.frameSize.width);
    OffsetInAxis(t.position.y, t.tileSize.height, t.frameSize.height);
  }

  /** One axis of `OffsetFromFramePosition`. */
  lemma OffsetInAxis(p: int, w: int, f: int)
    requires w > 0 && f > 0 && Max(f, w) % w == 0
    ensures var n := Max(FloorDiv(f, w), 1);
      FloorMod(p * w, Max(f, w)) == (p - FloorDiv(p, n) * n) * w
  {
    var n := Max(FloorDiv(f, w), 1);
    WrapIsWholeTiles(f, w);
    var q := FloorDiv(p, n);
    var r := p - q * n;
    SplitProduct(p, q, n, r, w);
    MulBelow(r, n, w);
    ModUnique(p * w, n * w, q, r * w);
  }

  /** A frame of whole tiles (or narrower than one tile) wraps after `n` tiles. */
  lemma WrapIsWholeTiles(f: int, w: int)
    requires w > 0 && f > 0 && Max(f, w) % w == 0
    ensures Max(f, w) == Max(FloorDiv(f, w), 1) * w
  {
    if f >= w {
      assert f == (f / w) * w + f % w;
    }
  }

  lemma SplitProduct(p: int, q: int, n: int, r: int, w: int)
    requires p == q * n + r
    ensures p * w == q * (n * w) + r * w
  {
    Distribute(q * n, r, w);
    MulAssoc(q, n, w);
  }

  lemma Distribute(a: int, b: int, c: int)
    ensures (a + b) * c == a * c + b * c
  {
  }

  lemma MulAssoc(a: int, b: int, c: int)
    ensures (a * b) * c == a * (b * c)
  {
  }

  /** `0 <= r < n` scales to `0 <= r * w < n * w`. */
  lemma MulBelow(r: int, n: int, w: int)
    requires 0 <= r < n && w > 0
    ensures 0 <= r * w < n * w
  {
    assert (n - r) * w >= w by { MulAtLeast(n - r, w); }
    Distribute(n, -r, w);
  }

  lemma MulAtLeast(k: int, f: int)
    requires k >= 1 && f > 0
    ensures k * f >= f
  {
    Distribute(k - 1, 1, f);
  }

  /** The remainder is the only `m` in `[0, f)` with `a == q * f + m`. */
  lemma ModUnique(a: int, f: int, q: int, m: int)
    requires f > 0 && a == q * f + m && 0 <= m < f
    ensures FloorMod(a, f) == m
  {
    var q0 := FloorDiv(a, f);
    var m0 := FloorMod(a, f);
    Distribute(q, -q0, f);
    assert (q - q0) * f == m0 - m;
    if q > q0 {
      MulAtLeast(q - q0, f);
    } else if q < q0 {
      Distribute(q0, -q, f);
      MulAtLeast(q0 - q, f);
    }
  }

  /** Tile (5, 5) of 512×512 tiles in a 2048×512 frame is cut at (512, 0), 512×512. */
  lemma CropOfTileFiveFive()
    ensures var t := NdpiTile(Point(5, 5), Size(512, 512), Size(2048, 512));
      t.WellFormed() && t.Left() == 512 && t.Top() == 0 && t.Width() == 512 && t.Height() == 512
      && t.FramePosition() == Point(4, 5)
  {
  }

  /** What a frame job crops for one tile: `(left, top, width, height)`. */
  datatype CropBox = CropBox(left: int, top: int, width: int, height: int)

  function CropOf(t: Tile): CropBox
  {
    CropBox(t.Left(), t.Top(), t.Width(), t.Height())
  }

  /** The crop boxes of a list of tiles, one per tile, in tile order. */
  function CropsOf(tiles: seq<Tile>): (r: seq<CropBox>)
    ensures |r| == |tiles|
    ensures forall i :: 0 <= i < |tiles| ==>
      r[i].width == tiles[i].tileSize.width && r[i].height == tiles[i].tileSize.height
      && r[i].left == tiles[i].Left() && r[i].top == tiles[i].Top()
  {
    seq(|tiles|, i requires 0 <= i < |tiles| => CropOf(tiles[i]))
  }

  /** A list of tiles to crop out of one frame; all of them share the job's frame position. */
  class NdpiFrameJob {
    const position: Point
    const frameSize: Size
    var tiles: seq<Tile>

    ghost predicate Valid()
      reads this
    {
      |tiles| >= 1
      && position == tiles[0].FramePosition()
      && frameSize == tiles[0].frameSize
      && forall i :: 0 <= i < |tiles| ==> tiles[i].FramePosition() == position
    }

    /** A job for one tile: position and frame size come from the tile. */
    constructor (tile: Tile)
      ensures Valid()
      ensures tiles == [tile] && position == tile.FramePosition() && frameSize == tile.frameSize
    {
      position := tile.FramePosition();
      frameSize := tile.frameSize;
      tiles := [tile];
    }

    /**
     * `append`: a tile of another frame position raises `ValueError` and
     * leaves the job as it was; any other tile is added at the end.
     */
    method Append(tile: Tile) returns (r: Result<()>)
      requires Valid()
      modifies this
      ensures Valid()
      ensures r.Err? <==> tile.FramePosition() != position
      ensures r.Err? ==> r.error == ValueError && tiles == old(tiles)
      ensures r.Ok? ==> tiles == old(tiles) + [tile]
    {
      if tile.FramePosition() != position {
        return Err(ValueError);
      }
      tiles := tiles + [tile];
      return Ok(());
    }

    /** `crop_parameters`: one crop box per tile, in tile order. */
    function CropParameters(): seq<CropBox>
      reads this
    {
      CropsOf(tiles)
    }
  }

  /** The index of the first tile that does not share the first tile's frame position, or `|tiles|`. */
  function FirstMismatch(tiles: seq<Tile>): (k: nat)
    requires tiles != []
    ensures 1 <= k <= |tiles|
    ensures forall i :: 0 <= i < k ==> tiles[i].FramePosition() == tiles[0].FramePosition()
    ensures k < |tiles| ==> tiles[k].FramePosition() != tiles[0].FramePosition()
  {
    FirstMismatchFrom(tiles, 1)
  }

  function FirstMismatchFrom(tiles: seq<Tile>, k: nat): (r: nat)
    requires 1 <= k <= |tiles|
    requires forall i :: 0 <= i < k ==> tiles[i].FramePosition() == tiles[0].FramePosition()
    ensures k <= r <= |tiles|
    ensures forall i :: 0 <= i < r ==> tiles[i].FramePosition() == tiles[0].FramePosition()
    ensures r < |tiles| ==> tiles[r].FramePosition() != tiles[0].FramePosition()
    decreases |tiles| - k
  {
    if k == |tiles| || tiles[k].FramePosition() != tiles[0].FramePosition() then k
    else FirstMismatchFrom(tiles, k + 1)
  }

  /**
   * `NdpiFrameJob(tiles)` for a list: the first tile is popped from the
   * caller's list (an empty list raises `IndexError`), and the rest are
   * appended one by one, so the first tile of another frame position raises
   * `ValueError`. `remaining` is the caller's list afterwards.
   */
  method FrameJobOfList(tiles: seq<Tile>) returns (r: Result<NdpiFrameJob>, remaining: seq<Tile>)
    ensures tiles == [] ==> r == Err(IndexError) && remaining == []
    ensures tiles != [] ==> remaining == tiles[1..]
    ensures tiles != [] && FirstMismatch(tiles) < |tiles| ==> r == Err(ValueError)
    ensures tiles != [] && FirstMismatch(tiles) == |tiles| ==>
      r.Ok? && fresh(r.value) && r.value.Valid() && r.value.tiles == tiles
  {
    if tiles == [] {
      return Err(IndexError), [];
    }
    remaining := tiles[1..];
    var job := new NdpiFrameJob(tiles[0]);
    var i := 0;
    while i < |remaining|
      invariant 0 <= i <= |remaining|
      invariant job.Valid() && fresh(job)
      invariant job.tiles == tiles[..i + 1]
      invariant job.position == tiles[0].FramePosition()
      invariant forall k :: 0 <= k <= i ==> tiles[k].FramePosition() == tiles[0].FramePosition()
    {
      var appended := job.Append(remaining[i]);
      if appended.Err? {
        assert FirstMismatch(tiles) == i + 1;
        return Err(appended.error), remaining;
      }
      assert tiles[..i + 2] == tiles[..i + 1] + [remaining[i]];
      i := i + 1;
    }
    assert tiles[..i + 1] == tiles;
    return Ok(job), remaining;
  }
}
