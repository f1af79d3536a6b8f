/**
 * The tiled level of the early SVS tiler (`TiffTiledLevel`): the size of its
 * tile grid, the row-major index of a tile among the page's data offsets,
 * and the tile bytes spliced together from the page's JPEG tables, an Adobe
 * APP14 segment and the stored tile data.
 */
module OpenTilerSvs {
  import opened Wrappers
  import opened PyBytes
  import opened Geometry
  import opened Markers
  import BitStream

  /** The parts of a tifffile `TiffPage` the level reads. */
  datatype TiffPage = TiffPage(
    tileWidth: int,
    tileLength: int,
    shape: (int, int),
    dataOffsets: seq<int>,
    dataByteCounts: seq<int>,
    jpegTables: bytes)

  /** A `TiffTiledLevel`: its first page and the sizes computed when it is made. */
  datatype TiledLevel = TiledLevel(page: TiffPage, tileSize: Size, levelSize: Size, tiledSize: Size)

  /**
   * The tile grid of a level: the level size divided by the tile size,
   * rounded up; a tile size of (0, 0) gives a single tile, and a tile size
   * with exactly one zero component divides by zero.
   */
  function TiledSize(levelSize: Size, tileSize: Size): (r: Result<Size>)
    ensures r.Err? <==> (tileSize.width == 0) != (tileSize.height == 0)
    ensures r.Err? ==> r.error == ZeroDivisionError
    ensures tileSize == Size(0, 0) ==> r == Ok(Size(1, 1))
    ensures Positive(tileSize) ==> (r.Ok?
      && (r.value.width - 1) * tileSize.width < levelSize.width <= r.value.width * tileSize.width
      && (r.value.height - 1) * tileSize.height < levelSize.height <= r.value.height * tileSize.height)
  {
    if tileSize == Size(0, 0) then Ok(Size(1, 1))
    else if tileSize.width == 0 || tileSize.height == 0 then Err(ZeroDivisionError)
    else Ok(Size(CeilDivInt(levelSize.width, tileSize.width), CeilDivInt(levelSize.height, tileSize.height)))
  }

  /**
   * `TiffTiledLevel(...)`: the pyramid index is computed from the ratio of
   * the base height to the level height (a zero level height divides by
   * zero, a ratio that is not positive is outside the logarithm's domain),
   * then the first page gives the tile size and the level size.
   */
  function NewTiledLevel(pages: seq<TiffPage>, levelHeight: int, baseHeight: int): (r: Result<TiledLevel>)
    ensures levelHeight == 0 ==> r == Err(ZeroDivisionError)
    ensures levelHeight != 0 && baseHeight * levelHeight <= 0 ==> r == Err(ValueError)
    ensures baseHeight * levelHeight > 0 && pages == [] ==> r == Err(IndexError)
    ensures r.Ok? ==> (pages != [] && r.value.page == pages[0]
      && r.value.tileSize == Size(pages[0].tileWidth, pages[0].tileLength)
      && r.value.levelSize == Size(pages[0].shape.1, pages[0].shape.0)
      && TiledSize(r.value.levelSize, r.value.tileSize) == Ok(r.value.tiledSize))
  {
    if levelHeight == 0 then Err(ZeroDivisionError)
    else if baseHeight * levelHeight <= 0 then Err(ValueError)
    else
      var page :- Index(pages, 0);
      var tileSize := Size(page.tileWidth, page.tileLength);
      var levelSize := Size(page.shape.1, page.shape.0);
      var tiledSize :- TiledSize(levelSize, tileSize);
      Ok(TiledLevel(page, tileSize, levelSize, tiledSize))
  }

  /** The index of a tile among the page's offsets: row-major, `y * width + x`. */
  function TileIndex(tiledWidth: int, tile: Point): int
  {
    tile.y * tiledWidth + tile.x
  }

  /** A tile inside the grid has an index inside the grid's range. */
  lemma TileIndexInGrid(tiledSize: Size, tile: Point)
    requires 0 <= tile.x < tiledSize.width && 0 <= tile.y < tiledSize.height
    ensures 0 <= TileIndex(tiledSize.width, tile) < tiledSize.width * tiledSize.height
  {
    var w, h := tiledSize.width, tiledSize.height;
    BitStream.MultipleAtLeast(h - tile.y, w);
    assert (h - tile.y) * w == h * w - tile.y * w;
  }

  /** The index gives the tile back: its row is the quotient and its column the remainder by the grid width. */
  lemma TileIndexInverse(tiledWidth: int, tile: Point)
    requires 0 <= tile.x < tiledWidth
    ensures FloorDiv(TileIndex(tiledWidth, tile), tiledWidth) == tile.y
    ensures FloorMod(TileIndex(tiledWidth, tile), tiledWidth) == tile.x
  {
    BitStream.DivisionUnique(TileIndex(tiledWidth, tile), tiledWidth, tile.y, tile.x);
  }

  /** Distinct tiles inside the grid read distinct entries of the offsets. */
  lemma TileIndexInjective(tiledWidth: int, a: Point, b: Point)
    requires 0 <= a.x < tiledWidth && 0 <= b.x < tiledWidth
    requires TileIndex(tiledWidth, a) == TileIndex(tiledWidth, b)
    ensures a == b
  {
    TileIndexInverse(tiledWidth, a);
    TileIndexInverse(tiledWidth, b);
  }

  /**
   * The tile bytes: the JPEG tables without their last two bytes (the EOI
   * marker), the Adobe APP14 segment that fixes the colour space, and the
   * stored data without its first two bytes (the SOI marker).
   */
  function SpliceTile(tables: bytes, data: bytes): (r: bytes)
    ensures |r| == Max(|tables| - 2, 0) + |AdobeApp14| + Max(|data| - 2, 0)
    ensures |tables| >= 2 && |data| >= 2 ==> |r| == |tables| + |data| + 12
    ensures |tables| >= 2 ==> (r[..|tables| - 2] == tables[..|tables| - 2]
      && r[|tables| - 2..|tables| + 14] == AdobeApp14)
    ensures |data| >= 2 ==> r[|r| - (|data| - 2)..] == data[2..]
  {
    Slice(tables, 0, -2) + AdobeApp14 + Slice(data, 2, |data|)
  }

  /**
   * Taking the APP14 segment out of the tile bytes and putting the EOI and
   * SOI markers back gives the tables followed by the stored data: the
   * splice drops exactly those two markers and adds exactly that segment.
   */
  lemma SpliceTileRestores(tables: bytes, data: bytes)
    requires |tables| >= 2 && tables[|tables| - 2..] == EndOfImage()
    requires |data| >= 2 && data[..2] == [TagMarker, StartOfImageCode]
    ensures var r := SpliceTile(tables, data);
      r[..|tables| - 2] + EndOfImage() + [TagMarker, StartOfImageCode] + r[|tables| + 14..] == tables + data
  {
    var r := SpliceTile(tables, data);
    var n := |tables|;
    var head, body := tables[..n - 2], data[2..];
    var soi: bytes := [TagMarker, StartOfImageCode];
    assert r == head + AdobeApp14 + body;
    assert r[..n - 2] == head;
    assert r[n + 14..] == body;
    assert tables == head + EndOfImage();
    assert data == soi + body;
    assert head + EndOfImage() + soi + body == tables + data;
  }

  /**
   * `get_tile(tile)`, and `get_encoded_tile`, which returns the same: the
   * tile's offset and byte count are looked up at its index (Python list
   * indexing: a negative index counts from the end, one out of range raises
   * `IndexError`), that many bytes are read at that offset, and the tile
   * bytes are spliced from the tables and the data. Reading the file is the
   * parameter `read`.
   */
  function GetTile(level: TiledLevel, tile: Point, read: (int, int) -> bytes): (r: Result<bytes>)
    ensures var i := TileIndex(level.tiledSize.width, tile);
      r.Ok? <==> (-|level.page.dataOffsets| <= i < |level.page.dataOffsets|
        && -|level.page.dataByteCounts| <= i < |level.page.dataByteCounts|)
    ensures r.Err? ==> r.error == IndexError
  {
    var index := TileIndex(level.tiledSize.width, tile);
    var offset :- Index(level.page.dataOffsets, index);
    var count :- Index(level.page.dataByteCounts, index);
    Ok(SpliceTile(level.page.jpegTables, read(offset, count)))
  }

  /**
   * For a tile inside the grid whose offsets and byte counts cover the grid,
   * the tile bytes are the splice of the tables and the bytes read at that
   * tile's own offset and count.
   */
  lemma GetTileReadsOwnEntry(level: TiledLevel, tile: Point, read: (int, int) -> bytes)
    requires 0 <= tile.x < level.tiledSize.width && 0 <= tile.y < level.tiledSize.height
    requires |level.page.dataOffsets| == |level.page.dataByteCounts| == level.tiledSize.width * level.tiledSize.height
    ensures var i := tile.y * level.tiledSize.width + tile.x;
      0 <= i < |level.page.dataOffsets|
      && GetTile(level, tile, read)
        == Ok(SpliceTile(level.page.jpegTables, read(level.page.dataOffsets[i], level.page.dataByteCounts[i])))
  {
    TileIndexInGrid(level.tiledSize, tile);
  }
}
