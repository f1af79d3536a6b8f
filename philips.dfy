/**
 * Philips TIFF files. Their pyramids are sparse: a tile may have no bytes
 * stored (byte count 0) or no entry at all (an index past the end of the
 * byte counts). Every such tile is served as one blank tile, made from the
 * first stored frame. Three generations are modelled:
 *   - `PhilipsTiffImage` (opentile/formats/philips/philips_tiff_image.py),
 *     which makes the blank tile at construction and accepts only JPEG;
 *   - `PhilipsTiffTiledPage` and `PhilipsTiffTiler`
 *     (opentile/philips_tiff_tiler.py), the same blank tile without the
 *     compression guard, pages kept in a dictionary;
 *   - `PhillipsTiffTiledPage` (opentile/phillips_tiff_tiler.py), which makes
 *     the blank tile on first use and splices the tables itself.
 */
module Philips {
  import opened Wrappers
  import opened PyBytes
  import opened Geometry
  import opened TileGrid
  import opened JpegSplice
  import opened Memo
  import opened Markers
  import opened PyText

  /** What the Philips tilers use of a TIFF page. */
  datatype PhilipsTiffPage = PhilipsTiffPage(
    description: string,
    frames: TiffFrames,
    tiled: Size,
    jpegTables: Option<bytes>,
    compression: int)

  // ----------------------------------------------------------- blank tile

  /** The first index at or after `from` whose byte count is not 0. */
  function FirstStoredFrom(byteCounts: seq<int>, from: nat): (r: Option<nat>)
    requires from <= |byteCounts|
    ensures r.Some? ==> from <= r.value < |byteCounts| && byteCounts[r.value] != 0
    ensures r.Some? ==> forall i :: from <= i < r.value ==> byteCounts[i] == 0
    ensures r.None? ==> forall i :: from <= i < |byteCounts| ==> byteCounts[i] == 0
    decreases |byteCounts| - from
  {
    if from == |byteCounts| then None
    else if byteCounts[from] != 0 then Some(from)
    else FirstStoredFrom(byteCounts, from + 1)
  }

  /**
   * The generator `next` of the blank-tile makers: the first frame whose
   * byte count is not 0, or `None` where `next` raises `StopIteration`.
   */
  function FirstStoredFrame(byteCounts: seq<int>): (r: Option<nat>)
    ensures r.None? <==> forall i :: 0 <= i < |byteCounts| ==> byteCounts[i] == 0
    ensures r.Some? ==> r.value < |byteCounts| && byteCounts[r.value] != 0
    ensures r.Some? ==> forall i :: 0 <= i < r.value ==> byteCounts[i] == 0
  {
    FirstStoredFrom(byteCounts, 0)
  }

  /** `Jpeg.add_jpeg_tables(frame, tables)` when the page has tables, the frame itself otherwise. */
  function WithTables(frame: bytes, tables: Option<bytes>): (r: bytes)
    ensures tables.None? ==> r == frame
    ensures tables.Some? ==> |r| == |frame| + |TablesBody(tables.value)|
  {
    if tables.Some? then AddJpegTables(frame, tables.value) else frame
  }

  /**
   * `_create_blank_tile` of the second and third generations: the first
   * stored frame, with the page's tables spliced in (without the colour
   * fix) when it has them, filled with white by the JPEG library (`fill`).
   * A page with no stored frame raises `ValueError`.
   */
  function CreateBlankTile(page: PhilipsTiffPage, read: (int, int) -> bytes, fill: bytes -> bytes): (r: Result<bytes>)
    ensures FirstStoredFrame(page.frames.byteCounts).None? ==> r == Err(ValueError)
    ensures FirstStoredFrame(page.frames.byteCounts).Some? ==>
      var i := FirstStoredFrame(page.frames.byteCounts).value;
      (r.Ok? <==> i < |page.frames.dataOffsets|)
      && (r.Ok? ==> r.value == fill(WithTables(read(page.frames.dataOffsets[i], page.frames.byteCounts[i]), page.jpegTables)))
  {
    match FirstStoredFrame(page.frames.byteCounts)
    case None => Err(ValueError)
    case Some(i) =>
      var tile :- ReadFrame(page.frames, read, i);
      Ok(fill(WithTables(tile, page.jpegTables)))
  }

  // --------------------------------------------------------- sparse reads

  /**
   * The sparse test of `_read_frame`: an index at or past the end of the
   * byte counts, or one whose byte count is 0. A negative index is looked
   * up from the end; one before the start raises `IndexError`.
   */
  function IsSparse(byteCounts: seq<int>, index: int): (r: Result<bool>)
    ensures r.Err? <==> index < -|byteCounts|
    ensures r.Err? ==> r.error == IndexError
    ensures |byteCounts| <= index ==> r == Ok(true)
    ensures 0 <= index < |byteCounts| ==> r == Ok(byteCounts[index] == 0)
    ensures -|byteCounts| <= index < 0 ==> r == Ok(byteCounts[|byteCounts| + index] == 0)
  {
    if index >= |byteCounts| then Ok(true)
    else
      var count :- Index(byteCounts, index);
      Ok(count == 0)
  }

  /** A constructed `PhilipsTiffImage` or `PhilipsTiffTiledPage`: the page and its blank tile. */
  datatype PhilipsImage = PhilipsImage(page: PhilipsTiffPage, blankTile: bytes)

  /**
   * `PhilipsTiffTiledPage.__init__`: the blank tile is made once, when the
   * page is constructed; construction fails as `_create_blank_tile` does.
   */
  function NewPhilipsTiledPage(page: PhilipsTiffPage, read: (int, int) -> bytes, fill: bytes -> bytes): (r: Result<PhilipsImage>)
    ensures r.Ok? <==> CreateBlankTile(page, read, fill).Ok?
    ensures r.Err? ==> r.error == CreateBlankTile(page, read, fill).error
    ensures r.Ok? ==> r.value.page == page && Ok(r.value.blankTile) == CreateBlankTile(page, read, fill)
  {
    var blank :- CreateBlankTile(page, read, fill);
    Ok(PhilipsImage(page, blank))
  }

  /**
   * `PhilipsTiffImage.__init__`: a page not compressed with JPEG raises
   * `NotImplementedError` before anything is read; otherwise the image is
   * built as the tiled page of the previous generation is.
   */
  function NewPhilipsTiffImage(page: PhilipsTiffPage, read: (int, int) -> bytes, fill: bytes -> bytes): (r: Result<PhilipsImage>)
    ensures page.compression != JpegCompression ==> r == Err(NotImplementedError)
    ensures page.compression == JpegCompression ==> r == NewPhilipsTiledPage(page, read, fill)
  {
    var supported :- CheckCompression(Some([JpegCompression]), page.compression);
    NewPhilipsTiledPage(page, read, fill)
  }

  /**
   * `_read_frame`: a sparse index gives the blank tile made at
   * construction; any other index is read from the file.
   */
  function ReadSparseFrame(image: PhilipsImage, read: (int, int) -> bytes, index: int): (r: Result<bytes>)
    ensures IsSparse(image.page.frames.byteCounts, index) == Ok(true) ==> r == Ok(image.blankTile)
    ensures IsSparse(image.page.frames.byteCounts, index) == Ok(false) ==> r == ReadFrame(image.page.frames, read, index)
    ensures IsSparse(image.page.frames.byteCounts, index).Err? ==> r == Err(IndexError)
  {
    var sparse :- IsSparse(image.page.frames.byteCounts, index);
    if sparse then Ok(image.blankTile) else ReadFrame(image.page.frames, read, index)
  }

  /** The natively tiled page underneath: same frames, grid and tables, no colour fix. */
  function Native(image: PhilipsImage): NativePage
  {
    NativePage(image.page.frames, image.page.tiled, image.page.jpegTables, false)
  }

  /**
   * `get_tile`: the frame `_read_frame` gives for the row-major index, with
   * the tables spliced in when the page has them. A stored tile is what
   * the plain tiled page gives; every sparse tile is the same bytes, the
   * blank tile with the tables.
   */
  function SparseTile(image: PhilipsImage, read: (int, int) -> bytes, p: Point): (r: Result<bytes>)
    ensures IsSparse(image.page.frames.byteCounts, FrameIndex(p, image.page.tiled)) == Ok(true) ==>
      r == Ok(WithTables(image.blankTile, image.page.jpegTables))
    ensures IsSparse(image.page.frames.byteCounts, FrameIndex(p, image.page.tiled)) == Ok(false) ==>
      r == NativeTile(Native(image), read, p)
    ensures IsSparse(image.page.frames.byteCounts, FrameIndex(p, image.page.tiled)).Err? ==> r == Err(IndexError)
  {
    var frame :- ReadSparseFrame(image, read, FrameIndex(p, image.page.tiled));
    Ok(WithTables(frame, image.page.jpegTables))
  }

  /**
   * `get_tiles` as written for `PhilipsTiffImage`: the inherited
   * `NativeTiledTiffImage.get_tiles` reads every frame in one batch through
   * `_read_frames`, which the Philips image does not override, so no
   * sparse tile is replaced by the blank tile.
   */
  function SparseTilesAsWritten(image: PhilipsImage, read: (int, int) -> bytes, positions: seq<Point>): (r: Result<seq<bytes>>)
    ensures r.Ok? ==> |r.value| == |positions|
    ensures r.Ok? ==> forall i :: 0 <= i < |positions| ==> NativeTile(Native(image), read, positions[i]) == Ok(r.value[i])
  {
    BatchIsOneByOne(Native(image), read, positions);
    NativeTilesBatch(Native(image), read, positions)
  }

  /**
   * On a page of two tiles whose second tile has no byte count, the tile
   * at `(1, 0)` is the blank tile, but the batch read of that one position
   * raises `IndexError`.
   */
  lemma BatchReadMissesSparseTile(read: (int, int) -> bytes, fill: bytes -> bytes)
    ensures NewPhilipsTiffImage(TwoTilePage(), read, fill) == Ok(PhilipsImage(TwoTilePage(), fill(read(0, 5))))
    ensures SparseTile(PhilipsImage(TwoTilePage(), fill(read(0, 5))), read, Point(1, 0)) == Ok(fill(read(0, 5)))
    ensures SparseTilesAsWritten(PhilipsImage(TwoTilePage(), fill(read(0, 5))), read, [Point(1, 0)]) == Err(IndexError)
  {
    var page := TwoTilePage();
    assert FirstStoredFrom(page.frames.byteCounts, 0) == Some(0);
    BatchOfMissingFrame(PhilipsImage(page, fill(read(0, 5))), read);
  }

  /** A page of two tiles that stores only the first: frame 0 has 5 bytes, frame 1 has no entry. */
  function TwoTilePage(): PhilipsTiffPage
  {
    PhilipsTiffPage("", TiffFrames([0], [5]), Size(2, 1), None, JpegCompression)
  }

  lemma BatchOfMissingFrame(image: PhilipsImage, read: (int, int) -> bytes)
    requires image.page == TwoTilePage()
    ensures NativeTilesBatch(Native(image), read, [Point(1, 0)]) == Err(IndexError)
  {
    var page := Native(image);
    var positions := [Point(1, 0)];
    var indices := seq(|positions|, i requires 0 <= i < |positions| => FrameIndex(positions[i], page.tiled));
    assert indices[0] == 1;
    assert ReadFrame(page.frames, read, indices[0]).Err?;
    assert ReadFrames(page.frames, read, indices) == Err(IndexError);
  }

  /**
   * `get_tiles` as intended: `get_tile` of each position in order, so a
   * sparse position gives the blank tile here too; the first failure is
   * raised.
   */
  function SparseTiles(image: PhilipsImage, read: (int, int) -> bytes, positions: seq<Point>): (r: Result<seq<bytes>>)
    ensures r.Ok? ==> |r.value| == |positions|
    ensures r.Ok? ==> forall i :: 0 <= i < |positions| ==> SparseTile(image, read, positions[i]) == Ok(r.value[i])
    ensures r.Err? <==> exists i :: 0 <= i < |positions| && SparseTile(image, read, positions[i]).Err?
  {
    OneByOneSucceeds(positions, p => SparseTile(image, read, p));
    TilesOneByOne(positions, p => SparseTile(image, read, p))
  }

  /** A one-by-one read fails only where one of its tiles fails. */
  lemma {:induction false} OneByOneSucceeds(positions: seq<Point>, f: Point -> Result<bytes>)
    ensures (forall i :: 0 <= i < |positions| ==> f(positions[i]).Ok?) ==> TilesOneByOne(positions, f).Ok?
    decreases |positions|
  {
    if positions != [] {
      var n := |positions| - 1;
      assert forall i :: 0 <= i < n ==> positions[..n][i] == positions[i];
      OneByOneSucceeds(positions[..n], f);
    }
  }

  /**
   * Where none of the requested tiles is sparse, the batch read as written
   * and the intended one give the same tiles.
   */
  lemma BatchAgreesOffSparseTiles(image: PhilipsImage, read: (int, int) -> bytes, positions: seq<Point>)
    requires forall i :: 0 <= i < |positions| ==> IsSparse(image.page.frames.byteCounts, FrameIndex(positions[i], image.page.tiled)) == Ok(false)
    ensures SparseTilesAsWritten(image, read, positions) == SparseTiles(image, read, positions)
  {
    BatchIsOneByOne(Native(image), read, positions);
    TilesOneByOneAgree(positions, p => NativeTile(Native(image), read, p), p => SparseTile(image, read, p));
  }

  // ------------------------------------------------- first generation

  /**
   * `PhillipsTiffTiledPage._add_jpeg_tables`: the frame up to the first SOS
   * marker, `jpegtables[2:-2]`, then the rest of the frame, written one
   * after the other into a buffer.
   */
  function PhillipsAddJpegTables(frame: bytes, tables: bytes): (r: bytes)
    ensures |r| == |frame| + |TablesBody(tables)|
  {
    var s := Find(frame, StartOfScan());
    Slice(frame, 0, s) + TablesBody(tables) + Slice(frame, s, |frame|)
  }

  /**
   * The buffer-built splice of the first generation is the slice
   * assignment of the later ones, also when the frame has no SOS marker
   * (`find` gives -1 and both put the tables in front of the last byte),
   * and it grows the frame by the tables less their two markers.
   */
  lemma PhillipsTablesAreAddJpegTables(frame: bytes, tables: bytes)
    ensures PhillipsAddJpegTables(frame, tables) == AddJpegTables(frame, tables)
    ensures |tables| >= 4 ==> |PhillipsAddJpegTables(frame, tables)| == |frame| + |tables| - 4
  {
    var s := Find(frame, StartOfScan());
    var body := TablesBody(tables);
    if s >= 0 {
      assert Slice(frame, 0, s) == frame[..s];
      assert Slice(frame, s, |frame|) == frame[s..];
    } else if frame == [] {
      assert Slice(frame, 0, s) == [] && Slice(frame, s, |frame|) == [];
      assert SliceAssign(frame, s, s, body) == body;
    } else {
      var n := |frame| - 1;
      assert Slice(frame, 0, s) == frame[..n];
      assert Slice(frame, s, |frame|) == frame[n..];
      assert SliceAssign(frame, s, s, body) == frame[..n] + body + frame[n..];
    }
  }

  /**
   * The `blank_tile` cached property of the first generation: as the later
   * blank tile, but the tables are spliced in unconditionally, so a page
   * without tables raises `TypeError`.
   */
  function FirstBlankTile(page: PhilipsTiffPage, read: (int, int) -> bytes, fill: bytes -> bytes): (r: Result<bytes>)
    ensures FirstStoredFrame(page.frames.byteCounts).None? ==> r == Err(ValueError)
    ensures FirstStoredFrame(page.frames.byteCounts).Some? ==>
      var i := FirstStoredFrame(page.frames.byteCounts).value;
      (r.Ok? <==> i < |page.frames.dataOffsets| && page.jpegTables.Some?)
      && (i < |page.frames.dataOffsets| && page.jpegTables.None? ==> r == Err(TypeError))
      && (r.Ok? ==> r.value == fill(PhillipsAddJpegTables(read(page.frames.dataOffsets[i], page.frames.byteCounts[i]), page.jpegTables.value)))
  {
    match FirstStoredFrame(page.frames.byteCounts)
    case None => Err(ValueError)
    case Some(i) =>
      var frame :- ReadFrame(page.frames, read, i);
      if page.jpegTables.None? then Err(TypeError)
      else Ok(fill(PhillipsAddJpegTables(frame, page.jpegTables.value)))
  }

  /** `PhillipsTiffTiledPage._read_frame`: a sparse index gives the blank tile, made when first needed. */
  function FirstReadFrame(page: PhilipsTiffPage, read: (int, int) -> bytes, fill: bytes -> bytes, index: int): (r: Result<bytes>)
  {
    var sparse :- IsSparse(page.frames.byteCounts, index);
    if sparse then FirstBlankTile(page, read, fill) else ReadFrame(page.frames, read, index)
  }

  /**
   * On a page with tables, the first generation reads every frame as the
   * later generations do, once their construction has succeeded.
   */
  lemma FirstGenerationAgrees(page: PhilipsTiffPage, read: (int, int) -> bytes, fill: bytes -> bytes, index: int)
    requires page.jpegTables.Some?
    requires NewPhilipsTiledPage(page, read, fill).Ok?
    ensures FirstReadFrame(page, read, fill, index) == ReadSparseFrame(NewPhilipsTiledPage(page, read, fill).value, read, index)
  {
    FirstBlankTileIsCreateBlankTile(page, read, fill);
  }

  /** With tables, the first generation's blank tile is the later generations' one. */
  lemma FirstBlankTileIsCreateBlankTile(page: PhilipsTiffPage, read: (int, int) -> bytes, fill: bytes -> bytes)
    requires page.jpegTables.Some?
    ensures FirstBlankTile(page, read, fill) == CreateBlankTile(page, read, fill)
  {
    if FirstStoredFrame(page.frames.byteCounts).Some? {
      var i := FirstStoredFrame(page.frames.byteCounts).value;
      if i < |page.frames.dataOffsets| {
        PhillipsTablesAreAddJpegTables(read(page.frames.dataOffsets[i], page.frames.byteCounts[i]), page.jpegTables.value);
      }
    }
  }

  /**
   * `PhillipsTiffTiledPage`: a page whose blank tile is a cached property,
   * computed on the first sparse read and kept once it succeeded.
   */
  class PhillipsTiledPage {
    const page: PhilipsTiffPage
    const read: (int, int) -> bytes
    const fill: bytes -> bytes
    /** The value the cached property holds, once computed. */
    var blankTile: Option<bytes>

    ghost predicate Valid()
      reads this
    {
      blankTile.Some? ==> FirstBlankTile(page, read, fill) == Ok(blankTile.value)
    }

    constructor(page: PhilipsTiffPage, read: (int, int) -> bytes, fill: bytes -> bytes)
      ensures Valid()
      ensures this.page == page && this.read == read && this.fill == fill && blankTile == None
    {
      this.page := page;
      this.read := read;
      this.fill := fill;
      blankTile := None;
    }

    /** `blank_tile`: the held value, else computed and held when it does not raise. */
    method GetBlankTile() returns (r: Result<bytes>)
      requires Valid()
      modifies this
      ensures Valid()
      ensures r == FirstBlankTile(page, read, fill)
      ensures old(blankTile).Some? ==> blankTile == old(blankTile)
      ensures r.Ok? ==> blankTile == Some(r.value)
      ensures r.Err? ==> blankTile == None
    {
      if blankTile.Some? {
        return Ok(blankTile.value);
      }
      r := FirstBlankTile(page, read, fill);
      if r.Ok? {
        blankTile := Some(r.value);
      }
    }

    /** `_read_frame`: stored frames are read; a sparse one asks for the blank tile. */
    method ReadFrame(index: int) returns (r: Result<bytes>)
      requires Valid()
      modifies this
      ensures Valid()
      ensures r == FirstReadFrame(page, read, fill, index)
      ensures old(blankTile).Some? ==> blankTile == old(blankTile)
      ensures IsSparse(page.frames.byteCounts, index) != Ok(true) ==> blankTile == old(blankTile)
    {
      var sparse := IsSparse(page.frames.byteCounts, index);
      if sparse.Err? {
        return Err(sparse.error);
      }
      if sparse.value {
        r := GetBlankTile();
      } else {
        r := TileGrid.ReadFrame(page.frames, read, index);
      }
    }
  }

  // ---------------------------------------------------------------- tiler

  /** A series of the file: its levels, each a list of pages. */
  datatype PhilipsSeries = PhilipsSeries(levels: seq<seq<PhilipsTiffPage>>)

  /** `series.pages[0]`: the first page of the base level. */
  function FirstPage(series: PhilipsSeries): (r: Result<PhilipsTiffPage>)
    ensures r.Ok? <==> |series.levels| > 0 && |series.levels[0]| > 0
    ensures r.Err? ==> r.error == IndexError
  {
    if |series.levels| == 0 then Err(IndexError) else Index(series.levels[0], 0)
  }

  /** `is_label`: the description of the series' first page contains `Label`. */
  function IsLabel(series: PhilipsSeries): (r: Result<bool>)
    ensures r.Ok? <==> FirstPage(series).Ok?
    ensures r.Ok? ==> (r.value <==> Contains(FirstPage(series).value.description, "Label"))
  {
    var page :- FirstPage(series);
    Ok(Contains(page.description, "Label"))
  }

  /** `is_overview`: the description of the series' first page contains `Macro`. */
  function IsOverview(series: PhilipsSeries): (r: Result<bool>)
    ensures r.Ok? <==> FirstPage(series).Ok?
    ensures r.Ok? ==> (r.value <==> Contains(FirstPage(series).value.description, "Macro"))
  {
    var page :- FirstPage(series);
    Ok(Contains(page.description, "Macro"))
  }

  /** What the classification makes of one series. */
  datatype SeriesKind = LabelSeries | OverviewSeries | OtherSeries

  /**
   * One step of the classification: a series whose first page names the
   * label is a label series, whether or not it also names the macro image;
   * one that names only the macro image is an overview series.
   */
  function KindOf(series: PhilipsSeries): (r: Result<SeriesKind>)
    ensures r.Ok? <==> FirstPage(series).Ok?
    ensures r.Err? ==> r.error == IndexError
    ensures r.Ok? ==> var d := FirstPage(series).value.description;
      (r.value == LabelSeries <==> Contains(d, "Label"))
      && (r.value == OverviewSeries <==> !Contains(d, "Label") && Contains(d, "Macro"))
  {
    var isLabel :- IsLabel(series);
    if isLabel then Ok(LabelSeries)
    else if IsOverview(series).value then Ok(OverviewSeries)
    else Ok(OtherSeries)
  }

  /** The label and overview series indices the classification has found so far. */
  datatype Associated = Associated(labelIndex: Option<int>, overviewIndex: Option<int>)

  /**
   * The classification loop of `PhilipsTiffTiler.__init__` after the
   * series of `all`: a label series is recorded as label, an overview
   * series as overview; a later one replaces an earlier one.
   */
  function Classification(all: seq<PhilipsSeries>): (r: Result<Associated>)
    decreases |all|
  {
    if all == [] then Ok(Associated(None, None))
    else
      var n := |all| - 1;
      var found :- Classification(all[..n]);
      var kind :- KindOf(all[n]);
      match kind
      case LabelSeries => Ok(found.(labelIndex := Some(n)))
      case OverviewSeries => Ok(found.(overviewIndex := Some(n)))
      case OtherSeries => Ok(found)
  }

  /** The series at `i` is of kind `kind`. */
  predicate KindAt(all: seq<PhilipsSeries>, i: int, kind: SeriesKind)
  {
    0 <= i < |all| && KindOf(all[i]) == Ok(kind)
  }

  /** The index the classification records for `kind`. */
  function Recorded(a: Associated, kind: SeriesKind): Option<int>
  {
    match kind
    case LabelSeries => a.labelIndex
    case OverviewSeries => a.overviewIndex
    case OtherSeries => None
  }

  /** The classification fails, with `IndexError`, exactly when a series has no first page. */
  lemma {:induction false} ClassificationFails(all: seq<PhilipsSeries>)
    ensures Classification(all).Err? <==> exists i :: 0 <= i < |all| && FirstPage(all[i]).Err?
    ensures Classification(all).Err? ==> Classification(all).error == IndexError
    decreases |all|
  {
    if all != [] {
      var n := |all| - 1;
      assert forall i :: 0 <= i < n ==> all[..n][i] == all[i];
      ClassificationFails(all[..n]);
    }
  }

  /**
   * When the classification succeeds, the index it records for the label
   * (or the overview) is the last series of that kind, and none is
   * recorded when there is no such series.
   */
  lemma {:induction false} ClassificationKeepsLast(all: seq<PhilipsSeries>, kind: SeriesKind)
    requires kind != OtherSeries && Classification(all).Ok?
    ensures Recorded(Classification(all).value, kind).None? <==> forall i :: 0 <= i < |all| ==> !KindAt(all, i, kind)
    ensures Recorded(Classification(all).value, kind).Some? ==>
      var k := Recorded(Classification(all).value, kind).value;
      KindAt(all, k, kind) && forall i :: k < i < |all| ==> !KindAt(all, i, kind)
    decreases |all|
  {
    if all != [] {
      var n := |all| - 1;
      var init := all[..n];
      ClassificationStep(all, kind);
      forall i | 0 <= i < n
        ensures KindAt(init, i, kind) <==> KindAt(all, i, kind)
      {
        assert init[i] == all[i];
      }
      ClassificationKeepsLast(init, kind);
    }
  }

  /** The last series either is of the kind, and is recorded, or leaves what the others recorded. */
  lemma ClassificationStep(all: seq<PhilipsSeries>, kind: SeriesKind)
    requires kind != OtherSeries && all != [] && Classification(all).Ok?
    ensures var n := |all| - 1;
      Classification(all[..n]).Ok?
      && (KindAt(all, n, kind) <==> KindOf(all[n]) == Ok(kind))
      && Recorded(Classification(all).value, kind)
         == if KindOf(all[n]) == Ok(kind) then Some(n) else Recorded(Classification(all[..n]).value, kind)
  {
  }

  /**
   * The classification in full: it raises `IndexError` exactly when a
   * series has no first page; otherwise the label is the last label series,
   * the overview the last overview series, and they are never the same
   * series, since the label test comes first.
   */
  lemma ClassificationIsLast(all: seq<PhilipsSeries>)
    ensures Classification(all).Err? <==> exists i :: 0 <= i < |all| && FirstPage(all[i]).Err?
    ensures Classification(all).Ok? ==>
      var a := Classification(all).value;
      (a.labelIndex.None? <==> forall i :: 0 <= i < |all| ==> !KindAt(all, i, LabelSeries))
      && (a.labelIndex.Some? ==>
            KindAt(all, a.labelIndex.value, LabelSeries)
            && forall i :: a.labelIndex.value < i < |all| ==> !KindAt(all, i, LabelSeries))
      && (a.overviewIndex.None? <==> forall i :: 0 <= i < |all| ==> !KindAt(all, i, OverviewSeries))
      && (a.overviewIndex.Some? ==>
            KindAt(all, a.overviewIndex.value, OverviewSeries)
            && forall i :: a.overviewIndex.value < i < |all| ==> !KindAt(all, i, OverviewSeries))
      && (a.labelIndex.Some? && a.overviewIndex.Some? ==> a.labelIndex != a.overviewIndex)
  {
    ClassificationFails(all);
    if Classification(all).Ok? {
      ClassificationKeepsLast(all, LabelSeries);
      ClassificationKeepsLast(all, OverviewSeries);
    }
  }

  /** `_get_tiff_page`: `series[series].levels[level].pages[page]`, with Python indexing. */
  function PageOf(all: seq<PhilipsSeries>, key: PageKey): (r: Result<PhilipsTiffPage>)
    ensures r.Err? ==> r.error == IndexError
    ensures (0 <= key.series < |all| && 0 <= key.level < |all[key.series].levels|
             && 0 <= key.page < |all[key.series].levels[key.level]|) ==>
      r == Ok(all[key.series].levels[key.level][key.page])
  {
    var series :- Index(all, key.series);
    var level :- Index(series.levels, key.level);
    Index(level, key.page)
  }

  /** The page a `get_page` call constructs for a key. */
  function CreatePhilipsPage(all: seq<PhilipsSeries>, read: (int, int) -> bytes, fill: bytes -> bytes, key: PageKey): (r: Result<PhilipsImage>)
    ensures PageOf(all, key).Err? ==> r == Err(IndexError)
    ensures PageOf(all, key).Ok? ==> r == NewPhilipsTiledPage(PageOf(all, key).value, read, fill)
  {
    var page :- PageOf(all, key);
    NewPhilipsTiledPage(page, read, fill)
  }

  /** `PhilipsTiffTiler`: the series, the associated series found and the `_pages` dictionary. */
  class PhilipsTiffTiler {
    const series: seq<PhilipsSeries>
    const read: (int, int) -> bytes
    const fill: bytes -> bytes
    const associated: Associated
    const pages: Memo<PageKey, PhilipsImage>

    ghost predicate Valid()
      reads this, pages
    {
      pages.Valid()
      && pages.compute == (key => CreatePhilipsPage(series, read, fill, key))
      && Classification(series) == Ok(associated)
    }

    constructor(series: seq<PhilipsSeries>, read: (int, int) -> bytes, fill: bytes -> bytes, associated: Associated)
      requires Classification(series) == Ok(associated)
      ensures Valid() && fresh(pages)
      ensures this.series == series && this.read == read && this.fill == fill && this.associated == associated
      ensures pages.stored == map[]
    {
      this.series := series;
      this.read := read;
      this.fill := fill;
      this.associated := associated;
      pages := new Memo(key => CreatePhilipsPage(series, read, fill, key));
    }

    /**
     * `get_page`: the page made on the first request for a key and kept;
     * the same page for every later request.
     */
    method GetPage(key: PageKey) returns (r: Result<PhilipsImage>)
      requires Valid()
      modifies pages
      ensures Valid()
      ensures r == CreatePhilipsPage(series, read, fill, key)
      ensures key in old(pages.stored) ==> r == Ok(old(pages.stored)[key]) && pages.stored == old(pages.stored)
      ensures r.Ok? ==> key in pages.stored && pages.stored[key] == r.value
    {
      r := pages.Get(key);
    }
  }

  /**
   * `PhilipsTiffTiler.__init__`: the series are classified in one pass,
   * then the tiler starts with no page made.
   */
  method NewPhilipsTiffTiler(series: seq<PhilipsSeries>, read: (int, int) -> bytes, fill: bytes -> bytes)
    returns (r: Result<PhilipsTiffTiler>)
    ensures r.Ok? <==> Classification(series).Ok?
    ensures r.Err? ==> r.error == IndexError
    ensures r.Ok? ==> fresh(r.value) && fresh(r.value.pages) && r.value.Valid()
    ensures r.Ok? ==> r.value.series == series && r.value.associated == Classification(series).value
    ensures r.Ok? ==> r.value.pages.stored == map[]
  {
    var found := Associated(None, None);
    for i := 0 to |series|
      invariant Classification(series[..i]) == Ok(found)
    {
      assert series[..i + 1][..i] == series[..i];
      var isLabel := IsLabel(series[i]);
      if isLabel.Err? {
        assert Classification(series[..i + 1]).Err?;
        ClassificationStops(series, i + 1);
        return Err(isLabel.error);
      }
      if isLabel.value {
        found := found.(labelIndex := Some(i));
      } else {
        var isOverview := IsOverview(series[i]);
        if isOverview.value {
          found := found.(overviewIndex := Some(i));
        }
      }
    }
    assert series[..|series|] == series;
    var tiler := new PhilipsTiffTiler(series, read, fill, found);
    return Ok(tiler);
  }

  /** Once the classification of a prefix fails, so does that of the whole. */
  lemma {:induction false} ClassificationStops(all: seq<PhilipsSeries>, k: nat)
    requires k <= |all| && Classification(all[..k]).Err?
    ensures Classification(all).Err? && Classification(all).error == IndexError
    decreases |all| - k
  {
    if k < |all| {
      assert all[..k + 1][..k] == all[..k];
      ClassificationStops(all, k + 1);
    } else {
      assert all[..k] == all;
      ClassificationFails(all);
    }
  }

  // --------------------------------------------------------- text values

  /** Each word cast in order; the first cast that raises is raised. */
  function CastAll<T>(words: seq<string>, cast: string -> Result<T>): (r: Result<seq<T>>)
    ensures r.Ok? ==> |r.value| == |words| && forall i :: 0 <= i < |words| ==> cast(words[i]) == Ok(r.value[i])
    ensures r.Err? <==> exists i :: 0 <= i < |words| && cast(words[i]).Err?
    decreases |words|
  {
    if words == [] then Ok([])
    else
      var n := |words| - 1;
      var init := CastAll(words[..n], cast);
      if init.Err? then
        assert exists i :: 0 <= i < n && cast(words[..n][i]).Err?;
        Err(init.error)
      else
        var last :- cast(words[n]);
        Ok(init.value + [last])
  }

  /**
   * `_split_and_cast_text`: the text without its quotes, split on
   * whitespace, each word cast by `cast` (`float`, `int` or `str`).
   */
  function SplitAndCast<T>(text: string, cast: string -> Result<T>): (r: Result<seq<T>>)
    ensures r.Ok? ==> |r.value| == |Words(WithoutQuotes(text))|
    ensures r.Ok? ==> forall i :: 0 <= i < |r.value| ==> cast(Words(WithoutQuotes(text))[i]) == Ok(r.value[i])
    ensures r.Err? ==> exists i :: 0 <= i < |Words(WithoutQuotes(text))| && cast(Words(WithoutQuotes(text))[i]).Err?
    ensures (exists i :: 0 <= i < |Words(WithoutQuotes(text))| && cast(Words(WithoutQuotes(text))[i]).Err?) ==> r.Err?
  {
    CastAll(Words(WithoutQuotes(text)), cast)
  }
}
