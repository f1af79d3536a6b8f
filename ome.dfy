/**
 * OME-TIFF: the pages of an OME-TIFF file and the tiler that hands them
 * out (`OmeTiffPage`, `OmeTiffOneFramePage`, `OmeTiffTiledPage` and
 * `OmeTiffTiler`).
 *
 * A page that is not tiled is served as one frame. The untiled pages of
 * the pyramid series are re-tiled like a one-frame NDPI level, with one
 * difference: the size read for a tile is the image size rounded up to a
 * whole number of tiles, not the NDPI frame size.
 */
module Ome {
  import opened Wrappers
  import opened PyBytes
  import opened Geometry
  import opened TileGrid
  import opened Mcu
  import opened JpegSplice
  import opened NdpiTiles
  import opened NdpiImages
  import opened Memo
  import opened PyText

  /** A physical size per pixel: micrometres for `mpp`, millimetres for `pixel_spacing`. */
  datatype SizeMm = SizeMm(width: real, height: real)

  /**
   * `pixel_spacing`: the micrometres per pixel converted to millimetres, or
   * `None` when the page has no `mpp`.
   */
  function PixelSpacing(mpp: Option<SizeMm>): (r: Option<SizeMm>)
    ensures r.None? <==> mpp.None?
    ensures r.Some? ==> r.value.width * 1000.0 == mpp.value.width && r.value.height * 1000.0 == mpp.value.height
  {
    if mpp.None? then None else Some(SizeMm(mpp.value.width / 1000.0, mpp.value.height / 1000.0))
  }

  /** What the model reads from a TIFF page of an OME file. */
  datatype OmeTiffPage = OmeTiffPage(isTiled: bool, imageSize: Size, subsampling: Option<(int, int)>, frames: TiffFrames)

  /**
   * `OmeTiffOneFramePage`: an untiled page of the pyramid series, served in
   * tiles of `tileSize` (the tile size of the base page).
   */
  datatype OmeOneFramePage = OmeOneFramePage(page: OmeTiffPage, tileSize: Size)
  {
    /** `mcu`: the MCU size the page's chroma subsampling implies. */
    function Mcu(): Result<Size>
    {
      McuOfSubsampling(page.subsampling)
    }

    /**
     * `_get_frame_size_for_tile`: the image size rounded up, in each axis,
     * to the smallest whole number of tiles strictly larger than it; the
     * same for every tile position.
     */
    function FrameSizeForTile(p: Point): (r: Result<Size>)
      ensures r.Err? <==> tileSize.width == 0 || tileSize.height == 0
      ensures r.Ok? && Positive(tileSize) ==>
        r.value.width % tileSize.width == 0 && r.value.height % tileSize.height == 0
        && page.imageSize.width < r.value.width <= page.imageSize.width + tileSize.width
        && page.imageSize.height < r.value.height <= page.imageSize.height + tileSize.height
    {
      OneFrameReadSize(page.imageSize, tileSize)
    }

    /**
     * `_read_extended_frame`: only position (0, 0) exists. Frame 0 is read,
     * its header is rewritten to whole MCUs when the image is not a whole
     * number of MCUs, and one crop of `frameSize` from its corner is
     * returned. An unknown subsampling raises `ValueError`.
     */
    function ReadExtendedFrame(read: (int, int) -> bytes, crop: (bytes, seq<CropBox>) -> Result<seq<bytes>>,
                               position: Point, frameSize: Size): (r: Result<bytes>)
      ensures position != Point(0, 0) ==> r == Err(ValueError)
      ensures position == Point(0, 0) && ReadFrame(page.frames, read, 0).Ok? && Mcu().Err? ==> r == Err(ValueError)
      ensures r.Ok? ==> Mcu().Ok? && ReadFrame(page.frames, read, 0).Ok?
      ensures position == Point(0, 0) && ReadFrame(page.frames, read, 0).Ok? && Mcu().Ok? && Positive(Mcu().value) ==>
        var frame := ReadFrame(page.frames, read, 0).value;
        var m := Mcu().value;
        var box := [CropBox(0, 0, frameSize.width, frameSize.height)];
        var header := SetFrameSize(frame, WholeMcuSize(page.imageSize, m).value);
        var aligned := page.imageSize.width % m.width == 0 && page.imageSize.height % m.height == 0;
        (aligned && crop(frame, box).Ok? && |crop(frame, box).value| >= 1 ==> r.Ok?)
        && (!aligned && header.Ok? && crop(header.value, box).Ok? && |crop(header.value, box).value| >= 1 ==> r.Ok?)
      ensures r.Ok? && Positive(Mcu().value) ==>
        var frame := ReadFrame(page.frames, read, 0).value;
        var m := Mcu().value;
        var box := [CropBox(0, 0, frameSize.width, frameSize.height)];
        (page.imageSize.width % m.width == 0 && page.imageSize.height % m.height == 0 ==>
           crop(frame, box).Ok? && |crop(frame, box).value| >= 1 && r.value == crop(frame, box).value[0])
        && (page.imageSize.width % m.width != 0 || page.imageSize.height % m.height != 0 ==>
              var header := SetFrameSize(frame, WholeMcuSize(page.imageSize, m).value);
              header.Ok? && crop(header.value, box).Ok? && |crop(header.value, box).value| >= 1
              && r.value == crop(header.value, box).value[0])
    {
      OneFrameExtended(page.imageSize, Mcu(), page.frames, read, crop, position, frameSize)
    }
  }

  /**
   * The NDPI one-frame level and the OME one-frame page read the same size
   * when the image is at least one tile in each axis: the NDPI frame size
   * is then the image size.
   */
  lemma FrameSizeAsNdpiForLargeImages(level: NdpiLevel, page: OmeOneFramePage, p: Point)
    requires level.layout.OneFrame? && page.page.imageSize == level.imageSize && page.tileSize == level.tileSize
    requires level.tileSize.width <= level.imageSize.width && level.tileSize.height <= level.imageSize.height
    ensures page.FrameSizeForTile(p) == level.FrameSizeForTile(p)
  {
    assert level.FrameSize() == level.imageSize;
  }

  /**
   * An image smaller than a tile: the OME page reads one tile, an NDPI
   * one-frame level reads two tiles in each axis, since its frame size is
   * the tile size.
   */
  lemma FrameSizeBelowOneTile(frames: TiffFrames)
    ensures OmeOneFramePage(OmeTiffPage(false, Size(100, 100), None, frames), Size(256, 256)).FrameSizeForTile(Point(0, 0))
            == Ok(Size(256, 256))
    ensures NdpiLevel(Size(100, 100), Size(256, 256), OneFrame(Ok(Size(8, 8)))).FrameSizeForTile(Point(0, 0))
            == Ok(Size(512, 512))
  {
    assert FloorDiv(100, 256) == 0;
    assert FloorDiv(256, 256) == 1;
  }

  // ------------------------------------------------------------ the tiler

  /** A series of the file: its name and its levels of pages. */
  datatype OmeSeries = OmeSeries(name: string, levels: seq<seq<OmeTiffPage>>)

  /** `_is_label_series`: the name, stripped of whitespace, is `label`. */
  predicate IsLabelSeries(series: OmeSeries)
  {
    Strip(series.name) == "label"
  }

  /** `_is_overview_series`: the name, stripped of whitespace, is `macro`. */
  predicate IsOverviewSeries(series: OmeSeries)
  {
    Strip(series.name) == "macro"
  }

  /** `_is_level_series`: neither a label nor an overview. */
  predicate IsLevelSeries(series: OmeSeries)
  {
    !IsLabelSeries(series) && !IsOverviewSeries(series)
  }

  /**
   * A name is a label (overview) name exactly when it is `label`
   * (`macro`) with any whitespace around it; the comparison is
   * case-sensitive, and every other name is a level series.
   */
  lemma SeriesKinds(before: string, word: string, after: string, levels: seq<seq<OmeTiffPage>>)
    requires forall k :: 0 <= k < |before| ==> IsSpace(before[k])
    requires forall k :: 0 <= k < |after| ==> IsSpace(after[k])
    requires word == [] || (!IsSpace(word[0]) && !IsSpace(word[|word| - 1]))
    ensures IsLabelSeries(OmeSeries(before + word + after, levels)) <==> word == "label"
    ensures IsOverviewSeries(OmeSeries(before + word + after, levels)) <==> word == "macro"
    ensures IsLevelSeries(OmeSeries(before + word + after, levels)) <==> word != "label" && word != "macro"
  {
    StripPadded(before, word, after);
  }

  /** `label` with whitespace around it names a label series. */
  lemma LabelNamePadded(levels: seq<seq<OmeTiffPage>>)
    ensures IsLabelSeries(OmeSeries(" label\n", levels))
  {
    assert " label\n" == " " + "label" + "\n";
    SeriesKinds(" ", "label", "\n", levels);
  }

  /** A capitalised `Label` is not a label name: it names a level series. */
  lemma LabelNameCaseSensitive(levels: seq<seq<OmeTiffPage>>)
    ensures !IsLabelSeries(OmeSeries("Label", levels)) && IsLevelSeries(OmeSeries("Label", levels))
  {
    assert "Label" == "" + "Label" + "";
    SeriesKinds("", "Label", "", levels);
  }

  /**
   * The OME metadata of one image: the unit of each physical size (true
   * for micrometres) and the sizes, which may be missing.
   */
  datatype OmePixels = OmePixels(xInMicrometres: bool, yInMicrometres: bool, sizeX: Option<real>, sizeY: Option<real>)

  /**
   * `_get_optional_mpp`: the metadata of the series' image (Python
   * indexing); a unit other than micrometres raises `NotImplementedError`,
   * a missing size gives `None`.
   */
  function OptionalMpp(images: seq<OmePixels>, seriesIndex: int): (r: Result<Option<SizeMm>>)
    ensures Index(images, seriesIndex).Err? ==> r == Err(IndexError)
    ensures Index(images, seriesIndex).Ok? ==>
      var pixels := Index(images, seriesIndex).value;
      (r.Err? <==> !pixels.xInMicrometres || !pixels.yInMicrometres)
      && (r.Err? ==> r.error == NotImplementedError)
      && (r.Ok? ==> (r.value.None? <==> pixels.sizeX.None? || pixels.sizeY.None?))
      && (r.Ok? && r.value.Some? ==> r.value.value == SizeMm(pixels.sizeX.value, pixels.sizeY.value))
  {
    var pixels :- Index(images, seriesIndex);
    if !pixels.xInMicrometres || !pixels.yInMicrometres then Err(NotImplementedError)
    else if pixels.sizeX.None? || pixels.sizeY.None? then Ok(None)
    else Ok(Some(SizeMm(pixels.sizeX.value, pixels.sizeY.value)))
  }

  /** `_get_mpp`: the optional mpp, where a missing one raises `ValueError`. */
  function Mpp(images: seq<OmePixels>, seriesIndex: int): (r: Result<SizeMm>)
    ensures r.Ok? <==> OptionalMpp(images, seriesIndex).Ok? && OptionalMpp(images, seriesIndex).value.Some?
    ensures r.Ok? ==> r.value == OptionalMpp(images, seriesIndex).value.value
    ensures OptionalMpp(images, seriesIndex).Err? ==> r == Err(OptionalMpp(images, seriesIndex).error)
    ensures OptionalMpp(images, seriesIndex) == Ok(None) ==> r == Err(ValueError)
  {
    var mpp :- OptionalMpp(images, seriesIndex);
    if mpp.None? then Err(ValueError) else Ok(mpp.value)
  }

  /** The pages `get_page` makes. */
  datatype OmePage =
      /** `OmeTiffTiledPage`, with the base mpp of the pyramid. */
    | TiledPage(page: OmeTiffPage, baseMpp: SizeMm)
      /** `OmeTiffOneFramePage`, with the base mpp of the pyramid. */
    | OneFramePage(oneFrame: OmeOneFramePage, baseMpp: SizeMm)
      /** `OmeTiffPage`, with the mpp of its own series. */
    | PlainPage(page: OmeTiffPage, mpp: Option<SizeMm>)

  /** `_get_tiff_page`: `series[series].levels[level].pages[page]`, with Python indexing. */
  function OmePageOf(all: seq<OmeSeries>, key: PageKey): (r: Result<OmeTiffPage>)
    ensures r.Err? ==> r.error == IndexError
    ensures (0 <= key.series < |all| && 0 <= key.level < |all[key.series].levels|
             && 0 <= key.page < |all[key.series].levels[key.level]|) ==>
      r == Ok(all[key.series].levels[key.level][key.page])
  {
    var series :- Index(all, key.series);
    var level :- Index(series.levels, key.level);
    Index(level, key.page)
  }

  /**
   * The page `get_page` makes for a key: a tiled TIFF page becomes a tiled
   * page; an untiled page of the level series a one-frame page in tiles of
   * `baseTileSize`; any other page a plain page with the optional mpp of
   * its series.
   */
  function CreateOmePage(all: seq<OmeSeries>, images: seq<OmePixels>, levelSeries: int, baseTileSize: Size,
                         baseMpp: SizeMm, key: PageKey): (r: Result<OmePage>)
    ensures OmePageOf(all, key).Err? ==> r == Err(IndexError)
    ensures OmePageOf(all, key).Ok? ==>
      var page := OmePageOf(all, key).value;
      (page.isTiled ==> r == Ok(TiledPage(page, baseMpp)))
      && (!page.isTiled && key.series == levelSeries ==> r == Ok(OneFramePage(OmeOneFramePage(page, baseTileSize), baseMpp)))
      && (!page.isTiled && key.series != levelSeries ==>
            (r.Ok? <==> OptionalMpp(images, key.series).Ok?)
            && (r.Ok? ==> r.value == PlainPage(page, OptionalMpp(images, key.series).value)))
  {
    var page :- OmePageOf(all, key);
    if page.isTiled then Ok(TiledPage(page, baseMpp))
    else if key.series == levelSeries then Ok(OneFramePage(OmeOneFramePage(page, baseTileSize), baseMpp))
    else
      var mpp :- OptionalMpp(images, key.series);
      Ok(PlainPage(page, mpp))
  }

  /**
   * `OmeTiffTiler`: the series, the OME metadata, the index of the level
   * series and the tile size of its base page, the base mpp and the
   * `_pages` dictionary.
   */
  class OmeTiffTiler {
    const series: seq<OmeSeries>
    const images: seq<OmePixels>
    const levelSeries: int
    const baseTileSize: Size
    const baseMpp: SizeMm
    const pages: Memo<PageKey, OmePage>

    ghost predicate Valid()
      reads this, pages
    {
      pages.Valid()
      && pages.compute == (key => CreateOmePage(series, images, levelSeries, baseTileSize, baseMpp, key))
      && Mpp(images, levelSeries) == Ok(baseMpp)
    }

    constructor(series: seq<OmeSeries>, images: seq<OmePixels>, levelSeries: int, baseTileSize: Size, baseMpp: SizeMm)
      requires Mpp(images, levelSeries) == Ok(baseMpp)
      ensures Valid() && fresh(pages)
      ensures this.series == series && this.images == images && this.levelSeries == levelSeries
      ensures this.baseTileSize == baseTileSize && this.baseMpp == baseMpp
      ensures pages.stored == map[]
    {
      this.series := series;
      this.images := images;
      this.levelSeries := levelSeries;
      this.baseTileSize := baseTileSize;
      this.baseMpp := baseMpp;
      pages := new Memo(key => CreateOmePage(series, images, levelSeries, baseTileSize, baseMpp, key));
    }

    /**
     * `get_page`: the page made on the first request for a key and kept;
     * the same page for every later request.
     */
    method GetPage(key: PageKey) returns (r: Result<OmePage>)
      requires Valid()
      modifies pages
      ensures Valid()
      ensures r == CreateOmePage(series, images, levelSeries, baseTileSize, baseMpp, key)
      ensures key in old(pages.stored) ==> r == Ok(old(pages.stored)[key]) && pages.stored == old(pages.stored)
      ensures r.Ok? ==> key in pages.stored && pages.stored[key] == r.value
    {
      r := pages.Get(key);
    }
  }

  /**
   * `OmeTiffTiler.__init__`: the base mpp is the mpp of the level series,
   * and a file without one is refused; the tiler starts with no page made.
   */
  method NewOmeTiffTiler(series: seq<OmeSeries>, images: seq<OmePixels>, levelSeries: int, baseTileSize: Size)
    returns (r: Result<OmeTiffTiler>)
    ensures r.Ok? <==> Mpp(images, levelSeries).Ok?
    ensures r.Err? ==> r.error == Mpp(images, levelSeries).error
    ensures r.Ok? ==> fresh(r.value) && fresh(r.value.pages) && r.value.Valid()
    ensures r.Ok? ==> r.value.series == series && r.value.baseMpp == Mpp(images, levelSeries).value
    ensures r.Ok? ==> r.value.pages.stored == map[]
  {
    var baseMpp := Mpp(images, levelSeries);
    if baseMpp.Err? {
      return Err(baseMpp.error);
    }
    var tiler := new OmeTiffTiler(series, images, levelSeries, baseTileSize, baseMpp.value);
    return Ok(tiler);
  }
}
