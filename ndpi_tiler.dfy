/**
 * The NDPI tilers: the tile size they settle on, the smallest stripe width
 * of the file that drives it, and which kind of page or image each request
 * for a page creates. Three generations are modelled: the first tiler
 * (`opentile/ndpi_tiler.py`), the tiler of `opentile/ndpi/ndpi_tiler.py`
 * and the tiler of `opentile/formats/ndpi/ndpi_tiler.py`. The TIFF file is
 * given as its series, each a list of levels, each a list of pages.
 */
module NdpiTilers {
  import opened Wrappers
  import opened PyBytes
  import opened Geometry
  import opened TileGrid
  import opened Memo

  // ------------------------------------------------------------ tile size

  /**
   * `round(math.log2(a / b))` for a ratio `a / b` of at least 1/√2, on
   * integers: halve the ratio (double `b`) until it is below √2, that is
   * until `a² < 2·b²`.
   */
  function NearestExponent(a: int, b: int): (n: nat)
    requires 0 < a && 0 < b && b * b <= 2 * a * a
    decreases a - b
  {
    if a * a < 2 * b * b then 0
    else
      assert a > b by {
        if a <= b {
          assert a * a <= b * b by { MulLe(a, b); }
        }
      }
      1 + NearestExponent(a, 2 * b)
  }

  lemma MulLe(a: int, b: int)
    requires 0 < a <= b
    ensures a * a <= b * b
  {
    assert a * a <= a * b;
  }

  /**
   * The exponent is the one nearest to log2 of the ratio: in squares,
   * `2^(2n-1) ≤ (a/b)² < 2^(2n+1)`, written without fractions.
   */
  lemma {:induction false} NearestExponentBounds(a: int, b: int)
    requires 0 < a && 0 < b && b * b <= 2 * a * a
    ensures var n := NearestExponent(a, b);
      Pow2(2 * n) * (b * b) <= 2 * (a * a) && a * a < 2 * (Pow2(2 * n) * (b * b))
    decreases a - b
  {
    if a * a >= 2 * b * b {
      var m := NearestExponent(a, 2 * b);
      NearestExponentBounds(a, 2 * b);
      var n := 1 + m;
      assert Pow2(2 * n) == 4 * Pow2(2 * m);
      assert (2 * b) * (2 * b) == 4 * (b * b);
      assert Pow2(2 * n) * (b * b) == Pow2(2 * m) * ((2 * b) * (2 * b)) by {
        MulShift(Pow2(2 * m), b * b);
      }
    }
  }

  lemma MulShift(p: int, q: int)
    ensures (4 * p) * q == p * (4 * q)
  {
  }

  /**
   * `_adjust_tile_size`: without striped pages, or when the request equals
   * the smallest stripe width, the requested square; otherwise the smallest
   * stripe width times the power of two nearest (in log scale) to the ratio
   * of the larger to the smaller of the two. A request of 0 divides by zero
   * and a negative one is outside the domain of `log2`. Stripe widths come
   * from the TIFF tile widths, which are positive.
   */
  function AdjustTileSize(requested: int, smallest: Option<int>): (r: Result<Size>)
    requires smallest.Some? ==> smallest.value > 0
    ensures r.Ok? ==> r.value.width == r.value.height
    ensures smallest.None? || smallest.value == requested ==> r == Ok(Size(requested, requested))
    ensures smallest.Some? && smallest.value != requested ==>
      (r.Ok? <==> requested > 0)
      && (requested == 0 ==> r == Err(ZeroDivisionError))
      && (requested < 0 ==> r == Err(ValueError))
  {
    if smallest.None? || smallest.value == requested then Ok(Size(requested, requested))
    else if requested == 0 then Err(ZeroDivisionError)
    else if requested < 0 then Err(ValueError)
    else
      var s := smallest.value;
      var n := if requested > s then RatioExponent(requested, s) else RatioExponent(s, requested);
      Ok(Size(Pow2(n) * s, Pow2(n) * s))
  }

  /** The exponent of `2` nearest to `log2(a / b)` for `a ≥ b > 0`. */
  function RatioExponent(a: int, b: int): (n: nat)
    requires 0 < b <= a
  {
    assert b * b <= 2 * a * a by { MulLe(b, a); }
    NearestExponent(a, b)
  }

  /**
   * Away from the identity cases the adjusted width is the smallest stripe
   * width times `2^n`, where `n` is the exponent nearest to log2 of the
   * ratio between request and stripe width (taken the larger over the
   * smaller).
   */
  lemma AdjustedIsNearestPowerMultiple(requested: int, s: int)
    requires 0 < s && 0 < requested && s != requested
    ensures var a := Max(requested, s);
      var b := Min(requested, s);
      exists n: nat ::
        AdjustTileSize(requested, Some(s)) == Ok(Size(Pow2(n) * s, Pow2(n) * s))
        && Pow2(2 * n) * (b * b) <= 2 * (a * a) && a * a < 2 * (Pow2(2 * n) * (b * b))
  {
    var a := Max(requested, s);
    var b := Min(requested, s);
    var n := RatioExponent(a, b);
    MulLe(b, a);
    NearestExponentBounds(a, b);
    assert AdjustTileSize(requested, Some(s)) == Ok(Size(Pow2(n) * s, Pow2(n) * s));
  }

  /** When the request is an exact power-of-two multiple of the stripe width, it is kept. */
  lemma {:induction false} PowerMultipleIsKept(s: int, k: nat)
    requires 0 < s
    ensures AdjustTileSize(Pow2(k) * s, Some(s)) == Ok(Size(Pow2(k) * s, Pow2(k) * s))
  {
    if k > 0 {
      assert Pow2(k) * s > s by {
        assert Pow2(k) >= 2 by { assert Pow2(k) == 2 * Pow2(k - 1); }
      }
      ExactExponent(s, k);
    }
  }

  /** The exponent nearest to log2 of `2^k` is `k`. */
  lemma {:induction false} ExactExponent(s: int, k: nat)
    requires 0 < s
    ensures (Pow2(k) * s) * (Pow2(k) * s) >= s * s
    ensures s * s <= 2 * (Pow2(k) * s) * (Pow2(k) * s)
    ensures NearestExponent(Pow2(k) * s, s) == k
    decreases k
  {
    var a := Pow2(k) * s;
    if k == 0 {
      assert a == s;
    } else {
      var s2 := 2 * s;
      var p := Pow2(k - 1);
      assert a == p * s2 by {
        assert Pow2(k) == 2 * p;
        MulShift2(p, s);
      }
      ExactExponent(s2, k - 1);
      DoubledBase(a, s, k - 1);
    }
  }

  /** A ratio at least twice the squared base takes one more halving than the ratio to twice the base. */
  lemma DoubledBase(a: int, s: int, m: nat)
    requires 0 < s && 0 < a && a * a >= (2 * s) * (2 * s)
    requires NearestExponent(a, 2 * s) == m
    ensures a * a >= s * s && s * s <= 2 * a * a
    ensures NearestExponent(a, s) == m + 1
  {
    Double(s, 2 * s);
    Double(s, s);
    Double(a, a);
  }

  lemma Double(p: int, q: int)
    ensures (2 * p) * q == 2 * (p * q) && p * (2 * q) == 2 * (p * q)
  {
  }

  lemma MulShift2(p: int, q: int)
    ensures (2 * p) * q == p * (2 * q)
  {
  }

  /**
   * A request below the smallest stripe width is not divided down: the
   * factor still multiplies the stripe width, so the adjusted size is at
   * least the stripe width.
   */
  lemma SmallRequestGrows(requested: int, s: int)
    requires 0 < requested < s
    ensures AdjustTileSize(requested, Some(s)).Ok?
    ensures AdjustTileSize(requested, Some(s)).value.width >= s > requested
  {
  }

  /**
   * With stripes 56 or 248 pixels wide, 512 becomes 448 or 496; with
   * stripes as wide as the request it stays 512.
   */
  lemma AdjustTileSizeExamples()
    ensures AdjustTileSize(512, Some(56)) == Ok(Size(448, 448))
    ensures AdjustTileSize(512, Some(248)) == Ok(Size(496, 496))
    ensures AdjustTileSize(512, Some(512)) == Ok(Size(512, 512))
    ensures AdjustTileSize(512, None) == Ok(Size(512, 512))
  {
    assert NearestExponent(512, 448) == 0;
    assert NearestExponent(512, 224) == 1;
    assert NearestExponent(512, 112) == 2;
    assert NearestExponent(512, 56) == 3;
    assert NearestExponent(512, 496) == 0;
    assert NearestExponent(512, 248) == 1;
  }

  /**
   * The tiler constructor's tile size: the adjusted size, which must be
   * divisible by 8 in both axes, else `ValueError`.
   */
  function TilerTileSize(requested: int, smallest: Option<int>): (r: Result<Size>)
    requires smallest.Some? ==> smallest.value > 0
    ensures r.Ok? <==> (AdjustTileSize(requested, smallest).Ok?
      && FloorMod(AdjustTileSize(requested, smallest).value.width, 8) == 0
      && FloorMod(AdjustTileSize(requested, smallest).value.height, 8) == 0)
    ensures r.Ok? ==> r == AdjustTileSize(requested, smallest)
    ensures r.Err? && AdjustTileSize(requested, smallest).Ok? ==> r.error == ValueError
    ensures AdjustTileSize(requested, smallest).Err? ==> r == Err(AdjustTileSize(requested, smallest).error)
  {
    var size :- AdjustTileSize(requested, smallest);
    if FloorMod(size.width, 8) != 0 || FloorMod(size.height, 8) != 0 then Err(ValueError) else Ok(size)
  }

  // ------------------------------------------------- smallest stripe width

  /**
   * The running minimum of `_get_smallest_stripe_width` after the given
   * pages: the chunk width of a tiled page replaces it when there is none
   * yet or it is smaller.
   */
  function SmallestStripeWidth(pages: seq<TiffPageInfo>): Option<int>
  {
    if pages == [] then None
    else
      var m := SmallestStripeWidth(pages[..|pages| - 1]);
      var p := pages[|pages| - 1];
      if p.isTiled && (m.None? || m.value > p.chunkWidth) then Some(p.chunkWidth) else m
  }

  /**
   * No tiled page gives `None`; otherwise the result is the chunk width of
   * some tiled page and no tiled page has a smaller one.
   */
  lemma {:induction false} SmallestStripeWidthIsMinimum(pages: seq<TiffPageInfo>)
    ensures SmallestStripeWidth(pages).None? <==> forall i :: 0 <= i < |pages| ==> !pages[i].isTiled
    ensures SmallestStripeWidth(pages).Some? ==>
      (forall i :: 0 <= i < |pages| && pages[i].isTiled ==> SmallestStripeWidth(pages).value <= pages[i].chunkWidth)
      && (exists i :: 0 <= i < |pages| && pages[i].isTiled && pages[i].chunkWidth == SmallestStripeWidth(pages).value)
  {
    if pages != [] {
      var n := |pages| - 1;
      var init := pages[..n];
      SmallestStripeWidthIsMinimum(init);
      assert forall i :: 0 <= i < n ==> pages[i] == init[i];
      var m := SmallestStripeWidth(init);
      if m.Some? {
        var j :| 0 <= j < n && init[j].isTiled && init[j].chunkWidth == m.value;
        assert pages[j] == init[j];
      }
    }
  }

  /** `_get_smallest_stripe_width`: one pass over the pages keeping the running minimum. */
  method GetSmallestStripeWidth(pages: seq<TiffPageInfo>) returns (smallest: Option<int>)
    ensures smallest == SmallestStripeWidth(pages)
  {
    smallest := None;
    for i := 0 to |pages|
      invariant smallest == SmallestStripeWidth(pages[..i])
    {
      assert pages[..i + 1][..i] == pages[..i];
      var page := pages[i];
      if page.isTiled && (smallest.None? || smallest.value > page.chunkWidth) {
        smallest := Some(page.chunkWidth);
      }
    }
    assert pages[..|pages|] == pages;
  }

  // --------------------------------------------------------------- pages

  /** The pages and images the tilers create. */
  datatype NdpiPage =
      /** A tiled page: frames are built from stripes. */
    | StripedPage(page: TiffPageInfo, tileSize: Size)
      /** A level page stored as one frame, tiled by cropping. */
    | OneFramePage(page: TiffPageInfo, tileSize: Size)
      /** A page cropped to the horizontal fraction `crop` of its width. */
    | CroppedPage(page: TiffPageInfo, cropFrom: real, cropTo: real)
      /** The overview image of the newest generation; its crop is set where it is defined. */
    | OverviewPage(page: TiffPageInfo)
      /** A single frame that is not tiled. */
    | PlainPage(page: TiffPageInfo)

  /**
   * The second-generation tiler. Series 0 holds the levels; the last series
   * named "Macro" is the overview, and its label is cropped out of the same
   * macro image under the faked series index -1.
   */
  datatype NdpiTilerState = NdpiTilerState(
    series: seq<TiffSeries>,
    tileSize: Size,
    overviewIndex: Option<int>,
    labelIndex: Option<int>,
    labelCropPosition: real)

  /** The second-generation constructor: the tile size and the overview and faked label indices. */
  function NewNdpiTiler(series: seq<TiffSeries>, requested: int, smallest: Option<int>, labelCropPosition: real): (r: Result<NdpiTilerState>)
    requires smallest.Some? ==> smallest.value > 0
    ensures r.Ok? <==> TilerTileSize(requested, smallest).Ok?
    ensures r.Ok? ==> r.value.tileSize == TilerTileSize(requested, smallest).value
    ensures r.Ok? ==> r.value.overviewIndex == LastNamed(series, "Macro")
    ensures r.Ok? ==> (r.value.labelIndex.Some? <==> r.value.overviewIndex.Some?)
    ensures r.Ok? && r.value.labelIndex.Some? ==> r.value.labelIndex.value == -1
  {
    var tileSize :- TilerTileSize(requested, smallest);
    var overview := LastNamed(series, "Macro");
    Ok(NdpiTilerState(series, tileSize, overview, if overview.Some? then Some(-1) else None, labelCropPosition))
  }

  /**
   * `_create_level_page`, `_create_overview_page` and `_create_label_page`
   * as `get_page` dispatches to them: the level series gives a striped page
   * for a tiled page and a one-frame page otherwise; the overview and the
   * label are the first page of the macro series cropped to `(p, 1.0)` and
   * `(0.0, p)`, which split its width at `p`; any other series raises
   * `ValueError`.
   */
  function CreatePage(t: NdpiTilerState, key: PageKey): (r: Result<NdpiPage>)
    ensures key.series == 0 ==> (r.Ok? <==> PageAt(t.series, 0, key.level, key.page).Ok?)
    ensures key.series == 0 && r.Ok? ==> r.value.page == PageAt(t.series, 0, key.level, key.page).value
    ensures key.series == 0 && r.Ok? ==>
      (r.value.StripedPage? <==> r.value.page.isTiled)
      && (r.value.StripedPage? || r.value.OneFramePage?) && r.value.tileSize == t.tileSize
    ensures key.series != 0 && Some(key.series) != t.overviewIndex && Some(key.series) != t.labelIndex ==> r == Err(ValueError)
    ensures key.series != 0 && Some(key.series) == t.overviewIndex && r.Ok? ==>
      r.value.CroppedPage? && r.value.cropFrom == t.labelCropPosition && r.value.cropTo == 1.0
    ensures key.series != 0 && Some(key.series) != t.overviewIndex && Some(key.series) == t.labelIndex && r.Ok? ==>
      r.value.CroppedPage? && r.value.cropFrom == 0.0 && r.value.cropTo == t.labelCropPosition
  {
    if key.series == 0 then
      var page :- PageAt(t.series, 0, key.level, key.page);
      if page.isTiled then Ok(StripedPage(page, t.tileSize)) else Ok(OneFramePage(page, t.tileSize))
    else if Some(key.series) == t.overviewIndex then
      var page :- PageAt(t.series, t.overviewIndex.value, 0, 0);
      Ok(CroppedPage(page, t.labelCropPosition, 1.0))
    else if Some(key.series) == t.labelIndex then
      if t.overviewIndex.None? then Err(AssertionError)
      else
        var page :- PageAt(t.series, t.overviewIndex.value, 0, 0);
        Ok(CroppedPage(page, 0.0, t.labelCropPosition))
    else Err(ValueError)
  }

  /**
   * The first tiler's constructor: the tile size, the label series (the last
   * named "Label") and the overview series (the last named "Macro").
   */
  datatype FirstNdpiTilerState = FirstNdpiTilerState(
    series: seq<TiffSeries>,
    tileSize: Size,
    labelIndex: Option<int>,
    overviewIndex: Option<int>)

  function NewFirstNdpiTiler(series: seq<TiffSeries>, requested: int, smallest: Option<int>): (r: Result<FirstNdpiTilerState>)
    requires smallest.Some? ==> smallest.value > 0
    ensures r.Ok? <==> TilerTileSize(requested, smallest).Ok?
    ensures r.Ok? ==> r.value.tileSize == TilerTileSize(requested, smallest).value
    ensures r.Ok? ==> r.value.labelIndex == LastNamed(series, "Label") && r.value.overviewIndex == LastNamed(series, "Macro")
  {
    var tileSize :- TilerTileSize(requested, smallest);
    Ok(FirstNdpiTilerState(series, tileSize, LastNamed(series, "Label"), LastNamed(series, "Macro")))
  }

  /**
   * The first tiler's `_create_page`: a tiled page is striped whatever its
   * series; an untiled page of the level series is a one-frame page, and
   * of any other series a plain page. Only the indexing can fail.
   */
  function CreateFirstPage(t: FirstNdpiTilerState, key: PageKey): (r: Result<NdpiPage>)
    ensures r.Ok? <==> PageAt(t.series, key.series, key.level, key.page).Ok?
    ensures r.Err? ==> r.error == IndexError
    ensures r.Ok? ==> r.value.page == PageAt(t.series, key.series, key.level, key.page).value
    ensures r.Ok? ==> (r.value.StripedPage? <==> r.value.page.isTiled)
    ensures r.Ok? ==> (r.value.OneFramePage? <==> !r.value.page.isTiled && key.series == 0)
    ensures r.Ok? ==> (r.value.PlainPage? <==> !r.value.page.isTiled && key.series != 0)
  {
    var page :- PageAt(t.series, key.series, key.level, key.page);
    if page.isTiled then Ok(StripedPage(page, t.tileSize))
    else if key.series == 0 then Ok(OneFramePage(page, t.tileSize))
    else Ok(PlainPage(page))
  }

  /** `get_page` of the second-generation tiler: pages are created once per key and kept. */
  method NewPageCache(t: NdpiTilerState) returns (pages: Memo<PageKey, NdpiPage>)
    ensures fresh(pages) && pages.Valid()
    ensures pages.compute == (key => CreatePage(t, key)) && pages.stored == map[]
  {
    pages := new Memo(key => CreatePage(t, key));
  }

  /** `get_page` of the first tiler, over its `_create_page`. */
  method NewFirstPageCache(t: FirstNdpiTilerState) returns (pages: Memo<PageKey, NdpiPage>)
    ensures fresh(pages) && pages.Valid()
    ensures pages.compute == (key => CreateFirstPage(t, key)) && pages.stored == map[]
  {
    pages := new Memo(key => CreateFirstPage(t, key));
  }

  /**
   * Asking the second-generation tiler twice for the same key gives the
   * same page, and the second request creates nothing.
   */
  method GetPageTwice(t: NdpiTilerState, key: PageKey) returns (first: Result<NdpiPage>, second: Result<NdpiPage>)
    ensures first == second == CreatePage(t, key)
  {
    var pages := NewPageCache(t);
    first := pages.Get(key);
    second := pages.Get(key);
  }

  // ----------------------------------------------- third-generation tiler

  /** What the newest tiler's `get_level`, `get_label` and `get_overview` return. */
  datatype NdpiImageKind =
    | StripedImage(page: TiffPageInfo, tileSize: Size)
    | OneFrameImage(page: TiffPageInfo, tileSize: Size)
    | LabelImage(page: TiffPageInfo, cropFrom: real, cropTo: real)
    | OverviewImage(page: TiffPageInfo)

  /**
   * The newest tiler's state: the series, the adjusted tile size, the
   * overview series found by the predicates, and the label crop position.
   */
  datatype NdpiFormatTiler = NdpiFormatTiler(series: seq<TiffSeries>, tileSize: Size, overviewIndex: Option<int>, labelCropPosition: real)

  /**
   * `get_level`: page `page` of level `level` of series 0, striped when the
   * TIFF page is tiled and one frame otherwise.
   */
  function GetLevel(t: NdpiFormatTiler, level: int, page: int): (r: Result<NdpiImageKind>)
    ensures r.Ok? <==> PageAt(t.series, 0, level, page).Ok?
    ensures r.Err? ==> r.error == IndexError
    ensures r.Ok? ==> r.value.page == PageAt(t.series, 0, level, page).value
    ensures r.Ok? ==> (r.value.StripedImage? <==> r.value.page.isTiled) && (r.value.OneFrameImage? <==> !r.value.page.isTiled)
    ensures r.Ok? ==> r.value.tileSize == t.tileSize
  {
    var tiffPage :- PageAt(t.series, 0, level, page);
    if tiffPage.isTiled then Ok(StripedImage(tiffPage, t.tileSize)) else Ok(OneFrameImage(tiffPage, t.tileSize))
  }

  /**
   * `get_label`: the macro page cropped to `(0.0, label_crop_position)`;
   * without an overview series the assertion fails.
   */
  function GetLabel(t: NdpiFormatTiler, page: int): (r: Result<NdpiImageKind>)
    ensures t.overviewIndex.None? ==> r == Err(AssertionError)
    ensures r.Ok? ==> r.value.LabelImage? && r.value.cropFrom == 0.0 && r.value.cropTo == t.labelCropPosition
    ensures r.Ok? ==> t.overviewIndex.Some? && PageAt(t.series, t.overviewIndex.value, 0, page) == Ok(r.value.page)
    ensures t.overviewIndex.Some? ==> (r.Ok? <==> PageAt(t.series, t.overviewIndex.value, 0, page).Ok?)
  {
    if t.overviewIndex.None? then Err(AssertionError)
    else
      var tiffPage :- PageAt(t.series, t.overviewIndex.value, 0, page);
      Ok(LabelImage(tiffPage, 0.0, t.labelCropPosition))
  }

  /**
   * `get_overview`: the whole macro page, not cropped; without an overview
   * series the assertion fails.
   */
  function GetOverview(t: NdpiFormatTiler, page: int): (r: Result<NdpiImageKind>)
    ensures t.overviewIndex.None? ==> r == Err(AssertionError)
    ensures r.Ok? ==> r.value.OverviewImage?
    ensures r.Ok? ==> t.overviewIndex.Some? && PageAt(t.series, t.overviewIndex.value, 0, page) == Ok(r.value.page)
    ensures t.overviewIndex.Some? ==> (r.Ok? <==> PageAt(t.series, t.overviewIndex.value, 0, page).Ok?)
  {
    if t.overviewIndex.None? then Err(AssertionError)
    else
      var tiffPage :- PageAt(t.series, t.overviewIndex.value, 0, page);
      Ok(OverviewImage(tiffPage))
  }

  /**
   * The label and the overview of the newest tiler are read from the same
   * macro page: whenever both succeed, the label is that page cropped to its
   * left part and the overview is the page itself.
   */
  lemma LabelAndOverviewShareThePage(t: NdpiFormatTiler, page: int)
    requires GetOverview(t, page).Ok?
    ensures GetLabel(t, page).Ok?
    ensures GetLabel(t, page).value.page == GetOverview(t, page).value.page
  {
  }

  /** `get_thumbnail`: NDPI files have no thumbnail image. */
  function GetThumbnail(t: NdpiFormatTiler, page: int): (r: Result<NdpiImageKind>)
    ensures r == Err(NotImplementedError)
  {
    Err(NotImplementedError)
  }
}
