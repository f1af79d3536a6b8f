/**
 * MCU (minimum coded unit) sizes. `tjMCUWidth`/`tjMCUHeight` are the
 * libjpeg-turbo tables indexed by the chroma-subsampling constant
 * (4:4:4, 4:2:2, 4:2:0, gray, 4:4:0, 4:1:1); the page `mcu` properties map a
 * TIFF YCbCr subsampling pair to an MCU size.
 */
module Mcu {
  import opened Wrappers
  import opened PyBytes
  import opened Geometry

  const McuWidths: seq<int> := [8, 16, 16, 8, 8, 32]
  const McuHeights: seq<int> := [8, 8, 16, 8, 16, 8]

  /** `tjMCUWidth[s] * tjMCUHeight[s]` with Python list indexing. */
  function McuArea(subsample: int): (r: Result<int>)
    ensures r.Ok? <==> -6 <= subsample < 6
    ensures r.Ok? ==> r.value in {64, 128, 256}
  {
    var w := Index(McuWidths, subsample);
    if w.Err? then Err(w.error) else Ok(w.value * Index(McuHeights, subsample).value)
  }

  /**
   * `mcu` of the NDPI and OME pages: no subsampling or (1, 1) gives 8x8,
   * (2, 1) gives 16x8, (2, 2) gives 16x16, and anything else raises
   * `ValueError`.
   */
  function McuOfSubsampling(subsampling: Option<(int, int)>): (r: Result<Size>)
    ensures r.Ok? <==> subsampling in {None, Some((1, 1)), Some((2, 1)), Some((2, 2))}
    ensures r.Err? ==> r.error == ValueError
    ensures r.Ok? ==> subsampling.Some? ==>
      r.value == Size(8 * subsampling.value.0, 8 * subsampling.value.1)
    ensures r.Ok? ==> subsampling.None? ==> r.value == Size(8, 8)
  {
    match subsampling
    case None => Ok(Size(8, 8))
    case Some(s) =>
      if s == (1, 1) then Ok(Size(8, 8))
      else if s == (2, 1) then Ok(Size(16, 8))
      else if s == (2, 2) then Ok(Size(16, 16))
      else Err(ValueError)
  }
}
