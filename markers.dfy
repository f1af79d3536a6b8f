/**
 * The JPEG marker codes of the `Jpeg.TAGS` table and the marker constructors
 * built from it (Table B.1 of ITU-T T.81). The three generations of the `Jpeg`
 * class share one table and identical constructors, modelled once here.
 */
module Markers {
  import opened Wrappers
  import opened PyBytes

  const TagMarker: byte := 0xFF
  const StartOfImageCode: byte := 0xD8
  const QuantizationTableCode: byte := 0xDB
  const StartOfFrameCode: byte := 0xC0
  const HuffmanTableCode: byte := 0xC4
  const StartOfScanCode: byte := 0xDA
  const EndOfImageCode: byte := 0xD9
  const RestartIntervalCode: byte := 0xDD
  const RestartMarkCode: byte := 0xD0

  /**
   * A two-byte marker: the tag 0xFF and a code that is neither the stuffing
   * byte 0x00 nor a fill byte 0xFF (section B.1.1.2 of ITU-T T.81).
   */
  predicate IsMarker(m: bytes)
  {
    |m| == 2 && m[0] == TagMarker && m[1] != 0x00 && m[1] != 0xFF
  }

  /** `start_of_frame()`: the baseline SOF0 marker. */
  function StartOfFrame(): (r: bytes)
    ensures IsMarker(r) && r[1] == StartOfFrameCode
  {
    [TagMarker, StartOfFrameCode]
  }

  /** `start_of_scan()`: the SOS marker. */
  function StartOfScan(): (r: bytes)
    ensures IsMarker(r) && r[1] == StartOfScanCode
  {
    [TagMarker, StartOfScanCode]
  }

  /** `end_of_image()`: the EOI marker. */
  function EndOfImage(): (r: bytes)
    ensures IsMarker(r) && r[1] == EndOfImageCode
  {
    [TagMarker, EndOfImageCode]
  }

  /** `restart_interval()`: the DRI marker. */
  function RestartInterval(): (r: bytes)
    ensures IsMarker(r) && r[1] == RestartIntervalCode
  {
    [TagMarker, RestartIntervalCode]
  }

  /**
   * `restart_mark(index)`: the code byte (without the 0xFF tag) of the restart
   * marker RSTm with m = index mod 8, so consecutive indices cycle through
   * RST0..RST7.
   */
  function RestartMark(index: int): (r: bytes)
    ensures |r| == 1 && RestartMarkCode <= r[0] <= RestartMarkCode + 7
    ensures r[0] - RestartMarkCode == index % 8
    ensures IsMarker([TagMarker] + r)
  {
    [RestartMarkCode + index % 8]
  }

  /** Restart markers repeat with period 8 and differ within a period. */
  lemma RestartMarkCycles(i: int, j: int)
    ensures RestartMark(i) == RestartMark(i + 8)
    ensures 0 <= i < j < i + 8 ==> RestartMark(i) != RestartMark(j)
  {
  }

  /** The restart marks of indices 0, 7 and 9 are RST0, RST7 and RST1. */
  lemma RestartMarkValues()
    ensures RestartMark(0) == [0xD0]
    ensures RestartMark(7) == [0xD7]
    ensures RestartMark(9) == [0xD1]
  {
  }

  /**
   * The markers the surgery searches for are pairwise different, and none of
   * them is a restart marker, so an inserted restart marker is never taken
   * for a frame, scan, image-end or restart-interval marker.
   */
  lemma MarkersDistinct(i: int)
    ensures StartOfFrame() != StartOfScan() && StartOfFrame() != EndOfImage()
    ensures StartOfFrame() != RestartInterval() && StartOfScan() != EndOfImage()
    ensures StartOfScan() != RestartInterval() && EndOfImage() != RestartInterval()
    ensures var rst := [TagMarker] + RestartMark(i);
      rst != StartOfFrame() && rst != StartOfScan() && rst != EndOfImage() && rst != RestartInterval()
  {
  }

  /**
   * The Adobe APP14 segment added for RGB-encoded tiles: an APP14 marker, a
   * length of 14 covering everything after the marker, the identifier
   * "Adobe", version 100, and a colour transform flag of 0 (no YCbCr
   * transform, so the components are read as RGB).
   */
  const AdobeApp14: bytes := [
    0xFF, 0xEE, 0x00, 0x0E, 0x41, 0x64, 0x6F, 0x62,
    0x65, 0x00, 0x64, 0x80, 0x00, 0x00, 0x00, 0x00]

  lemma AdobeApp14Layout()
    ensures |AdobeApp14| == 16 && IsMarker(AdobeApp14[..2]) && AdobeApp14[1] == 0xEE
    ensures UnpackShort(AdobeApp14[2..4]) == Ok(|AdobeApp14| - 2)
    ensures AdobeApp14[4..9] == [0x41, 0x64, 0x6F, 0x62, 0x65]
    ensures AdobeApp14[15] == 0
  {
  }
}
