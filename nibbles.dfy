/**
 * `split_byte_into_nibbles`, as written in ndpi_tiler/utils.py and
 * ndpi_tiler/jpeg.py and as imported from the turbojpeg package: the upper
 * and the lower four bits of a byte.
 */
module Nibbles {
  import opened Geometry

  /**
   * `(value >> 4, value & 0x0F)` on Python integers: the quotient and the
   * remainder of division by 16, rounding toward minus infinity.
   */
  function SplitByteIntoNibbles(value: int): (r: (int, int))
    ensures 16 * r.0 + r.1 == value && 0 <= r.1 < 16
  {
    (FloorDiv(value, 16), FloorMod(value, 16))
  }

  /** The nibbles of a byte are both below 16, and a byte is determined by its nibbles. */
  lemma NibblesOfByte(value: int, other: int)
    requires 0 <= value < 256 && 0 <= other < 256
    ensures 0 <= SplitByteIntoNibbles(value).0 < 16 && 0 <= SplitByteIntoNibbles(value).1 < 16
    ensures SplitByteIntoNibbles(value) == SplitByteIntoNibbles(other) ==> value == other
  {
  }

  /** Table and class bytes as the JPEG headers use them: 0x10 is (1, 0), 0x01 is (0, 1), 0xFF is (15, 15). */
  lemma NibbleExamples()
    ensures SplitByteIntoNibbles(0x10) == (1, 0)
    ensures SplitByteIntoNibbles(0x01) == (0, 1)
    ensures SplitByteIntoNibbles(0xFF) == (15, 15)
  {
  }
}
