/**
 * Bits as the entropy-coding prototype reads and writes them: most
 * significant bit first. `BitsValue` is the unsigned value of a run of bits
 * (`value = 2 * value + bit` for each bit in turn) and `UintBits` is
 * `Bits(uint=value, length=n)` of the bitstring package.
 */
module BitValues {
  import opened Geometry

  /** One bit. */
  type Bit = b: int | 0 <= b < 2

  /** The unsigned value of `bits`, most significant bit first. */
  function BitsValue(bits: seq<Bit>): (r: nat)
    ensures r < Pow2(|bits|)
  {
    if bits == [] then 0 else 2 * BitsValue(bits[..|bits| - 1]) + bits[|bits| - 1]
  }

  /** `Bits(uint=value, length=n)`: the `n` low bits of `value`, most significant first. */
  function UintBits(value: nat, n: nat): (r: seq<Bit>)
    ensures |r| == n
  {
    if n == 0 then [] else UintBits(value / 2, n - 1) + [value % 2]
  }

  /** Writing a value that fits and reading it back gives the value. */
  lemma {:induction false} ValueOfUintBits(value: nat, n: nat)
    requires value < Pow2(n)
    ensures BitsValue(UintBits(value, n)) == value
    decreases n
  {
    if n > 0 {
      var b := UintBits(value, n);
      assert b[..n - 1] == UintBits(value / 2, n - 1);
      ValueOfUintBits(value / 2, n - 1);
    }
  }

  /** Reading bits and writing the value back at the same length gives the bits. */
  lemma {:induction false} UintBitsOfValue(bits: seq<Bit>)
    ensures UintBits(BitsValue(bits), |bits|) == bits
    decreases |bits|
  {
    if bits != [] {
      var n := |bits| - 1;
      var v := BitsValue(bits);
      assert v / 2 == BitsValue(bits[..n]) && v % 2 == bits[n];
      UintBitsOfValue(bits[..n]);
      assert bits == bits[..n] + [bits[n]];
    }
  }

  /** A leading bit weighs `2 ^ (number of bits after it)`. */
  lemma {:induction false} ValueOfLeadingBit(b: Bit, rest: seq<Bit>)
    ensures BitsValue([b] + rest) == b * Pow2(|rest|) + BitsValue(rest)
    decreases |rest|
  {
    if rest != [] {
      var n := |rest| - 1;
      assert ([b] + rest)[..|rest|] == [b] + rest[..n];
      ValueOfLeadingBit(b, rest[..n]);
    }
  }

  /** `n` zero bits. */
  function Zeros(n: nat): (r: seq<Bit>)
    ensures |r| == n && forall i :: 0 <= i < n ==> r[i] == 0
  {
    seq(n, _ => 0)
  }

  /** Zero bits have the value 0. */
  lemma {:induction false} ValueOfZeros(n: nat)
    ensures BitsValue(Zeros(n)) == 0
    decreases n
  {
    if n > 0 {
      assert Zeros(n)[..n - 1] == Zeros(n - 1);
      ValueOfZeros(n - 1);
    }
  }
}
