/**
 * The bit reader of the entropy-coding prototype (ndpi_tiler/stream.py):
 * byte-stuffing removal (every FF 00 of an entropy-coded segment stands for
 * the data byte FF, section F.1.2.3 of ITU-T T.81) and a buffer that hands
 * out bits most significant first, one byte ahead of the bit it is reading.
 *
 * Python's `//` and `%` by 8 are Dafny's `/` and `%` here: with a positive
 * divisor both round toward minus infinity.
 */
module BitStream {
  import opened Wrappers
  import opened PyBytes
  import opened Geometry
  import opened BitValues

  /** `BYTE_TAG_STUFFING`: a tag byte followed by the stuffing byte. */
  const TagStuffing: bytes := [0xFF, 0x00]

  /** `BufferPosition`: a byte index and a bit within that byte. */
  datatype BufferPosition = BufferPosition(byte: int, bit: int) {
    /** `to_bits`: the position counted in bits. */
    function ToBits(): int
    {
      8 * byte + bit
    }
  }

  /**
   * The data with its stuffing removed, read from the front: an FF 00 pair
   * stands for FF, and the byte after it is read afresh.
   */
  function Unstuff(s: bytes): (r: bytes)
    ensures |r| == |s| - PairsRemoved(s)
    decreases |s|
  {
    if |s| < 2 then s
    else if s[0] == 0xFF && s[1] == 0x00 then [0xFF as byte] + Unstuff(s[2..])
    else [s[0]] + Unstuff(s[1..])
  }

  /**
   * The number of FF 00 pairs `Unstuff` collapses, paired from the front
   * as it pairs them: in FF 00 00 only the first two bytes pair.
   */
  function PairsRemoved(s: bytes): (n: nat)
    ensures 2 * n <= |s|
    decreases |s|
  {
    if |s| < 2 then 0
    else if s[0] == 0xFF && s[1] == 0x00 then 1 + PairsRemoved(s[2..])
    else PairsRemoved(s[1..])
  }

  /**
   * Unstuffing drops one 00 byte per pair it collapses and keeps every
   * other byte: the same bytes, with as many fewer zeros as there are
   * pairs.
   */
  lemma {:induction false} UnstuffDropsZeros(s: bytes)
    ensures multiset(Unstuff(s))[0x00] + PairsRemoved(s) == multiset(s)[0x00]
    ensures forall b: byte :: b != 0x00 ==> multiset(Unstuff(s))[b] == multiset(s)[b]
    decreases |s|
  {
    if |s| < 2 {
    } else if s[0] == 0xFF && s[1] == 0x00 {
      UnstuffDropsZeros(s[2..]);
      assert s == [s[0], s[1]] + s[2..];
      assert multiset(s) == multiset{s[0], s[1]} + multiset(s[2..]);
    } else {
      UnstuffDropsZeros(s[1..]);
      assert s == [s[0]] + s[1..];
      assert multiset(s) == multiset{s[0]} + multiset(s[1..]);
    }
  }

  /** A stuffing pair FF 00 starts at index `j`. */
  predicate PairAt(s: bytes, j: int)
  {
    0 <= j && j + 1 < |s| && s[j] == 0xFF && s[j + 1] == 0x00
  }

  /** A stuffing pair is an occurrence of `BYTE_TAG_STUFFING`. */
  lemma PairIsMatch(s: bytes, j: int)
    ensures PairAt(s, j) <==> MatchAt(s, TagStuffing, j)
  {
    if 0 <= j && j + 2 <= |s| {
      assert s[j..j + 2] == [s[j], s[j + 1]];
    }
  }

  /** Bytes with no stuffing pair before `k` pass through unchanged up to `k`. */
  lemma {:induction false} UnstuffPassesThrough(s: bytes, k: nat)
    requires k <= |s|
    requires forall j :: 0 <= j < k ==> !PairAt(s, j)
    ensures Unstuff(s) == s[..k] + Unstuff(s[k..])
    decreases k
  {
    if k > 0 {
      assert !PairAt(s, 0);
      var tail := s[1..];
      assert Unstuff(s) == [s[0]] + Unstuff(tail);
      assert forall j :: 0 <= j < k - 1 ==> !PairAt(tail, j) by {
        forall j | 0 <= j < k - 1
          ensures !PairAt(tail, j)
        {
          assert !PairAt(s, j + 1);
        }
      }
      UnstuffPassesThrough(tail, k - 1);
      assert tail[..k - 1] == s[1..k] && tail[k - 1..] == s[k..];
      assert [s[0]] + s[1..k] == s[..k];
      calc {
        Unstuff(s);
        [s[0]] + Unstuff(tail);
        [s[0]] + (s[1..k] + Unstuff(s[k..]));
        ([s[0]] + s[1..k]) + Unstuff(s[k..]);
      }
    }
  }

  /** Data without any stuffing pair is its own unstuffed form. */
  lemma NoStuffingUnchanged(s: bytes)
    requires forall j :: 0 <= j ==> !PairAt(s, j)
    ensures Unstuff(s) == s
  {
    UnstuffPassesThrough(s, |s|);
    assert s[|s|..] == [];
  }

  /** A stuffing pair at the front stands for one FF. */
  lemma UnstuffPair(u: bytes)
    requires PairAt(u, 0)
    ensures Unstuff(u) == [0xFF as byte] + Unstuff(u[2..])
  {
  }

  /** The first stuffing pair at or after `start`, at `i`, is where unstuffing first changes anything. */
  lemma UnstuffUpToPair(d: bytes, start: nat, i: nat)
    requires start <= i && MatchAt(d, TagStuffing, i)
    requires forall j :: start <= j < i ==> !MatchAt(d, TagStuffing, j)
    ensures Unstuff(d[start..]) == d[start..i] + ([0xFF as byte] + Unstuff(d[i + 2..]))
  {
    var t := d[start..];
    var k := i - start;
    forall j | 0 <= j < k
      ensures !PairAt(t, j)
    {
      PairIsMatch(d, start + j);
    }
    UnstuffPassesThrough(t, k);
    var u := d[i..];
    assert t[..k] == d[start..i] && t[k..] == u;
    PairIsMatch(d, i);
    UnstuffPair(u);
    assert u[2..] == d[i + 2..];
  }

  /**
   * One turn of `remove_stuffing`: the first FF 00 at or after the search
   * start loses its 00, and the search resumes just after the FF.
   */
  lemma StuffingStep(d: bytes, start: nat, i: nat)
    requires start <= i && MatchAt(d, TagStuffing, i)
    requires forall j :: start <= j < i ==> !MatchAt(d, TagStuffing, j)
    ensures (d[..i + 1] + d[i + 2..])[..i + 1] + Unstuff((d[..i + 1] + d[i + 2..])[i + 1..])
         == d[..start] + Unstuff(d[start..])
  {
    UnstuffUpToPair(d, start, i);
    PairIsMatch(d, i);
    var e := d[..i + 1] + d[i + 2..];
    assert e[..i + 1] == d[..i + 1] && e[i + 1..] == d[i + 2..];
    assert d[..start] + d[start..i] + [0xFF as byte] == d[..i + 1];
  }

  /** Once no stuffing pair is left after `start`, the rest passes through. */
  lemma NoStuffingLeft(d: bytes, start: nat)
    requires start <= |d|
    requires forall j :: start <= j ==> !MatchAt(d, TagStuffing, j)
    ensures d[..start] + Unstuff(d[start..]) == d
  {
    forall j | 0 <= j
      ensures !PairAt(d[start..], j)
    {
      PairIsMatch(d, start + j);
    }
    NoStuffingUnchanged(d[start..]);
    assert d[..start] + d[start..] == d;
  }

  /**
   * `remove_stuffing`: repeatedly find FF 00 from the search start, delete
   * the 00 and move the search start past the FF.
   */
  method RemoveStuffing(raw: bytes) returns (r: bytes)
    ensures r == Unstuff(raw)
  {
    var data := raw;
    var searchStart: nat := 0;
    var stuffingRemoved := false;
    while !stuffingRemoved
      invariant searchStart <= |data|
      invariant !stuffingRemoved ==> data[..searchStart] + Unstuff(data[searchStart..]) == Unstuff(raw)
      invariant stuffingRemoved ==> data == Unstuff(raw)
      decreases (if stuffingRemoved then 0 else 1), |data| - searchStart
    {
      var tagIndex := FindFrom(data, TagStuffing, searchStart);
      if tagIndex != -1 {
        StuffingStep(data, searchStart, tagIndex);
        data := data[..tagIndex + 1] + data[tagIndex + 2..];
        searchStart := tagIndex + 1;
      } else {
        NoStuffingLeft(data, searchStart);
        stuffingRemoved := true;
      }
    }
    r := data;
  }

  /** Python's `v >> k` on a non-negative number. */
  function ShiftRight(v: nat, k: nat): (r: nat)
    decreases k
  {
    if k == 0 then v else ShiftRight(v, k - 1) / 2
  }

  /** Bit `q` of the stream, most significant first; negative byte indices count from the end. */
  function BitAt(data: bytes, q: int): (r: Bit)
    requires -8 * |data| <= q < 8 * |data|
  {
    ShiftRight(Index(data, q / 8).value, 7 - q % 8) % 2
  }

  /** The `n` bits of the stream from bit `p` on. */
  function StreamBits(data: bytes, p: int, n: nat): (r: seq<Bit>)
    requires -8 * |data| <= p && p + n <= 8 * |data|
    ensures |r| == n && forall k :: 0 <= k < n ==> r[k] == BitAt(data, p + k)
  {
    if n == 0 then [] else StreamBits(data, p, n - 1) + [BitAt(data, p + n - 1)]
  }

  /** The number `read(n)` returns from bit `p` on: `value = 2 * value + bit`, bit by bit. */
  function StreamValue(data: bytes, p: int, n: nat): (r: nat)
    requires -8 * |data| <= p && p + n <= 8 * |data|
  {
    if n == 0 then 0 else 2 * StreamValue(data, p, n - 1) + BitAt(data, p + n - 1)
  }

  /** One more bit doubles the value of the bits so far and adds the bit. */
  lemma NextBitValue(data: bytes, p: int, n: nat)
    requires -8 * |data| <= p && p + n < 8 * |data|
    ensures BitsValue(StreamBits(data, p, n + 1)) == 2 * BitsValue(StreamBits(data, p, n)) + BitAt(data, p + n)
  {
    var read := StreamBits(data, p, n);
    assert StreamBits(data, p, n + 1) == read + [BitAt(data, p + n)];
    assert (read + [BitAt(data, p + n)])[..n] == read;
  }

  /** The number read is the unsigned value of the bits read. */
  lemma {:induction false} StreamValueOfBits(data: bytes, p: int, n: nat)
    requires -8 * |data| <= p && p + n <= 8 * |data|
    ensures StreamValue(data, p, n) == BitsValue(StreamBits(data, p, n))
    decreases n
  {
    if n > 0 {
      StreamValueOfBits(data, p, n - 1);
      NextBitValue(data, p, n - 1);
    }
  }

  /**
   * Two reads in a row, `read(n)` then `read(m)`, give the two halves of one
   * `read(n + m)`: the first number shifted left by `m`, plus the second.
   */
  lemma {:induction false} ReadsCompose(data: bytes, p: int, n: nat, m: nat)
    requires -8 * |data| <= p && p + n + m <= 8 * |data|
    ensures StreamValue(data, p, n + m) == StreamValue(data, p, n) * Pow2(m) + StreamValue(data, p + n, m)
    decreases m
  {
    if m > 0 {
      ReadsCompose(data, p, n, m - 1);
      var x: int, q: int := StreamValue(data, p, n), Pow2(m - 1);
      assert StreamValue(data, p, n + m) == 2 * (x * q + StreamValue(data, p + n, m - 1)) + BitAt(data, p + n + m - 1);
      assert Pow2(m) == 2 * q;
      DoubleFactor(x, q);
    }
  }

  /** Doubling a factor doubles the product. */
  lemma DoubleFactor(x: int, p: int)
    ensures x * (2 * p) == 2 * (x * p)
  {
  }

  /** A multiple of `d` by at least one is at least `d`. */
  lemma MultipleAtLeast(x: int, d: int)
    ensures x >= 1 && d > 0 ==> x * d >= d
  {
    if x >= 1 && d > 0 {
      assert x * d == (x - 1) * d + d;
    }
  }

  /** A quotient and remainder in range are the ones division gives. */
  lemma DivisionUnique(a: int, d: int, q: int, rest: int)
    requires d > 0 && 0 <= rest < d && a == q * d + rest
    ensures a / d == q
  {
    var q' := a / d;
    assert (q' - q) * d == rest - a % d;
    MultipleAtLeast(q' - q, d);
    MultipleAtLeast(q - q', d);
  }

  /** Halving after dividing by `m` is dividing by `2 * m`. */
  lemma DivideTwice(a: nat, m: nat)
    requires m > 0
    ensures a / (2 * m) == (a / m) / 2
  {
    var q := a / m;
    var rest := a % m;
    assert a == q * m + rest;
    assert q == (q / 2) * 2 + q % 2;
    assert a == (q / 2) * (2 * m) + ((q % 2) * m + rest);
    DivisionUnique(a, 2 * m, q / 2, (q % 2) * m + rest);
  }

  /** Shifting right by `k` divides by `2 ^ k`. */
  lemma {:induction false} ShiftRightDivides(v: nat, k: nat)
    ensures ShiftRight(v, k) == v / Pow2(k)
    decreases k
  {
    if k > 0 {
      ShiftRightDivides(v, k - 1);
      DivideTwice(v, Pow2(k - 1));
    }
  }

  /** The first `k` bits of byte `i` are the byte shifted right by `8 - k`. */
  lemma {:induction false} LeadingBitsOfByte(data: bytes, i: nat, k: nat)
    requires i < |data| && k <= 8
    ensures StreamValue(data, 8 * i, k) == ShiftRight(data[i], 8 - k)
    decreases k
  {
    if k == 0 {
      ShiftRightDivides(data[i], 8);
      assert Pow2(8) == 256;
    } else {
      LeadingBitsOfByte(data, i, k - 1);
      var q := 8 * i + k - 1;
      assert q / 8 == i && q % 8 == k - 1;
    }
  }

  /** Eight bits read from a byte boundary are that byte. */
  lemma ByteBoundaryReadsTheByte(data: bytes, i: nat)
    requires i < |data|
    ensures StreamValue(data, 8 * i, 8) == data[i]
  {
    LeadingBitsOfByte(data, i, 8);
  }

  /**
   * `JpegBuffer`: the unstuffed data, the bit within the current byte
   * (`_bit_pos`), the index of the next byte to load (`_byte_pos`, one ahead
   * of the byte being read) and the loaded byte (`_byte`).
   */
  class JpegBuffer {
    var data: bytes
    var bitInByte: int
    var nextByte: int
    var current: byte

    /** The loaded byte is the one before `nextByte`, counted as Python indexes. */
    ghost predicate Valid()
      reads this
    {
      0 <= bitInByte < 8 && -|data| < nextByte <= |data|
      && current == Index(data, nextByte - 1).value
    }

    /** `byte_pos`: the byte being read. */
    function BytePos(): int
      reads this
    {
      nextByte - 1
    }

    /** `bit_pos`: the position of the next bit, counted in bits. */
    function BitPos(): (r: int)
      reads this
      ensures Valid() ==> -8 * |data| <= r < 8 * |data|
    {
      8 * BytePos() + bitInByte
    }

    /** `pos`: the bit position as a byte and a bit within it. */
    function Pos(): (r: BufferPosition)
      reads this
      ensures r.ToBits() == BitPos() && 0 <= r.bit < 8
      ensures Valid() ==> r == BufferPosition(BytePos(), bitInByte)
    {
      BufferPosition(BitPos() / 8, BitPos() % 8)
    }

    /** The buffer over data whose stuffing was already removed, positioned at bit 0. */
    constructor (unstuffed: bytes)
      requires |unstuffed| > 0
      ensures Valid() && data == unstuffed && BitPos() == 0
    {
      data := unstuffed;
      bitInByte := 0;
      current := unstuffed[0];
      nextByte := 1;
    }

    /**
     * `JpegBuffer(data)`: remove the stuffing, then load the first byte,
     * which raises `IndexError` when nothing is left.
     */
    static method Open(raw: bytes) returns (r: Result<JpegBuffer>)
      ensures r.Ok? <==> Unstuff(raw) != []
      ensures r.Ok? ==> fresh(r.value) && r.value.Valid()
      ensures r.Ok? ==> r.value.data == Unstuff(raw) && r.value.BitPos() == 0
      ensures r.Err? ==> r.error == IndexError
    {
      var unstuffed := RemoveStuffing(raw);
      if |unstuffed| == 0 {
        return Err(IndexError);
      }
      var buffer := new JpegBuffer(unstuffed);
      return Ok(buffer);
    }

    /**
     * `_read_bit`: the next bit of the loaded byte; after its last bit the
     * next byte is loaded, which raises `IndexError` past the end of the
     * data and leaves the buffer at the start of its last byte.
     */
    method ReadBit() returns (r: Result<Bit>)
      requires Valid()
      modifies this
      ensures Valid() && data == old(data)
      ensures r.Err? <==> old(BitPos()) == 8 * |data| - 1
      ensures r.Ok? ==> r.value == BitAt(data, old(BitPos())) && BitPos() == old(BitPos()) + 1
      ensures r.Err? ==> r.error == IndexError && BitPos() == 8 * (|data| - 1)
    {
      ghost var q := BitPos();
      assert q / 8 == nextByte - 1 && q % 8 == bitInByte;
      var bit := ShiftRight(current, 7 - bitInByte) % 2;
      bitInByte := bitInByte + 1;
      if bitInByte == 8 {
        bitInByte := 0;
        var next := Index(data, nextByte);
        if next.Err? {
          return Err(IndexError);
        }
        current := next.value;
        nextByte := nextByte + 1;
      }
      return Ok(bit);
    }

    /**
     * `read(count)`: `count` bits as an unsigned number, most significant
     * first. It raises `IndexError` when the bits run up to the end of the
     * data, because the byte after the last one read is loaded ahead.
     */
    method Read(count: int) returns (r: Result<nat>)
      requires Valid()
      modifies this
      ensures Valid() && data == old(data)
      ensures r.Ok? <==> count <= 0 || old(BitPos()) + count < 8 * |data|
      ensures r.Ok? ==> BitPos() == old(BitPos()) + Max(count, 0)
      ensures r.Ok? && count > 0 ==> r.value == StreamValue(data, old(BitPos()), count)
      ensures r.Ok? && count <= 0 ==> r.value == 0
      ensures r.Err? ==> r.error == IndexError && BitPos() == 8 * (|data| - 1)
    {
      ghost var p := BitPos();
      ghost var d := data;
      var value: nat := 0;
      var i := 0;
      while i < count
        invariant Valid() && data == d
        invariant 0 <= i && (i <= count || i == 0) && BitPos() == p + i
        invariant p + i < 8 * |d|
        invariant value == StreamValue(d, p, i)
      {
        var bit := ReadBit();
        if bit.Err? {
          return Err(IndexError);
        }
        value := 2 * value + bit.value;
        i := i + 1;
      }
      return Ok(value);
    }

    /**
     * `seek(position)`: move to a bit position, loading its byte unless it
     * is the byte being read. Loading a byte outside the data raises
     * `IndexError` after `_byte_pos` was already moved.
     */
    method Seek(position: int) returns (r: Result<()>)
      requires Valid()
      modifies this
      ensures data == old(data)
      ensures r.Ok? <==> -8 * |data| <= position < 8 * |data| || position / 8 == old(BytePos())
      ensures r.Ok? ==> Valid() && BitPos() == position
      ensures r.Err? ==> r.error == IndexError && nextByte == position / 8
    {
      if position / 8 != BytePos() {
        nextByte := position / 8;
        var loaded := Index(data, nextByte);
        if loaded.Err? {
          return Err(IndexError);
        }
        current := loaded.value;
        nextByte := nextByte + 1;
      }
      bitInByte := position % 8;
      return Ok(());
    }

    /** `skip(length)`: seek `length` bits past the current position. */
    method Skip(length: int) returns (r: Result<()>)
      requires Valid()
      modifies this
      ensures data == old(data)
      ensures r.Ok? <==> -8 * |data| <= old(BitPos()) + length < 8 * |data|
      ensures r.Ok? ==> Valid() && BitPos() == old(BitPos()) + length
      ensures r.Err? ==> r.error == IndexError
    {
      var skipTo := BitPos() + length;
      r := Seek(skipTo);
    }
  }
}
