/**
 * `NdpiPageTiler.get_tile` of the entropy-coding prototype
 * (ndpi_tiler/interface.py): find the stripes a tile covers, read and cut
 * them into segments cached by pixel position, concatenate the segments'
 * entropy-coded bits row by row, pad the scan with 1 bits to a whole byte
 * (section F.1.2.3 of ITU-T T.81), convert it to bytes and stuff a 00 after
 * every FF.
 *
 * Reading the stripes from the file and cutting them into segments is
 * `stripeSegments`, a parameter: for a stripe index, the segments the
 * header's `get_segments` yields. `JpegHeader.wrap_scan` is not defined in
 * the modelled files; the tile here is the stuffed scan it would wrap.
 */
module PageTiler {
  import opened Wrappers
  import opened PyBytes
  import opened Geometry
  import opened BitValues
  import opened BitStream

  // ---------------------------------------------------------------------
  // Bits and bytes (`bitarray.frombytes` and `bitarray.tobytes`)
  // ---------------------------------------------------------------------

  /** `bitarray().frombytes(data)`: eight bits per byte, most significant first. */
  function BytesToBits(data: bytes): (r: seq<Bit>)
    ensures |r| == 8 * |data|
  {
    if data == [] then [] else UintBits(data[0], 8) + BytesToBits(data[1..])
  }

  /** One byte from up to eight bits, missing low bits read as 0. */
  function ByteOfBits(bits: seq<Bit>): (r: byte)
    requires |bits| <= 8
  {
    BoundOfBits(bits + Zeros(8 - |bits|));
    BitsValue(bits + Zeros(8 - |bits|))
  }

  /** Eight bits have a value below 256. */
  lemma BoundOfBits(bits: seq<Bit>)
    requires |bits| == 8
    ensures BitsValue(bits) < 256
  {
    assert Pow2(8) == 256;
  }

  /** `bitarray.tobytes()`: eight bits per byte, the last byte filled up with 0 bits. */
  function BitsToBytes(bits: seq<Bit>): (r: bytes)
    ensures |r| == CeilDiv(|bits|, 8)
    decreases |bits|
  {
    if bits == [] then []
    else if |bits| <= 8 then [ByteOfBits(bits)]
    else [ByteOfBits(bits[..8])] + BitsToBytes(bits[8..])
  }

  /** Bytes to bits and back gives the bytes. */
  lemma {:induction false} BytesBitsRoundTrip(data: bytes)
    ensures BitsToBytes(BytesToBits(data)) == data
    decreases |data|
  {
    if data != [] {
      var bits := BytesToBits(data);
      var head := UintBits(data[0], 8);
      assert Pow2(8) == 256;
      ValueOfUintBits(data[0], 8);
      assert bits[..8] == head && bits[8..] == BytesToBits(data[1..]);
      assert head + Zeros(0) == head;
      BytesBitsRoundTrip(data[1..]);
    }
  }

  /** A whole number of bytes' worth of bits to bytes and back gives the bits. */
  lemma {:induction false} BitsBytesRoundTrip(bits: seq<Bit>)
    requires |bits| % 8 == 0
    ensures BytesToBits(BitsToBytes(bits)) == bits
    decreases |bits|
  {
    if bits != [] {
      var head := bits[..8];
      assert head + Zeros(0) == head;
      UintBitsOfValue(head);
      BitsBytesRoundTrip(bits[8..]);
      assert head + bits[8..] == bits;
    }
  }

  // ---------------------------------------------------------------------
  // Padding and byte stuffing
  // ---------------------------------------------------------------------

  /** `n` one bits. */
  function Ones(n: nat): (r: seq<Bit>)
    ensures |r| == n && forall i :: 0 <= i < n ==> r[i] == 1
  {
    seq(n, _ => 1)
  }

  /**
   * Padding the scan: `7 - (len(scan) - 1) % 8` one bits, with Python's
   * remainder, so an empty scan gets none. The result is the scan followed
   * by the fewest 1 bits that make whole bytes.
   */
  function PadScan(scan: seq<Bit>): (r: seq<Bit>)
    ensures |r| % 8 == 0 && |scan| <= |r| < |scan| + 8
    ensures |r| == 8 * CeilDiv(|scan|, 8)
    ensures r[..|scan|] == scan
    ensures forall i :: |scan| <= i < |r| ==> r[i] == 1
  {
    PadLength(|scan|);
    scan + Ones(7 - FloorMod(|scan| - 1, 8))
  }

  /** The padding of `n` bits is under a byte and ends on a byte boundary. */
  lemma PadLength(n: nat)
    ensures var pad := 7 - FloorMod(n - 1, 8);
      0 <= pad < 8 && (n + pad) % 8 == 0 && n + pad == 8 * CeilDiv(n, 8)
  {
    var q, k := FloorDiv(n - 1, 8), FloorMod(n - 1, 8);
    assert n - 1 == q * 8 + k;
    DivisionUnique(n + 7, 8, q + 1, k);
    DivisionUnique(n + 7 - k, 8, q + 1, 0);
  }

  /** Padding a padded scan adds nothing. */
  lemma PadScanIdempotent(scan: seq<Bit>)
    ensures PadScan(PadScan(scan)) == PadScan(scan)
  {
    var p := PadScan(scan);
    assert FloorMod(|p| - 1, 8) == 7;
    assert Ones(0) == [];
    assert p + [] == p;
  }

  /** The scan bytes with a 00 stuffed after every FF. */
  function Stuffed(s: bytes): (r: bytes)
    ensures |r| >= |s|
  {
    if s == [] then []
    else if s[0] == 0xFF then [0xFF as byte, 0x00] + Stuffed(s[1..])
    else [s[0]] + Stuffed(s[1..])
  }

  /** Stuffing works byte by byte, so it distributes over concatenation. */
  lemma {:induction false} StuffedConcat(a: bytes, b: bytes)
    ensures Stuffed(a + b) == Stuffed(a) + Stuffed(b)
    decreases |a|
  {
    if a != [] {
      assert (a + b)[1..] == a[1..] + b;
      StuffedConcat(a[1..], b);
    } else {
      assert a + b == b;
    }
  }

  /** Bytes without FF are left as they are. */
  lemma {:induction false} StuffedWithoutTag(s: bytes)
    requires forall i :: 0 <= i < |s| ==> s[i] != 0xFF
    ensures Stuffed(s) == s
    decreases |s|
  {
    if s != [] {
      StuffedWithoutTag(s[1..]);
    }
  }

  /** Removing the stuffing again gives the bytes back. */
  lemma {:induction false} StuffingRoundTrip(s: bytes)
    ensures Unstuff(Stuffed(s)) == s
    decreases |s|
  {
    if s != [] {
      StuffingRoundTrip(s[1..]);
      var rest := Stuffed(s[1..]);
      if s[0] == 0xFF {
        var t := [0xFF as byte, 0x00] + rest;
        assert t[2..] == rest;
      } else {
        var t := [s[0]] + rest;
        assert t[1..] == rest;
        if |t| < 2 {
          assert rest == [] && s[1..] == [];
        }
      }
    }
  }

  /** In stuffed bytes every FF is followed by 00, so no marker can appear in the scan. */
  lemma {:induction false} StuffedTagsFollowed(s: bytes, i: nat)
    requires i < |Stuffed(s)| && Stuffed(s)[i] == 0xFF
    ensures i + 1 < |Stuffed(s)| && Stuffed(s)[i + 1] == 0x00
    decreases |s|
  {
    var rest := Stuffed(s[1..]);
    if s[0] == 0xFF {
      if i >= 2 {
        assert Stuffed(s)[i] == rest[i - 2];
        StuffedTagsFollowed(s[1..], i - 2);
      }
    } else {
      assert i >= 1;
      assert Stuffed(s)[i] == rest[i - 1];
      StuffedTagsFollowed(s[1..], i - 1);
    }
  }

  /** Stuffing adds one byte per FF. */
  lemma {:induction false} StuffedLength(s: bytes)
    ensures |Stuffed(s)| == |s| + multiset(s)[0xFF]
    decreases |s|
  {
    if s != [] {
      StuffedLength(s[1..]);
      assert s == [s[0]] + s[1..];
      assert multiset(s) == multiset([s[0]]) + multiset(s[1..]);
    }
  }

  /** What `find(b'\xff', start)` tells about the bytes it searched. */
  lemma TagSearch(data: bytes, start: nat, t: int)
    requires t == FindFrom(data, [0xFF], start)
    ensures t != -1 ==> start <= t < |data| && data[t] == 0xFF
    ensures forall k :: start <= k < |data| && (t == -1 || k < t) ==> data[k] != 0xFF
  {
    forall k | start <= k < |data| && (t == -1 || k < t)
      ensures data[k] != 0xFF
    {
      assert !MatchAt(data, [0xFF], k);
      assert data[k..k + 1] == [data[k]];
    }
    if t != -1 {
      assert data[t..t + 1] == [0xFF];
    }
  }

  /**
   * The state of the stuffing loop: the first `m` scan bytes are stuffed, the
   * rest is untouched, and the search starts after the stuffed part or at
   * its last inserted 00.
   */
  ghost predicate StuffState(scan: bytes, m: nat, data: bytes, start: nat)
  {
    m <= |scan| && data == Stuffed(scan[..m]) + scan[m..]
    && (start == |Stuffed(scan[..m])|
        || (start + 1 == |Stuffed(scan[..m])| && start < |data| && data[start] == 0x00))
  }

  /** Stuffing a run without FF followed by one FF: the run, then FF 00. */
  lemma StuffedRun(scan: bytes, m: nat, j: nat)
    requires m + j < |scan| && scan[m + j] == 0xFF
    requires forall i :: m <= i < m + j ==> scan[i] != 0xFF
    ensures Stuffed(scan[..m + j + 1]) == Stuffed(scan[..m]) + scan[m..m + j + 1] + [0x00]
  {
    var run := scan[m..m + j];
    forall i | 0 <= i < |run|
      ensures run[i] != 0xFF
    {
      assert run[i] == scan[m + i];
    }
    StuffedWithoutTag(run);
    assert scan[..m + j + 1] == scan[..m] + (run + [scan[m + j]]);
    StuffedConcat(scan[..m], run + [scan[m + j]]);
    StuffedConcat(run, [scan[m + j]]);
    assert Stuffed([scan[m + j]]) == [0xFF as byte, 0x00];
    assert scan[m..m + j + 1] == run + [0xFF as byte];
  }

  /** The first FF from the search start is the next FF of the unstuffed rest; 00 goes after it. */
  lemma StuffingStep(scan: bytes, m: nat, data: bytes, start: nat, t: nat) returns (m': nat)
    requires StuffState(scan, m, data, start)
    requires start <= t < |data| && data[t] == 0xFF
    requires forall k :: start <= k < t ==> data[k] != 0xFF
    ensures m < m' <= |scan|
    ensures StuffState(scan, m', data[..t + 1] + [0x00] + data[t + 1..], t + 1)
  {
    var p := Stuffed(scan[..m]);
    assert t >= |p|;
    var j := t - |p|;
    forall i | m <= i < m + j
      ensures scan[i] != 0xFF
    {
      assert data[|p| + (i - m)] == scan[i];
    }
    assert data[t] == scan[m + j];
    StuffedRun(scan, m, j);
    m' := m + j + 1;
    assert data[..t + 1] == p + scan[m..m + j + 1];
    assert data[t + 1..] == scan[m'..];
  }

  /** No FF from the search start on: no FF in the scan bytes not yet stuffed. */
  lemma RestHasNoTag(scan: bytes, m: nat, data: bytes, start: nat)
    requires StuffState(scan, m, data, start)
    requires forall k :: start <= k < |data| ==> data[k] != 0xFF
    ensures forall i :: 0 <= i < |scan[m..]| ==> scan[m..][i] != 0xFF
  {
    var p := Stuffed(scan[..m]);
    forall i | 0 <= i < |scan[m..]|
      ensures scan[m..][i] != 0xFF
    {
      assert data[|p| + i] == scan[m..][i];
    }
  }

  /** No FF left after the search start: the rest needs no stuffing. */
  lemma StuffingDone(scan: bytes, m: nat, data: bytes, start: nat)
    requires StuffState(scan, m, data, start)
    requires forall k :: start <= k < |data| ==> data[k] != 0xFF
    ensures data == Stuffed(scan)
  {
    var rest := scan[m..];
    RestHasNoTag(scan, m, data, start);
    StuffedWithoutTag(rest);
    StuffedConcat(scan[..m], rest);
    assert scan[..m] + rest == scan;
  }

  /**
   * The stuffing loop of `get_tile`: find FF from the search start, insert
   * 00 after it and search on from the inserted byte, until no FF is found.
   */
  method InsertStuffing(scan: bytes) returns (r: bytes)
    ensures r == Stuffed(scan)
  {
    var data := scan;
    var tagIndex: Option<int> := None;
    var startSearch: nat := 0;
    ghost var m: nat := 0;
    assert scan[..0] == [];
    while tagIndex != Some(-1)
      invariant m <= |scan| && StuffState(scan, m, data, startSearch)
      invariant tagIndex == Some(-1) ==> data == Stuffed(scan)
      decreases (if tagIndex == Some(-1) then 0 else 1), |scan| - m
    {
      var found := FindFrom(data, [0xFF], startSearch);
      tagIndex := Some(found);
      TagSearch(data, startSearch, found);
      if found != -1 {
        m := StuffingStep(scan, m, data, startSearch, found);
        data := data[..found + 1] + [0x00] + data[found + 1..];
        startSearch := found + 1;
      } else {
        StuffingDone(scan, m, data, startSearch);
      }
    }
    return data;
  }

  // ---------------------------------------------------------------------
  // Stripes and segments
  // ---------------------------------------------------------------------

  /** The tiler's sizes: output tile, stored stripe, and stripes per row. */
  datatype Layout = Layout(tileWidth: int, tileHeight: int, stripeWidth: int, stripeHeight: int, stripeCols: int)

  /** A `JpegSegment`: stripe data and the bit positions where one tile's worth of it starts and ends. */
  datatype Segment = Segment(data: bytes, start: BufferPosition, end: BufferPosition)

  /** `int(v)` of a float: truncation toward zero. */
  function Trunc(v: real): (r: int)
    ensures 0.0 <= v ==> r as real <= v < r as real + 1.0
    ensures v < 0.0 ==> r as real - 1.0 < v <= r as real
  {
    if v >= 0.0 then v.Floor else -((-v).Floor)
  }

  /** Python's `max(a, b)`: `a` unless `b` is larger. */
  function RealMax(a: real, b: real): real
  {
    if b > a then b else a
  }

  /**
   * The stripe range of a tile along one axis: the start `t * tile / stripe`
   * with true division (a float), the end the larger of start + 1 and
   * `(t + 1) * tile // stripe`.
   */
  function StripeStart(t: int, tile: int, stripe: int): (r: real)
    requires stripe != 0
    ensures r * stripe as real == (t * tile) as real
    ensures t * tile >= 0 && stripe > 0 ==> r >= 0.0
  {
    (t * tile) as real / stripe as real
  }

  /** A tile at a non-negative position starts at a non-negative stripe. */
  lemma NonNegativeStart(t: int, tile: int, stripe: int)
    requires t >= 0 && tile > 0 && stripe > 0
    ensures StripeStart(t, tile, stripe) >= 0.0
  {
    assert t * tile >= 0;
  }

  function StripeEnd(t: int, tile: int, stripe: int): (r: real)
    requires stripe != 0
    ensures r >= StripeStart(t, tile, stripe) + 1.0
  {
    RealMax(StripeStart(t, tile, stripe) + 1.0, FloorDiv((t + 1) * tile, stripe) as real)
  }

  /** Row `y` of the stripe indices: `x + y * cols` for `x` from `xs` up to `xe`. */
  function StripeRow(y: int, xs: int, xe: int, cols: int): (r: seq<int>)
    ensures |r| == Max(xe - xs, 0)
    ensures forall i :: 0 <= i < |r| ==> r[i] == xs + i + y * cols
  {
    seq(Max(xe - xs, 0), i => xs + i + y * cols)
  }

  /** `[x + y * cols for y in range(ys, ye) for x in range(xs, xe)]`. */
  function StripeIndices(xs: int, xe: int, ys: int, ye: int, cols: int): (r: seq<int>)
    ensures |r| == Max(xe - xs, 0) * Max(ye - ys, 0)
    decreases ye - ys
  {
    if ys >= ye then [] else StripeRow(ys, xs, xe, cols) + StripeIndices(xs, xe, ys + 1, ye, cols)
  }

  /** The stripe indices are row-major: row `j`, column `i` is stripe `xs + i + (ys + j) * cols`. */
  lemma {:induction false} StripeIndicesRowMajor(xs: int, xe: int, ys: int, ye: int, cols: int, j: nat, i: nat)
    requires xs <= xe && j < ye - ys && i < xe - xs
    ensures j * (xe - xs) + i < |StripeIndices(xs, xe, ys, ye, cols)|
    ensures StripeIndices(xs, xe, ys, ye, cols)[j * (xe - xs) + i] == xs + i + (ys + j) * cols
    decreases j
  {
    var w := xe - xs;
    var rest := StripeIndices(xs, xe, ys + 1, ye, cols);
    assert StripeIndices(xs, xe, ys, ye, cols) == StripeRow(ys, xs, xe, cols) + rest;
    if j > 0 {
      StripeIndicesRowMajor(xs, xe, ys + 1, ye, cols, j - 1, i);
      assert j * w + i == w + ((j - 1) * w + i);
      assert ys + 1 + (j - 1) == ys + j;
    } else {
      assert j * w + i == i;
    }
  }

  /** Row-major positions are distinct as long as a row is no wider than the grid. */
  lemma RowMajorDistinct(i1: int, j1: int, i2: int, j2: int, cols: int)
    requires 0 <= i1 < cols && 0 <= i2 < cols
    ensures i1 + j1 * cols == i2 + j2 * cols ==> i1 == i2 && j1 == j2
  {
    assert (j1 - j2) * cols == j1 * cols - j2 * cols;
    MultipleAtLeast(j1 - j2, cols);
    MultipleAtLeast(j2 - j1, cols);
  }

  /** Euclidean division by a positive divisor. */
  lemma Euclid(p: int, w: int)
    requires w > 0
    ensures p == (p / w) * w + p % w && 0 <= p % w < w
  {
  }

  /** A position below `w * rows` lies in one of the first `rows` rows of width `w`. */
  lemma QuotientBelow(p: int, w: int, rows: int)
    requires w > 0 && 0 <= p < w * rows
    ensures 0 <= p / w < rows
  {
    var q := p / w;
    assert q * w <= p;
    MultipleAtLeast(q - rows + 1, w);
    assert (q - rows + 1) * w == q * w - rows * w + w;
  }

  /** Position `p` of the stripe indices is row `j`, column `i` of a grid `xe - xs` wide. */
  lemma StripeAtPosition(xs: int, xe: int, ys: int, ye: int, cols: int, p: int) returns (j: int, i: int)
    requires xs < xe && 0 <= p < |StripeIndices(xs, xe, ys, ye, cols)|
    ensures p == j * (xe - xs) + i && 0 <= i < xe - xs
    ensures StripeIndices(xs, xe, ys, ye, cols)[p] == xs + i + (ys + j) * cols
  {
    var w := xe - xs;
    var rows := Max(ye - ys, 0);
    assert |StripeIndices(xs, xe, ys, ye, cols)| == w * rows;
    QuotientBelow(p, w, rows);
    j, i := p / w, p % w;
    Euclid(p, w);
    StripeIndicesRowMajor(xs, xe, ys, ye, cols, j, i);
  }

  /** No stripe is read twice for one tile when a tile row spans at most the stripe columns. */
  lemma StripeIndicesDistinct(xs: int, xe: int, ys: int, ye: int, cols: int)
    requires xs < xe && xe - xs <= cols
    ensures Distinct(StripeIndices(xs, xe, ys, ye, cols))
  {
    var r := StripeIndices(xs, xe, ys, ye, cols);
    forall p1, p2 | 0 <= p1 < p2 < |r|
      ensures r[p1] != r[p2]
    {
      var j1, i1 := StripeAtPosition(xs, xe, ys, ye, cols, p1);
      var j2, i2 := StripeAtPosition(xs, xe, ys, ye, cols, p2);
      RowMajorDistinct(i1, ys + j1, i2, ys + j2, cols);
    }
  }

  /**
   * Segment `k` of stripe `index` is cached at its pixel position: the
   * stripe's column times the stripe width plus `k` tile widths, and the
   * stripe's row times the stripe height.
   */
  function SegmentKey(layout: Layout, index: int, k: int): (int, int)
    requires layout.stripeCols != 0
  {
    (FloorMod(index, layout.stripeCols) * layout.stripeWidth + k * layout.tileWidth,
     FloorDiv(index, layout.stripeCols) * layout.stripeHeight)
  }

  /** The first segment of stripe `index`, in column `x`, row `y` of the grid, lands at the stripe's pixel corner. */
  lemma FirstSegmentAtStripeCorner(layout: Layout, index: int, x: int, y: int)
    requires 0 <= x < layout.stripeCols && index == x + y * layout.stripeCols
    ensures SegmentKey(layout, index, 0) == (x * layout.stripeWidth, y * layout.stripeHeight)
  {
    var cols := layout.stripeCols;
    var q := FloorDiv(index, cols);
    assert index == q * cols + FloorMod(index, cols);
    RowMajorDistinct(x, y, FloorMod(index, cols), q, cols);
  }

  /**
   * The segments of one stripe written into the cache in order, later ones
   * overwriting earlier ones at the same position. With no stripe columns
   * the first segment raises `ZeroDivisionError`.
   */
  function FillStripe(m: map<(int, int), Segment>, layout: Layout, index: int, segs: seq<Segment>): (r: Result<map<(int, int), Segment>>)
    ensures r.Err? <==> segs != [] && layout.stripeCols == 0
    ensures r.Err? ==> r.error == ZeroDivisionError
    ensures r.Ok? && layout.stripeCols != 0 ==>
      r.value.Keys == m.Keys + set k | 0 <= k < |segs| :: SegmentKey(layout, index, k)
    ensures r.Ok? && layout.stripeCols == 0 ==> r.value == m
    decreases |segs|
  {
    if segs == [] then Ok(m)
    else if layout.stripeCols == 0 then Err(ZeroDivisionError)
    else
      var n := |segs| - 1;
      var before := FillStripe(m, layout, index, segs[..n]);
      Ok(before.value[SegmentKey(layout, index, n) := segs[n]])
  }

  /** Reading one more segment of a stripe adds it at its own key. */
  lemma FillStripeStep(m: map<(int, int), Segment>, layout: Layout, index: int, segs: seq<Segment>, k: int, cur: map<(int, int), Segment>)
    requires 0 <= k < |segs| && layout.stripeCols != 0
    requires FillStripe(m, layout, index, segs[..k]) == Ok(cur)
    ensures FillStripe(m, layout, index, segs[..k + 1]) == Ok(cur[SegmentKey(layout, index, k) := segs[k]])
  {
    assert segs[..k + 1][..k] == segs[..k];
  }

  /** The segments of every stripe read, stripe after stripe, into an empty cache. */
  function Filled(layout: Layout, indices: seq<int>, stripeSegments: int -> seq<Segment>): (r: Result<map<(int, int), Segment>>)
    ensures r.Err? ==> r.error == ZeroDivisionError
    ensures r.Ok? && layout.stripeCols != 0 ==>
      r.value.Keys == set i, k | 0 <= i < |indices| && 0 <= k < |stripeSegments(indices[i])|
        :: SegmentKey(layout, indices[i], k)
    ensures r.Ok? && layout.stripeCols == 0 ==> r.value == map[]
    ensures layout.stripeCols != 0 ==> r.Ok?
    decreases |indices|
  {
    if indices == [] then Ok(map[])
    else
      var n := |indices| - 1;
      var before :- Filled(layout, indices[..n], stripeSegments);
      var r := FillStripe(before, layout, indices[n], stripeSegments(indices[n]));
      assert forall i :: 0 <= i < n ==> indices[..n][i] == indices[i];
      r
  }

  /** Reading one more stripe continues from the cache the earlier stripes left. */
  lemma FilledStep(layout: Layout, indices: seq<int>, stripeSegments: int -> seq<Segment>, n: int,
                   before: map<(int, int), Segment>, after: map<(int, int), Segment>)
    requires 0 <= n < |indices|
    requires Filled(layout, indices[..n], stripeSegments) == Ok(before)
    requires FillStripe(before, layout, indices[n], stripeSegments(indices[n])) == Ok(after)
    ensures Filled(layout, indices[..n + 1], stripeSegments) == Ok(after)
  {
    assert indices[..n + 1][..n] == indices[..n];
  }

  // ---------------------------------------------------------------------
  // The scan
  // ---------------------------------------------------------------------

  /** A progression from `start + step` preceded by `start` is a progression from `start`. */
  lemma Progression(rest: seq<int>, start: int, step: int)
    requires forall i :: 0 <= i < |rest| ==> rest[i] == start + step + i * step
    ensures forall i :: 0 <= i < |[start] + rest| ==> ([start] + rest)[i] == start + i * step
  {
    forall i | 0 <= i < |[start] + rest|
      ensures ([start] + rest)[i] == start + i * step
    {
      if i > 0 {
        assert ([start] + rest)[i] == rest[i - 1];
        assert (i - 1) * step + step == i * step;
      }
    }
  }

  /** `range(start, stop, step)`; a zero step raises `ValueError`. */
  function RangeStep(start: int, stop: int, step: int): (r: Result<seq<int>>)
    ensures r.Err? <==> step == 0
    ensures r.Err? ==> r.error == ValueError
    ensures r.Ok? ==> forall i :: 0 <= i < |r.value| ==> r.value[i] == start + i * step
    ensures r.Ok? && step > 0 ==> forall i :: 0 <= i < |r.value| ==> r.value[i] < stop
    ensures r.Ok? && step < 0 ==> forall i :: 0 <= i < |r.value| ==> r.value[i] > stop
    decreases if step > 0 then stop - start else start - stop
  {
    if step == 0 then Err(ValueError)
    else if (step > 0 && start >= stop) || (step < 0 && start <= stop) then Ok([])
    else
      var rest := RangeStep(start + step, stop, step).value;
      Progression(rest, start, step);
      Ok([start] + rest)
  }

  /** The bits of one segment: its data as bits, sliced from its start to its end position. */
  function SegmentBits(s: Segment): seq<Bit>
  {
    Slice(BytesToBits(s.data), s.start.ToBits(), s.end.ToBits())
  }

  /** One row of segments, left to right; a position not in the cache raises `KeyError`. */
  function RowBits(cache: map<(int, int), Segment>, xs: seq<int>, sy: int): (r: Result<seq<Bit>>)
    ensures r.Err? ==> r.error == KeyError
    decreases |xs|
  {
    if xs == [] then Ok([])
    else
      var n := |xs| - 1;
      var before :- RowBits(cache, xs[..n], sy);
      if (xs[n], sy) !in cache then Err(KeyError)
      else Ok(before + SegmentBits(cache[(xs[n], sy)]))
  }

  /** A row is read exactly when every one of its positions is in the cache. */
  lemma {:induction false} RowBitsOk(cache: map<(int, int), Segment>, xs: seq<int>, sy: int)
    ensures RowBits(cache, xs, sy).Ok? <==> forall i :: 0 <= i < |xs| ==> (xs[i], sy) in cache
    decreases |xs|
  {
    if xs != [] {
      var n := |xs| - 1;
      RowBitsOk(cache, xs[..n], sy);
      assert forall i :: 0 <= i < n ==> xs[..n][i] == xs[i];
    }
  }

  /** A position missing from the cache makes the row raise `KeyError`. */
  lemma RowBitsMissing(cache: map<(int, int), Segment>, xs: seq<int>, i: int, sy: int)
    requires 0 <= i < |xs| && (xs[i], sy) !in cache
    ensures RowBits(cache, xs, sy) == Err(KeyError)
  {
    RowBitsOk(cache, xs, sy);
  }

  /** All rows, top to bottom. */
  function RowsBits(cache: map<(int, int), Segment>, xs: seq<int>, ys: seq<int>): (r: Result<seq<Bit>>)
    ensures r.Err? ==> r.error == KeyError
    decreases |ys|
  {
    if ys == [] then Ok([])
    else
      var n := |ys| - 1;
      var before :- RowsBits(cache, xs, ys[..n]);
      var row :- RowBits(cache, xs, ys[n]);
      Ok(before + row)
  }

  /** The rows are read exactly when every row is. */
  lemma {:induction false} RowsBitsOkRows(cache: map<(int, int), Segment>, xs: seq<int>, ys: seq<int>)
    ensures RowsBits(cache, xs, ys).Ok? <==> forall j :: 0 <= j < |ys| ==> RowBits(cache, xs, ys[j]).Ok?
    decreases |ys|
  {
    if ys != [] {
      var n := |ys| - 1;
      RowsBitsOkRows(cache, xs, ys[..n]);
      assert forall j :: 0 <= j < n ==> ys[..n][j] == ys[j];
    }
  }

  /** The rows are read exactly when every position of every row is in the cache. */
  lemma RowsBitsOk(cache: map<(int, int), Segment>, xs: seq<int>, ys: seq<int>)
    ensures RowsBits(cache, xs, ys).Ok? <==> forall j, i :: 0 <= j < |ys| && 0 <= i < |xs| ==> (xs[i], ys[j]) in cache
  {
    RowsBitsOkRows(cache, xs, ys);
    forall j | 0 <= j < |ys| {
      RowBitsOk(cache, xs, ys[j]);
    }
  }

  /** A row that raises makes the whole scan raise `KeyError`. */
  lemma RowsBitsMissing(cache: map<(int, int), Segment>, xs: seq<int>, ys: seq<int>, j: int)
    requires 0 <= j < |ys| && RowBits(cache, xs, ys[j]).Err?
    ensures RowsBits(cache, xs, ys) == Err(KeyError)
  {
    RowsBitsOkRows(cache, xs, ys);
  }

  /** One more segment extends a row that is so far in the cache. */
  lemma RowBitsStep(cache: map<(int, int), Segment>, xs: seq<int>, i: int, sy: int)
    requires 0 <= i < |xs| && RowBits(cache, xs[..i], sy).Ok? && (xs[i], sy) in cache
    ensures RowBits(cache, xs[..i + 1], sy) == Ok(RowBits(cache, xs[..i], sy).value + SegmentBits(cache[(xs[i], sy)]))
  {
    assert xs[..i + 1][..i] == xs[..i];
  }

  /** One more row extends the rows so far; before the first row there is nothing. */
  lemma RowsBitsStep(cache: map<(int, int), Segment>, xs: seq<int>, ys: seq<int>, j: int)
    requires 0 <= j < |ys| && RowBits(cache, xs, ys[j]).Ok?
    requires j > 0 ==> RowsBits(cache, xs, ys[..j]).Ok?
    ensures j == 0 ==> RowsBits(cache, xs, ys[..1]) == RowBits(cache, xs, ys[0])
    ensures j > 0 ==> RowsBits(cache, xs, ys[..j + 1]) == Ok(RowsBits(cache, xs, ys[..j]).value + RowBits(cache, xs, ys[j]).value)
  {
    assert ys[..j + 1][..j] == ys[..j];
    if j == 0 {
      assert ys[..1][..0] == [];
      assert [] + RowBits(cache, xs, ys[0]).value == RowBits(cache, xs, ys[0]).value;
    }
  }

  /**
   * The scan of tile `(x, y)`: rows `y * tile_height` up to
   * `(y + 1) * tile_height` in steps of `min(stripe_height, tile_width)`, and
   * in each row columns `x * tile_width` up to `(x + 1) * tile_width` in
   * steps of `min(stripe_width, tile_width)`; the column range is only built
   * once there is a row.
   */
  function ScanOf(cache: map<(int, int), Segment>, layout: Layout, x: int, y: int): (r: Result<seq<Bit>>)
  {
    var ys :- RangeStep(y * layout.tileHeight, (y + 1) * layout.tileHeight, Min(layout.stripeHeight, layout.tileWidth));
    if ys == [] then Ok([])
    else
      var xs :- RangeStep(x * layout.tileWidth, (x + 1) * layout.tileWidth, Min(layout.stripeWidth, layout.tileWidth));
      RowsBits(cache, xs, ys)
  }

  /** The tile bytes for a scan: padded with 1 bits, turned into bytes, stuffed. */
  function ScanBytes(scan: seq<Bit>): bytes
  {
    Stuffed(BitsToBytes(PadScan(scan)))
  }

  /**
   * Reading the tile bytes back, with the stuffing removed as the bit reader
   * does, gives the scan followed by fewer than eight 1 bits.
   */
  lemma ScanBytesReadBack(scan: seq<Bit>)
    ensures var back := BytesToBits(Unstuff(ScanBytes(scan)));
      |back| % 8 == 0 && |scan| <= |back| < |scan| + 8
      && back[..|scan|] == scan
      && forall i :: |scan| <= i < |back| ==> back[i] == 1
  {
    StuffingRoundTrip(BitsToBytes(PadScan(scan)));
    BitsBytesRoundTrip(PadScan(scan));
  }

  /** The cache check as written: the stripe coordinates of the first stripe, as floats, looked up among pixel positions. */
  predicate CachedAsWritten(cache: map<(int, int), Segment>, layout: Layout, x: int, y: int)
    requires layout.stripeWidth != 0 && layout.stripeHeight != 0
  {
    var sx := StripeStart(x, layout.tileWidth, layout.stripeWidth);
    var sy := StripeStart(y, layout.tileHeight, layout.stripeHeight);
    sx == sx.Floor as real && sy == sy.Floor as real && (sx.Floor, sy.Floor) in cache
  }

  /** The cache check as intended: the pixel position of the first stripe. */
  predicate CachedAtPixels(cache: map<(int, int), Segment>, layout: Layout, x: int, y: int)
    requires layout.stripeWidth != 0 && layout.stripeHeight != 0
  {
    var sx := Trunc(StripeStart(x, layout.tileWidth, layout.stripeWidth));
    var sy := Trunc(StripeStart(y, layout.tileHeight, layout.stripeHeight));
    (sx * layout.stripeWidth, sy * layout.stripeHeight) in cache
  }

  /** The stripes tile `(x, y)` reads: the truncated stripe ranges along both axes. */
  function TileStripes(layout: Layout, x: int, y: int): seq<int>
    requires layout.stripeWidth != 0 && layout.stripeHeight != 0
  {
    StripeIndices(
      Trunc(StripeStart(x, layout.tileWidth, layout.stripeWidth)),
      Trunc(StripeEnd(x, layout.tileWidth, layout.stripeWidth)),
      Trunc(StripeStart(y, layout.tileHeight, layout.stripeHeight)),
      Trunc(StripeEnd(y, layout.tileHeight, layout.stripeHeight)),
      layout.stripeCols)
  }

  /** The index of the first stripe tile `(x, y)` reads. */
  function FirstStripe(layout: Layout, x: int, y: int): int
    requires layout.stripeWidth != 0 && layout.stripeHeight != 0
  {
    Trunc(StripeStart(x, layout.tileWidth, layout.stripeWidth))
      + Trunc(StripeStart(y, layout.tileHeight, layout.stripeHeight)) * layout.stripeCols
  }

  /** The tile bytes from the cache: the scan, padded, as bytes, stuffed. */
  function TileBytes(cache: map<(int, int), Segment>, layout: Layout, x: int, y: int): (r: Result<bytes>)
    ensures r.Err? ==> r.error == ValueError || r.error == KeyError
  {
    var scan :- ScanOf(cache, layout, x, y);
    Ok(ScanBytes(scan))
  }

  /** With no stripe columns, a stripe with segments makes the whole refill fail. */
  lemma {:induction false} FilledFails(layout: Layout, indices: seq<int>, stripeSegments: int -> seq<Segment>, n: nat)
    requires layout.stripeCols == 0 && n < |indices| && stripeSegments(indices[n]) != []
    ensures Filled(layout, indices, stripeSegments).Err?
    decreases |indices|
  {
    var last := |indices| - 1;
    if n < last {
      assert indices[..last][n] == indices[n];
      FilledFails(layout, indices[..last], stripeSegments, n);
    }
  }

  /** The first segment of the first stripe read is in the refilled cache. */
  lemma FilledHoldsFirst(layout: Layout, indices: seq<int>, stripeSegments: int -> seq<Segment>)
    requires layout.stripeCols != 0 && indices != [] && stripeSegments(indices[0]) != []
    ensures Filled(layout, indices, stripeSegments).Ok?
    ensures SegmentKey(layout, indices[0], 0) in Filled(layout, indices, stripeSegments).value
  {
    var keys := Filled(layout, indices, stripeSegments).value.Keys;
    assert keys == set i, k | 0 <= i < |indices| && 0 <= k < |stripeSegments(indices[i])|
      :: SegmentKey(layout, indices[i], k);
  }

  /** That first segment sits at the pixel corner of the first stripe. */
  lemma FilledHoldsCorner(layout: Layout, indices: seq<int>, stripeSegments: int -> seq<Segment>, x: int, y: int)
    requires 0 <= x < layout.stripeCols && indices != [] && indices[0] == x + y * layout.stripeCols
    requires stripeSegments(indices[0]) != []
    ensures Filled(layout, indices, stripeSegments).Ok?
    ensures (x * layout.stripeWidth, y * layout.stripeHeight) in Filled(layout, indices, stripeSegments).value
  {
    FilledHoldsFirst(layout, indices, stripeSegments);
    FirstSegmentAtStripeCorner(layout, indices[0], x, y);
  }

  /** A stripe range whose end is at least one past a non-negative start holds at least one stripe. */
  lemma StripeRangeNonEmpty(start: real, end: real)
    requires 0.0 <= start && start + 1.0 <= end
    ensures 0 <= Trunc(start) < Trunc(end)
  {
  }

  /**
   * A tile whose stripes were just read finds its first stripe in the cache
   * by its pixel position: the first segment of that stripe is stored there.
   */
  lemma RefilledTileIsCached(layout: Layout, x: int, y: int, stripeSegments: int -> seq<Segment>)
    requires layout.tileWidth > 0 && layout.tileHeight > 0
    requires layout.stripeWidth > 0 && layout.stripeHeight > 0 && layout.stripeCols > 0
    requires x >= 0 && y >= 0
    requires Trunc(StripeStart(x, layout.tileWidth, layout.stripeWidth)) < layout.stripeCols
    requires stripeSegments(FirstStripe(layout, x, y)) != []
    ensures Filled(layout, TileStripes(layout, x, y), stripeSegments).Ok?
    ensures CachedAtPixels(Filled(layout, TileStripes(layout, x, y), stripeSegments).value, layout, x, y)
  {
    var sx := StripeStart(x, layout.tileWidth, layout.stripeWidth);
    var sy := StripeStart(y, layout.tileHeight, layout.stripeHeight);
    var ex := StripeEnd(x, layout.tileWidth, layout.stripeWidth);
    var ey := StripeEnd(y, layout.tileHeight, layout.stripeHeight);
    NonNegativeStart(x, layout.tileWidth, layout.stripeWidth);
    NonNegativeStart(y, layout.tileHeight, layout.stripeHeight);
    StripeRangeNonEmpty(sx, ex);
    StripeRangeNonEmpty(sy, ey);
    var xs, xe, ys, ye := Trunc(sx), Trunc(ex), Trunc(sy), Trunc(ey);
    StripeIndicesRowMajor(xs, xe, ys, ye, layout.stripeCols, 0, 0);
    var indices := TileStripes(layout, x, y);
    FilledHoldsCorner(layout, indices, stripeSegments, xs, ys);
  }

  /** With the cache check as written, a tile whose stripes were just read is not found: (1.0, 0.0) against the pixel key (8, 0). */
  lemma CacheMissesTileJustRead()
    ensures var layout := Layout(8, 8, 8, 8, 4);
      var stripes := (i: int) => [Segment([0], BufferPosition(0, 0), BufferPosition(1, 0))];
      var cache := Filled(layout, TileStripes(layout, 1, 0), stripes);
      cache.Ok? && !CachedAsWritten(cache.value, layout, 1, 0) && CachedAtPixels(cache.value, layout, 1, 0)
  {
    var layout := Layout(8, 8, 8, 8, 4);
    var stripes := (i: int) => [Segment([0], BufferPosition(0, 0), BufferPosition(1, 0))];
    assert StripeStart(1, 8, 8) == 1.0 && StripeStart(0, 8, 8) == 0.0;
    assert StripeEnd(1, 8, 8) == 2.0 && StripeEnd(0, 8, 8) == 1.0;
    assert TileStripes(layout, 1, 0) == [1];
    assert SegmentKey(layout, 1, 0) == (8, 0);
    var cache := Filled(layout, [1], stripes);
    assert cache.Ok? && cache.value.Keys == {(8, 0)};
  }

  /** `NdpiPageTiler`: the layout of the page and the cache of segments by pixel position. */
  class NdpiPageTiler {
    const layout: Layout
    var segments: map<(int, int), Segment>

    constructor (layout: Layout)
      ensures this.layout == layout && segments == map[]
    {
      this.layout := layout;
      segments := map[];
    }

    /**
     * The cache refill of `get_tile`: empty the cache, then store every
     * segment of every stripe at its pixel position.
     */
    method Refill(indices: seq<int>, stripeSegments: int -> seq<Segment>) returns (ok: bool)
      modifies this
      ensures ok <==> Filled(layout, indices, stripeSegments).Ok?
      ensures ok ==> segments == Filled(layout, indices, stripeSegments).value
      ensures !ok ==> segments == map[]
    {
      segments := map[];
      var n := 0;
      while n < |indices|
        invariant 0 <= n <= |indices|
        invariant Filled(layout, indices[..n], stripeSegments) == Ok(segments)
      {
        ghost var before := segments;
        var stripe := stripeSegments(indices[n]);
        var k := 0;
        while k < |stripe|
          invariant 0 <= k <= |stripe|
          invariant FillStripe(before, layout, indices[n], stripe[..k]) == Ok(segments)
        {
          if layout.stripeCols == 0 {
            FilledFails(layout, indices, stripeSegments, n);
            return false;
          }
          FillStripeStep(before, layout, indices[n], stripe, k, segments);
          segments := segments[SegmentKey(layout, indices[n], k) := stripe[k]];
          k := k + 1;
        }
        assert stripe[..k] == stripe;
        FilledStep(layout, indices, stripeSegments, n, before, segments);
        n := n + 1;
      }
      assert indices[..n] == indices;
      return true;
    }

    /** The inner scan loop of `get_tile`: the segments of one row appended to the scan. */
    method AppendRow(scan: seq<Bit>, xs: seq<int>, sy: int) returns (r: Result<seq<Bit>>)
      ensures r.Ok? <==> RowBits(segments, xs, sy).Ok?
      ensures r.Ok? ==> r.value == scan + RowBits(segments, xs, sy).value
      ensures r.Err? ==> r.error == KeyError
    {
      var extended := scan;
      ghost var row: seq<Bit> := [];
      var i := 0;
      while i < |xs|
        invariant 0 <= i <= |xs|
        invariant RowBits(segments, xs[..i], sy) == Ok(row) && extended == scan + row
      {
        var key := (xs[i], sy);
        if key !in segments {
          RowBitsMissing(segments, xs, i, sy);
          return Err(KeyError);
        }
        RowBitsStep(segments, xs, i, sy);
        var bits := SegmentBits(segments[key]);
        assert extended + bits == scan + (row + bits);
        extended := extended + bits;
        row := row + bits;
        i := i + 1;
      }
      assert xs[..i] == xs;
      return Ok(extended);
    }

    /** The scan loops of `get_tile`: every segment of every row, appended in order. */
    method AssembleScan(x: int, y: int) returns (r: Result<seq<Bit>>)
      ensures r == ScanOf(segments, layout, x, y)
    {
      var rows := RangeStep(y * layout.tileHeight, (y + 1) * layout.tileHeight, Min(layout.stripeHeight, layout.tileWidth));
      if rows.Err? {
        return Err(rows.error);
      }
      var ys := rows.value;
      ghost var columns := RangeStep(x * layout.tileWidth, (x + 1) * layout.tileWidth, Min(layout.stripeWidth, layout.tileWidth));
      var scan: seq<Bit> := [];
      ghost var cache := segments;
      var j := 0;
      while j < |ys|
        invariant 0 <= j <= |ys|
        invariant j == 0 ==> scan == []
        invariant j > 0 ==> columns.Ok? && RowsBits(cache, columns.value, ys[..j]) == Ok(scan)
      {
        var row := RangeStep(x * layout.tileWidth, (x + 1) * layout.tileWidth, Min(layout.stripeWidth, layout.tileWidth));
        if row.Err? {
          return Err(row.error);
        }
        var xs := row.value;
        var extended := AppendRow(scan, xs, ys[j]);
        if extended.Err? {
          RowsBitsMissing(cache, xs, ys, j);
          return Err(KeyError);
        }
        scan := extended.value;
        RowsBitsStep(cache, xs, ys, j);
        j := j + 1;
      }
      assert ys[..j] == ys;
      return Ok(scan);
    }

    /**
     * `get_tile(x, y)`: compute the stripe range (a zero stripe size raises
     * `ZeroDivisionError`), refill the cache unless the tile's first stripe
     * is cached, assemble the scan, pad it, convert it to bytes and stuff
     * it. The cache check looks the first stripe up by its pixel position.
     */
    method GetTile(x: int, y: int, stripeSegments: int -> seq<Segment>) returns (r: Result<bytes>)
      modifies this
      ensures layout.stripeWidth == 0 || layout.stripeHeight == 0 ==>
        r == Err(ZeroDivisionError) && segments == old(segments)
      ensures layout.stripeWidth != 0 && layout.stripeHeight != 0 ==>
        var refill := Filled(layout, TileStripes(layout, x, y), stripeSegments);
        if CachedAtPixels(old(segments), layout, x, y) then
          segments == old(segments) && r == TileBytes(segments, layout, x, y)
        else if refill.Err? then
          segments == map[] && r == Err(ZeroDivisionError)
        else
          segments == refill.value && r == TileBytes(segments, layout, x, y)
    {
      if layout.stripeWidth == 0 || layout.stripeHeight == 0 {
        return Err(ZeroDivisionError);
      }
      var xStart := StripeStart(x, layout.tileWidth, layout.stripeWidth);
      var xEnd := StripeEnd(x, layout.tileWidth, layout.stripeWidth);
      var yStart := StripeStart(y, layout.tileHeight, layout.stripeHeight);
      var yEnd := StripeEnd(y, layout.tileHeight, layout.stripeHeight);
      if (Trunc(xStart) * layout.stripeWidth, Trunc(yStart) * layout.stripeHeight) !in segments {
        var indices := StripeIndices(Trunc(xStart), Trunc(xEnd), Trunc(yStart), Trunc(yEnd), layout.stripeCols);
        var ok := Refill(indices, stripeSegments);
        if !ok {
          return Err(ZeroDivisionError);
        }
      }
      var scan := AssembleScan(x, y);
      if scan.Err? {
        return Err(scan.error);
      }
      var scanBytes := BitsToBytes(PadScan(scan.value));
      var stuffed := InsertStuffing(scanBytes);
      return Ok(stuffed);
    }
  }
}
