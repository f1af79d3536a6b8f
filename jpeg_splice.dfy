/**
 * Byte-level surgery on JPEG headers done by the `Jpeg` class: finding a
 * marker and its segment length, rewriting the frame size, rewriting or
 * inserting a restart interval, and splicing abbreviated tables and the
 * Adobe APP14 segment in front of the scan.
 */
module JpegSplice {
  import opened Wrappers
  import opened PyBytes
  import opened Markers
  import opened Geometry

  /** The position of a marker and the segment length that follows it. */
  datatype TagInfo = TagInfo(index: nat, length: int)

  /**
   * `_find_tag`: the first occurrence of `tag` and the big-endian length
   * field after it; `(None, None)` when the tag is absent, and `struct.error`
   * when fewer than two bytes follow the tag.
   */
  function FindTag(frame: bytes, tag: bytes): (r: Result<Option<TagInfo>>)
    requires |tag| == 2
    ensures r == Ok(None) <==> Find(frame, tag) == -1
    ensures r.Err? <==> 0 <= Find(frame, tag) && |frame| < Find(frame, tag) + 4
    ensures r.Err? ==> r.error == StructError
    ensures r.Ok? && r.value.Some? ==>
      var t := r.value.value;
      t.index == Find(frame, tag) && MatchAt(frame, tag, t.index) && t.index + 4 <= |frame|
      && t.length == (frame[t.index + 2] as int) * 256 + frame[t.index + 3]
  {
    var i := Find(frame, tag);
    if i == -1 then Ok(None)
    else
      var length :- UnpackShort(Slice(frame, i + 2, i + 4));
      Ok(Some(TagInfo(i, length)))
  }

  /**
   * The size part of `_manipulate_header`: the height and then the width are
   * written as big-endian shorts five bytes past the SOF marker (marker, Lf,
   * P, then Y and X in section B.2.2 of ITU-T T.81).
   */
  function SetFrameSize(frame: bytes, size: Size): (r: Result<bytes>)
    ensures r.Err? <==>
      Find(frame, StartOfFrame()) == -1 || |frame| < Find(frame, StartOfFrame()) + 4
      || !IsShort(size.height) || !IsShort(size.width)
    ensures Find(frame, StartOfFrame()) == -1 ==> r == Err(JpegTagNotFound)
    ensures r.Err? && Find(frame, StartOfFrame()) != -1 ==> r == Err(StructError)
    ensures var i := Find(frame, StartOfFrame());
      0 <= i && i + 9 <= |frame| && IsShort(size.height) && IsShort(size.width) ==>
      r == Ok(frame[..i + 5] + Be16(size.height) + Be16(size.width) + frame[i + 9..])
  {
    var sof :- FindTag(frame, StartOfFrame());
    if sof.None? then Err(JpegTagNotFound)
    else
      var sizeIndex := sof.value.index + 5;
      var height :- CodeShort(size.height);
      var width :- CodeShort(size.width);
      WriteTwoShorts(frame, sizeIndex, height, width);
      Ok(SliceAssign(SliceAssign(frame, sizeIndex, sizeIndex + 2, height), sizeIndex + 2, sizeIndex + 4, width))
  }

  /** Writing two 2-byte values one after the other at `k` replaces the four bytes there. */
  lemma WriteTwoShorts(frame: bytes, k: int, a: bytes, b: bytes)
    requires |a| == 2 && |b| == 2
    ensures 0 <= k && k + 4 <= |frame| ==>
      SliceAssign(SliceAssign(frame, k, k + 2, a), k + 2, k + 4, b) == frame[..k] + a + b + frame[k + 4..]
  {
    if 0 <= k && k + 4 <= |frame| {
      var f := SliceAssign(frame, k, k + 2, a);
      assert f == frame[..k] + a + frame[k + 2..];
      assert f[..k + 2] == frame[..k] + a;
      assert f[k + 4..] == frame[k + 4..];
    }
  }

  /** Inserting a DRI segment at `at` puts the marker, the length 4 and the interval there. */
  lemma InsertedSegment(frame: bytes, at: int, interval: int)
    requires 0 <= at <= |frame| && IsShort(interval)
    ensures SliceAssign(frame, at, at, RestartInterval() + Be16(4) + Be16(interval))
      == frame[..at] + RestartInterval() + [0, 4] + Be16(interval) + frame[at..]
  {
    var segment := RestartInterval() + Be16(4) + Be16(interval);
    assert segment == RestartInterval() + [0, 4] + Be16(interval);
    assert SliceAssign(frame, at, at, segment) == frame[..at] + segment + frame[at..];
  }

  /**
   * The restart-interval part of `_manipulate_header`: the two payload bytes
   * of an existing DRI segment are overwritten; without one, a complete DRI
   * segment (marker, Lr = 4, Ri; section B.2.4.4 of ITU-T T.81) is inserted
   * immediately before the first SOS marker.
   */
  function SetRestartInterval(frame: bytes, interval: int): (r: Result<bytes>)
    ensures !IsShort(interval) ==> r == Err(StructError)
    ensures var d := Find(frame, RestartInterval());
      IsShort(interval) && 0 <= d ==>
        (|frame| < d + 4 ==> r == Err(StructError))
        && (d + 6 <= |frame| ==> r == Ok(frame[..d + 4] + Be16(interval) + frame[d + 6..]))
    ensures var s := Find(frame, StartOfScan());
      IsShort(interval) && Find(frame, RestartInterval()) == -1 ==>
        (s == -1 ==> r == Err(JpegTagNotFound))
        && (0 <= s && |frame| < s + 4 ==> r == Err(StructError))
        && (0 <= s && s + 4 <= |frame| ==>
              r == Ok(frame[..s] + RestartInterval() + [0, 4] + Be16(interval) + frame[s..]))
  {
    var payload :- CodeShort(interval);
    var dri :- FindTag(frame, RestartInterval());
    if dri.Some? then
      var payloadIndex := dri.value.index + 4;
      Ok(SliceAssign(frame, payloadIndex, payloadIndex + 2, payload))
    else
      var sos :- FindTag(frame, StartOfScan());
      if sos.None? then Err(JpegTagNotFound)
      else
        var at := sos.value.index;
        var segment := RestartInterval() + Be16(4) + payload;
        InsertedSegment(frame, at, interval);
        Ok(SliceAssign(frame, at, at, segment))
  }

  /** Both parts of `_manipulate_header`, the size first. */
  function SetSizeAndInterval(frame: bytes, size: Size, interval: int): (r: Result<bytes>)
    ensures SetFrameSize(frame, size).Err? ==> r == SetFrameSize(frame, size)
    ensures SetFrameSize(frame, size).Ok? ==> r == SetRestartInterval(SetFrameSize(frame, size).value, interval)
  {
    var sized :- SetFrameSize(frame, size);
    SetRestartInterval(sized, interval)
  }

  /**
   * `_manipulate_header`: the frame is changed in place, first its size (when
   * given), then its restart interval (when given); the first failure is
   * raised.
   */
  method ManipulateHeader(frame: bytes, size: Option<Size>, restartInterval: Option<int>)
    returns (r: Result<bytes>)
    ensures size.None? && restartInterval.None? ==> r == Ok(frame)
    ensures size.Some? && restartInterval.None? ==> r == SetFrameSize(frame, size.value)
    ensures size.None? && restartInterval.Some? ==> r == SetRestartInterval(frame, restartInterval.value)
    ensures size.Some? && restartInterval.Some? ==> r == SetSizeAndInterval(frame, size.value, restartInterval.value)
  {
    var f := frame;
    if size.Some? {
      var sized := SetFrameSize(f, size.value);
      if sized.Err? {
        return Err(sized.error);
      }
      f := sized.value;
    }
    if restartInterval.Some? {
      var withInterval := SetRestartInterval(f, restartInterval.value);
      if withInterval.Err? {
        return Err(withInterval.error);
      }
      f := withInterval.value;
    }
    return Ok(f);
  }

  /**
   * After the size is rewritten, the SOF marker is found at the same place
   * and its height and width fields read back as the new size; the length of
   * the frame is unchanged.
   */
  lemma {:induction false} FrameSizeReadsBack(frame: bytes, size: Size)
    requires SetFrameSize(frame, size).Ok?
    requires Find(frame, StartOfFrame()) + 9 <= |frame|
    ensures var out := SetFrameSize(frame, size).value;
      var i := Find(frame, StartOfFrame());
      |out| == |frame| && Find(out, StartOfFrame()) == i
      && UnpackShort(out[i + 5..i + 7]) == Ok(size.height)
      && UnpackShort(out[i + 7..i + 9]) == Ok(size.width)
      && out[..i + 5] == frame[..i + 5] && out[i + 9..] == frame[i + 9..]
  {
    var out := SetFrameSize(frame, size).value;
    var i := Find(frame, StartOfFrame());
    assert out[..i + 5] == frame[..i + 5];
    FindStable(frame, out, StartOfFrame(), i + 5);
    assert out[i + 5..i + 7] == Be16(size.height);
    assert out[i + 7..i + 9] == Be16(size.width);
    ShortRoundTrip(size.height, []);
    ShortRoundTrip(size.width, []);
  }

  /**
   * After the restart interval is set, the first DRI marker of the frame is
   * followed by Lr = 4 and the interval, whether the segment was rewritten
   * (when the existing one had Lr = 4) or inserted.
   */
  lemma {:induction false} RestartIntervalReadsBack(frame: bytes, interval: int)
    requires SetRestartInterval(frame, interval).Ok?
    requires var d := Find(frame, RestartInterval());
      (d == -1 || (d + 6 <= |frame| && UnpackShort(frame[d + 2..d + 4]) == Ok(4)))
    ensures var out := SetRestartInterval(frame, interval).value;
      var d := Find(out, RestartInterval());
      0 <= d && d + 6 <= |out|
      && UnpackShort(out[d + 2..d + 4]) == Ok(4)
      && UnpackShort(out[d + 4..d + 6]) == Ok(interval)
  {
    if Find(frame, RestartInterval()) != -1 {
      RewrittenIntervalReadsBack(frame, interval);
    } else {
      InsertedIntervalReadsBack(frame, interval);
    }
  }

  lemma {:induction false} RewrittenIntervalReadsBack(frame: bytes, interval: int)
    requires IsShort(interval)
    requires var d := Find(frame, RestartInterval());
      0 <= d && d + 6 <= |frame| && UnpackShort(frame[d + 2..d + 4]) == Ok(4)
    ensures SetRestartInterval(frame, interval).Ok?
    ensures var out := SetRestartInterval(frame, interval).value;
      var d := Find(frame, RestartInterval());
      Find(out, RestartInterval()) == d && d + 6 <= |out|
      && UnpackShort(out[d + 2..d + 4]) == Ok(4)
      && UnpackShort(out[d + 4..d + 6]) == Ok(interval)
  {
    var d := Find(frame, RestartInterval());
    var out := frame[..d + 4] + Be16(interval) + frame[d + 6..];
    assert SetRestartInterval(frame, interval) == Ok(out);
    assert out[..d + 4] == frame[..d + 4];
    FindStable(frame, out, RestartInterval(), d + 4);
    assert out[d + 2..d + 4] == frame[d + 2..d + 4];
    assert out[d + 4..d + 6] == Be16(interval);
    ShortRoundTrip(interval, []);
  }

  lemma {:induction false} InsertedIntervalReadsBack(frame: bytes, interval: int)
    requires IsShort(interval)
    requires Find(frame, RestartInterval()) == -1
    requires var s := Find(frame, StartOfScan()); 0 <= s && s + 4 <= |frame|
    ensures SetRestartInterval(frame, interval).Ok?
    ensures var out := SetRestartInterval(frame, interval).value;
      var s := Find(frame, StartOfScan());
      Find(out, RestartInterval()) == s && |out| == |frame| + 6
      && UnpackShort(out[s + 2..s + 4]) == Ok(4)
      && UnpackShort(out[s + 4..s + 6]) == Ok(interval)
  {
    var s := Find(frame, StartOfScan());
    var payload := Be16(interval);
    var out := frame[..s] + RestartInterval() + [0, 4] + payload + frame[s..];
    assert SetRestartInterval(frame, interval) == Ok(out);
    assert MatchAt(frame, StartOfScan(), s);
    assert out[s] == 0xFF && out[s + 1] == 0xDD;
    assert MatchAt(out, RestartInterval(), s);
    forall k | 0 <= k < s
      ensures !MatchAt(out, RestartInterval(), k)
    {
      if k + 2 <= s {
        assert out[k] == frame[k] && out[k + 1] == frame[k + 1];
        assert !MatchAt(frame, RestartInterval(), k);
        assert frame[k..k + 2] == [frame[k], frame[k + 1]];
      } else {
        assert out[k + 1] == 0xFF;
      }
    }
    FindFirst(out, RestartInterval(), s);
    assert out[s + 2..s + 4] == [0, 4];
    assert out[s + 4..s + 6] == payload;
    ShortRoundTrip(interval, []);
  }

  /** `jpegtables[2:-2]`: the abbreviated tables without their SOI and EOI markers. */
  function TablesBody(tables: bytes): (r: bytes)
    ensures |tables| >= 4 ==> r == tables[2..|tables| - 2]
    ensures |tables| < 4 ==> r == []
  {
    Slice(tables, 2, -2)
  }

  /**
   * `frame[s:s] = insert` where `s = frame.find(SOS)`. When the frame has no
   * SOS marker, `find` gives -1 and Python's slice assignment puts the bytes
   * in front of the last byte.
   */
  function InsertBeforeScan(frame: bytes, insert: bytes): (r: bytes)
    ensures |r| == |frame| + |insert|
    ensures var s := Find(frame, StartOfScan());
      0 <= s ==> r == frame[..s] + insert + frame[s..]
    ensures Find(frame, StartOfScan()) == -1 && |frame| > 0 ==>
      r == frame[..|frame| - 1] + insert + frame[|frame| - 1..]
  {
    var s := Find(frame, StartOfScan());
    SliceAssign(frame, s, s, insert)
  }

  /** `_add_jpeg_tables` / `add_jpeg_tables`: the table body is spliced in before the scan. */
  function AddJpegTables(frame: bytes, tables: bytes): (r: bytes)
    ensures |r| == |frame| + |TablesBody(tables)|
    ensures var s := Find(frame, StartOfScan());
      0 <= s ==> r == frame[..s] + TablesBody(tables) + frame[s..]
  {
    InsertBeforeScan(frame, TablesBody(tables))
  }

  /** `_add_jpeg_tables_and_rgb_color_space_fix`: tables, then the APP14 segment, before the scan. */
  function AddJpegTablesAndRgbFix(frame: bytes, tables: bytes): (r: bytes)
    ensures |r| == |frame| + |TablesBody(tables)| + 16
    ensures var s := Find(frame, StartOfScan());
      0 <= s ==> r == frame[..s] + TablesBody(tables) + AdobeApp14 + frame[s..]
  {
    InsertBeforeScan(frame, TablesBody(tables) + AdobeApp14)
  }

  /** `_add_color_space_fix`: the 16-byte APP14 segment before the scan. */
  function AddColorSpaceFix(frame: bytes): (r: bytes)
    ensures |r| == |frame| + 16
    ensures var s := Find(frame, StartOfScan());
      0 <= s ==> r == frame[..s] + AdobeApp14 + frame[s..]
  {
    InsertBeforeScan(frame, AdobeApp14)
  }

  /**
   * Adding the tables and then the colour fix, as the older class does,
   * gives the same frame as the newer combined splice, provided the table
   * body contains no SOS marker and cannot form one with the byte before
   * the scan.
   */
  lemma {:induction false} TablesThenFixIsCombined(frame: bytes, tables: bytes)
    requires 0 <= Find(frame, StartOfScan())
    requires forall k :: !MatchAt(TablesBody(tables), StartOfScan(), k)
    requires var s := Find(frame, StartOfScan());
      |TablesBody(tables)| > 0 && s > 0 && frame[s - 1] == TagMarker ==>
        TablesBody(tables)[0] != StartOfScanCode
    ensures AddColorSpaceFix(AddJpegTables(frame, tables)) == AddJpegTablesAndRgbFix(frame, tables)
  {
    var s := Find(frame, StartOfScan());
    var body := TablesBody(tables);
    var mid := frame[..s] + body + frame[s..];
    assert AddJpegTables(frame, tables) == mid;
    var t := s + |body|;
    assert MatchAt(frame, StartOfScan(), s);
    assert mid[t] == frame[s] && mid[t + 1] == frame[s + 1];
    assert MatchAt(mid, StartOfScan(), t);
    forall k | 0 <= k < t
      ensures !MatchAt(mid, StartOfScan(), k)
    {
      NoScanBefore(frame, body, s, k);
    }
    FindFirst(mid, StartOfScan(), t);
    assert AddColorSpaceFix(mid) == mid[..t] + AdobeApp14 + mid[t..];
    assert mid[..t] == frame[..s] + body;
    assert mid[t..] == frame[s..];
    assert AddJpegTablesAndRgbFix(frame, tables) == frame[..s] + (body + AdobeApp14) + frame[s..];
  }

  /** No SOS starts before the body's end once the body is spliced in before the first SOS. */
  lemma NoScanBefore(frame: bytes, body: bytes, s: nat, k: nat)
    requires s == Find(frame, StartOfScan())
    requires forall j :: !MatchAt(body, StartOfScan(), j)
    requires |body| > 0 && s > 0 && frame[s - 1] == TagMarker ==> body[0] != StartOfScanCode
    requires k < s + |body|
    ensures !MatchAt(frame[..s] + body + frame[s..], StartOfScan(), k)
  {
    var mid := frame[..s] + body + frame[s..];
    var t := s + |body|;
    assert MatchAt(frame, StartOfScan(), s);
    if k + 2 <= s || (k + 1 == s && |body| == 0) {
      assert mid[k] == frame[k] && mid[k + 1] == frame[k + 1];
      assert !MatchAt(frame, StartOfScan(), k);
      PairMatch(frame, StartOfScan(), k);
      PairMatch(mid, StartOfScan(), k);
    } else if k + 1 == s {
      assert mid[k] == frame[s - 1] && mid[k + 1] == body[0];
      PairMatch(mid, StartOfScan(), k);
    } else if k + 2 <= t {
      assert mid[k] == body[k - s] && mid[k + 1] == body[k - s + 1];
      assert !MatchAt(body, StartOfScan(), k - s);
      PairMatch(body, StartOfScan(), k - s);
      PairMatch(mid, StartOfScan(), k);
    } else {
      assert mid[k + 1] == frame[s] == TagMarker;
      PairMatch(mid, StartOfScan(), k);
    }
  }

  /** A two-byte pattern matches where its two bytes do. */
  lemma PairMatch(s: bytes, pat: bytes, k: int)
    requires |pat| == 2 && 0 <= k
    ensures MatchAt(s, pat, k) <==> k + 2 <= |s| && s[k] == pat[0] && s[k + 1] == pat[1]
  {
    if k + 2 <= |s| {
      assert s[k..k + 2] == [s[k], s[k + 1]];
    }
  }
}
