/**
 * Building one JPEG frame out of several pieces: `concatenate_fragments`
 * stacks NDPI stripe fragments under a shared header, separated by cycling
 * restart markers; `concatenate_scans` joins the scans of SVS strips the
 * same way and then fixes tables, size and restart interval of the header.
 */
module JpegConcat {
  import opened Wrappers
  import opened PyBytes
  import opened Markers
  import opened Geometry
  import opened Mcu
  import opened JpegSplice

  // ---------------------------------------------------------------- fragments

  /**
   * The check made on every fragment: its second-to-last byte must be the
   * 0xFF tag of its closing marker. The second half of the source check,
   * `fragment[-1] != b"0"`, compares an int with bytes and always holds, so
   * it is left out. A fragment shorter than two bytes raises `IndexError`.
   */
  function CheckFragment(fragment: bytes): (r: Result<()>)
    ensures r.Ok? <==> |fragment| >= 2 && fragment[|fragment| - 2] == TagMarker
    ensures |fragment| < 2 ==> r == Err(IndexError)
    ensures |fragment| >= 2 && r.Err? ==> r == Err(JpegTagNotFound)
  {
    var tag := Index(fragment, -2);
    if tag.Err? then Err(tag.error)
    else if tag.value != TagMarker then Err(JpegTagNotFound)
    else Ok(())
  }

  predicate ValidFragments(fragments: seq<bytes>)
  {
    forall i :: 0 <= i < |fragments| ==> CheckFragment(fragments[i]).Ok?
  }

  /** What fragment `index` contributes: all but its last byte, then the restart mark of its index. */
  function FragmentPiece(fragment: bytes, index: int): (r: bytes)
    requires |fragment| >= 1
    ensures |r| == |fragment|
  {
    fragment[..|fragment| - 1] + RestartMark(index)
  }

  /** The pieces of all fragments, in order. */
  function JoinedFragments(fragments: seq<bytes>): bytes
    requires ValidFragments(fragments)
    decreases |fragments|
  {
    if fragments == [] then []
    else
      var n := |fragments| - 1;
      JoinedFragments(fragments[..n]) + FragmentPiece(fragments[n], n)
  }

  /** One more fragment adds its piece, numbered by its index, at the end. */
  lemma JoinedFragmentsSnoc(fragments: seq<bytes>, fragment: bytes)
    requires ValidFragments(fragments) && CheckFragment(fragment).Ok?
    ensures ValidFragments(fragments + [fragment])
    ensures JoinedFragments(fragments + [fragment]) == JoinedFragments(fragments) + FragmentPiece(fragment, |fragments|)
  {
    assert (fragments + [fragment])[..|fragments|] == fragments;
  }

  function TotalLength(chunks: seq<bytes>): nat
    decreases |chunks|
  {
    if chunks == [] then 0 else TotalLength(chunks[..|chunks| - 1]) + |chunks[|chunks| - 1]|
  }

  /** The joined fragments are as long as the fragments together. */
  lemma {:induction false} JoinedFragmentsLength(fragments: seq<bytes>)
    requires ValidFragments(fragments)
    ensures |JoinedFragments(fragments)| == TotalLength(fragments)
  {
    if fragments != [] {
      var n := |fragments| - 1;
      assert fragments[..n][..] == fragments[..n];
      JoinedFragmentsLength(fragments[..n]);
    }
  }

  /**
   * Fragment `i` sits, without its last byte and followed by restart mark
   * `i`, right after the fragments before it.
   */
  lemma {:induction false} JoinedFragmentsLayout(fragments: seq<bytes>, i: nat)
    requires ValidFragments(fragments) && i < |fragments|
    ensures var at := TotalLength(fragments[..i]);
      var joined := JoinedFragments(fragments);
      at + |fragments[i]| <= |joined|
      && joined[at..at + |fragments[i]|] == FragmentPiece(fragments[i], i)
  {
    var n := |fragments| - 1;
    var prefix := fragments[..n];
    assert ValidFragments(prefix);
    JoinedFragmentsLength(prefix);
    if i == n {
      assert fragments[..i] == prefix;
    } else {
      JoinedFragmentsLayout(prefix, i);
      assert prefix[..i] == fragments[..i];
    }
  }

  /**
   * The fragments an iterator yields, up to `n` of them: each element of
   * `fragments` is what producing that fragment gives (the NDPI callers read
   * the stripe lazily, and a read can raise). Fragment `i` is produced and
   * then checked before fragment `i + 1` is produced, so the first failure,
   * of a read or of a check, is the error.
   */
  function ProducedFragments(fragments: seq<Result<bytes>>, n: nat): (r: Result<seq<bytes>>)
    requires n <= |fragments|
    ensures r.Ok? ==> |r.value| == n && ValidFragments(r.value)
  {
    if n == 0 then Ok([])
    else
      var init :- ProducedFragments(fragments, n - 1);
      var fragment :- fragments[n - 1];
      var _ :- CheckFragment(fragment);
      Ok(init + [fragment])
  }

  /** What is produced is what was read, fragment by fragment. */
  lemma {:induction false} ProducedFragmentsRead(fragments: seq<Result<bytes>>, n: nat)
    requires n <= |fragments| && ProducedFragments(fragments, n).Ok?
    ensures forall i :: 0 <= i < n ==> fragments[i] == Ok(ProducedFragments(fragments, n).value[i])
  {
    if n > 0 {
      ProducedFragmentsRead(fragments, n - 1);
    }
  }

  /** Producing one more fragment, read and checked, appends it. */
  lemma ProducedFragmentsNext(fragments: seq<Result<bytes>>, i: nat, produced: seq<bytes>, header: bytes)
    requires i < |fragments| && ProducedFragments(fragments, i) == Ok(produced)
    requires fragments[i].Ok? && CheckFragment(fragments[i].value).Ok?
    ensures ProducedFragments(fragments, i + 1) == Ok(produced + [fragments[i].value])
    ensures var fragment := fragments[i].value;
      header + JoinedFragments(produced + [fragment])
      == header + JoinedFragments(produced) + fragment[..|fragment| - 1] + RestartMark(i)
  {
    JoinedFragmentsSnoc(produced, fragments[i].value);
  }

  /** Fragment `i` is the first that fails, with `e`: its read raises `e`, or its check does. */
  predicate FirstBadFragment(fragments: seq<Result<bytes>>, i: nat, e: Error)
    requires i < |fragments|
  {
    (forall j :: 0 <= j < i ==> fragments[j].Ok? && CheckFragment(fragments[j].value).Ok?)
    && (fragments[i] == Err(e) || (fragments[i].Ok? && CheckFragment(fragments[i].value) == Err(e)))
  }

  /** A failure is the failure of the first bad fragment. */
  lemma {:induction false} ProducedFragmentsError(fragments: seq<Result<bytes>>, n: nat)
    requires n <= |fragments| && ProducedFragments(fragments, n).Err?
    ensures exists i :: 0 <= i < n && FirstBadFragment(fragments, i, ProducedFragments(fragments, n).error)
  {
    var e := ProducedFragments(fragments, n).error;
    if ProducedFragments(fragments, n - 1).Err? {
      ProducedFragmentsError(fragments, n - 1);
      var i :| 0 <= i < n - 1 && FirstBadFragment(fragments, i, e);
      assert FirstBadFragment(fragments, i, e);
    } else {
      var init := ProducedFragments(fragments, n - 1).value;
      ProducedFragmentsRead(fragments, n - 1);
      assert forall j :: 0 <= j < n - 1 ==> fragments[j] == Ok(init[j]) && CheckFragment(init[j]).Ok?;
      assert FirstBadFragment(fragments, n - 1, e);
    }
  }

  /** Once the first `i` fragments fail, the first `m >= i` fail the same way. */
  lemma {:induction false} ProducedFragmentsStop(fragments: seq<Result<bytes>>, i: nat, m: nat)
    requires i <= m <= |fragments| && ProducedFragments(fragments, i).Err?
    ensures ProducedFragments(fragments, m) == ProducedFragments(fragments, i)
    decreases m
  {
    if i < m {
      ProducedFragmentsStop(fragments, i, m - 1);
    }
  }

  /** When every read succeeds, the fragments are produced exactly when all of them pass the check. */
  lemma {:induction false} ProducedFragmentsOfReads(fragments: seq<Result<bytes>>, values: seq<bytes>, n: nat)
    requires n <= |fragments| == |values|
    requires forall i :: 0 <= i < |values| ==> fragments[i] == Ok(values[i])
    ensures ProducedFragments(fragments, n).Ok? <==> ValidFragments(values[..n])
    ensures ProducedFragments(fragments, n).Ok? ==> ProducedFragments(fragments, n).value == values[..n]
  {
    if n > 0 {
      ProducedFragmentsOfReads(fragments, values, n - 1);
      assert values[..n] == values[..n - 1] + [values[n - 1]];
    }
  }

  /** The frame `concatenate_fragments` returns: header, pieces, EOI; or the first failure. */
  function FragmentsFrame(fragments: seq<Result<bytes>>, header: bytes): Result<bytes>
  {
    var produced :- ProducedFragments(fragments, |fragments|);
    Ok(header + JoinedFragments(produced) + EndOfImage())
  }

  /**
   * `concatenate_fragments`: the header, then each fragment without its last
   * byte followed by restart mark `i`, then EOI; the first fragment that
   * cannot be produced or fails the check raises.
   */
  method ConcatenateFragments(fragments: seq<Result<bytes>>, header: bytes) returns (r: Result<bytes>)
    ensures r == FragmentsFrame(fragments, header)
  {
    var frame := header;
    ghost var produced: seq<bytes> := [];
    var i := 0;
    while i < |fragments|
      invariant 0 <= i <= |fragments|
      invariant ProducedFragments(fragments, i) == Ok(produced)
      invariant frame == header + JoinedFragments(produced)
    {
      var next := fragments[i];
      if next.Err? {
        ProducedFragmentsStop(fragments, i + 1, |fragments|);
        return Err(next.error);
      }
      var fragment := next.value;
      var check := CheckFragment(fragment);
      if check.Err? {
        ProducedFragmentsStop(fragments, i + 1, |fragments|);
        return Err(check.error);
      }
      ProducedFragmentsNext(fragments, i, produced, header);
      frame := frame + fragment[..|fragment| - 1] + RestartMark(i);
      produced := produced + [fragment];
      i := i + 1;
    }
    frame := frame + EndOfImage();
    return Ok(frame);
  }

  /**
   * For fragments that are all at hand, `concatenate_fragments` raises
   * exactly when some fragment fails the check, and otherwise returns the
   * header, the pieces and EOI.
   */
  lemma ConcatenatedList(values: seq<bytes>, header: bytes)
    ensures var fragments := seq(|values|, i requires 0 <= i < |values| => Ok(values[i]));
      (FragmentsFrame(fragments, header).Ok? <==> ValidFragments(values))
      && (ValidFragments(values) ==> FragmentsFrame(fragments, header) == Ok(header + JoinedFragments(values) + EndOfImage()))
  {
    var fragments := seq(|values|, i requires 0 <= i < |values| => Ok(values[i]));
    ProducedFragmentsOfReads(fragments, values, |values|);
    assert values[..|values|] == values;
  }

  /** The frame built from valid fragments has length |header| + Σ |fragment| + 2 and ends with EOI. */
  lemma FragmentsFrameLength(fragments: seq<bytes>, header: bytes)
    requires ValidFragments(fragments)
    ensures var frame := header + JoinedFragments(fragments) + EndOfImage();
      |frame| == |header| + TotalLength(fragments) + 2 && frame[|frame| - 2..] == EndOfImage()
  {
    JoinedFragmentsLength(fragments);
  }

  // -------------------------------------------------------------------- scans

  /** What the (foreign) header decoder reports for a scan. */
  datatype ScanHeader = ScanHeader(width: int, height: int, subsample: int)

  /**
   * Where the kept data of scan `index` starts: the first scan is kept whole,
   * a later one from just past its SOS segment (marker plus length field).
   */
  function ScanStart(scan: bytes, index: nat): (r: Result<int>)
    ensures index == 0 ==> r == Ok(0)
    ensures index > 0 ==> r == DataAfterScanHeader(scan)
  {
    if index == 0 then Ok(0) else DataAfterScanHeader(scan)
  }

  /** The index just past the SOS segment: its marker, then as many bytes as its length field says. */
  function DataAfterScanHeader(scan: bytes): (r: Result<int>)
    ensures Find(scan, StartOfScan()) == -1 ==> r == Err(JpegTagNotFound)
    ensures r.Ok? ==>
      var s := Find(scan, StartOfScan());
      0 <= s && s + 4 <= |scan| && r.value == s + 2 + (scan[s + 2] as int) * 256 + scan[s + 3]
  {
    var sos :- FindTag(scan, StartOfScan());
    if sos.None? then Err(JpegTagNotFound)
    else Ok(sos.value.index + sos.value.length + 2)
  }

  /** What scan `index` contributes: its data without the last two bytes, then FF and restart mark `index`. */
  function ScanPiece(scan: bytes, index: nat): (r: Result<bytes>)
    ensures r.Ok? <==> ScanStart(scan, index).Ok?
    ensures r.Ok? ==>
      r.value == Slice(scan, ScanStart(scan, index).value, -2) + [TagMarker] + RestartMark(index)
  {
    var start :- ScanStart(scan, index);
    Ok(Slice(scan, start, -2) + [TagMarker] + RestartMark(index))
  }

  /** The pieces of the first `n` scans in order, or the first failure. */
  function JoinedScans(scans: seq<bytes>, n: nat): Result<bytes>
    requires n <= |scans|
  {
    if n == 0 then Ok([])
    else
      var prefix :- JoinedScans(scans, n - 1);
      var piece :- ScanPiece(scans[n - 1], n - 1);
      Ok(prefix + piece)
  }

  /** The summed height of the first `n` scans as their headers report them. */
  function SumHeights(scans: seq<bytes>, n: nat, decode: bytes -> ScanHeader): int
    requires n <= |scans|
  {
    if n == 0 then 0 else SumHeights(scans, n - 1, decode) + decode(scans[n - 1]).height
  }

  /** Once the first `i` scans fail to join, joining more of them fails the same way. */
  lemma {:induction false} JoinedScansFailure(scans: seq<bytes>, i: nat, m: nat)
    requires i <= m <= |scans| && JoinedScans(scans, i).Err?
    ensures JoinedScans(scans, m) == JoinedScans(scans, i)
    decreases m
  {
    if i < m {
      JoinedScansFailure(scans, i, m - 1);
    }
  }

  /**
   * Joined scans end with FF and the restart mark of the last scan; the
   * whole frame is as long as the kept scan data plus two bytes per scan.
   */
  lemma JoinedScansShape(scans: seq<bytes>)
    requires scans != [] && JoinedScans(scans, |scans|).Ok?
    ensures var j := JoinedScans(scans, |scans|).value;
      |j| >= 2 && j[|j| - 2..] == [TagMarker] + RestartMark(|scans| - 1)
  {
    var n := |scans| - 1;
    var piece := ScanPiece(scans[n], n).value;
    assert JoinedScans(scans, |scans|).value == JoinedScans(scans, n).value + piece;
  }

  /** `frame[-2:] = end_of_image()`: the last two bytes become EOI. */
  function EndWithEoi(frame: bytes): (r: bytes)
    ensures |frame| >= 2 ==> r == frame[..|frame| - 2] + EndOfImage()
    ensures |frame| < 2 ==> r == EndOfImage()
  {
    SliceAssign(frame, -2, |frame|, EndOfImage())
  }

  /** The table and colour-space handling of the newer class: the colour fix only comes with tables. */
  function AddTablesNewer(frame: bytes, tables: Option<bytes>, rgbFix: bool): bytes
  {
    if tables.None? then frame
    else if rgbFix then AddJpegTablesAndRgbFix(frame, tables.value)
    else AddJpegTables(frame, tables.value)
  }

  /** The table and colour-space handling of the older class: tables first, then, separately, the fix. */
  function AddTablesOlder(frame: bytes, tables: Option<bytes>, colorspaceFix: bool): bytes
  {
    var withTables := if tables.Some? then AddJpegTables(frame, tables.value) else frame;
    if colorspaceFix then AddColorSpaceFix(withTables) else withTables
  }

  /** The image size the first `n` scans add up to: the first scan's width and the summed height; none for no scans. */
  function ScansSize(scans: seq<bytes>, n: nat, decode: bytes -> ScanHeader): (r: Option<Size>)
    requires n <= |scans|
    ensures r.None? <==> n == 0
  {
    if n == 0 then None else Some(Size(decode(scans[0]).width, SumHeights(scans, n, decode)))
  }

  /**
   * The loop shared by both generations of `concatenate_scans`: the joined
   * scan pieces, the width of the first scan with the summed height of all,
   * and the first scan's size and subsampling.
   */
  method JoinScans(scans: seq<bytes>, decode: bytes -> ScanHeader)
    returns (r: Result<bytes>, imageSize: Option<Size>, first: Option<ScanHeader>)
    ensures r == JoinedScans(scans, |scans|)
    ensures r.Ok? ==> imageSize == ScansSize(scans, |scans|, decode)
    ensures r.Ok? && scans != [] ==> first == Some(decode(scans[0]))
  {
    var frame: bytes := [];
    imageSize := None;
    first := None;
    var i := 0;
    while i < |scans|
      invariant 0 <= i <= |scans|
      invariant JoinedScans(scans, i) == Ok(frame)
      invariant imageSize == ScansSize(scans, i, decode)
      invariant i > 0 ==> first == Some(decode(scans[0]))
    {
      if imageSize.None? {
        first := Some(decode(scans[i]));
      }
      imageSize := AddScanSize(imageSize, scans, i, decode);
      var joined := AppendScan(frame, scans, i);
      if joined.Err? {
        r := joined;
        JoinedScansFailure(scans, i + 1, |scans|);
        return;
      }
      frame := joined.value;
      i := i + 1;
    }
    return Ok(frame), imageSize, first;
  }

  /** The size update of one turn of the joining loop: the first scan sets the size, a later one adds its height. */
  method AddScanSize(imageSize: Option<Size>, scans: seq<bytes>, i: nat, decode: bytes -> ScanHeader)
    returns (r: Option<Size>)
    requires i < |scans| && imageSize == ScansSize(scans, i, decode)
    ensures r == ScansSize(scans, i + 1, decode)
  {
    var header := decode(scans[i]);
    if imageSize.None? {
      assert SumHeights(scans, 0, decode) == 0;
      r := Some(Size(header.width, header.height));
    } else {
      r := Some(Size(imageSize.value.width, imageSize.value.height + header.height));
    }
  }

  /**
   * The data of one turn of the joining loop: scan `i` is cut (from its
   * start when it is the first, else from past its SOS segment) and
   * appended to the frame holding the first `i` scans.
   */
  method AppendScan(frame: bytes, scans: seq<bytes>, i: nat) returns (r: Result<bytes>)
    requires i < |scans| && JoinedScans(scans, i) == Ok(frame)
    ensures r == JoinedScans(scans, i + 1)
  {
    var piece := ScanPiece(scans[i], i);
    if piece.Err? {
      return Err(piece.error);
    }
    return Ok(frame + piece.value);
  }

  /**
   * The restart interval written into the joined frame: the number of
   * whole MCUs in one scan, the largest count whose MCUs fit in its area.
   */
  function ScanRestartInterval(first: ScanHeader): (r: Result<int>)
    ensures r.Ok? <==> -6 <= first.subsample < 6
    ensures r.Ok? ==> r.value * McuArea(first.subsample).value <= first.width * first.height
    ensures r.Ok? ==> first.width * first.height < (r.value + 1) * McuArea(first.subsample).value
  {
    var mcu :- McuArea(first.subsample);
    Ok((first.width * first.height) / mcu)
  }

  /** The frame of the newer `concatenate_scans`, as a function of its inputs. */
  function ScansFrame(scans: seq<bytes>, tables: Option<bytes>, rgbFix: bool, decode: bytes -> ScanHeader): Result<bytes>
  {
    var joined :- JoinedScans(scans, |scans|);
    if scans == [] then Err(AssertionError)
    else
      var interval :- ScanRestartInterval(decode(scans[0]));
      var size := Size(decode(scans[0]).width, SumHeights(scans, |scans|, decode));
      SetSizeAndInterval(AddTablesNewer(EndWithEoi(joined), tables, rgbFix), size, interval)
  }

  /**
   * `concatenate_scans` (newer class): the scans joined with restart markers,
   * the last marker replaced by EOI, tables (with the APP14 fix when asked)
   * before the scan, then the header set to the first scan's width, the
   * summed height, and one scan's MCU count as restart interval. Without
   * scans the final `assert` fails.
   */
  method ConcatenateScans(scans: seq<bytes>, tables: Option<bytes>, rgbFix: bool, decode: bytes -> ScanHeader)
    returns (r: Result<bytes>)
    ensures scans == [] ==> r == Err(AssertionError)
    ensures r == ScansFrame(scans, tables, rgbFix, decode)
  {
    var joined, imageSize, first := JoinScans(scans, decode);
    if joined.Err? {
      return Err(joined.error);
    }
    var frame := SliceAssign(joined.value, -2, |joined.value|, EndOfImage());
    if tables.Some? {
      if rgbFix {
        frame := AddJpegTablesAndRgbFix(frame, tables.value);
      } else {
        frame := AddJpegTables(frame, tables.value);
      }
    }
    if imageSize.None? || first.None? {
      return Err(AssertionError);
    }
    var interval := ScanRestartInterval(first.value);
    if interval.Err? {
      return Err(interval.error);
    }
    r := ManipulateHeader(frame, imageSize, Some(interval.value));
  }

  /** The frame of the older `concatenate_scans`. */
  function ScansFrameOlder(scans: seq<bytes>, tables: Option<bytes>, colorspaceFix: bool, decode: bytes -> ScanHeader): Result<bytes>
  {
    var joined :- JoinedScans(scans, |scans|);
    if scans == [] then Err(AssertionError)
    else
      var interval :- ScanRestartInterval(decode(scans[0]));
      var size := Size(decode(scans[0]).width, SumHeights(scans, |scans|, decode));
      SetSizeAndInterval(AddTablesOlder(EndWithEoi(joined), tables, colorspaceFix), size, interval)
  }

  /**
   * `concatenate_scans` (older class): as the newer one, except that tables
   * are added when present and the colour fix is added separately after
   * them whenever it is asked for.
   */
  method ConcatenateScansOlder(scans: seq<bytes>, tables: Option<bytes>, colorspaceFix: bool, decode: bytes -> ScanHeader)
    returns (r: Result<bytes>)
    ensures scans == [] ==> r == Err(AssertionError)
    ensures r == ScansFrameOlder(scans, tables, colorspaceFix, decode)
  {
    var joined, imageSize, first := JoinScans(scans, decode);
    if joined.Err? {
      return Err(joined.error);
    }
    var frame := SliceAssign(joined.value, -2, |joined.value|, EndOfImage());
    if tables.Some? {
      frame := AddJpegTables(frame, tables.value);
    }
    if colorspaceFix {
      frame := AddColorSpaceFix(frame);
    }
    if imageSize.None? || first.None? {
      return Err(AssertionError);
    }
    var interval := ScanRestartInterval(first.value);
    if interval.Err? {
      return Err(interval.error);
    }
    r := ManipulateHeader(frame, imageSize, Some(interval.value));
  }

  /**
   * Before the header is touched, the joined frame of one or more scans ends
   * with EOI where the last restart marker was, and keeps every other byte.
   */
  lemma JoinedFrameEnds(scans: seq<bytes>)
    requires scans != [] && JoinedScans(scans, |scans|).Ok?
    ensures var j := JoinedScans(scans, |scans|).value;
      var e := EndWithEoi(j);
      |e| == |j| && e[..|e| - 2] == j[..|j| - 2] && e[|e| - 2..] == EndOfImage()
  {
    JoinedScansShape(scans);
  }
}
