/**
 * The search for a quantisation table (a DQT segment, section B.2.4.1 of
 * ITU-T T.81) in a JPEG header, and the read of its DC element, as the
 * turbojpeg patch does before filling a frame with a background colour.
 *
 * A DQT segment is the marker FF DB, a big-endian length and then, per
 * table, a byte whose upper nibble is the precision (0 for 8-bit, 1 for
 * 16-bit elements) and whose lower nibble is the table's index, followed by
 * the 64 elements, the DC element first. The search compares the upper
 * nibble of that byte with the wanted index.
 */
module Dqt {
  import opened Wrappers
  import opened PyBytes
  import opened Nibbles

  /** The DQT marker FF DB. */
  const DqtMarker: bytes := [0xFF, 0xDB]

  /**
   * `data[offset:].find(FF DB) + offset`: the first DQT marker at or after
   * `offset`, or -1.
   */
  function MarkerFrom(data: bytes, offset: nat): (r: int)
    requires offset <= |data|
    ensures r == -1 || (offset <= r && MatchAt(data, DqtMarker, r))
  {
    var found := Find(data[offset..], DqtMarker);
    FindInSuffix(data, DqtMarker, offset);
    if found == -1 then -1 else found + offset
  }

  /**
   * Where the search goes on after a DQT segment at `at` of length
   * `length` that is not the wanted one, searching from `offset`. The
   * source adds the segment's absolute position to the offset
   * (`offset += dct_table_offset + dct_table_length`), counting the offset
   * twice; the intended step moves to the segment's position plus its
   * length, the smallest change that makes the source's statement an
   * assignment (`offset = dct_table_offset + dct_table_length`). The length
   * field counts itself but not the marker, so this resumes the search two
   * bytes before the segment's end rather than exactly at it; the marker
   * search from there finds the same next segment unless the segment's last
   * two bytes happen to read FF DB.
   */
  function NextOffset(offset: nat, at: nat, length: nat, asWritten: bool): nat
  {
    if asWritten then offset + at + length else at + length
  }

  /**
   * A DQT marker at `at`, at or after `offset`, whose table byte after the
   * length has `index` as its upper nibble.
   */
  predicate TableAt(data: bytes, index: int, offset: nat, at: nat)
  {
    offset <= at && at + 4 < |data| && MatchAt(data, DqtMarker, at)
    && SplitByteIntoNibbles(data[at + 4]).0 == index
  }

  /** One turn of the search loop: it stops with a result or goes on from a later offset. */
  datatype Step = Stop(result: Result<Option<nat>>) | Continue(next: nat)

  /**
   * One turn of `__find_dqt`'s loop at `offset`: no marker left stops with
   * `None`; a marker too close to the end to hold its length raises
   * `struct.error`, one without a table byte `IndexError`; a table byte
   * whose upper nibble is `index` stops with the marker's position; any
   * other goes on from `NextOffset`. A step that does not move the offset
   * makes the source loop forever, which is `NonTermination` here.
   */
  function DqtStep(data: bytes, index: int, offset: nat, asWritten: bool): (s: Step)
    requires offset < |data|
    ensures s.Continue? ==> offset < s.next
    ensures s.Stop? && s.result.Ok? && s.result.value.Some? ==> TableAt(data, index, offset, s.result.value.value)
  {
    var at := MarkerFrom(data, offset);
    if at == -1 then Stop(Ok(None))
    else
      var length := UnpackShort(Slice(data, at + 2, at + 4));
      if length.Err? then Stop(Err(length.error))
      else
        var tableByte := Index(data, at + 4);
        if tableByte.Err? then Stop(Err(tableByte.error))
        else if SplitByteIntoNibbles(tableByte.value).0 == index then Stop(Ok(Some(at)))
        else
          var next := NextOffset(offset, at, length.value, asWritten);
          if next <= offset then Stop(Err(NonTermination)) else Continue(next)
  }

  /**
   * `__find_dqt` from `offset` on: the result of the first turn that
   * stops, or `None` when the offset runs off the data.
   */
  function DqtScan(data: bytes, index: int, offset: nat, asWritten: bool): (r: Result<Option<nat>>)
    decreases |data| - offset
  {
    if offset >= |data| then Ok(None)
    else
      match DqtStep(data, index, offset, asWritten)
      case Stop(result) => result
      case Continue(next) => DqtScan(data, index, next, asWritten)
  }

  /**
   * `__find_dqt`: the search loop, from offset 0, with the step as written
   * (`asWritten`) or as intended. It returns the first DQT segment it reads
   * whose table byte names `index`, and `None` exactly when none of the
   * segments it reads does.
   */
  method FindDqt(data: bytes, index: int, asWritten: bool) returns (r: Result<Option<nat>>)
    ensures r == DqtScan(data, index, 0, asWritten)
    ensures r.Ok? && r.value.Some? ==> TableAt(data, index, 0, r.value.value)
    ensures var e := Examined(data, index, 0, asWritten);
      r.Ok? && r.value.Some? ==> e != [] && r.value.value == e[|e| - 1] && NoneMatchBeforeLast(data, index, e)
    ensures r.Ok? ==> (r.value.None? <==> NoneMatch(data, index, Examined(data, index, 0, asWritten)))
  {
    var offset: nat := 0;
    r := Ok(None);
    while offset < |data|
      invariant DqtScan(data, index, offset, asWritten) == DqtScan(data, index, 0, asWritten)
      invariant r == Ok(None)
      decreases |data| - offset
    {
      ghost var step := DqtStep(data, index, offset, asWritten);
      var at := MarkerFrom(data, offset);
      if at == -1 {
        break;
      }
      var length := UnpackShort(Slice(data, at + 2, at + 4));
      if length.Err? {
        r := Err(length.error);
        break;
      }
      var tableByte := Index(data, at + 4);
      if tableByte.Err? {
        r := Err(tableByte.error);
        break;
      }
      if SplitByteIntoNibbles(tableByte.value).0 == index {
        r := Ok(Some(at));
        break;
      }
      var next := NextOffset(offset, at, length.value, asWritten);
      if next <= offset {
        r := Err(NonTermination);
        break;
      }
      assert step == Continue(next);
      offset := next;
    }
    assert r == DqtScan(data, index, 0, asWritten);
    NoMatchBeforeLast(data, index, 0, asWritten);
    FoundIsLastExamined(data, index, 0, asWritten);
    NoneIffNoMatch(data, index, 0, asWritten);
    if r.Ok? && r.value.Some? {
      DqtScanFindsATable(data, index, 0, asWritten);
    }
  }

  /**
   * What the search finds is a DQT marker at or after the offset, with a
   * table byte after its length whose upper nibble is the index.
   */
  lemma {:induction false} DqtScanFindsATable(data: bytes, index: int, offset: nat, asWritten: bool)
    requires DqtScan(data, index, offset, asWritten).Ok? && DqtScan(data, index, offset, asWritten).value.Some?
    ensures TableAt(data, index, offset, DqtScan(data, index, offset, asWritten).value.value)
    decreases |data| - offset
  {
    var step := DqtStep(data, index, offset, asWritten);
    if step.Continue? {
      assert DqtScan(data, index, offset, asWritten) == DqtScan(data, index, step.next, asWritten);
      DqtScanFindsATable(data, index, step.next, asWritten);
    } else {
      assert DqtScan(data, index, offset, asWritten) == step.result;
    }
  }

  /** The table byte after the DQT marker at `at` names the wanted index. */
  predicate Matches(data: bytes, index: int, at: nat)
  {
    at + 4 < |data| && SplitByteIntoNibbles(data[at + 4]).0 == index
  }

  /** The turn at `offset` meets a DQT marker with room for its length and table byte. */
  predicate ReadsTable(data: bytes, offset: nat)
    requires offset <= |data|
  {
    var at := MarkerFrom(data, offset);
    at != -1 && at + 4 < |data|
  }

  /**
   * The DQT markers whose table byte the search reads, in the order it
   * reads them, starting at `offset`.
   */
  ghost function Examined(data: bytes, index: int, offset: nat, asWritten: bool): (e: seq<nat>)
    decreases |data| - offset
  {
    if offset >= |data| || !ReadsTable(data, offset) then []
    else
      var step := DqtStep(data, index, offset, asWritten);
      if step.Continue? then [MarkerFrom(data, offset)] + Examined(data, index, step.next, asWritten)
      else [MarkerFrom(data, offset)]
  }

  /**
   * What one turn does with the marker it meets: going on means it read a
   * table byte that does not match and resumes no earlier than the marker;
   * finding an offset means it read a matching table byte there; `None`
   * means it met no marker with a table byte; and a turn that read a table
   * byte and stops without error has found it.
   */
  lemma StepFacts(data: bytes, index: int, offset: nat, asWritten: bool)
    requires offset < |data|
    ensures var at := MarkerFrom(data, offset);
      var step := DqtStep(data, index, offset, asWritten);
      (step.Continue? ==> ReadsTable(data, offset) && !Matches(data, index, at) && at <= step.next)
      && (step.Stop? && step.result.Ok? && step.result.value.Some? ==>
            ReadsTable(data, offset) && step.result.value.value == at && Matches(data, index, at))
      && (step.Stop? && step.result.Ok? && step.result.value.None? ==> !ReadsTable(data, offset))
  {
    var at := MarkerFrom(data, offset);
    if at != -1 && at + 4 <= |data| {
      assert Slice(data, at + 2, at + 4) == data[at + 2..at + 4];
    }
  }

  /** Every position in `e` is a DQT marker at or after `offset`, followed by a table byte. */
  predicate MarkersFrom(data: bytes, offset: nat, e: seq<nat>)
  {
    forall k :: 0 <= k < |e| ==> offset <= e[k] && e[k] + 4 < |data| && MatchAt(data, DqtMarker, e[k])
  }

  /** The positions in `e` never go back. */
  predicate Ascending(e: seq<nat>)
  {
    forall k :: 0 <= k < |e| - 1 ==> e[k] <= e[k + 1]
  }

  /**
   * The markers the search reads lie at or after its start, in order, each
   * a DQT marker followed by a table byte.
   */
  lemma {:induction false} ExaminedAreMarkers(data: bytes, index: int, offset: nat, asWritten: bool)
    ensures MarkersFrom(data, offset, Examined(data, index, offset, asWritten))
    ensures Ascending(Examined(data, index, offset, asWritten))
    decreases |data| - offset
  {
    if offset < |data| && ReadsTable(data, offset) {
      var at := MarkerFrom(data, offset);
      var step := DqtStep(data, index, offset, asWritten);
      StepFacts(data, index, offset, asWritten);
      if step.Continue? {
        var rest := Examined(data, index, step.next, asWritten);
        var e := [at] + rest;
        assert Examined(data, index, offset, asWritten) == e;
        assert offset <= at && at + 4 < |data| && MatchAt(data, DqtMarker, at);
        assert offset < step.next && at <= step.next;
        ExaminedAreMarkers(data, index, step.next, asWritten);
        forall k | 0 <= k < |e|
          ensures offset <= e[k] && e[k] + 4 < |data| && MatchAt(data, DqtMarker, e[k])
        {
          if k > 0 { assert e[k] == rest[k - 1]; }
        }
        forall k | 0 <= k < |e| - 1
          ensures e[k] <= e[k + 1]
        {
          if k > 0 { assert e[k] == rest[k - 1]; }
          assert e[k + 1] == rest[k];
        }
      } else {
        assert Examined(data, index, offset, asWritten) == [at];
      }
    }
  }

  /** No position in `e` holds a DQT segment for table `index`. */
  predicate NoneMatch(data: bytes, index: int, e: seq<nat>)
  {
    forall k :: 0 <= k < |e| ==> !Matches(data, index, e[k])
  }

  /** No position in `e` but perhaps the last holds a DQT segment for table `index`. */
  predicate NoneMatchBeforeLast(data: bytes, index: int, e: seq<nat>)
  {
    forall k :: 0 <= k < |e| - 1 ==> !Matches(data, index, e[k])
  }

  /** Putting a marker that does not match in front of a list of read markers. */
  lemma ConsNoMatch(data: bytes, index: int, at: nat, rest: seq<nat>)
    requires !Matches(data, index, at)
    ensures NoneMatchBeforeLast(data, index, rest) ==> NoneMatchBeforeLast(data, index, [at] + rest)
    ensures NoneMatch(data, index, [at] + rest) <==> NoneMatch(data, index, rest)
  {
    var e := [at] + rest;
    assert forall k :: 0 <= k < |rest| ==> e[k + 1] == rest[k];
  }

  /** Every marker the search reads before its last one carries another table. */
  lemma {:induction false} NoMatchBeforeLast(data: bytes, index: int, offset: nat, asWritten: bool)
    ensures NoneMatchBeforeLast(data, index, Examined(data, index, offset, asWritten))
    decreases |data| - offset
  {
    if offset < |data| {
      var at := MarkerFrom(data, offset);
      var step := DqtStep(data, index, offset, asWritten);
      StepFacts(data, index, offset, asWritten);
      if step.Continue? {
        var rest := Examined(data, index, step.next, asWritten);
        var e := [at] + rest;
        assert Examined(data, index, offset, asWritten) == e;
        NoMatchBeforeLast(data, index, step.next, asWritten);
        ConsNoMatch(data, index, at, rest);
      } else if ReadsTable(data, offset) {
        assert Examined(data, index, offset, asWritten) == [at];
      }
    }
  }

  /** A found offset is the last marker the search reads, and its table byte matches. */
  lemma {:induction false} FoundIsLastExamined(data: bytes, index: int, offset: nat, asWritten: bool)
    ensures var e := Examined(data, index, offset, asWritten);
      var r := DqtScan(data, index, offset, asWritten);
      r.Ok? && r.value.Some? ==> e != [] && r.value.value == e[|e| - 1] && Matches(data, index, e[|e| - 1])
    decreases |data| - offset
  {
    if offset < |data| {
      var at := MarkerFrom(data, offset);
      var step := DqtStep(data, index, offset, asWritten);
      StepFacts(data, index, offset, asWritten);
      if step.Continue? {
        var rest := Examined(data, index, step.next, asWritten);
        assert Examined(data, index, offset, asWritten) == [at] + rest;
        assert DqtScan(data, index, offset, asWritten) == DqtScan(data, index, step.next, asWritten);
        FoundIsLastExamined(data, index, step.next, asWritten);
      } else if ReadsTable(data, offset) {
        assert Examined(data, index, offset, asWritten) == [at];
        assert DqtScan(data, index, offset, asWritten) == step.result;
      } else {
        assert DqtScan(data, index, offset, asWritten) == step.result;
      }
    }
  }

  /** A search that ends without error finds nothing exactly when no marker it reads matches. */
  lemma {:induction false} NoneIffNoMatch(data: bytes, index: int, offset: nat, asWritten: bool)
    ensures DqtScan(data, index, offset, asWritten).Ok? ==>
      (DqtScan(data, index, offset, asWritten).value.None? <==> NoneMatch(data, index, Examined(data, index, offset, asWritten)))
    decreases |data| - offset
  {
    if offset < |data| {
      var at := MarkerFrom(data, offset);
      var step := DqtStep(data, index, offset, asWritten);
      StepFacts(data, index, offset, asWritten);
      if step.Continue? {
        var rest := Examined(data, index, step.next, asWritten);
        var e := [at] + rest;
        assert Examined(data, index, offset, asWritten) == e;
        assert DqtScan(data, index, offset, asWritten) == DqtScan(data, index, step.next, asWritten);
        NoneIffNoMatch(data, index, step.next, asWritten);
        ConsNoMatch(data, index, at, rest);
      } else if ReadsTable(data, offset) {
        var e := [at];
        assert Examined(data, index, offset, asWritten) == e;
        assert DqtScan(data, index, offset, asWritten) == step.result;
        if step.result.Ok? {
          assert step.result.value.Some? && Matches(data, index, e[0]);
        }
      } else {
        assert Examined(data, index, offset, asWritten) == [];
        assert DqtScan(data, index, offset, asWritten) == step.result;
      }
    } else {
      assert Examined(data, index, offset, asWritten) == [];
    }
  }

  /**
   * When the first DQT marker carries the wanted table, both steps find
   * it: the two searches differ only from the third marker on.
   */
  lemma FirstTableFound(data: bytes, index: int, at: nat)
    requires at + 4 < |data| && Find(data, DqtMarker) == at
    requires SplitByteIntoNibbles(data[at + 4]).0 == index
    ensures DqtScan(data, index, 0, true) == Ok(Some(at))
    ensures DqtScan(data, index, 0, false) == Ok(Some(at))
  {
    assert data[0..] == data;
  }

  /**
   * Three short DQT segments for tables 1, 2 and 0, five bytes each, the
   * last followed by its DC element 5.
   */
  function ThreeTables(): bytes
  {
    [0xFF, 0xDB, 0x00, 0x03, 0x10,
     0xFF, 0xDB, 0x00, 0x03, 0x20,
     0xFF, 0xDB, 0x00, 0x03, 0x00, 0x05]
  }

  /**
   * The doubled offset skips a table: in three DQT segments the search as
   * written misses table 0 in the third, which the intended step finds at
   * byte 10. After the second segment the offset becomes 3 + 5 + 3 = 11,
   * past the third marker at 10.
   */
  lemma DoubledOffsetSkipsATable()
    ensures DqtScan(ThreeTables(), 0, 0, true) == Ok(None)
    ensures DqtScan(ThreeTables(), 0, 0, false) == Ok(Some(10))
  {
    var data := ThreeTables();
    FirstTurn(data, true);
    FirstTurn(data, false);
    SecondTurn(data, true);
    SecondTurn(data, false);
    TableZeroFound(data);
    NoMarkerLeft(data);
    // As written the offsets are 0, 3, 11; as intended 0, 3, 8.
    assert DqtScan(data, 0, 3, true) == DqtScan(data, 0, 11, true);
    assert DqtScan(data, 0, 3, false) == DqtScan(data, 0, 8, false);
  }

  /** The first turn in `ThreeTables` finds table 1 at 0 and moves to 0 + 3 on both steps. */
  lemma FirstTurn(data: bytes, asWritten: bool)
    requires data == ThreeTables()
    ensures DqtStep(data, 0, 0, asWritten) == Continue(3)
  {
    assert data[2] == 0 && data[3] == 3 && data[4] == 0x10;
    assert SplitByteIntoNibbles(0x10).0 == 1;
    assert data[0..][0..2] == DqtMarker;
    FindFirst(data[0..], DqtMarker, 0);
    TurnOnMarker(data, 0, 0, 0, 3, 1, asWritten);
  }

  /**
   * The second turn, from 3, finds table 2 at 5: as written the offset
   * becomes 3 + 5 + 3 = 11, as intended 5 + 3 = 8.
   */
  lemma SecondTurn(data: bytes, asWritten: bool)
    requires data == ThreeTables()
    ensures DqtStep(data, 0, 3, asWritten) == Continue(if asWritten then 11 else 8)
  {
    assert data[7] == 0 && data[8] == 3 && data[9] == 0x20;
    assert SplitByteIntoNibbles(0x20).0 == 2;
    MarkerAfterTwo(data, 3);
    TurnOnMarker(data, 0, 3, 5, 3, 2, asWritten);
  }

  /** As intended, the turn from 8 finds table 0 at 10. */
  lemma TableZeroFound(data: bytes)
    requires data == ThreeTables()
    ensures DqtStep(data, 0, 8, false) == Stop(Ok(Some(10)))
  {
    assert data[12] == 0 && data[13] == 3 && data[14] == 0x00;
    assert SplitByteIntoNibbles(0x00).0 == 0;
    MarkerAfterTwo(data, 8);
    TurnOnMarker(data, 0, 8, 10, 3, 0, false);
  }

  /** As written, the turn from 11 finds no marker left. */
  lemma NoMarkerLeft(data: bytes)
    requires data == ThreeTables()
    ensures DqtStep(data, 0, 11, true) == Stop(Ok(None))
  {
    var from11 := data[11..];
    assert from11 == [0xDB, 0x00, 0x03, 0x00, 0x05];
    NoMarkerWithoutFF(from11);
    TurnWithoutMarker(data, 0, 11, true);
  }

  /** A turn that meets no marker stops with `None`. */
  lemma TurnWithoutMarker(data: bytes, index: int, offset: nat, asWritten: bool)
    requires offset < |data| && MarkerFrom(data, offset) == -1
    ensures DqtStep(data, index, offset, asWritten) == Stop(Ok(None))
  {
  }

  /** A turn that meets a marker with room for its length and table byte. */
  lemma TurnOnMarker(data: bytes, index: int, offset: nat, at: nat, length: nat, table: int, asWritten: bool)
    requires offset < |data| && MarkerFrom(data, offset) == at && at + 4 < |data|
    requires data[at + 2] as int * 256 + data[at + 3] as int == length
    requires SplitByteIntoNibbles(data[at + 4]).0 == table
    ensures var next := NextOffset(offset, at, length, asWritten);
      DqtStep(data, index, offset, asWritten)
      == if table == index then Stop(Ok(Some(at)))
         else if next <= offset then Stop(Err(NonTermination))
         else Continue(next)
  {
    assert Slice(data, at + 2, at + 4) == [data[at + 2], data[at + 3]];
  }

  /** Bytes without an FF hold no DQT marker. */
  lemma NoMarkerWithoutFF(s: bytes)
    requires forall k :: 0 <= k < |s| ==> s[k] != 0xFF
    ensures Find(s, DqtMarker) == -1
  {
    forall k | 0 <= k
      ensures !MatchAt(s, DqtMarker, k)
    {
      assert k + 2 <= |s| ==> s[k..k + 2][0] == s[k];
    }
  }

  /** In `ThreeTables`, searching from 3 or 8 meets the marker two bytes on. */
  lemma MarkerAfterTwo(data: bytes, offset: nat)
    requires data == ThreeTables() && (offset == 3 || offset == 8)
    ensures MarkerFrom(data, offset) == offset + 2
  {
    var rest := data[offset..];
    assert rest[0] != 0xFF && rest[1] != 0xFF;
    assert rest[0..2][0] == rest[0] && rest[1..3][0] == rest[1];
    assert rest[2..4] == DqtMarker;
    FindFirst(rest, DqtMarker, 2);
  }

  /**
   * `__get_dc_dqt_element`: the DC element of the table the search finds,
   * with the search's step as written (`asWritten`, what the source runs)
   * or as intended. No table raises `ValueError`; precision 0 reads a
   * signed byte and precision 1 a signed big-endian short right after the
   * table byte; any other precision raises `ValueError`.
   */
  function DcDqtElement(data: bytes, index: int, asWritten: bool): (r: Result<int>)
    ensures DqtScan(data, index, 0, asWritten).Err? ==> r == Err(DqtScan(data, index, 0, asWritten).error)
    ensures DqtScan(data, index, 0, asWritten) == Ok(None) ==> r == Err(ValueError)
    ensures DqtScan(data, index, 0, asWritten).Ok? && DqtScan(data, index, 0, asWritten).value.Some? ==>
      var at := DqtScan(data, index, 0, asWritten).value.value;
      TableAt(data, index, 0, at)
      && (index == 0 ==> r == UnpackSignedByte(Slice(data, at + 5, at + 6)))
      && (index == 1 ==> r == UnpackSignedShort(Slice(data, at + 5, at + 7)))
      && (index != 0 && index != 1 ==> r == Err(ValueError))
  {
    var scan := DqtScan(data, index, 0, asWritten);
    if scan.Err? then Err(scan.error)
    else if scan.value.None? then Err(ValueError)
    else
      var at := scan.value.value;
      DqtScanFindsATable(data, index, 0, asWritten);
      assert TableAt(data, index, 0, at);
      var precision := SplitByteIntoNibbles(data[at + 4]).0;
      if precision == 0 then UnpackSignedByte(Slice(data, at + 5, at + 6))
      else if precision == 1 then UnpackSignedShort(Slice(data, at + 5, at + 7))
      else Err(ValueError)
  }

  /**
   * The skipped table reaches the DC read: in `ThreeTables` the source
   * raises `ValueError` for table 0, while the intended search reads its
   * DC element 5.
   */
  lemma DcElementOfSkippedTable()
    ensures DcDqtElement(ThreeTables(), 0, true) == Err(ValueError)
    ensures DcDqtElement(ThreeTables(), 0, false) == Ok(5)
  {
    DoubledOffsetSkipsATable();
    var data := ThreeTables();
    assert Slice(data, 15, 16) == [0x05];
  }
}
