/**
 * The minimal JPEG parsing of the entropy-coding prototype
 * (ndpi_tiler/jpeg.py): `split_byte_into_nibbles` is `Nibbles`; here are
 * `JpegHeader.from_bytes` with its marker and payload readers and the
 * parsers of the DHT, SOF and SOS payloads (sections B.2.4.2, B.2.2 and
 * B.2.3 of ITU-T T.81), the file's own `HuffmanTable` (a tree built with
 * the same insertion as `HuffmanNode.insert`, without maps), its bit-wise
 * `decode`, and `JpegScan._read_ac_amplitudes` with the DC amplitude read
 * before it (section F.1.2.2).
 *
 * The file's `Stream` is the sequence of entropy-coded bits after the
 * stuffed zero bytes are removed, with a position in it.
 */
module JpegHeader {
  import opened Wrappers
  import opened PyBytes
  import opened Geometry
  import opened Nibbles
  import opened BitValues
  import opened HuffmanTree
  import HT = HuffmanTable

  const StartOfImage: int := 0xFFD8
  const EndOfImage: int := 0xFFD9
  const HuffmanTableMarker: int := 0xFFC4
  const StartOfFrame: int := 0xFFC0
  const StartOfScan: int := 0xFFDA

  /** The markers `marker_mapping` has a name for; the parser prints that name, so any other marker raises `KeyError`. */
  const NamedMarkers: set<int> := {0xFFD8, 0xFFE0, 0xFFDB, 0xFFC0, 0xFFC4, 0xFFDA, 0xFFD9, 0xFFFE, 0xFFDD}

  /** The file's `HuffmanTable`: an identifier and the tree of its values. */
  datatype HeaderTable = HeaderTable(identifier: HT.Identifier, root: Tree)

  /** `JpegHeader`: tables by identifier, the frame size, and the (DC, AC) table selection of each component. */
  datatype Header = Header(
    tables: map<HT.Identifier, Tree>,
    width: int,
    height: int,
    selections: map<int, (int, int)>)

  // ---------------------------------------------------------------------
  // The file's HuffmanTable
  // ---------------------------------------------------------------------

  /** The inner loop of the constructor: insert each value of a level; a value without a place raises `ValueError`. */
  function TreeLevel(root: Tree, level: seq<int>, length: nat): (r: Result<Tree>)
    requires WellFormed(root) && root.length == 0
    ensures r.Ok? ==> WellFormed(r.value) && r.value.length == 0
    decreases |level|
  {
    if level == [] then Ok(root)
    else
      match Insert(root, level[0], length)
      case NoPlace => Err(ValueError)
      case EndlessRecursion => Err(RecursionError)
      case Placed(next, _) => TreeLevel(next, level[1..], length)
  }

  /** The outer loop of the constructor, from level `length` on. */
  function TreeLevels(root: Tree, levels: seq<seq<int>>, length: nat): (r: Result<Tree>)
    requires WellFormed(root) && root.length == 0 && length <= |levels|
    ensures r.Ok? ==> WellFormed(r.value) && r.value.length == 0
    decreases |levels| - length
  {
    if length == |levels| then Ok(root)
    else
      var next :- TreeLevel(root, levels[length], length);
      TreeLevels(next, levels, length + 1)
  }

  /** `HuffmanTable(identifier, symbols_in_levels)` of this file. */
  function BuildTree(identifier: HT.Identifier, levels: seq<seq<int>>): (r: Result<HeaderTable>)
    ensures r.Ok? ==> r.value.identifier == identifier && WellFormed(r.value.root) && r.value.root.length == 0
  {
    var root :- TreeLevels(Node(0, []), levels, 0);
    Ok(HeaderTable(identifier, root))
  }

  /**
   * A level the table with maps accepts gives this file's table the same
   * tree: the two constructors differ only in the duplicate check.
   */
  lemma {:induction false} SameTreeForLevel(t: HT.Table, level: seq<int>, length: nat)
    requires WellFormed(t.root) && t.root.length == 0
    ensures HT.AddLevel(t, level, length).Ok? ==> TreeLevel(t.root, level, length) == Ok(HT.AddLevel(t, level, length).value.root)
    decreases |level|
  {
    if level != [] {
      var added := HT.AddValue(t, level[0], length);
      if added.Ok? {
        SameTreeForLevel(added.value, level[1..], length);
      }
    }
  }

  /** `SameTreeForLevel` for the levels from `length` on. */
  lemma {:induction false} SameTreeForLevels(t: HT.Table, levels: seq<seq<int>>, length: nat)
    requires WellFormed(t.root) && t.root.length == 0 && length <= |levels|
    ensures HT.AddLevels(t, levels, length).Ok? ==>
      TreeLevels(t.root, levels, length) == Ok(HT.AddLevels(t, levels, length).value.root)
    decreases |levels| - length
  {
    if length < |levels| {
      SameTreeForLevel(t, levels[length], length);
      var next := HT.AddLevel(t, levels[length], length);
      if next.Ok? {
        SameTreeForLevels(next.value, levels, length + 1);
      }
    }
  }

  /** Whatever builds a table in ndpi_tiler/huffman.py builds the same tree here. */
  lemma SameTreeAsTable(identifier: HT.Identifier, levels: seq<seq<int>>)
    ensures HT.BuildTable(identifier, levels).Ok? ==>
      BuildTree(identifier, levels) == Ok(HeaderTable(identifier, HT.BuildTable(identifier, levels).value.root))
  {
    SameTreeForLevels(HT.EmptyTable(identifier), levels, 0);
  }

  /** A level inserted into a tree no deeper than its length fails only with `ValueError`. */
  lemma {:induction false} TreeLevelEnds(root: Tree, level: seq<int>, length: nat)
    requires WellFormed(root) && root.length == 0 && Shallow(root, length)
    ensures TreeLevel(root, level, length).Ok? ==> Shallow(TreeLevel(root, level, length).value, length)
    ensures TreeLevel(root, level, length).Err? ==> TreeLevel(root, level, length).error == ValueError
    decreases |level|
  {
    if level != [] {
      InsertEnds(root, level[0], length);
      var inserted := Insert(root, level[0], length);
      if inserted.Placed? {
        TreeLevelEnds(inserted.node, level[1..], length);
      }
    }
  }

  /** `TreeLevelEnds` for the levels from `length` on. */
  lemma {:induction false} TreeLevelsEnd(root: Tree, levels: seq<seq<int>>, length: nat)
    requires WellFormed(root) && root.length == 0 && length <= |levels| && Shallow(root, length)
    ensures TreeLevels(root, levels, length).Err? ==> TreeLevels(root, levels, length).error == ValueError
    decreases |levels| - length
  {
    if length < |levels| {
      TreeLevelEnds(root, levels[length], length);
      var next := TreeLevel(root, levels[length], length);
      if next.Ok? {
        ShallowGrows(next.value, length, length + 1);
        TreeLevelsEnd(next.value, levels, length + 1);
      }
    }
  }

  /** This file's constructor raises only `ValueError`: levels in increasing code length never recurse without end. */
  lemma BuildTreeEnds(identifier: HT.Identifier, levels: seq<seq<int>>)
    ensures BuildTree(identifier, levels).Err? ==> BuildTree(identifier, levels).error == ValueError
  {
    TreeLevelsEnd(Node(0, []), levels, 0);
  }

  /** Every value in the tree is at least 0, as every byte is. */
  predicate NonNegative(node: Tree)
    decreases node
  {
    if node.Leaf? then node.value >= 0 else forall i :: 0 <= i < |node.children| ==> NonNegative(node.children[i])
  }

  /**
   * `HuffmanTable.decode(stream)` from bit `pos`: follow one child per
   * bit to a leaf; the value and the position after its code. A bit with
   * no child gives `None` as the next node, which fails with
   * `AttributeError` at the next bit; running out of bits is a read error.
   */
  function TreeDecode(node: Tree, bits: seq<Bit>, pos: nat): (r: Result<(int, nat)>)
    requires pos <= |bits|
    ensures r.Ok? ==> pos <= r.value.1 <= |bits| && (node.Node? ==> pos < r.value.1)
    ensures r.Ok? && NonNegative(node) ==> r.value.0 >= 0
    ensures r.Err? ==> r.error in {ReadError, AttributeError}
    decreases |bits| - pos
  {
    if node.Leaf? then Ok((node.value, pos))
    else if pos >= |bits| then Err(ReadError)
    else if bits[pos] >= |node.children| then (if pos + 1 >= |bits| then Err(ReadError) else Err(AttributeError))
    else TreeDecode(node.children[bits[pos]], bits, pos + 1)
  }

  /**
   * The stream decoder agrees with the walk of `decode_from_bits`: it
   * succeeds exactly when the walk over the remaining bits does, with the
   * same value, and the bits it reads are a code of that value.
   */
  lemma {:induction false} TreeDecodeIsLookup(node: Tree, bits: seq<Bit>, pos: nat)
    requires pos <= |bits|
    ensures TreeDecode(node, bits, pos).Ok? <==> Lookup(node, bits[pos..]).Ok?
    ensures TreeDecode(node, bits, pos).Ok? ==>
      Lookup(node, bits[pos..]).value == TreeDecode(node, bits, pos).value.0
      && Lookup(node, bits[pos..TreeDecode(node, bits, pos).value.1]) == Ok(TreeDecode(node, bits, pos).value.0)
    decreases |bits| - pos
  {
    if node.Node? && pos < |bits| && bits[pos] < |node.children| {
      assert bits[pos..][1..] == bits[pos + 1..];
      TreeDecodeIsLookup(node.children[bits[pos]], bits, pos + 1);
      var r := TreeDecode(node, bits, pos);
      if r.Ok? {
        assert bits[pos..r.value.1][1..] == bits[pos + 1..r.value.1];
      }
    }
  }

  // ---------------------------------------------------------------------
  // Payload parsers
  // ---------------------------------------------------------------------

  /**
   * This file's `HuffmanTable.from_data`: the identifier byte, sixteen
   * counts and the levels, as in ndpi_tiler/huffman.py, built into a tree;
   * with the number of bytes read.
   */
  function ParseTable(data: bytes): (r: Result<(HeaderTable, nat)>)
    ensures |data| < 17 ==> r == Err(StructError)
    ensures r.Ok? ==> (17 <= r.value.1 == 17 + HT.Total(data[1..17]) <= |data|
      && r.value.0.identifier == HT.IdentifierFromByte(data[0]))
  {
    if |data| < 17 then Err(StructError)
    else
      var levels :- HT.ReadLevels(data, 17, data[1..17]);
      var table :- BuildTree(HT.IdentifierFromByte(data[0]), levels);
      Ok((table, 17 + HT.Total(data[1..17])))
  }

  /** `parse_huffman` on the bytes not yet read: one table after another until none remain. */
  function ParseTables(payload: bytes): (r: Result<seq<HeaderTable>>)
    ensures payload == [] ==> r == Ok([])
    ensures r.Ok? ==> 17 * |r.value| <= |payload|
    decreases |payload|
  {
    if payload == [] then Ok([])
    else
      var parsed :- ParseTable(payload);
      var rest :- ParseTables(payload[parsed.1..]);
      Ok([parsed.0] + rest)
  }

  /** The tables already read, then those a parse of the rest gives, or its error. */
  function Prepend(tables: seq<HeaderTable>, rest: Result<seq<HeaderTable>>): Result<seq<HeaderTable>>
  {
    match rest
    case Ok(more) => Ok(tables + more)
    case Err(e) => Err(e)
  }

  /** `parse_huffman` as the loop it is, with the start of the next table as an index. */
  method ParseHuffman(payload: bytes) returns (r: Result<seq<HeaderTable>>)
    ensures r == ParseTables(payload)
  {
    var tables: seq<HeaderTable> := [];
    var start := 0;
    assert payload[0..] == payload;
    assert ParseTables(payload).Ok? ==> tables + ParseTables(payload).value == ParseTables(payload).value;
    while start < |payload|
      invariant start <= |payload|
      invariant ParseTables(payload) == Prepend(tables, ParseTables(payload[start..]))
      decreases |payload| - start
    {
      var parsed := ParseTable(payload[start..]);
      if parsed.Err? {
        return Err(parsed.error);
      }
      var here := payload[start..];
      var next := start + parsed.value.1;
      assert here[parsed.value.1..] == payload[next..];
      OneTableFirst(here);
      assert ParseTables(here) == Prepend([parsed.value.0], ParseTables(payload[next..]));
      PrependTwice(tables, [parsed.value.0], ParseTables(payload[next..]));
      assert ParseTables(payload) == Prepend(tables + [parsed.value.0], ParseTables(payload[next..]));
      tables := tables + [parsed.value.0];
      start := next;
    }
    assert tables + [] == tables;
    return Ok(tables);
  }

  /** A parse that reads one table goes on with the bytes after it. */
  lemma OneTableFirst(payload: bytes)
    requires payload != [] && ParseTable(payload).Ok?
    ensures ParseTables(payload) == Prepend([ParseTable(payload).value.0], ParseTables(payload[ParseTable(payload).value.1..]))
  {
  }

  /** Tables read in two goes are the tables read in one. */
  lemma PrependTwice(first: seq<HeaderTable>, second: seq<HeaderTable>, rest: Result<seq<HeaderTable>>)
    ensures Prepend(first, Prepend(second, rest)) == Prepend(first + second, rest)
  {
    if rest.Ok? {
      assert first + (second + rest.value) == (first + second) + rest.value;
    }
  }

  /** Reading levels looks at no byte past the last level. */
  lemma {:induction false} ReadLevelsPrefix(data: bytes, offset: nat, counts: seq<byte>, more: bytes)
    requires offset <= |data|
    ensures HT.ReadLevels(data + more, offset, counts).Ok? ==> offset + HT.Total(counts) <= |data| ==>
      HT.ReadLevels(data + more, offset, counts) == HT.ReadLevels(data, offset, counts)
    decreases |counts|
  {
    if counts != [] && offset + counts[0] <= |data| {
      ReadLevelsPrefix(data, offset + counts[0], counts[1..], more);
      assert (data + more)[offset..offset + counts[0]] == data[offset..offset + counts[0]];
    }
  }

  /** A table is read from its own bytes alone: bytes after it do not change it. */
  lemma TableIgnoresRest(first: bytes, rest: bytes)
    requires ParseTable(first).Ok? && ParseTable(first).value.1 == |first|
    ensures ParseTable(first + rest) == ParseTable(first)
  {
    var data := first + rest;
    var counts := first[1..17];
    assert data[1..17] == counts && data[0] == first[0];
    ReadLevelsPrefix(first, 17, counts, rest);
    assert HT.ReadLevels(data, 17, counts) == HT.ReadLevels(first, 17, counts);
  }

  /**
   * `parse_huffman` reads consecutive tables: a payload that starts with
   * exactly one table gives that table, then the tables of the rest.
   */
  lemma TablesInSequence(first: bytes, rest: bytes)
    requires ParseTable(first).Ok? && ParseTable(first).value.1 == |first|
    ensures ParseTables(first + rest) == Prepend([ParseTable(first).value.0], ParseTables(rest))
  {
    var data := first + rest;
    TableIgnoresRest(first, rest);
    assert data[|first|..] == rest;
    OneTableFirst(data);
  }

  /**
   * `parse_start_of_frame`: `>BHHB` over the first six bytes; the width
   * is the second short and the height the first. Fewer than six bytes
   * raise `struct.error`.
   */
  function ParseStartOfFrame(payload: bytes): (r: Result<(int, int)>)
    ensures r.Ok? <==> |payload| >= 6
    ensures r.Err? ==> r.error == StructError
    ensures r.Ok? ==> 0 <= r.value.0 < 0x1_0000 && 0 <= r.value.1 < 0x1_0000
  {
    var head := Slice(payload, 0, 6);
    if |head| != 6 then Err(StructError)
    else Ok((head[3] as int * 256 + head[4], head[1] as int * 256 + head[2]))
  }

  /** A frame header written with a height and a width reads back as (width, height). */
  lemma FrameSizeRoundTrip(precision: byte, height: int, width: int, components: byte, rest: bytes)
    requires IsShort(height) && IsShort(width)
    ensures ParseStartOfFrame([precision] + Be16(height) + Be16(width) + [components] + rest) == Ok((width, height))
  {
    var payload := [precision] + Be16(height) + Be16(width) + [components] + rest;
    assert payload[1] == Be16(height)[0] && payload[2] == Be16(height)[1];
    assert payload[3] == Be16(width)[0] && payload[4] == Be16(width)[1];
  }

  /** The selections of the components from `i` on, added to `acc`. */
  function SelectionsFrom(payload: bytes, components: nat, i: nat, acc: map<int, (int, int)>): (r: Result<map<int, (int, int)>>)
    requires i <= components
    ensures r.Ok? <==> 1 + 2 * components <= |payload| || i == components
    ensures r.Err? ==> r.error == StructError
    decreases components - i
  {
    if i == components then Ok(acc)
    else if 3 + 2 * i > |payload| then Err(StructError)
    else SelectionsFrom(payload, components, i + 1, acc[payload[1 + 2 * i] := SplitByteIntoNibbles(payload[2 + 2 * i])])
  }

  /** Component `i`'s identifier is not repeated later in the payload. */
  predicate LastOfItsIdentifier(payload: bytes, components: nat, i: nat)
    requires 1 + 2 * components <= |payload|
  {
    i < components && forall j :: i < j < components ==> payload[1 + 2 * j] != payload[1 + 2 * i]
  }

  /**
   * `parse_start_of_scan`: the number of components, then per component
   * its identifier and a byte whose upper nibble selects the DC table and
   * lower nibble the AC table. A later component with the same identifier
   * replaces an earlier one; a short payload raises `struct.error`.
   */
  function ParseStartOfScan(payload: bytes): (r: Result<map<int, (int, int)>>)
    ensures r.Ok? <==> |payload| >= 1 && 1 + 2 * payload[0] <= |payload|
    ensures r.Err? ==> r.error == StructError
    ensures r.Ok? ==> r.value.Keys == set i: int | 0 <= i < payload[0] :: payload[1 + 2 * i] as int
    ensures r.Ok? ==> forall i :: LastOfItsIdentifier(payload, payload[0], i) ==>
      r.value[payload[1 + 2 * i]] == SplitByteIntoNibbles(payload[2 + 2 * i])
  {
    if |payload| < 1 then Err(StructError)
    else
      var r := SelectionsFrom(payload, payload[0], 0, map[]);
      if r.Ok? then
        SelectionsContents(payload, payload[0], 0, map[]);
        r
      else r
  }

  /** The keys and values `SelectionsFrom` adds. */
  lemma {:induction false} SelectionsContents(payload: bytes, components: nat, i: nat, acc: map<int, (int, int)>)
    requires i <= components && 1 + 2 * components <= |payload|
    ensures SelectionsFrom(payload, components, i, acc).Ok?
    ensures SelectionsFrom(payload, components, i, acc).value.Keys
      == acc.Keys + set j: int | i <= j < components :: payload[1 + 2 * j] as int
    ensures forall k :: k in acc && (forall j :: i <= j < components ==> payload[1 + 2 * j] != k) ==>
      SelectionsFrom(payload, components, i, acc).value[k] == acc[k]
    ensures forall j :: i <= j && LastOfItsIdentifier(payload, components, j) ==>
      SelectionsFrom(payload, components, i, acc).value[payload[1 + 2 * j]] == SplitByteIntoNibbles(payload[2 + 2 * j])
    decreases components - i
  {
    if i < components {
      var acc' := acc[payload[1 + 2 * i] := SplitByteIntoNibbles(payload[2 + 2 * i])];
      SelectionsContents(payload, components, i + 1, acc');
      var later := set j: int | i + 1 <= j < components :: payload[1 + 2 * j] as int;
      var here := set j: int | i <= j < components :: payload[1 + 2 * j] as int;
      assert here == {payload[1 + 2 * i] as int} + later;
    }
  }

  /** `parse_start_of_scan` as the loop it is. */
  method ParseStartOfScanLoop(payload: bytes) returns (r: Result<map<int, (int, int)>>)
    ensures r == ParseStartOfScan(payload)
  {
    if |payload| < 1 {
      return Err(StructError);
    }
    var components: nat := payload[0];
    var selections: map<int, (int, int)> := map[];
    var i := 0;
    while i < components
      invariant i <= components
      invariant SelectionsFrom(payload, components, i, selections) == SelectionsFrom(payload, components, 0, map[])
      decreases components - i
    {
      if 3 + 2 * i > |payload| {
        return Err(StructError);
      }
      selections := selections[payload[1 + 2 * i] := SplitByteIntoNibbles(payload[2 + 2 * i])];
      i := i + 1;
    }
    return Ok(selections);
  }

  // ---------------------------------------------------------------------
  // Markers, payloads and the header
  // ---------------------------------------------------------------------

  /** `read_marker`: the big-endian short at `pos`, or `None` when fewer than two bytes remain. */
  function ReadMarker(data: bytes, pos: nat): (r: Option<int>)
    ensures r.Some? <==> pos + 2 <= |data|
    ensures r.Some? ==> r.value == UnpackShort(data[pos..pos + 2]).value
  {
    if pos + 2 <= |data| then Some(data[pos] as int * 256 + data[pos + 1]) else None
  }

  /**
   * `read_payload` at `pos`: a big-endian length that counts its own two
   * bytes, then that many bytes less two, or as many as remain. A length
   * below 2 makes the read negative, which reads everything that remains.
   * Fewer than two bytes for the length raise `struct.error`. With the
   * position after the payload.
   */
  function ReadPayload(data: bytes, pos: nat): (r: Result<(bytes, nat)>)
    ensures r.Ok? <==> pos + 2 <= |data|
    ensures r.Err? ==> r.error == StructError
    ensures r.Ok? ==> pos + 2 <= r.value.1 <= |data| && r.value.0 == data[pos + 2..r.value.1]
    ensures r.Ok? ==> var length := UnpackShort(data[pos..pos + 2]).value;
      (2 <= length && pos + length <= |data| ==> r.value.1 == pos + length)
      && (length < 2 || |data| < pos + length ==> r.value.1 == |data|)
  {
    if pos + 2 > |data| then Err(StructError)
    else
      var length := data[pos] as int * 256 + data[pos + 1];
      var end := if length < 2 || |data| < pos + length then |data| else pos + length;
      Ok((data[pos + 2..end], end))
  }

  /** A segment written with its length reads back as its payload, whatever follows it. */
  lemma PayloadRoundTrip(before: bytes, payload: bytes, after: bytes)
    requires IsShort(|payload| + 2)
    ensures ReadPayload(before + Be16(|payload| + 2) + payload + after, |before|)
      == Ok((payload, |before| + 2 + |payload|))
  {
    var data := before + Be16(|payload| + 2) + payload + after;
    assert data[|before|] == Be16(|payload| + 2)[0] && data[|before| + 1] == Be16(|payload| + 2)[1];
    assert data[|before| + 2..|before| + 2 + |payload|] == payload;
  }

  /** What `from_bytes` has gathered so far: the tables, the frame size once seen, and the last scan's selections. */
  datatype Gathered = Gathered(tables: seq<HeaderTable>, size: Option<(int, int)>, selections: map<int, (int, int)>)

  /** The frame size, once seen, is two shorts. */
  predicate SizeFits(g: Gathered)
  {
    g.size.Some? ==> 0 <= g.size.value.0 < 0x1_0000 && 0 <= g.size.value.1 < 0x1_0000
  }

  /** The branch on one marker's payload: DHT adds tables, SOF sets the size, SOS the selections; others are skipped. */
  function Dispatch(marker: int, payload: bytes, g: Gathered): (r: Result<Gathered>)
    ensures r.Ok? && marker == HuffmanTableMarker ==> |r.value.tables| >= |g.tables|
    ensures r.Ok? && marker !in {HuffmanTableMarker, StartOfFrame, StartOfScan} ==> r.value == g
    ensures r.Ok? && SizeFits(g) ==> SizeFits(r.value)
  {
    if marker == HuffmanTableMarker then
      var tables :- ParseTables(payload);
      Ok(g.(tables := g.tables + tables))
    else if marker == StartOfFrame then
      var size :- ParseStartOfFrame(payload);
      Ok(g.(size := Some(size)))
    else if marker == StartOfScan then
      var selections :- ParseStartOfScan(payload);
      Ok(g.(selections := selections))
    else Ok(g)
  }

  /**
   * The marker loop of `from_bytes` from byte `pos`: until fewer than two
   * bytes remain, a marker and its payload. A marker without a name
   * raises `KeyError`; a start or end of image raises `ValueError`.
   */
  function HeaderFrom(data: bytes, pos: nat, g: Gathered): (r: Result<Gathered>)
    ensures ReadMarker(data, pos) == None ==> r == Ok(g)
    ensures ReadMarker(data, pos).Some? && ReadMarker(data, pos).value !in NamedMarkers ==> r == Err(KeyError)
    ensures ReadMarker(data, pos) in {Some(StartOfImage), Some(EndOfImage)} ==> r == Err(ValueError)
    ensures r.Ok? ==> |r.value.tables| >= |g.tables| && (g.size.Some? ==> r.value.size.Some?)
    ensures r.Ok? && SizeFits(g) ==> SizeFits(r.value)
    decreases |data| - pos
  {
    match ReadMarker(data, pos)
    case None => Ok(g)
    case Some(marker) =>
      if marker !in NamedMarkers then Err(KeyError)
      else if marker == StartOfImage || marker == EndOfImage then Err(ValueError)
      else
        var segment :- ReadPayload(data, pos + 2);
        var next :- Dispatch(marker, segment.0, g);
        HeaderFrom(data, segment.1, next)
  }

  /**
   * The dict comprehension over the tables: each identifier to the tree of
   * the last table with that identifier.
   */
  function TablesById(tables: seq<HeaderTable>): (r: map<HT.Identifier, Tree>)
    ensures forall i :: 0 <= i < |tables| ==> tables[i].identifier in r
    ensures forall k :: k in r ==> exists i :: 0 <= i < |tables| && tables[i].identifier == k
    decreases |tables|
  {
    if tables == [] then map[]
    else
      var n := |tables| - 1;
      var earlier := TablesById(tables[..n]);
      var r := earlier[tables[n].identifier := tables[n].root];
      assert forall i :: 0 <= i < n ==> tables[..n][i] == tables[i];
      r
  }

  /** The last table with an identifier is the one the map keeps. */
  lemma {:induction false} LastTableWins(tables: seq<HeaderTable>, i: nat)
    requires i < |tables| && forall j :: i < j < |tables| ==> tables[j].identifier != tables[i].identifier
    ensures TablesById(tables)[tables[i].identifier] == tables[i].root
    decreases |tables|
  {
    var n := |tables| - 1;
    if i < n {
      assert tables[..n][i] == tables[i];
      LastTableWins(tables[..n], i);
    }
  }

  /**
   * The checks after the marker loop: no table raises `ValueError`; no
   * frame leaves `width` unassigned, so reading it raises
   * `UnboundLocalError`; no scan selections raise `ValueError`.
   */
  function Finish(g: Gathered): (r: Result<Header>)
    requires SizeFits(g)
    ensures r.Ok? <==> g.tables != [] && g.size.Some? && g.selections != map[]
    ensures g.tables == [] ==> r == Err(ValueError)
    ensures g.tables != [] && g.size.None? ==> r == Err(UnboundLocalError)
    ensures g.tables != [] && g.size.Some? && g.selections == map[] ==> r == Err(ValueError)
    ensures r.Ok? ==>
      r.value.tables == TablesById(g.tables) && r.value.selections == g.selections
      && g.size == Some((r.value.width, r.value.height))
    ensures r.Ok? ==> (|r.value.tables| > 0 && |r.value.selections| > 0
      && 0 <= r.value.width < 0x1_0000 && 0 <= r.value.height < 0x1_0000)
  {
    if g.tables == [] then Err(ValueError)
    else if g.size.None? then Err(UnboundLocalError)
    else if g.selections == map[] then Err(ValueError)
    else
      assert g.tables[0].identifier in TablesById(g.tables);
      Ok(Header(TablesById(g.tables), g.size.value.0, g.size.value.1, g.selections))
  }

  /** `JpegHeader.from_bytes`: the first marker must be a start of image; then the marker loop and the checks after it. */
  function FromBytes(data: bytes): (r: Result<Header>)
    ensures ReadMarker(data, 0) != Some(StartOfImage) ==> r == Err(ValueError)
    ensures r.Ok? ==> |r.value.tables| > 0 && |r.value.selections| > 0
  {
    if ReadMarker(data, 0) != Some(StartOfImage) then Err(ValueError)
    else
      var g :- HeaderFrom(data, 2, Gathered([], None, map[]));
      Finish(g)
  }

  /** `from_bytes` as the loop it is. */
  method ParseHeader(data: bytes) returns (r: Result<Header>)
    ensures r == FromBytes(data)
  {
    if ReadMarker(data, 0) != Some(StartOfImage) {
      return Err(ValueError);
    }
    var g := Gathered([], None, map[]);
    var pos := 2;
    while pos + 2 <= |data|
      invariant HeaderFrom(data, pos, g) == HeaderFrom(data, 2, Gathered([], None, map[]))
      invariant SizeFits(g)
      decreases |data| - pos
    {
      var marker := data[pos] as int * 256 + data[pos + 1];
      if marker !in NamedMarkers {
        return Err(KeyError);
      }
      if marker == StartOfImage || marker == EndOfImage {
        return Err(ValueError);
      }
      var segment := ReadPayload(data, pos + 2);
      if segment.Err? {
        return Err(segment.error);
      }
      var next := Dispatch(marker, segment.value.0, g);
      if next.Err? {
        return Err(next.error);
      }
      g := next.value;
      pos := segment.value.1;
    }
    return Finish(g);
  }

  // ---------------------------------------------------------------------
  // Scan data
  // ---------------------------------------------------------------------

  /**
   * `read_bits(count)` as intended: the next `count` bits as an unsigned
   * value, most significant first, and the position after them.
   */
  function ReadBits(bits: seq<Bit>, pos: nat, count: nat): (r: Result<(nat, nat)>)
    ensures r.Ok? <==> pos + count <= |bits|
    ensures r.Err? ==> r.error == ReadError
    ensures r.Ok? ==> r.value.0 < Pow2(count) && r.value.1 == pos + count
  {
    if pos + count > |bits| then Err(ReadError) else Ok((BitsValue(bits[pos..pos + count]), pos + count))
  }

  /** Bits written from a value read back as the value. */
  lemma ReadBitsRoundTrip(before: seq<Bit>, value: nat, count: nat, after: seq<Bit>)
    requires value < Pow2(count)
    ensures ReadBits(before + UintBits(value, count) + after, |before|, count) == Ok((value, |before| + count))
  {
    var bits := before + UintBits(value, count) + after;
    assert bits[|before|..|before| + count] == UintBits(value, count);
    ValueOfUintBits(value, count);
  }

  /** `read_bits` as written: each bit turns the value into `value + 2 * value + bit`. */
  function ReadBitsAsWritten(bits: seq<Bit>): (r: nat)
    ensures bits == [] ==> r == 0
    decreases |bits|
  {
    if bits == [] then 0 else 3 * ReadBitsAsWritten(bits[..|bits| - 1]) + bits[|bits| - 1]
  }

  /** As written, the two bits 1, 1 read as 4 instead of 3, and 1, 0 as 3 instead of 2. */
  lemma ReadBitsAsWrittenMisreads()
    ensures ReadBitsAsWritten([1, 1]) == 4 && BitsValue([1, 1]) == 3
    ensures ReadBitsAsWritten([1, 0]) == 3 && BitsValue([1, 0]) == 2
  {
    assert [1, 1][..1] == [1] && [1, 0][..1] == [1] && [1][..0] == [];
  }

  /** `read_bits` as the loop it is, with the value doubled before each bit. */
  method ReadBitsLoop(bits: seq<Bit>, pos: nat, count: nat) returns (r: Result<(nat, nat)>)
    ensures r == ReadBits(bits, pos, count)
  {
    if pos + count > |bits| {
      return Err(ReadError);
    }
    var value: nat := 0;
    var i := 0;
    while i < count
      invariant i <= count && value == BitsValue(bits[pos..pos + i])
    {
      assert bits[pos..pos + i + 1][..i] == bits[pos..pos + i];
      value := 2 * value + bits[pos + i];
      i := i + 1;
    }
    return Ok((value, pos + count));
  }

  /** As written a reading is never below the intended one: tripling the value so far never gives less than doubling it. */
  lemma {:induction false} AsWrittenNeverLess(bits: seq<Bit>)
    ensures ReadBitsAsWritten(bits) >= BitsValue(bits)
    decreases |bits|
  {
    if bits != [] {
      AsWrittenNeverLess(bits[..|bits| - 1]);
    }
  }

  /**
   * `read_bits(count)` on the stream: the value of the next `count` bits
   * from `pos` and the position after them, folded as written
   * (`asWritten`) or as intended; too few bits left is a read error
   * either way.
   */
  function StreamReadBits(bits: seq<Bit>, pos: nat, count: nat, asWritten: bool): (r: Result<(nat, nat)>)
    ensures !asWritten ==> r == ReadBits(bits, pos, count)
    ensures r.Ok? <==> pos + count <= |bits|
    ensures r.Err? ==> r.error == ReadError
    ensures r.Ok? ==> r.value.1 == pos + count
    ensures r.Ok? && asWritten ==> r.value.0 == ReadBitsAsWritten(bits[pos..pos + count]) >= BitsValue(bits[pos..pos + count])
  {
    if asWritten then
      if pos + count > |bits| then Err(ReadError)
      else
        AsWrittenNeverLess(bits[pos..pos + count]);
        Ok((ReadBitsAsWritten(bits[pos..pos + count]), pos + count))
    else ReadBits(bits, pos, count)
  }

  /** With at most one bit to read, the source's fold and the intended one agree. */
  lemma StreamReadBitsAgreeOnOneBit(bits: seq<Bit>, pos: nat, count: nat)
    requires count <= 1
    ensures StreamReadBits(bits, pos, count, true) == StreamReadBits(bits, pos, count, false)
  {
    if pos + count <= |bits| && count == 1 {
      var one := bits[pos..pos + 1];
      assert one[..0] == [];
    }
  }

  /**
   * `_read_dc_amplitude`: the DC table by index (`KeyError` when missing);
   * the value it decodes is the amplitude's bit length, and the amplitude
   * is read right after the code. A negative length reads no bits, as
   * `range` of a negative count is empty.
   */
  function DcAmplitude(tables: map<HT.Identifier, Tree>, index: int, bits: seq<Bit>, pos: nat, asWritten: bool): (r: Result<(nat, nat)>)
    requires pos <= |bits|
    ensures HT.Identifier(HT.DC, index) !in tables ==> r == Err(KeyError)
    ensures HT.Identifier(HT.DC, index) in tables && TreeDecode(tables[HT.Identifier(HT.DC, index)], bits, pos).Err? ==>
      r == Err(TreeDecode(tables[HT.Identifier(HT.DC, index)], bits, pos).error)
    ensures HT.Identifier(HT.DC, index) in tables && TreeDecode(tables[HT.Identifier(HT.DC, index)], bits, pos).Ok? ==>
      var code := TreeDecode(tables[HT.Identifier(HT.DC, index)], bits, pos).value;
      r == StreamReadBits(bits, code.1, Max(0, code.0), asWritten)
    ensures r.Ok? ==> pos <= r.value.1 <= |bits|
  {
    var id := HT.Identifier(HT.DC, index);
    if id !in tables then Err(KeyError)
    else
      var code :- TreeDecode(tables[id], bits, pos);
      StreamReadBits(bits, code.1, Max(0, code.0), asWritten)
  }

  /** One code of an AC block: the end of the block, or an amplitude after a run of zeros. */
  datatype AcCode = EndOfBlock(next: nat) | Amplitude(value: nat, next: nat, zeros: int)

  /**
   * One turn of the loop of `_read_ac_amplitudes`: decode a code; 0 ends
   * the block; otherwise the upper nibble is a run of zeros to skip and
   * the lower nibble the amplitude's bit length, read right after the
   * code.
   */
  function AcStep(table: Tree, bits: seq<Bit>, pos: nat, asWritten: bool): (r: Result<AcCode>)
    requires table.Node? && pos <= |bits|
    ensures r.Ok? ==> pos < r.value.next <= |bits|
    ensures TreeDecode(table, bits, pos).Err? ==> r == Err(TreeDecode(table, bits, pos).error)
    ensures TreeDecode(table, bits, pos).Ok? && TreeDecode(table, bits, pos).value.0 == 0 ==>
      r == Ok(EndOfBlock(TreeDecode(table, bits, pos).value.1))
    ensures TreeDecode(table, bits, pos).Ok? && TreeDecode(table, bits, pos).value.0 != 0 ==>
      var code := TreeDecode(table, bits, pos).value;
      var read := StreamReadBits(bits, code.1, SplitByteIntoNibbles(code.0).1, asWritten);
      (read.Err? ==> r == Err(read.error))
      && (read.Ok? ==> r == Ok(Amplitude(read.value.0, read.value.1, SplitByteIntoNibbles(code.0).0)))
    ensures r.Ok? && r.value.Amplitude? && NonNegative(table) ==> r.value.zeros >= 0
  {
    var code :- TreeDecode(table, bits, pos);
    if code.0 == 0 then Ok(EndOfBlock(code.1))
    else
      var nibbles := SplitByteIntoNibbles(code.0);
      var amplitude :- StreamReadBits(bits, code.1, nibbles.1, asWritten);
      Ok(Amplitude(amplitude.0, amplitude.1, nibbles.0))
  }

  /**
   * The loop of `_read_ac_amplitudes` from coefficient `coefficient` on,
   * with the amplitudes read so far in `acc`: each amplitude takes one
   * coefficient after its run of zeros, and the loop ends at the end of
   * the block or at coefficient 64.
   */
  function AcFrom(table: Tree, bits: seq<Bit>, pos: nat, coefficient: int, acc: seq<nat>, asWritten: bool): (r: Result<(seq<nat>, nat)>)
    requires table.Node? && pos <= |bits|
    ensures r.Ok? ==> pos <= r.value.1 <= |bits| && |acc| <= |r.value.0| && r.value.0[..|acc|] == acc
    ensures r.Ok? && NonNegative(table) ==> |r.value.0| - |acc| <= Max(0, 64 - coefficient)
    ensures coefficient >= 64 ==> r == Ok((acc, pos))
    decreases |bits| - pos
  {
    if coefficient >= 64 then Ok((acc, pos))
    else
      var step :- AcStep(table, bits, pos, asWritten);
      match step
      case EndOfBlock(next) => Ok((acc, next))
      case Amplitude(value, next, zeros) =>
        var r := AcFrom(table, bits, next, coefficient + zeros + 1, acc + [value], asWritten);
        assert r.Ok? ==> r.value.0[..|acc|] == (r.value.0[..|acc| + 1])[..|acc|];
        r
  }

  /** `_read_ac_amplitudes(stream, index)`: the AC table by index, then the loop from coefficient 1. */
  function AcAmplitudes(tables: map<HT.Identifier, Tree>, index: int, bits: seq<Bit>, pos: nat, asWritten: bool): (r: Result<(seq<nat>, nat)>)
    requires pos <= |bits|
    ensures HT.Identifier(HT.AC, index) !in tables ==> r == Err(KeyError)
    ensures HT.Identifier(HT.AC, index) in tables && tables[HT.Identifier(HT.AC, index)].Leaf? ==> r == Err(NonTermination)
    ensures r.Ok? && NonNegative(tables[HT.Identifier(HT.AC, index)]) ==> |r.value.0| <= 63
  {
    var id := HT.Identifier(HT.AC, index);
    if id !in tables then Err(KeyError)
    else if tables[id].Leaf? then Err(NonTermination)
    else AcFrom(tables[id], bits, pos, 1, [], asWritten)
  }

  /** One turn of the loop, by what the step gave: stop with its error, stop at the end of the block, or go on. */
  lemma AcFromStep(table: Tree, bits: seq<Bit>, pos: nat, coefficient: int, acc: seq<nat>, asWritten: bool)
    requires table.Node? && pos <= |bits| && coefficient < 64
    ensures var step := AcStep(table, bits, pos, asWritten);
      step.Err? ==> AcFrom(table, bits, pos, coefficient, acc, asWritten) == Err(step.error)
    ensures var step := AcStep(table, bits, pos, asWritten);
      step.Ok? && step.value.EndOfBlock? ==> AcFrom(table, bits, pos, coefficient, acc, asWritten) == Ok((acc, step.value.next))
    ensures var step := AcStep(table, bits, pos, asWritten);
      step.Ok? && step.value.Amplitude? ==>
        AcFrom(table, bits, pos, coefficient, acc, asWritten)
        == AcFrom(table, bits, step.value.next, coefficient + step.value.zeros + 1, acc + [step.value.value], asWritten)
  {
  }

  /** `_read_ac_amplitudes` as the loop it is. */
  method ReadAcAmplitudes(tables: map<HT.Identifier, Tree>, index: int, bits: seq<Bit>, pos: nat, asWritten: bool)
    returns (r: Result<(seq<nat>, nat)>)
    requires pos <= |bits|
    ensures r == AcAmplitudes(tables, index, bits, pos, asWritten)
  {
    var id := HT.Identifier(HT.AC, index);
    if id !in tables {
      return Err(KeyError);
    }
    var table := tables[id];
    if table.Leaf? {
      return Err(NonTermination);
    }
    var coefficient := 1;
    var amplitudes: seq<nat> := [];
    var at := pos;
    while coefficient < 64
      invariant at <= |bits|
      invariant AcFrom(table, bits, at, coefficient, amplitudes, asWritten) == AcFrom(table, bits, pos, 1, [], asWritten)
      decreases |bits| - at
    {
      AcFromStep(table, bits, at, coefficient, amplitudes, asWritten);
      var code := TreeDecode(table, bits, at);
      if code.Err? {
        return Err(code.error);
      }
      if code.value.0 == 0 {
        return Ok((amplitudes, code.value.1));
      }
      var nibbles := SplitByteIntoNibbles(code.value.0);
      var amplitude := StreamReadBits(bits, code.value.1, nibbles.1, asWritten);
      if amplitude.Err? {
        return Err(amplitude.error);
      }
      coefficient := coefficient + nibbles.0;
      amplitudes := amplitudes + [amplitude.value.0];
      coefficient := coefficient + 1;
      at := amplitude.value.1;
    }
    return Ok((amplitudes, at));
  }

  /** A table with code 0 for the value 2 and code 1 for the value 0 (the end of an AC block). */
  function TwoOrEnd(): Tree
  {
    Node(2, [Leaf(2), Leaf(0)])
  }

  /**
   * The misread reaches the block: after the code 0 for the value 0x02 (no
   * zeros, two amplitude bits) the bits 1, 1 read as 4 in the source and
   * as 3 as intended, and code 1 then ends the block.
   */
  lemma AcAmplitudeMisread()
    ensures AcAmplitudes(map[HT.Identifier(HT.AC, 0) := TwoOrEnd()], 0, [0, 1, 1, 1], 0, true) == Ok(([4], 4))
    ensures AcAmplitudes(map[HT.Identifier(HT.AC, 0) := TwoOrEnd()], 0, [0, 1, 1, 1], 0, false) == Ok(([3], 4))
  {
    var bits: seq<Bit> := [0, 1, 1, 1];
    assert bits[1..3] == [1, 1];
    ReadBitsAsWrittenMisreads();
    assert TreeDecode(TwoOrEnd(), bits, 0) == Ok((2, 1));
    assert TreeDecode(TwoOrEnd(), bits, 3) == Ok((0, 4));
  }

  /** The same misread in a DC amplitude: length 2 decoded from code 0, then the bits 1, 1. */
  lemma DcAmplitudeMisread()
    ensures DcAmplitude(map[HT.Identifier(HT.DC, 0) := TwoOrEnd()], 0, [0, 1, 1], 0, true) == Ok((4, 3))
    ensures DcAmplitude(map[HT.Identifier(HT.DC, 0) := TwoOrEnd()], 0, [0, 1, 1], 0, false) == Ok((3, 3))
  {
    var bits: seq<Bit> := [0, 1, 1];
    assert bits[1..3] == [1, 1];
    ReadBitsAsWrittenMisreads();
    assert TreeDecode(TwoOrEnd(), bits, 0) == Ok((2, 1));
  }
}
