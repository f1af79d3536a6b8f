/**
 * `HuffmanTable` and `HuffmanTableIdentifier` of ndpi_tiler/huffman.py: a
 * table built from the values of a DHT segment (section B.2.4.2 of ITU-T
 * T.81) listed per code length, with an encode map from value to (code,
 * code length) and the inverse decode map, and the two decoders: walking
 * the tree bit by bit, and extending a code bit by bit until the decode map
 * knows it.
 */
module HuffmanTable {
  import opened Wrappers
  import opened PyBytes
  import opened Geometry
  import opened Nibbles
  import opened BitValues
  import opened HuffmanTree

  /** The table class of an identifier: 'DC' or 'AC'. */
  datatype Mode = DC | AC

  /** `HuffmanTableIdentifier(mode, selection)`. */
  datatype Identifier = Identifier(mode: Mode, selection: int)

  /**
   * `HuffmanTableIdentifier.from_byte`: the upper nibble of the table's
   * first byte selects DC when 0 and AC otherwise, the lower nibble is the
   * selection.
   */
  function IdentifierFromByte(data: byte): (r: Identifier)
    ensures r.mode == DC <==> data < 16
    ensures 0 <= r.selection < 16 && 16 * (data / 16) + r.selection == data
  {
    var nibbles := SplitByteIntoNibbles(data);
    Identifier(if nibbles.0 == 0 then DC else AC, nibbles.1)
  }

  /** The identifier bytes of T.81: `0s` is DC table `s` and `1s` is AC table `s`. */
  lemma IdentifierBytes(selection: nat)
    requires selection < 16
    ensures IdentifierFromByte(selection) == Identifier(DC, selection)
    ensures IdentifierFromByte(16 + selection) == Identifier(AC, selection)
  {
  }

  /** A table: its identifier, its tree and the two maps between values and (code, code length). */
  datatype Table = Table(
    identifier: Identifier,
    root: Tree,
    encode: map<int, (nat, nat)>,
    decode: map<(nat, nat), int>)

  /** The table before any value: an empty root at length 0 and empty maps. */
  function EmptyTable(identifier: Identifier): (r: Table)
    ensures WellFormed(r.root) && r.root.length == 0 && Shallow(r.root, 0)
    ensures r.encode == map[] && r.decode == map[]
  {
    Table(identifier, Node(0, []), map[], map[])
  }

  /**
   * One turn of the constructor's inner loop: insert the value at code
   * length `length + 1`. No place raises `ValueError`, and so does a value
   * already in the table (checked after the insertion); otherwise both
   * maps gain the value and its code.
   */
  function AddValue(t: Table, value: int, length: nat): (r: Result<Table>)
    requires WellFormed(t.root) && t.root.length == 0
    ensures r.Ok? ==> WellFormed(r.value.root) && r.value.root.length == 0 && r.value.identifier == t.identifier
    ensures r.Ok? ==> value !in t.encode && value in r.value.encode
    ensures r.Err? ==> r.error == ValueError || r.error == RecursionError
  {
    match Insert(t.root, value, length)
    case NoPlace => Err(ValueError)
    case EndlessRecursion => Err(RecursionError)
    case Placed(root, symbol) =>
      if value in t.encode then Err(ValueError)
      else Ok(Table(t.identifier, root, t.encode[value := (symbol, length + 1)], t.decode[(symbol, length + 1) := value]))
  }

  /** The inner loop over the values of one level, from the first. */
  function AddLevel(t: Table, level: seq<int>, length: nat): (r: Result<Table>)
    requires WellFormed(t.root) && t.root.length == 0
    ensures r.Ok? ==> WellFormed(r.value.root) && r.value.root.length == 0 && r.value.identifier == t.identifier
    decreases |level|
  {
    if level == [] then Ok(t)
    else
      var next :- AddValue(t, level[0], length);
      AddLevel(next, level[1..], length)
  }

  /** The outer loop over the levels from `length` on, level `length` holding the codes of `length + 1` bits. */
  function AddLevels(t: Table, levels: seq<seq<int>>, length: nat): (r: Result<Table>)
    requires WellFormed(t.root) && t.root.length == 0 && length <= |levels|
    ensures r.Ok? ==> WellFormed(r.value.root) && r.value.root.length == 0 && r.value.identifier == t.identifier
    decreases |levels| - length
  {
    if length == |levels| then Ok(t)
    else
      var next :- AddLevel(t, levels[length], length);
      AddLevels(next, levels, length + 1)
  }

  /** `HuffmanTable(identifier, values_in_levels)`. */
  function BuildTable(identifier: Identifier, levels: seq<seq<int>>): (r: Result<Table>)
    ensures r.Ok? ==> r.value.identifier == identifier
  {
    AddLevels(EmptyTable(identifier), levels, 0)
  }

  /** The constructor as the two nested loops it is. */
  method NewHuffmanTable(identifier: Identifier, levels: seq<seq<int>>) returns (r: Result<Table>)
    ensures r == BuildTable(identifier, levels)
  {
    var t := EmptyTable(identifier);
    var length := 0;
    while length < |levels|
      invariant 0 <= length <= |levels| && WellFormed(t.root) && t.root.length == 0
      invariant AddLevels(t, levels, length) == BuildTable(identifier, levels)
      decreases |levels| - length
    {
      var level := levels[length];
      var start := t;
      var i := 0;
      while i < |level|
        invariant 0 <= i <= |level| && WellFormed(t.root) && t.root.length == 0
        invariant AddLevel(t, level[i..], length) == AddLevel(start, level, length)
        decreases |level| - i
      {
        assert level[i..][1..] == level[i + 1..];
        var added := AddValue(t, level[i], length);
        if added.Err? {
          return Err(added.error);
        }
        t := added.value;
        i := i + 1;
      }
      length := length + 1;
    }
    return Ok(t);
  }

  /** Every value's code fits its length and leads to the value through the tree. */
  ghost predicate CodesLead(root: Tree, encode: map<int, (nat, nat)>)
  {
    forall v :: v in encode ==>
      encode[v].0 < Pow2(encode[v].1) && Lookup(root, UintBits(encode[v].0, encode[v].1)) == Ok(v)
  }

  /** The encode and decode maps are inverse to each other. */
  ghost predicate Inverse(encode: map<int, (nat, nat)>, decode: map<(nat, nat), int>)
  {
    (forall v :: v in encode ==> encode[v] in decode && decode[encode[v]] == v)
    && (forall k :: k in decode ==> decode[k] in encode && encode[decode[k]] == k)
  }

  /**
   * What a table promises: the tree keeps its shape; every value's code
   * fits its length and leads to the value through the tree; and the
   * encode and decode maps are inverse to each other.
   */
  ghost predicate Consistent(t: Table)
  {
    WellFormed(t.root) && t.root.length == 0 && CodesLead(t.root, t.encode) && Inverse(t.encode, t.decode)
  }

  /** In a consistent table the code of every decode entry leads to its value through the tree. */
  lemma DecodedCodeLeads(t: Table, key: (nat, nat))
    requires Consistent(t)
    ensures key in t.decode ==> Lookup(t.root, UintBits(key.0, key.1)) == Ok(t.decode[key])
  {
    if key in t.decode {
      var w := t.decode[key];
      assert w in t.encode && t.encode[w] == key;
      assert Lookup(t.root, UintBits(t.encode[w].0, t.encode[w].1)) == Ok(w);
    }
  }

  /** A new value with a new code keeps the maps inverse. */
  lemma InverseGrows(encode: map<int, (nat, nat)>, decode: map<(nat, nat), int>, value: int, key: (nat, nat))
    requires Inverse(encode, decode) && value !in encode && key !in decode
    ensures Inverse(encode[value := key], decode[key := value])
  {
    var enc := encode[value := key];
    var dec := decode[key := value];
    forall v | v in enc
      ensures enc[v] in dec && dec[enc[v]] == v
    {
      if v != value {
        assert enc[v] == encode[v] && encode[v] in decode;
      }
    }
    forall k | k in dec
      ensures dec[k] in enc && enc[dec[k]] == k
    {
      if k != key {
        assert dec[k] == decode[k] && decode[k] in encode;
      }
    }
  }

  /** A tree grown by a placement keeps the old codes leading to their values and adds the new one. */
  lemma CodesLeadGrow(root: Tree, encode: map<int, (nat, nat)>, value: int, length: nat, path: seq<Bit>)
    requires WellFormed(root) && root.length == 0 && CodesLead(root, encode) && Insert(root, value, length).Placed?
    requires PlacedAt(root, Insert(root, value, length), value, length, path)
    ensures CodesLead(Insert(root, value, length).node, encode[value := (Insert(root, value, length).symbol, length + 1)])
  {
    var inserted := Insert(root, value, length);
    var enc := encode[value := (inserted.symbol, length + 1)];
    UintBitsOfValue(path);
    forall v | v in enc
      ensures enc[v].0 < Pow2(enc[v].1) && Lookup(inserted.node, UintBits(enc[v].0, enc[v].1)) == Ok(v)
    {
      if v != value {
        assert Lookup(root, UintBits(encode[v].0, encode[v].1)) == Ok(v);
      }
    }
  }

  /**
   * Adding a value keeps the table consistent. The new code leads nowhere
   * in the old tree, so no value already has it, and every old code still
   * leads to its value.
   */
  lemma AddValueKeeps(t: Table, value: int, length: nat)
    requires Consistent(t) && AddValue(t, value, length).Ok?
    ensures Consistent(AddValue(t, value, length).value)
  {
    var inserted := Insert(t.root, value, length);
    var path := InsertPath(t.root, value, length);
    var key := (inserted.symbol, length + 1);
    UintBitsOfValue(path);
    assert UintBits(key.0, key.1) == path;
    DecodedCodeLeads(t, key);
    CodesLeadGrow(t.root, t.encode, value, length, path);
    InverseGrows(t.encode, t.decode, value, key);
  }

  /** A level keeps the table consistent, and no deeper than its length. */
  lemma {:induction false} AddLevelKeeps(t: Table, level: seq<int>, length: nat)
    requires Consistent(t) && Shallow(t.root, length)
    ensures AddLevel(t, level, length).Ok? ==>
      Consistent(AddLevel(t, level, length).value) && Shallow(AddLevel(t, level, length).value.root, length)
    ensures AddLevel(t, level, length).Err? ==> AddLevel(t, level, length).error == ValueError
    decreases |level|
  {
    if level != [] {
      InsertEnds(t.root, level[0], length);
      var added := AddValue(t, level[0], length);
      if added.Ok? {
        AddValueKeeps(t, level[0], length);
        AddLevelKeeps(added.value, level[1..], length);
      }
    }
  }

  /**
   * Building a table from levels in increasing code length never recurses
   * without end: it fails only with `ValueError`, and a table it builds is
   * consistent.
   */
  lemma {:induction false} AddLevelsKeeps(t: Table, levels: seq<seq<int>>, length: nat)
    requires Consistent(t) && Shallow(t.root, length) && length <= |levels|
    ensures AddLevels(t, levels, length).Ok? ==> Consistent(AddLevels(t, levels, length).value)
    ensures AddLevels(t, levels, length).Err? ==> AddLevels(t, levels, length).error == ValueError
    decreases |levels| - length
  {
    if length < |levels| {
      AddLevelKeeps(t, levels[length], length);
      var next := AddLevel(t, levels[length], length);
      if next.Ok? {
        ShallowGrows(next.value.root, length, length + 1);
        AddLevelsKeeps(next.value, levels, length + 1);
      }
    }
  }

  /** `HuffmanTable(...)` raises only `ValueError`, and what it builds is consistent. */
  lemma BuiltTableIsConsistent(identifier: Identifier, levels: seq<seq<int>>)
    ensures BuildTable(identifier, levels).Err? ==> BuildTable(identifier, levels).error == ValueError
    ensures BuildTable(identifier, levels).Ok? ==> Consistent(BuildTable(identifier, levels).value)
  {
    AddLevelsKeeps(EmptyTable(identifier), levels, 0);
  }

  /** `encode`: the value's (code, code length); a value not in the table raises `KeyError`. */
  function Encode(t: Table, value: int): (r: Result<(nat, nat)>)
    ensures r.Ok? <==> value in t.encode
    ensures r.Err? ==> r.error == KeyError
  {
    if value in t.encode then Ok(t.encode[value]) else Err(KeyError)
  }

  /** `encode_into_bits`: the value's code as bits of its code length. */
  function EncodeIntoBits(t: Table, value: int): (r: Result<seq<Bit>>)
    ensures r.Ok? <==> value in t.encode
    ensures r.Ok? ==> |r.value| == t.encode[value].1
  {
    var code :- Encode(t, value);
    Ok(UintBits(code.0, code.1))
  }

  /** `decode_from_bits` on a table: the tree walk from its root. */
  function DecodeFromBitsOf(t: Table, bits: seq<Bit>): (r: Result<int>)
    ensures r.Err? ==> r.error == ReadError || r.error == ValueError
  {
    Lookup(t.root, bits)
  }

  /**
   * The round trips of a built table: encoding a value and walking the
   * tree along its bits gives the value back; the decode map gives back
   * the value of its code, and the encode map the code of its value.
   */
  lemma EncodeDecodeRoundTrip(identifier: Identifier, levels: seq<seq<int>>, value: int, key: (nat, nat))
    requires BuildTable(identifier, levels).Ok?
    ensures var t := BuildTable(identifier, levels).value;
      (value in t.encode ==>
         DecodeFromBitsOf(t, EncodeIntoBits(t, value).value) == Ok(value)
         && t.encode[value] in t.decode && t.decode[t.encode[value]] == value)
      && (key in t.decode ==> t.decode[key] in t.encode && t.encode[t.decode[key]] == key)
  {
    BuiltTableIsConsistent(identifier, levels);
  }

  /**
   * `decode` from the `length`-th bit on: extend the code one bit at a
   * time, most significant first, until the decode map knows (code,
   * length); the value and the number of bits read. Running out of bits
   * is `ReadError`.
   */
  function DecodeFrom(t: Table, bits: seq<Bit>, length: nat): (r: Result<(int, nat)>)
    requires 1 <= length
    ensures r.Ok? ==> (length <= r.value.1 <= |bits|
      && (BitsValue(bits[..r.value.1]), r.value.1) in t.decode
      && t.decode[(BitsValue(bits[..r.value.1]), r.value.1)] == r.value.0)
    decreases |bits| + 1 - length
  {
    if length > |bits| then Err(ReadError)
    else
      var key := (BitsValue(bits[..length]), length);
      if key in t.decode then Ok((t.decode[key], length))
      else DecodeFrom(t, bits, length + 1)
  }

  /** `decode(stream)`: the loop that reads a bit, then extends the code until the decode map has it. */
  method Decode(t: Table, bits: seq<Bit>) returns (r: Result<(int, nat)>)
    ensures r == DecodeFrom(t, bits, 1)
  {
    if |bits| == 0 {
      return Err(ReadError);
    }
    var symbol: nat := bits[0];
    var length := 1;
    assert bits[..1] == [bits[0]] && [bits[0]][..0] == [];
    while (symbol, length) !in t.decode
      invariant 1 <= length <= |bits| && symbol == BitsValue(bits[..length])
      invariant DecodeFrom(t, bits, length) == DecodeFrom(t, bits, 1)
      decreases |bits| - length
    {
      if length == |bits| {
        return Err(ReadError);
      }
      assert bits[..length + 1][..length] == bits[..length];
      symbol := 2 * symbol + bits[length];
      length := length + 1;
    }
    return Ok((t.decode[(symbol, length)], length));
  }

  /**
   * No shorter prefix of a value's code is a code: if it were, its value
   * would lie on the walk along the longer code, which leads to this value.
   */
  lemma NoShorterCode(t: Table, value: int, length: nat)
    requires Consistent(t) && value in t.encode && 1 <= length < t.encode[value].1
    ensures var code := UintBits(t.encode[value].0, t.encode[value].1);
      (BitsValue(code[..length]), length) !in t.decode
  {
    var code := UintBits(t.encode[value].0, t.encode[value].1);
    var key := (BitsValue(code[..length]), length);
    DecodedCodeLeads(t, key);
    UintBitsOfValue(code[..length]);
    assert code[..length] + code[length..] == code;
    if key in t.decode {
      LookupIgnoresTheRest(t.root, code[..length], code[length..]);
      assert false;
    }
  }

  /** `DecodeFrom` over a value's code followed by any bits, from `length` on. */
  lemma {:induction false} DecodeCode(t: Table, value: int, rest: seq<Bit>, length: nat)
    requires Consistent(t) && value in t.encode && 1 <= length <= t.encode[value].1
    ensures var code := UintBits(t.encode[value].0, t.encode[value].1);
      DecodeFrom(t, code + rest, length) == Ok((value, |code|))
    decreases t.encode[value].1 - length
  {
    var code := UintBits(t.encode[value].0, t.encode[value].1);
    var bits := code + rest;
    assert bits[..length] == code[..length];
    if length < |code| {
      NoShorterCode(t, value, length);
      DecodeCode(t, value, rest, length + 1);
    } else {
      assert code[..length] == code;
      ValueOfUintBits(t.encode[value].0, t.encode[value].1);
    }
  }

  /**
   * Decoding a value's code with `decode`, whatever bits follow it, gives
   * the value and reads exactly the code's bits.
   */
  lemma DecodeRoundTrip(identifier: Identifier, levels: seq<seq<int>>, value: int, rest: seq<Bit>)
    requires BuildTable(identifier, levels).Ok?
    requires value in BuildTable(identifier, levels).value.encode
    ensures var t := BuildTable(identifier, levels).value;
      var code := EncodeIntoBits(t, value).value;
      DecodeFrom(t, code + rest, 1) == Ok((value, |code|))
  {
    var t := BuildTable(identifier, levels).value;
    BuiltTableIsConsistent(identifier, levels);
    assert Lookup(t.root, []) == Err(ReadError);
    assert UintBits(t.encode[value].0, 0) == [];
    DecodeCode(t, value, rest, 1);
  }

  /** The sum of the level counts. */
  function Total(counts: seq<byte>): nat
  {
    if counts == [] then 0 else counts[0] + Total(counts[1..])
  }

  /** The levels one after the other. */
  function Flatten(levels: seq<seq<int>>): seq<int>
  {
    if levels == [] then [] else levels[0] + Flatten(levels[1..])
  }

  /**
   * The reads of the levels from `offset`: level i is the next `counts[i]`
   * bytes. A read short of its count raises `struct.error`, which happens
   * exactly when the data end before all counts are read; otherwise the
   * levels have the counted lengths and are the bytes read, in order.
   */
  function ReadLevels(data: bytes, offset: nat, counts: seq<byte>): (r: Result<seq<seq<int>>>)
    requires offset <= |data|
    ensures r.Ok? <==> offset + Total(counts) <= |data|
    ensures r.Err? ==> r.error == StructError
    ensures r.Ok? ==> (|r.value| == |counts| && (forall i :: 0 <= i < |counts| ==> |r.value[i]| == counts[i])
      && Flatten(r.value) == data[offset..offset + Total(counts)])
    decreases |counts|
  {
    if counts == [] then Ok([])
    else if offset + counts[0] > |data| then Err(StructError)
    else
      var rest :- ReadLevels(data, offset + counts[0], counts[1..]);
      var level: seq<int> := data[offset..offset + counts[0]];
      Ok([level] + rest)
  }

  /**
   * `HuffmanTable.from_data`: the identifier byte, sixteen counts, the
   * levels, and the table; with the number of bytes read,
   * `17 + sum(counts)`. Data too short for the identifier, the counts or
   * the levels raise `struct.error`; the table's own errors come after.
   */
  function FromData(data: bytes): (r: Result<(Table, nat)>)
    ensures |data| < 17 ==> r == Err(StructError)
    ensures r.Ok? ==> (r.value.1 == 17 + Total(data[1..17]) && r.value.1 <= |data|
      && r.value.0.identifier == IdentifierFromByte(data[0]))
  {
    if |data| < 1 then Err(StructError)
    else
      var identifier := IdentifierFromByte(data[0]);
      if |data| < 17 then Err(StructError)
      else
        var counts := data[1..17];
        var levels :- ReadLevels(data, 17, counts);
        var table :- BuildTable(identifier, levels);
        Ok((table, 17 + Total(counts)))
  }

  /** With enough data, `from_data` reads levels of the counted lengths in order and builds the table from them. */
  lemma FromDataReadsTheCounts(data: bytes)
    requires 17 <= |data| && 17 + Total(data[1..17]) <= |data|
    ensures var levels := ReadLevels(data, 17, data[1..17]);
      levels.Ok? && |levels.value| == 16
      && Flatten(levels.value) == data[17..17 + Total(data[1..17])]
      && FromData(data) == (match BuildTable(IdentifierFromByte(data[0]), levels.value)
                           case Ok(t) => Ok((t, 17 + Total(data[1..17])))
                           case Err(e) => Err(e))
  {
  }
}
