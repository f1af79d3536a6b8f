/**
 * The Huffman tree of the entropy-coding prototype (`HuffmanNode` and
 * `HuffmanLeaf` in ndpi_tiler/huffman.py). A node at tree depth `length`
 * holds at most two children, leaves or nodes one level deeper; a value of
 * code length `length + 1` is placed as a leaf in a node of that `length`.
 * Insertion tries, in this order, the node itself, its existing child nodes
 * left to right, and a new child node, and returns the code (the
 * "symbol") of the new leaf: the child indices along its path, most
 * significant first. Read from the root, the codes are the canonical codes
 * of Annex C of ITU-T T.81 when the values are inserted level by level.
 *
 * The tree is a value here: an insertion returns the new tree.
 */
module HuffmanTree {
  import opened Wrappers
  import opened Geometry
  import opened BitValues

  /** `HuffmanLeaf(value)` or `HuffmanNode(length)` with its children in order. */
  datatype Tree = Leaf(value: int) | Node(length: nat, children: seq<Tree>)

  /** `HuffmanNode.full`: a node with two children takes no more. */
  predicate Full(node: Tree)
    requires node.Node?
  {
    |node.children| > 1
  }

  /**
   * The shape every insertion keeps: a node has at most two children, and
   * each child node is one level deeper than its parent.
   */
  predicate WellFormed(node: Tree)
    decreases node
  {
    node.Node? && |node.children| <= 2
    && forall i :: 0 <= i < |node.children| && node.children[i].Node? ==>
         node.children[i].length == node.length + 1 && WellFormed(node.children[i])
  }

  /** `HuffmanNode.shift(length)`: the weight of this node's child index in a code of `length + 1` bits. */
  function Shift(nodeLength: nat, length: nat): (r: nat)
    requires nodeLength <= length
    ensures r == Pow2(length - nodeLength)
  {
    Pow2(length - nodeLength)
  }

  /**
   * What an insertion gives: the new tree and the leaf's code, no place
   * (`None` in the source), or a recursion that never ends (the source's
   * `RecursionError`).
   */
  datatype Insertion = Placed(node: Tree, symbol: nat) | NoPlace | EndlessRecursion

  /**
   * `_insert_into_self`: the leaf becomes the next child when the code
   * length is this node's and the node is not full; its code is its index.
   */
  function InsertIntoSelf(node: Tree, value: int, length: nat): (r: Insertion)
    requires node.Node?
    ensures r.Placed? <==> length == node.length && !Full(node)
    ensures r.Placed? ==> r.node == Node(node.length, node.children + [Leaf(value)]) && r.symbol == |node.children|
    ensures !r.EndlessRecursion?
  {
    if length == node.length && !Full(node) then
      Placed(Node(node.length, node.children + [Leaf(value)]), |node.children|)
    else NoPlace
  }

  /**
   * `insert` on a node just created at depth `depth`: a chain of first
   * children down to the leaf, whose code is 0. A leaf shorter than the
   * node never finds a place and the source recurses without end.
   */
  function InsertIntoFresh(depth: nat, value: int, length: nat): (r: Insertion)
    ensures r.Placed? <==> depth <= length
    ensures !r.NoPlace?
    ensures r.Placed? ==> r.symbol == 0 && WellFormed(r.node) && r.node.length == depth
    decreases if depth <= length then length - depth else 0
  {
    if length < depth then EndlessRecursion
    else if length == depth then Placed(Node(depth, [Leaf(value)]), 0)
    else
      match InsertIntoFresh(depth + 1, value, length)
      case Placed(child, symbol) => Placed(Node(depth, [child]), symbol + Shift(depth, length) * 0)
      case NoPlace => NoPlace
      case EndlessRecursion => EndlessRecursion
  }

  /**
   * `insert`: into the node itself, else into an existing child node,
   * else into a new child node. A placed leaf is never shorter than the
   * node, and the tree keeps its shape.
   */
  function Insert(node: Tree, value: int, length: nat): (r: Insertion)
    requires WellFormed(node)
    ensures r.Placed? ==> node.length <= length && WellFormed(r.node) && r.node.length == node.length
    decreases node, |node.children| + 1
  {
    var own := InsertIntoSelf(node, value, length);
    if own.Placed? then own
    else
      var deeper := InsertIntoChild(node, value, length, 0);
      if !deeper.NoPlace? then deeper
      else InsertIntoNewChild(node, value, length)
  }

  /**
   * `_insert_into_child` from child `index` on: the first child node that
   * takes the leaf; the code is the child's code with this node's index
   * put in front.
   */
  function InsertIntoChild(node: Tree, value: int, length: nat, index: nat): (r: Insertion)
    requires WellFormed(node) && index <= |node.children|
    ensures r.Placed? ==> node.length < length && WellFormed(r.node) && r.node.length == node.length
    decreases node, |node.children| - index
  {
    if index == |node.children| then NoPlace
    else
      var child := node.children[index];
      if child.Leaf? then InsertIntoChild(node, value, length, index + 1)
      else
        match Insert(child, value, length)
        case Placed(newChild, symbol) =>
          Placed(Node(node.length, node.children[index := newChild]), symbol + Shift(node.length, length) * index)
        case NoPlace => InsertIntoChild(node, value, length, index + 1)
        case EndlessRecursion => EndlessRecursion
  }

  /**
   * `_insert_into_new_child`: no place in a full node; otherwise a new
   * child node one level deeper takes the leaf, and its index goes in
   * front of the code.
   */
  function InsertIntoNewChild(node: Tree, value: int, length: nat): (r: Insertion)
    requires WellFormed(node)
    ensures Full(node) ==> r == NoPlace
    ensures !Full(node) ==> (r.Placed? <==> node.length < length)
    ensures r.Placed? ==>
      WellFormed(r.node) && r.node.length == node.length && r.symbol == Pow2(length - node.length) * |node.children|
    ensures r.Placed? ==> |r.node.children| == |node.children| + 1
  {
    if Full(node) then NoPlace
    else
      match InsertIntoFresh(node.length + 1, value, length)
      case Placed(child, symbol) =>
        Placed(Node(node.length, node.children + [child]), symbol + Shift(node.length, length) * |node.children|)
      case NoPlace => NoPlace
      case EndlessRecursion => EndlessRecursion
  }

  /**
   * `decode_from_bits`: walk from `node` taking the child each bit names,
   * until a leaf; bits left over are not read. Running out of bits is
   * bitstring's `ReadError`, a missing child `ValueError`.
   */
  function Lookup(node: Tree, bits: seq<Bit>): (r: Result<int>)
    ensures r.Err? ==> r.error == ReadError || r.error == ValueError
    decreases |bits|
  {
    if node.Leaf? then Ok(node.value)
    else if bits == [] then Err(ReadError)
    else if bits[0] >= |node.children| then Err(ValueError)
    else Lookup(node.children[bits[0]], bits[1..])
  }

  /** `decode_from_bits` as the loop it is: one child per bit read. */
  method DecodeFromBits(root: Tree, bits: seq<Bit>) returns (r: Result<int>)
    ensures r == Lookup(root, bits)
  {
    var node := root;
    var pos := 0;
    while node.Node?
      invariant 0 <= pos <= |bits| && Lookup(node, bits[pos..]) == Lookup(root, bits)
      decreases |bits| - pos
    {
      if pos == |bits| {
        return Err(ReadError);
      }
      var bit := bits[pos];
      if bit >= |node.children| {
        return Err(ValueError);
      }
      assert bits[pos..][1..] == bits[pos + 1..];
      node := node.children[bit];
      pos := pos + 1;
    }
    return Ok(node.value);
  }

  /** Bits after a leaf is reached change nothing. */
  lemma {:induction false} LookupIgnoresTheRest(node: Tree, bits: seq<Bit>, rest: seq<Bit>)
    requires Lookup(node, bits).Ok?
    ensures Lookup(node, bits + rest) == Lookup(node, bits)
    decreases |bits|
  {
    if node.Node? {
      assert (bits + rest)[1..] == bits[1..] + rest;
      LookupIgnoresTheRest(node.children[bits[0]], bits[1..], rest);
    }
  }

  /**
   * Where an insertion put the leaf: `path` has `length - node.length + 1`
   * bits, its value is the returned code, it led nowhere before, it leads
   * to the new leaf now, and every walk that reached a leaf before reaches
   * the same leaf now.
   */
  ghost predicate PlacedAt(node: Tree, r: Insertion, value: int, length: nat, path: seq<Bit>)
    requires node.Node? && r.Placed?
  {
    |path| == length - node.length + 1 && BitsValue(path) == r.symbol
    && Lookup(node, path).Err? && Lookup(r.node, path) == Ok(value)
    && forall q :: Lookup(node, q).Ok? ==> Lookup(r.node, q) == Lookup(node, q)
  }

  /** Every placed leaf sits at the end of a path whose value is its code (see `PlacedAt`). */
  lemma {:induction false} InsertPath(node: Tree, value: int, length: nat) returns (path: seq<Bit>)
    requires WellFormed(node) && Insert(node, value, length).Placed?
    ensures PlacedAt(node, Insert(node, value, length), value, length, path)
    decreases node, |node.children| + 1
  {
    var r := Insert(node, value, length);
    if InsertIntoSelf(node, value, length).Placed? {
      var k := |node.children|;
      path := [k];
      assert Lookup(r.node, path) == Lookup(Leaf(value), []);
      forall q | Lookup(node, q).Ok?
        ensures Lookup(r.node, q) == Lookup(node, q)
      {
        assert r.node.children[q[0]] == node.children[q[0]];
      }
    } else if !InsertIntoChild(node, value, length, 0).NoPlace? {
      path := ChildPath(node, value, length, 0);
    } else {
      path := NewChildPath(node, value, length);
    }
  }

  /** `PlacedAt` for `_insert_into_child` from child `index` on. */
  lemma {:induction false} ChildPath(node: Tree, value: int, length: nat, index: nat) returns (path: seq<Bit>)
    requires WellFormed(node) && index <= |node.children|
    requires InsertIntoChild(node, value, length, index).Placed?
    ensures PlacedAt(node, InsertIntoChild(node, value, length, index), value, length, path)
    decreases node, |node.children| - index
  {
    var r := InsertIntoChild(node, value, length, index);
    var child := node.children[index];
    if child.Leaf? || Insert(child, value, length).NoPlace? {
      path := ChildPath(node, value, length, index + 1);
    } else {
      var inner := Insert(child, value, length);
      var sub := InsertPath(child, value, length);
      path := [index] + sub;
      ValueOfLeadingBit(index, sub);
      assert path[1..] == sub;
      forall q | Lookup(node, q).Ok?
        ensures Lookup(r.node, q) == Lookup(node, q)
      {
        assert q[1..] == q[1..];
        if q[0] != index {
          assert r.node.children[q[0]] == node.children[q[0]];
        }
      }
    }
  }

  /** `PlacedAt` for `_insert_into_new_child`: the new child's index, then zeros. */
  lemma NewChildPath(node: Tree, value: int, length: nat) returns (path: seq<Bit>)
    requires WellFormed(node) && InsertIntoNewChild(node, value, length).Placed?
    ensures PlacedAt(node, InsertIntoNewChild(node, value, length), value, length, path)
  {
    var r := InsertIntoNewChild(node, value, length);
    var k := |node.children|;
    var sub := Zeros(length - node.length);
    FreshPath(node.length + 1, value, length);
    ValueOfZeros(length - node.length);
    ValueOfLeadingBit(k, sub);
    path := [k] + sub;
    assert path[1..] == sub;
    forall q | Lookup(node, q).Ok?
      ensures Lookup(r.node, q) == Lookup(node, q)
    {
      assert r.node.children[q[0]] == node.children[q[0]];
    }
  }

  /** A fresh chain leads to its leaf along zeros. */
  lemma {:induction false} FreshPath(depth: nat, value: int, length: nat)
    requires depth <= length
    ensures Lookup(InsertIntoFresh(depth, value, length).node, Zeros(length - depth + 1)) == Ok(value)
    decreases length - depth
  {
    var zeros := Zeros(length - depth + 1);
    assert zeros[1..] == Zeros(length - depth);
    if depth < length {
      FreshPath(depth + 1, value, length);
    }
  }

  /** No node deeper than `length`: the tree while codes of at most `length + 1` bits are inserted. */
  predicate Shallow(node: Tree, length: nat)
    decreases node
  {
    node.Leaf? ||
    (node.length <= length && forall i :: 0 <= i < |node.children| ==> Shallow(node.children[i], length))
  }

  /** A tree within one length is within every larger one. */
  lemma {:induction false} ShallowGrows(node: Tree, length: nat, longer: nat)
    requires Shallow(node, length) && length <= longer
    ensures Shallow(node, longer)
    decreases node
  {
    if node.Node? {
      forall i | 0 <= i < |node.children|
        ensures Shallow(node.children[i], longer)
      {
        ShallowGrows(node.children[i], length, longer);
      }
    }
  }

  /**
   * Inserting into a tree no deeper than the code length never recurses
   * without end, and leaves the tree no deeper than that length.
   */
  lemma {:induction false} InsertEnds(node: Tree, value: int, length: nat)
    requires WellFormed(node) && Shallow(node, length)
    ensures !Insert(node, value, length).EndlessRecursion?
    ensures Insert(node, value, length).Placed? ==> Shallow(Insert(node, value, length).node, length)
    decreases node, |node.children| + 1
  {
    if !InsertIntoSelf(node, value, length).Placed? {
      ChildEnds(node, value, length, 0);
      if InsertIntoChild(node, value, length, 0).NoPlace? && !Full(node) {
        FreshEnds(node.length + 1, value, length);
      }
    }
  }

  /** `InsertEnds` for `_insert_into_child` from child `index` on. */
  lemma {:induction false} ChildEnds(node: Tree, value: int, length: nat, index: nat)
    requires WellFormed(node) && Shallow(node, length) && index <= |node.children|
    requires node.length == length ==> Full(node)
    ensures !InsertIntoChild(node, value, length, index).EndlessRecursion?
    ensures InsertIntoChild(node, value, length, index).Placed? ==>
      Shallow(InsertIntoChild(node, value, length, index).node, length)
    decreases node, |node.children| - index
  {
    if index < |node.children| {
      var child := node.children[index];
      if child.Node? {
        InsertEnds(child, value, length);
        var inner := Insert(child, value, length);
        if inner.Placed? {
          var r := InsertIntoChild(node, value, length, index);
          assert forall i :: 0 <= i < |r.node.children| ==> r.node.children[i] == if i == index then inner.node else node.children[i];
        }
      }
      ChildEnds(node, value, length, index + 1);
    }
  }

  /** A fresh chain down to `length` is no deeper than `length`. */
  lemma {:induction false} FreshEnds(depth: nat, value: int, length: nat)
    requires depth <= length
    ensures Shallow(InsertIntoFresh(depth, value, length).node, length)
    decreases length - depth
  {
    if depth < length {
      FreshEnds(depth + 1, value, length);
    }
  }

  /** The trees the test values build, one insertion after another. */
  const TreeOne: Tree := Node(0, [Leaf(1)])
  const TreeTwo: Tree := Node(0, [Leaf(1), Node(1, [Leaf(2)])])
  const TreeThree: Tree := Node(0, [Leaf(1), Node(1, [Leaf(2), Node(2, [Leaf(3)])])])
  const TreeFour: Tree := Node(0, [Leaf(1), Node(1, [Leaf(2), Node(2, [Leaf(3), Leaf(4)])])])

  /** The example trees keep the shape insertions keep. */
  lemma ExampleTreesWellFormed()
    ensures WellFormed(TreeOne) && WellFormed(TreeTwo)
    ensures WellFormed(Node(2, [Leaf(3)])) && WellFormed(Node(1, [Leaf(2), Node(2, [Leaf(3)])])) && WellFormed(TreeThree)
    ensures WellFormed(Node(2, [Leaf(3), Leaf(4)])) && WellFormed(Node(1, [Leaf(2), Node(2, [Leaf(3), Leaf(4)])])) && WellFormed(TreeFour)
  {
    assert WellFormed(Node(1, [Leaf(2)]));
    assert WellFormed(Node(2, [Leaf(3)]));
    assert WellFormed(Node(2, [Leaf(3), Leaf(4)]));
    assert WellFormed(Node(1, [Leaf(2), Node(2, [Leaf(3)])]));
    assert WellFormed(Node(1, [Leaf(2), Node(2, [Leaf(3), Leaf(4)])]));
  }

  /** The first value takes code 0, the second, one bit longer, code 10. */
  lemma CanonicalFirstTwo()
    ensures Insert(Node(0, []), 1, 0) == Placed(TreeOne, 0)
    ensures Insert(TreeOne, 2, 1) == Placed(TreeTwo, 2)
  {
    assert InsertIntoChild(TreeOne, 2, 1, 0) == InsertIntoChild(TreeOne, 2, 1, 1);
  }

  /** With four leaves the tree has no place left for a fifth of length 3. */
  lemma CanonicalFull()
    ensures Insert(TreeFour, 5, 2) == NoPlace
  {
    var inner := Node(2, [Leaf(3), Leaf(4)]);
    var below := Node(1, [Leaf(2), inner]);
    assert Insert(inner, 5, 2) == NoPlace;
    assert InsertIntoChild(below, 5, 2, 0) == NoPlace;
  }

  /** The third value, at length 3, goes right twice: code 110. */
  lemma CanonicalThird()
    ensures Insert(TreeTwo, 3, 2) == Placed(TreeThree, 6)
  {
    assert Insert(Node(1, [Leaf(2)]), 3, 2) == Placed(Node(1, [Leaf(2), Node(2, [Leaf(3)])]), 2);
    assert InsertIntoChild(TreeTwo, 3, 2, 0) == InsertIntoChild(TreeTwo, 3, 2, 1);
  }

  /** Below the root, the fourth value goes into the right child's open place: code 11 there. */
  lemma CanonicalFourthBelowRoot()
    ensures Insert(Node(1, [Leaf(2), Node(2, [Leaf(3)])]), 4, 2) == Placed(Node(1, [Leaf(2), Node(2, [Leaf(3), Leaf(4)])]), 3)
  {
    ExampleTreesWellFormed();
    var below := Node(1, [Leaf(2), Node(2, [Leaf(3)])]);
    assert Insert(Node(2, [Leaf(3)]), 4, 2) == Placed(Node(2, [Leaf(3), Leaf(4)]), 1);
    assert InsertIntoChild(below, 4, 2, 0) == InsertIntoChild(below, 4, 2, 1);
  }

  /** The fourth value, at length 3, fills the last place: code 111. */
  lemma CanonicalFourth()
    ensures Insert(TreeThree, 4, 2) == Placed(TreeFour, 7)
  {
    ExampleTreesWellFormed();
    CanonicalFourthBelowRoot();
    var below := Node(1, [Leaf(2), Node(2, [Leaf(3), Leaf(4)])]);
    assert Shift(0, 2) == 4;
    assert TreeThree.children[1 := below] == TreeFour.children;
    assert InsertIntoChild(TreeThree, 4, 2, 1) == Placed(TreeFour, 3 + 4 * 1);
    assert InsertIntoChild(TreeThree, 4, 2, 0) == InsertIntoChild(TreeThree, 4, 2, 1);
  }

  /**
   * The example trees of the tests: from an empty root, values at code
   * lengths 1, 2, 3, 3 get the codes 0, 10, 110, 111, and a fifth of
   * length 3 finds no place.
   */
  lemma CanonicalCodes()
    ensures var r1 := Insert(Node(0, []), 1, 0);
      r1.Placed? && r1.symbol == 0
      && var r2 := Insert(r1.node, 2, 1);
      r2.Placed? && r2.symbol == 0x2
      && var r3 := Insert(r2.node, 3, 2);
      r3.Placed? && r3.symbol == 0x6
      && var r4 := Insert(r3.node, 4, 2);
      r4.Placed? && r4.symbol == 0x7
      && Insert(r4.node, 5, 2) == NoPlace
  {
    CanonicalFirstTwo();
    CanonicalThird();
    CanonicalFourth();
    CanonicalFull();
  }
}
