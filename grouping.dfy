/**
 * Grouping a list by a key, the way an insertion-ordered dictionary of
 * lists is filled: the keys in order of first appearance, and for each key
 * the elements that have it, in input order.
 */
module Grouping {
  import opened PyBytes

  /** The keys of the elements, each once, in order of first appearance. */
  function Keys<T, K(==)>(xs: seq<T>, key: T -> K): (keys: seq<K>)
    ensures Distinct(keys)
    decreases |xs|
  {
    if xs == [] then []
    else
      var n := |xs| - 1;
      var prev := Keys(xs[..n], key);
      assert forall i :: 0 <= i < n ==> xs[..n][i] == xs[i];
      if key(xs[n]) in prev then prev else prev + [key(xs[n])]
  }

  /** The key of every element is among the keys. */
  lemma {:induction false} KeysCover<T, K>(xs: seq<T>, key: T -> K)
    ensures forall i :: 0 <= i < |xs| ==> key(xs[i]) in Keys(xs, key)
    decreases |xs|
  {
    if xs != [] {
      var n := |xs| - 1;
      KeysCover(xs[..n], key);
      assert forall i :: 0 <= i < n ==> xs[..n][i] == xs[i];
    }
  }

  /** Every key is the key of some element. */
  lemma {:induction false} KeysOccur<T, K>(xs: seq<T>, key: T -> K, k: K)
    requires k in Keys(xs, key)
    ensures exists i :: 0 <= i < |xs| && key(xs[i]) == k
    decreases |xs|
  {
    var n := |xs| - 1;
    if k != key(xs[n]) {
      KeysOccur(xs[..n], key, k);
      var i :| 0 <= i < n && key(xs[..n][i]) == k;
      assert xs[..n][i] == xs[i];
    }
  }

  /** The elements whose key is `k`, in input order. */
  function Group<T, K(==)>(xs: seq<T>, key: T -> K, k: K): (g: seq<T>)
    ensures |g| <= |xs|
    decreases |xs|
  {
    if xs == [] then []
    else
      var n := |xs| - 1;
      var prev := Group(xs[..n], key, k);
      if key(xs[n]) == k then prev + [xs[n]] else prev
  }

  /** A group holds elements of the input that have its key. */
  lemma {:induction false} GroupMembers<T, K>(xs: seq<T>, key: T -> K, k: K)
    ensures forall x :: x in Group(xs, key, k) ==> x in xs && key(x) == k
    decreases |xs|
  {
    if xs != [] {
      var n := |xs| - 1;
      GroupMembers(xs[..n], key, k);
      assert xs == xs[..n] + [xs[n]];
    }
  }

  /** The groups of all keys, in order of first appearance. */
  function Groups<T, K(==)>(xs: seq<T>, key: T -> K): (gs: seq<seq<T>>)
    ensures |gs| == |Keys(xs, key)|
    ensures forall j :: 0 <= j < |gs| ==> gs[j] == Group(xs, key, Keys(xs, key)[j])
  {
    var keys := Keys(xs, key);
    seq(|keys|, j requires 0 <= j < |keys| => Group(xs, key, keys[j]))
  }

  /** The groups one after the other. */
  function Flatten<T>(groups: seq<seq<T>>): (r: seq<T>)
    decreases |groups|
  {
    if groups == [] then [] else Flatten(groups[..|groups| - 1]) + groups[|groups| - 1]
  }

  lemma GroupSnoc<T, K>(prev: seq<T>, x: T, key: T -> K, k: K)
    ensures Group(prev + [x], key, k) == if key(x) == k then Group(prev, key, k) + [x] else Group(prev, key, k)
  {
    assert (prev + [x])[..|prev|] == prev;
  }

  lemma KeysSnoc<T, K>(prev: seq<T>, x: T, key: T -> K)
    ensures Keys(prev + [x], key) == if key(x) in Keys(prev, key) then Keys(prev, key) else Keys(prev, key) + [key(x)]
  {
    assert (prev + [x])[..|prev|] == prev;
  }

  /** A key that no element has has an empty group. */
  lemma {:induction false} GroupOfAbsentKey<T, K>(xs: seq<T>, key: T -> K, k: K)
    requires k !in Keys(xs, key)
    ensures Group(xs, key, k) == []
    decreases |xs|
  {
    if xs != [] {
      var n := |xs| - 1;
      assert xs == xs[..n] + [xs[n]];
      KeysSnoc(xs[..n], xs[n], key);
      GroupSnoc(xs[..n], xs[n], key, k);
      GroupOfAbsentKey(xs[..n], key, k);
    }
  }

  /** The group of a key that some element has is not empty. */
  lemma {:induction false} GroupOfPresentKey<T, K>(xs: seq<T>, key: T -> K, k: K)
    requires k in Keys(xs, key)
    ensures Group(xs, key, k) != []
    decreases |xs|
  {
    var n := |xs| - 1;
    assert xs == xs[..n] + [xs[n]];
    KeysSnoc(xs[..n], xs[n], key);
    GroupSnoc(xs[..n], xs[n], key, k);
    if k in Keys(xs[..n], key) {
      GroupOfPresentKey(xs[..n], key, k);
    }
  }

  /** Appending an element with a known key extends that key's group and leaves the others. */
  lemma GroupsSnocKnown<T, K>(prev: seq<T>, x: T, key: T -> K, m: nat)
    requires m < |Keys(prev, key)| && Keys(prev, key)[m] == key(x)
    ensures Groups(prev + [x], key) == Groups(prev, key)[m := Groups(prev, key)[m] + [x]]
  {
    KeysSnoc(prev, x, key);
    var keys := Keys(prev, key);
    forall j | 0 <= j < |keys|
      ensures Groups(prev + [x], key)[j] == Groups(prev, key)[m := Groups(prev, key)[m] + [x]][j]
    {
      GroupSnoc(prev, x, key, keys[j]);
    }
  }

  /** Appending an element with a new key adds a group holding only that element. */
  lemma GroupsSnocNew<T, K>(prev: seq<T>, x: T, key: T -> K)
    requires key(x) !in Keys(prev, key)
    ensures Groups(prev + [x], key) == Groups(prev, key) + [[x]]
  {
    KeysSnoc(prev, x, key);
    var keys := Keys(prev, key);
    var before, after := Groups(prev, key), Groups(prev + [x], key);
    assert |after| == |before| + 1;
    forall j | 0 <= j < |after|
      ensures after[j] == (before + [[x]])[j]
    {
      if j < |keys| {
        GroupSnoc(prev, x, key, keys[j]);
      } else {
        GroupSnoc(prev, x, key, key(x));
        GroupOfAbsentKey(prev, key, key(x));
      }
    }
  }

  /** Appending to one group adds that element to the flattened multiset. */
  lemma FlattenAppendAt<T>(groups: seq<seq<T>>, m: nat, x: T)
    requires m < |groups|
    ensures multiset(Flatten(groups[m := groups[m] + [x]])) == multiset(Flatten(groups)) + multiset{x}
  {
    var before, after := groups[..m], groups[m + 1..];
    assert groups == before + [groups[m]] + after;
    assert groups[m := groups[m] + [x]] == before + [groups[m] + [x]] + after;
    FlattenConcat(before + [groups[m]], after);
    FlattenConcat(before, [groups[m]]);
    FlattenConcat(before + [groups[m] + [x]], after);
    FlattenConcat(before, [groups[m] + [x]]);
    assert Flatten([groups[m]]) == groups[m];
    assert Flatten([groups[m] + [x]]) == groups[m] + [x];
  }

  /** Flattening distributes over concatenation. */
  lemma {:induction false} FlattenConcat<T>(a: seq<seq<T>>, b: seq<seq<T>>)
    ensures Flatten(a + b) == Flatten(a) + Flatten(b)
    decreases |b|
  {
    if b == [] {
      assert a + b == a;
    } else {
      var n := |b| - 1;
      var ab := a + b;
      assert ab[..|ab| - 1] == a + b[..n];
      assert ab[|ab| - 1] == b[n];
      assert Flatten(ab) == Flatten(a + b[..n]) + b[n];
      FlattenConcat(a, b[..n]);
      assert Flatten(b) == Flatten(b[..n]) + b[n];
    }
  }

  /** Grouping loses no element and invents none: the groups together hold exactly the input. */
  lemma {:induction false} GroupsPartition<T, K>(xs: seq<T>, key: T -> K)
    ensures multiset(Flatten(Groups(xs, key))) == multiset(xs)
    decreases |xs|
  {
    if xs != [] {
      var n := |xs| - 1;
      var prev := xs[..n];
      var x := xs[n];
      assert xs == prev + [x];
      GroupsPartition(prev, key);
      var gs := Groups(prev, key);
      if key(x) in Keys(prev, key) {
        var m :| 0 <= m < |Keys(prev, key)| && Keys(prev, key)[m] == key(x);
        GroupsSnocKnown(prev, x, key, m);
        FlattenAppendAt(gs, m, x);
      } else {
        GroupsSnocNew(prev, x, key);
        assert (gs + [[x]])[..|gs|] == gs;
      }
    }
  }

  /** Without repeated elements in the input there are none within a group. */
  lemma {:induction false} GroupDistinct<T, K>(xs: seq<T>, key: T -> K, k: K)
    requires Distinct(xs)
    ensures Distinct(Group(xs, key, k))
    decreases |xs|
  {
    if xs != [] {
      var n := |xs| - 1;
      var prev := xs[..n];
      assert Distinct(prev) by {
        assert forall i :: 0 <= i < n ==> prev[i] == xs[i];
      }
      GroupDistinct(prev, key, k);
      var g := Group(prev, key, k);
      if key(xs[n]) == k {
        assert xs[n] !in prev;
        var full := g + [xs[n]];
        forall i, j | 0 <= i < j < |full|
          ensures full[i] != full[j]
        {
          if j == |g| {
            GroupMembers(prev, key, k);
            assert full[i] in prev;
          }
        }
      }
    }
  }

  // ---------------------------------------------- insertion-ordered dictionary

  /** The key of a dictionary item. */
  function KeyOf<K, V>(item: (K, V)): K
  {
    item.0
  }

  /** The values of a dictionary held as its items in insertion order: `d.values()`. */
  function Values<K, V>(d: seq<(K, V)>): (vs: seq<V>)
    ensures |vs| == |d| && forall i :: 0 <= i < |d| ==> vs[i] == d[i].1
  {
    seq(|d|, i requires 0 <= i < |d| => d[i].1)
  }

  /** `d[k] = v`: a key already present keeps its place and gets the new value; a new key goes last. */
  function DictSet<K(==), V>(d: seq<(K, V)>, k: K, v: V): seq<(K, V)>
  {
    var i := KeyIndex(d, k, 0);
    if i < |d| then d[i := (k, v)] else d + [(k, v)]
  }

  /** The first index at or after `from` whose key is `k`, or `|d|`. */
  function KeyIndex<K(==), V>(d: seq<(K, V)>, k: K, from: nat): (i: nat)
    requires from <= |d|
    ensures from <= i <= |d| && (i < |d| ==> d[i].0 == k)
    ensures forall j :: from <= j < i ==> d[j].0 != k
    decreases |d| - from
  {
    if from == |d| || d[from].0 == k then from else KeyIndex(d, k, from + 1)
  }

  /** The dictionary built by setting the items one after the other, as a comprehension does. */
  function DictOf<K(==), V>(items: seq<(K, V)>): seq<(K, V)>
    decreases |items|
  {
    if items == [] then []
    else
      var n := |items| - 1;
      DictSet(DictOf(items[..n]), items[n].0, items[n].1)
  }

  /** The keys of the dictionary are the keys of the items, each once, in order of first appearance. */
  lemma {:induction false} DictOfKeys<K, V>(items: seq<(K, V)>)
    ensures var d := DictOf(items);
      |d| == |Keys(items, KeyOf)| && forall i :: 0 <= i < |d| ==> d[i].0 == Keys(items, KeyOf)[i]
    decreases |items|
  {
    if items != [] {
      var n := |items| - 1;
      var prev := items[..n];
      DictOfKeys(prev);
      assert items == prev + [items[n]];
      KeysSnoc(prev, items[n], KeyOf);
      var d := DictOf(prev);
      var keys := Keys(prev, KeyOf);
      var i := KeyIndex(d, items[n].0, 0);
      if i < |d| {
        assert keys[i] == KeyOf(items[n]);
      }
    }
  }

  /** The value kept for a key is the value of its last item. */
  lemma {:induction false} DictOfLastValue<K, V>(items: seq<(K, V)>, i: nat, j: nat)
    requires j < |DictOf(items)| && i < |items| && items[i].0 == DictOf(items)[j].0
    requires forall m :: i < m < |items| ==> items[m].0 != items[i].0
    ensures DictOf(items)[j].1 == items[i].1
    decreases |items|
  {
    var n := |items| - 1;
    var prev := items[..n];
    var d := DictOf(prev);
    DictOfKeys(prev);
    var at := KeyIndex(d, items[n].0, 0);
    if i < n {
      assert items[n].0 != items[i].0;
      assert j != at;
      DictOfLastValue(prev, i, j);
    } else if at < |d| {
      assert j == at;
    }
  }

  /** No two elements share a key. */
  predicate KeysDistinct<T, K(==)>(xs: seq<T>, key: T -> K)
  {
    forall i, j :: 0 <= i < j < |xs| ==> key(xs[i]) != key(xs[j])
  }

  /** When no two elements of the input share a tag, no two elements of a group do. */
  lemma {:induction false} GroupKeysDistinct<T, K, B>(xs: seq<T>, key: T -> K, k: K, tag: T -> B)
    requires KeysDistinct(xs, tag)
    ensures KeysDistinct(Group(xs, key, k), tag)
    decreases |xs|
  {
    if xs != [] {
      var n := |xs| - 1;
      var prev := xs[..n];
      assert KeysDistinct(prev, tag);
      GroupKeysDistinct(prev, key, k, tag);
      var g := Group(prev, key, k);
      if key(xs[n]) == k {
        var full := g + [xs[n]];
        forall i, j | 0 <= i < j < |full|
          ensures tag(full[i]) != tag(full[j])
        {
          if j == |g| {
            GroupMembers(prev, key, k);
            assert full[i] in prev;
            var m :| 0 <= m < n && prev[m] == full[i];
          }
        }
      }
    }
  }

  /** When no two elements share a key, the keys are the elements' keys, in order. */
  lemma {:induction false} KeysOfDistinct<T, K>(xs: seq<T>, key: T -> K)
    requires KeysDistinct(xs, key)
    ensures |Keys(xs, key)| == |xs| && forall i :: 0 <= i < |xs| ==> Keys(xs, key)[i] == key(xs[i])
    decreases |xs|
  {
    if xs != [] {
      var n := |xs| - 1;
      var prev := xs[..n];
      assert KeysDistinct(prev, key);
      KeysOfDistinct(prev, key);
    }
  }

  /** With distinct keys, the dictionary holds every item, in order. */
  lemma DictOfDistinct<K, V>(items: seq<(K, V)>)
    requires KeysDistinct(items, KeyOf)
    ensures DictOf(items) == items
  {
    DictOfKeys(items);
    KeysOfDistinct(items, KeyOf);
    var d := DictOf(items);
    forall j | 0 <= j < |items|
      ensures d[j] == items[j]
    {
      DictOfLastValue(items, j, j);
    }
  }
}
