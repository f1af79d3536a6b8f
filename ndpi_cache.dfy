/**
 * `NdpiCache`: the bounded cache of read frames of the first NDPI tiler,
 * keyed by frame position. Every write appends the key to a history; when
 * the history is longer than the cache size, the oldest history entries are
 * dropped together with their content.
 */
module NdpiCaches {
  import opened Wrappers
  import opened PyBytes
  import opened Geometry

  /** The two fields of the cache: the stored frames and the write history. */
  datatype CacheState = CacheState(content: map<Point, bytes>, history: seq<Point>)

  /**
   * The state every write keeps when no key is written twice: each stored
   * key appears exactly once in the history, and nothing else does.
   */
  predicate Consistent(s: CacheState)
  {
    Distinct(s.history) && s.content.Keys == set k | k in s.history
  }

  /**
   * `_remove_old`: while the history is longer than `size`, pop its oldest
   * key and remove that key's content. Popping from an empty history (only
   * possible for a negative size) raises `IndexError`; a popped key with no
   * content raises `KeyError`, after the history was shortened.
   */
  function Evict(s: CacheState, size: int): (r: (CacheState, Result<()>))
    ensures r.1.Ok? ==> |r.0.history| <= size
    ensures |r.0.history| <= |s.history|
    ensures r.0.history == s.history[|s.history| - |r.0.history|..]
    decreases |s.history|
  {
    if |s.history| <= size then (s, Ok(()))
    else if s.history == [] then (s, Err(IndexError))
    else
      var key := s.history[0];
      if key !in s.content then (CacheState(s.content, s.history[1..]), Err(KeyError))
      else Evict(CacheState(s.content - {key}, s.history[1..]), size)
  }

  /** `__setitem__`: store, record in the history, evict. */
  function SetItem(s: CacheState, key: Point, value: bytes, size: int): (CacheState, Result<()>)
  {
    Evict(CacheState(s.content[key := value], s.history + [key]), size)
  }

  /** The keys of a dictionary given as its items in insertion order. */
  function Keys(items: seq<(Point, bytes)>): (r: seq<Point>)
    ensures |r| == |items| && forall i :: 0 <= i < |items| ==> r[i] == items[i].0
  {
    seq(|items|, i requires 0 <= i < |items| => items[i].0)
  }

  /** `dict.update` with items in order. */
  function UpdateMap(m: map<Point, bytes>, items: seq<(Point, bytes)>): (r: map<Point, bytes>)
    ensures r.Keys == m.Keys + set i | 0 <= i < |items| :: items[i].0
    decreases |items|
  {
    if items == [] then m
    else
      var n := |items| - 1;
      var r := UpdateMap(m, items[..n])[items[n].0 := items[n].1];
      assert forall i :: 0 <= i < n ==> items[..n][i] == items[i];
      r
  }

  /** `update`: store all items, append their keys to the history, evict. */
  function UpdateItems(s: CacheState, items: seq<(Point, bytes)>, size: int): (CacheState, Result<()>)
  {
    Evict(CacheState(UpdateMap(s.content, items), s.history + Keys(items)), size)
  }

  /**
   * Eviction from a consistent state never fails for a size of at least
   * zero, keeps the newest `size` history entries, stays consistent and
   * keeps the content of every surviving key.
   */
  lemma {:induction false} EvictConsistent(s: CacheState, size: int)
    requires Consistent(s) && size >= 0
    ensures var (t, r) := Evict(s, size);
      r.Ok? && Consistent(t)
      && |t.history| == Min(|s.history|, size)
      && forall k :: k in t.content ==> k in s.content && t.content[k] == s.content[k]
    decreases |s.history|
  {
    if |s.history| > size {
      var key := s.history[0];
      assert key in s.content;
      var next := CacheState(s.content - {key}, s.history[1..]);
      PopOldestConsistent(s);
      EvictConsistent(next, size);
    }
  }

  /** Popping the oldest key and its content keeps a state consistent. */
  lemma PopOldestConsistent(s: CacheState)
    requires Consistent(s) && s.history != []
    ensures Consistent(CacheState(s.content - {s.history[0]}, s.history[1..]))
  {
    var key := s.history[0];
    var next := CacheState(s.content - {key}, s.history[1..]);
    forall k | k in next.history
      ensures k != key && k in s.content
    {
      var i :| 0 <= i < |next.history| && next.history[i] == k;
      assert s.history[i + 1] == k;
    }
    forall k | k in s.content && k != key
      ensures k in next.history
    {
      var i :| 0 <= i < |s.history| && s.history[i] == k;
      assert i != 0;
      assert next.history[i - 1] == k;
    }
  }

  /**
   * Writing a key that is not stored into a consistent cache of positive
   * size succeeds, reads back the written value, keeps the state consistent,
   * and at most `size` keys stay; when the cache was full, exactly the oldest
   * key is evicted.
   */
  lemma SetNewKey(s: CacheState, key: Point, value: bytes, size: int)
    requires Consistent(s) && key !in s.content && size >= 1
    ensures var (t, r) := SetItem(s, key, value, size);
      r.Ok? && Consistent(t) && key in t.content && t.content[key] == value
      && |t.history| == Min(|s.history| + 1, size)
      && (|s.history| == size ==> t.history == s.history[1..] + [key])
  {
    var grown := CacheState(s.content[key := value], s.history + [key]);
    GrownConsistent(s, key, value);
    EvictConsistent(grown, size);
    var t := Evict(grown, size).0;
    NewestSurvives(grown, size);
    if |s.history| == size {
      assert t.history == grown.history[1..];
      DropOldestOfAppended(s.history, key);
    }
  }

  /** Appending a key and then dropping the oldest is dropping the oldest and then appending. */
  lemma DropOldestOfAppended(history: seq<Point>, key: Point)
    requires history != []
    ensures (history + [key])[1..] == history[1..] + [key]
  {
    var a, b := (history + [key])[1..], history[1..] + [key];
    assert |a| == |b|;
    forall i | 0 <= i < |a|
      ensures a[i] == b[i]
    {
      if i < |history| - 1 {
        assert a[i] == history[i + 1] == b[i];
      }
    }
  }

  lemma GrownConsistent(s: CacheState, key: Point, value: bytes)
    requires Consistent(s) && key !in s.content
    ensures Consistent(CacheState(s.content[key := value], s.history + [key]))
  {
    assert key !in s.history;
  }

  /** Eviction to a positive size keeps the newest history entry, with its content. */
  lemma NewestSurvives(s: CacheState, size: int)
    requires Consistent(s) && size >= 1 && s.history != []
    ensures var t := Evict(s, size).0;
      var key := s.history[|s.history| - 1];
      key in t.history && key in t.content && t.content[key] == s.content[key]
  {
    EvictConsistent(s, size);
    var t := Evict(s, size).0;
    assert t.history[|t.history| - 1] == s.history[|s.history| - 1];
  }

  /**
   * `update` with fresh, distinct keys into a consistent cache of positive
   * size succeeds and keeps the newest `size` of the old history followed by
   * the new keys: in a full cache of ten, updating with keys 11..19 leaves
   * key 10 and keys 11..19 in that order.
   */
  lemma UpdateNewKeys(s: CacheState, items: seq<(Point, bytes)>, size: int)
    requires Consistent(s) && size >= 1 && Distinct(Keys(items))
    requires forall i :: 0 <= i < |items| ==> items[i].0 !in s.content
    ensures var (t, r) := UpdateItems(s, items, size);
      var all := s.history + Keys(items);
      r.Ok? && Consistent(t) && t.history == all[|all| - Min(|all|, size)..]
  {
    var all := s.history + Keys(items);
    var grown := CacheState(UpdateMap(s.content, items), all);
    NewKeysStayDistinct(s, items);
    UpdatedKeysAreHistory(s, items);
    EvictConsistent(grown, size);
  }

  /** Appending distinct keys that are not stored keeps the history free of repeats. */
  lemma NewKeysStayDistinct(s: CacheState, items: seq<(Point, bytes)>)
    requires Consistent(s) && Distinct(Keys(items))
    requires forall i :: 0 <= i < |items| ==> items[i].0 !in s.content
    ensures Distinct(s.history + Keys(items))
  {
    var all := s.history + Keys(items);
    forall i, j | 0 <= i < j < |all|
      ensures all[i] != all[j]
    {
      if j >= |s.history| && i < |s.history| {
        assert all[j] == items[j - |s.history|].0;
        assert all[i] in s.content;
      }
    }
  }

  /** After `dict.update`, the stored keys are those of the history with the new keys appended. */
  lemma UpdatedKeysAreHistory(s: CacheState, items: seq<(Point, bytes)>)
    requires Consistent(s)
    ensures UpdateMap(s.content, items).Keys == set k | k in s.history + Keys(items)
  {
    var all := s.history + Keys(items);
    var m := UpdateMap(s.content, items);
    forall k | k in all
      ensures k in m
    {
      var i :| 0 <= i < |all| && all[i] == k;
      if i >= |s.history| {
        assert k == items[i - |s.history|].0;
      }
    }
    forall k | k in m
      ensures k in all
    {
      if k !in s.content {
        var i :| 0 <= i < |items| && items[i].0 == k;
        assert all[|s.history| + i] == k;
      }
    }
  }

  /**
   * The cache as written breaks when a stored key is written again: the key
   * gets a second history entry, and the eviction that pops the second one
   * finds no content. With size 2, writing A, A, B and then C raises
   * `KeyError`.
   */
  lemma RepeatedKeyBreaksEviction(a: Point, b: Point, c: Point)
    requires a != b && a != c && b != c
    ensures SetItem(CacheState(map[], []), a, [1], 2) == (CacheState(map[a := [1]], [a]), Ok(()))
    ensures SetItem(CacheState(map[a := [1]], [a]), a, [2], 2) == (CacheState(map[a := [2]], [a, a]), Ok(()))
    ensures SetItem(CacheState(map[a := [2]], [a, a]), b, [3], 2) == (CacheState(map[b := [3]], [a, b]), Ok(()))
    ensures SetItem(CacheState(map[b := [3]], [a, b]), c, [4], 2).1 == Err(KeyError)
  {
    FirstWrites(a);
    ThirdWrite(a, b);
    FourthWrite(a, b, c);
  }

  lemma FirstWrites(a: Point)
    ensures SetItem(CacheState(map[], []), a, [1], 2) == (CacheState(map[a := [1]], [a]), Ok(()))
    ensures SetItem(CacheState(map[a := [1]], [a]), a, [2], 2) == (CacheState(map[a := [2]], [a, a]), Ok(()))
  {
    FirstWrite(a);
    SecondWrite(a);
  }

  lemma FirstWrite(a: Point)
    ensures SetItem(CacheState(map[], []), a, [1], 2) == (CacheState(map[a := [1]], [a]), Ok(()))
  {
    var e: seq<Point> := [];
    assert e + [a] == [a];
    assert CacheState(map[][a := [1]], e + [a]) == CacheState(map[a := [1]], [a]);
  }

  lemma SecondWrite(a: Point)
    ensures SetItem(CacheState(map[a := [1]], [a]), a, [2], 2) == (CacheState(map[a := [2]], [a, a]), Ok(()))
  {
    assert [a] + [a] == [a, a];
    assert map[a := [1]][a := [2]] == map[a := [2]];
  }

  lemma ThirdWrite(a: Point, b: Point)
    requires a != b
    ensures SetItem(CacheState(map[a := [2]], [a, a]), b, [3], 2) == (CacheState(map[b := [3]], [a, b]), Ok(()))
  {
    assert [a, a] + [b] == [a, a, b];
    var g := CacheState(map[a := [2]][b := [3]], [a, a, b]);
    assert g.history[0] == a && a in g.content;
    var n := CacheState(g.content - {a}, g.history[1..]);
    assert Evict(g, 2) == Evict(n, 2);
    assert n.content == map[b := [3]];
    assert n.history == [a, b];
  }

  lemma FourthWrite(a: Point, b: Point, c: Point)
    requires a != b && a != c
    ensures SetItem(CacheState(map[b := [3]], [a, b]), c, [4], 2).1 == Err(KeyError)
  {
    assert [a, b] + [c] == [a, b, c];
    var g := CacheState(map[b := [3]][c := [4]], [a, b, c]);
    assert g.history[0] == a && a !in g.content;
  }

  /** `s` without any occurrence of `key`. */
  function Remove(s: seq<Point>, key: Point): (r: seq<Point>)
    ensures forall k :: k in r <==> k in s && k != key
    ensures Distinct(s) ==> Distinct(r)
    ensures key !in s ==> r == s
    ensures |r| <= |s|
  {
    if s == [] then []
    else
      var rest := Remove(s[1..], key);
      if s[0] == key then rest
      else
        assert Distinct(s) ==> s[0] !in rest;
        [s[0]] + rest
  }

  /**
   * The write the cache evidently intends: a key written again moves to the
   * newest history slot instead of gaining a second entry.
   */
  function SetItemReplacing(s: CacheState, key: Point, value: bytes, size: int): (CacheState, Result<()>)
  {
    Evict(CacheState(s.content[key := value], Remove(s.history, key) + [key]), size)
  }

  /**
   * The corrected write keeps a consistent cache of positive size consistent
   * for every key, never fails, and reads back the written value.
   */
  lemma SetReplacingConsistent(s: CacheState, key: Point, value: bytes, size: int)
    requires Consistent(s) && size >= 1
    ensures var (t, r) := SetItemReplacing(s, key, value, size);
      r.Ok? && Consistent(t) && key in t.content && t.content[key] == value
      && |t.history| <= size
  {
    var h := Remove(s.history, key) + [key];
    var grown := CacheState(s.content[key := value], h);
    assert Distinct(h);
    assert grown.content.Keys == set k | k in h;
    EvictConsistent(grown, size);
    NewestSurvives(grown, size);
  }

  /** For a key that is not stored, the corrected write is the write as written. */
  lemma SetReplacingAgrees(s: CacheState, key: Point, value: bytes, size: int)
    requires Consistent(s) && key !in s.content
    ensures SetItemReplacing(s, key, value, size) == SetItem(s, key, value, size)
  {
    assert key !in s.history;
  }

  /** The cache object: its size, the stored frames and the write history. */
  class NdpiCache {
    const size: int
    var content: map<Point, bytes>
    var history: seq<Point>

    function State(): CacheState
      reads this
    {
      CacheState(content, history)
    }

    constructor (size: int)
      ensures this.size == size && content == map[] && history == []
    {
      this.size := size;
      content := map[];
      history := [];
    }

    /** `__len__`: the number of history entries, which a repeated key counts twice. */
    function Len(): (r: nat)
      reads this
      ensures r == |history|
    {
      |history|
    }

    /** `__contains__`. */
    predicate Contains(key: Point)
      reads this
    {
      key in content
    }

    /** `__getitem__`: the stored frame, or `KeyError`. */
    function Get(key: Point): (r: Result<bytes>)
      reads this
      ensures r.Ok? <==> key in content
      ensures r.Ok? ==> r.value == content[key]
      ensures r.Err? ==> r.error == KeyError
    {
      if key in content then Ok(content[key]) else Err(KeyError)
    }

    /** `_remove_old`, the eviction loop. */
    method RemoveOld() returns (r: Result<()>)
      modifies this
      ensures (State(), r) == Evict(old(State()), size)
    {
      while |history| > size
        invariant Evict(State(), size) == Evict(old(State()), size)
        decreases |history|
      {
        if history == [] {
          return Err(IndexError);
        }
        var key := history[0];
        history := history[1..];
        if key !in content {
          return Err(KeyError);
        }
        content := content - {key};
      }
      return Ok(());
    }

    /** `__setitem__`. */
    method Set(key: Point, value: bytes) returns (r: Result<()>)
      modifies this
      ensures (State(), r) == SetItem(old(State()), key, value, size)
    {
      content := content[key := value];
      history := history + [key];
      r := RemoveOld();
    }

    /** `update` with a dictionary given as its items in insertion order. */
    method Update(items: seq<(Point, bytes)>) returns (r: Result<()>)
      modifies this
      ensures (State(), r) == UpdateItems(old(State()), items, size)
    {
      content := UpdateMap(content, items);
      history := history + Keys(items);
      r := RemoveOld();
    }

    /** The corrected `__setitem__`: a rewritten key keeps one history entry. */
    method SetReplacing(key: Point, value: bytes) returns (r: Result<()>)
      modifies this
      ensures (State(), r) == SetItemReplacing(old(State()), key, value, size)
    {
      content := content[key := value];
      history := Remove(history, key) + [key];
      r := RemoveOld();
    }
  }

  /**
   * The frame cache as the first tiler's `_create_tiles` uses it: a stored
   * frame is returned as it is; otherwise the frame is read and stored. This
   * caller only writes keys that are not stored, so a consistent cache of
   * positive size stays consistent and never fails.
   */
  method CachedFrame(cache: NdpiCache, position: Point, read: Point -> bytes) returns (frame: bytes, r: Result<()>)
    requires Consistent(cache.State()) && cache.size >= 1
    modifies cache
    ensures r.Ok? && Consistent(cache.State())
    ensures position in old(cache.content) ==> frame == old(cache.content)[position] && cache.State() == old(cache.State())
    ensures position !in old(cache.content) ==>
      frame == read(position) && position in cache.content && cache.content[position] == frame
      && cache.history == (old(cache.history) + [position])[|old(cache.history)| + 1 - Min(|old(cache.history)| + 1, cache.size)..]
  {
    if cache.Contains(position) {
      frame := cache.Get(position).value;
      r := Ok(());
    } else {
      frame := read(position);
      SetNewKey(cache.State(), position, frame, cache.size);
      r := cache.Set(position, frame);
    }
  }
}
