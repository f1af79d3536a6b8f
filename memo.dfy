/**
 * Dictionaries that remember what was computed for a key: the `_pages`
 * dictionaries behind the tilers' `get_page`, and the `_fixed_tiles`
 * dictionary behind an SVS level's `_get_fixed_tile`. The first request for
 * a key computes its value and stores it, unless the computation raised;
 * every later request returns the stored value without computing again.
 */
module Memo {
  import opened Wrappers

  class Memo<K(==, !new), V> {
    /** How the value of a key is computed (creating a page, repairing a tile). */
    const compute: K -> Result<V>
    /** The dictionary. */
    var stored: map<K, V>
    /** The keys whose value was computed and stored, in the order it happened. */
    ghost var computed: seq<K>

    /**
     * Every stored value is what `compute` gives for its key, and the keys
     * stored are exactly the keys computed, each of them once.
     */
    ghost predicate Valid()
      reads this
    {
      (forall k :: k in stored ==> compute(k) == Ok(stored[k]))
      && (forall k :: k in stored <==> k in computed)
      && (forall i, j :: 0 <= i < j < |computed| ==> computed[i] != computed[j])
    }

    constructor(compute: K -> Result<V>)
      ensures Valid()
      ensures this.compute == compute && stored == map[] && computed == []
    {
      this.compute := compute;
      stored := map[];
      computed := [];
    }

    /**
     * The value of `key`: the stored one when there is one, otherwise the
     * computed one, which is stored when the computation did not raise.
     */
    method Get(key: K) returns (r: Result<V>)
      requires Valid()
      modifies this
      ensures Valid()
      ensures r == compute(key)
      ensures key in old(stored) ==> r == Ok(old(stored)[key]) && stored == old(stored) && computed == old(computed)
      ensures key !in old(stored) && r.Ok? ==> stored == old(stored)[key := r.value] && computed == old(computed) + [key]
      ensures key !in old(stored) && r.Err? ==> stored == old(stored) && computed == old(computed)
    {
      if key in stored {
        return Ok(stored[key]);
      }
      r := compute(key);
      if r.Ok? {
        stored := stored[key := r.value];
        computed := computed + [key];
      }
    }
  }
}
