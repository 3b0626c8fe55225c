/**
 * The vector cache the lookup consults. Its own source (FifoCache.py) is not part
 * of this model: what the lookup relies on is `has_key`, `get` (called only after
 * `has_key` said yes) and `put`, where `put` keeps the new entry and may evict
 * older ones to stay within capacity. The body evicts the oldest insertion, as the
 * class's name says; no contract below promises which entry goes.
 */
module Cache {

  class FifoCache<V> {
    /** The cached entries, keyed by word id. */
    var entries: map<nat, V>
    /** The keys of `entries`, oldest insertion first. */
    var order: seq<nat>
    const capacity: nat

    ghost predicate Valid()
      reads this
    {
      && 1 <= capacity
      && |order| <= capacity
      && (forall i, j :: 0 <= i < j < |order| ==> order[i] != order[j])
      && (forall k :: k in entries <==> k in order)
    }

    constructor (capacity: nat)
      requires 1 <= capacity
      ensures Valid()
      ensures this.capacity == capacity && entries == map[]
    {
      this.capacity := capacity;
      entries := map[];
      order := [];
    }

    /** `cache.has_key(k)`. */
    method HasKey(k: nat) returns (present: bool)
      requires Valid()
      ensures present <==> k in entries
    {
      present := k in entries;
    }

    /** `cache[k]`, for a key the cache holds. */
    method Get(k: nat) returns (v: V)
      requires Valid()
      requires k in entries
      ensures v == entries[k]
    {
      v := entries[k];
    }

    /**
     * `cache[k] = v`: afterwards `k` maps to `v`, and every other entry is one the
     * cache held before, with the value it had.
     */
    method Put(k: nat, v: V)
      requires Valid()
      modifies this
      ensures Valid()
      ensures k in entries && entries[k] == v
      ensures forall j :: j in entries && j != k ==> j in old(entries) && entries[j] == old(entries)[j]
    {
      if k !in entries {
        if |order| == capacity {
          var oldest := order[0];
          entries := map j | j in entries && j != oldest :: entries[j];
          order := order[1..];
        }
        order := order + [k];
      }
      entries := entries[k := v];
    }
  }
}
