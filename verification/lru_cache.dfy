/**
 * `LRUCache` of main.go as a class whose methods update its fields in place.
 * Each method is proved to leave the fields in the state that the matching
 * function of LruSpec gives, so every lemma of LruProperties applies to it.
 */
module LruCache {
  import opened Recency
  import LruSpec
  import LruProperties

  class LRUCache<V> {
    const capacity: int
    /** The index: key to its entry (the Go map from key to list element). */
    var items: map<string, LruSpec.Entry<V>>
    /** The recency list, front (most recently used) at index 0. */
    var evictList: seq<string>

    /** The fields as a value of LruSpec. */
    ghost function Model(): LruSpec.Cache<V>
      reads this
    {
      LruSpec.Cache(capacity, items, evictList)
    }

    /** The index and list agree, and for capacity >= 1 the size is within it. */
    ghost predicate Valid()
      reads this
    {
      LruSpec.Inv(Model()) && LruSpec.WithinCapacity(Model())
    }

    /** `NewLRUCache(capacity)`: an empty index and an empty list. */
    constructor (capacity: int)
      ensures Valid()
      ensures Model() == LruSpec.New(capacity)
      ensures this.capacity == capacity && items == map[] && evictList == []
    {
      this.capacity := capacity;
      items := map[];
      evictList := [];
    }

    /** `Set(key, value, duration)` with the clock reading `now`. */
    method Set(key: string, value: V, duration: int, now: int)
      requires Valid()
      modifies this
      ensures Valid()
      ensures Model() == LruSpec.Set(old(Model()), key, value, duration, now)
      ensures key in items && items[key].value == value && items[key].expiration == LruSpec.Some(now + duration)
      ensures evictList[0] == key
    {
      if key in items {
        evictList := MoveToFront(evictList, key);
        var item := items[key];
        items := items[key := item.(value := value, expiration := LruSpec.Some(now + duration))];
        return;
      }

      if |evictList| == capacity {
        EvictOldest();
      }
      var expiration := now + duration;
      evictList := [key] + evictList;
      items := items[key := LruSpec.Entry(key, value, LruSpec.Some(expiration))];
      assert LruSpec.WithinCapacity(Model()) by {
        LruProperties.SetWithinCapacity(old(Model()), key, value, duration, now);
      }
    }

    /** `Get(key)` with the clock reading `now`; None stands for `(nil, false)`. */
    method Get(key: string, now: int) returns (r: LruSpec.Option<V>)
      requires Valid()
      modifies this
      ensures Valid()
      ensures (Model(), r) == LruSpec.Get(old(Model()), key, now)
      ensures r.Some? <==> key in old(items) && !LruSpec.Expired(old(items)[key], now)
      ensures r.Some? ==> r.value == old(items)[key].value && evictList[0] == key
    {
      if key in items {
        var item := items[key];
        if item.expiration.Some? && item.expiration.value < now {
          RemoveElement(key);
          return LruSpec.None;
        }
        evictList := MoveToFront(evictList, key);
        return LruSpec.Some(item.value);
      }
      return LruSpec.None;
    }

    /** `evictOldest()`: remove the back of the list when there is one. */
    method EvictOldest()
      requires Valid()
      modifies this
      ensures Valid()
      ensures Model() == LruSpec.EvictOldest(old(Model()))
    {
      if |evictList| > 0 {
        var elem := evictList[|evictList| - 1];
        RemoveElement(elem);
      }
    }

    /** `removeElement(elem)`: unlink `elem` and delete its item's key from the index. */
    method RemoveElement(elem: string)
      requires Valid() && elem in evictList
      modifies this
      ensures Valid()
      ensures Model() == LruSpec.RemoveElement(old(Model()), elem)
    {
      evictList := Remove(evictList, elem);
      var item := items[elem];
      items := items - {item.key};
    }
  }
}
