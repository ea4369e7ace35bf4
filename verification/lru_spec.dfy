/**
 * The bounded TTL-LRU cache of main.go as values: the state of an `LRUCache`
 * (its capacity, the index `items` and the recency list `evictList`) and one
 * function per operation giving the state after it. Time is an integer
 * (nanoseconds, like Go's `time.Duration`) and the clock reading `now` is a
 * parameter of every operation that reads the clock.
 */
module LruSpec {
  import opened Recency

  datatype Option<T> = None | Some(value: T)

  /** A `CacheItem`: the key it is stored under, its value and its expiration (None: never). */
  datatype Entry<V> = Entry(key: string, value: V, expiration: Option<int>)

  /** An entry is expired at `now` only when its expiration lies strictly before `now`. */
  predicate Expired<V>(e: Entry<V>, now: int) {
    e.expiration.Some? && e.expiration.value < now
  }

  /** The fields of an `LRUCache`; `evictList` holds keys, most recently used first. */
  datatype Cache<V> = Cache(capacity: int, items: map<string, Entry<V>>, evictList: seq<string>)

  /**
   * The index and the recency list agree: the list has no duplicate key, it
   * holds exactly the keys of the index, and every entry records its own key.
   */
  ghost predicate Inv<V>(c: Cache<V>) {
    && Distinct(c.evictList)
    && (forall k :: k in c.items <==> k in c.evictList)
    && (forall k :: k in c.items ==> c.items[k].key == k)
  }

  /** The size bound; eviction fires only when the size equals the capacity, so it needs capacity >= 1. */
  predicate WithinCapacity<V>(c: Cache<V>) {
    c.capacity >= 1 ==> |c.evictList| <= c.capacity
  }

  /** `NewLRUCache(capacity)`. */
  function New<V>(capacity: int): (c: Cache<V>)
    ensures Inv(c) && WithinCapacity(c)
    ensures c.capacity == capacity && c.items == map[] && c.evictList == []
  {
    Cache(capacity, map[], [])
  }

  /** `removeElement(elem)`: unlink the element and delete its item's key from the index. */
  function RemoveElement<V>(c: Cache<V>, elem: string): (r: Cache<V>)
    requires Inv(c) && elem in c.evictList
    ensures Inv(r)
    ensures WithinCapacity(c) ==> WithinCapacity(r)
    ensures r.capacity == c.capacity
    ensures r.items.Keys == c.items.Keys - {elem}
    ensures forall k :: k in r.items ==> r.items[k] == c.items[k]
    ensures r.evictList == Remove(c.evictList, elem)
    ensures |r.evictList| == |c.evictList| - 1
  {
    var item := c.items[elem];
    c.(evictList := Remove(c.evictList, elem), items := c.items - {item.key})
  }

  /** `evictOldest()`: remove the back of the list, if there is one. */
  function EvictOldest<V>(c: Cache<V>): (r: Cache<V>)
    requires Inv(c)
    ensures Inv(r)
    ensures WithinCapacity(c) ==> WithinCapacity(r)
    ensures r.capacity == c.capacity
    ensures forall k :: k in r.items ==> k in c.items && r.items[k] == c.items[k]
    ensures |c.evictList| == 0 ==> r == c
    ensures |c.evictList| > 0 ==>
      && r.evictList == c.evictList[..|c.evictList| - 1]
      && r.items.Keys == c.items.Keys - {c.evictList[|c.evictList| - 1]}
  {
    if |c.evictList| > 0 then
      RemoveAt(c.evictList, |c.evictList| - 1);
      RemoveElement(c, c.evictList[|c.evictList| - 1])
    else
      c
  }

  /**
   * `Set(key, value, duration)` at time `now`: refresh an indexed key in place
   * and move it to the front, or else evict the back when the size equals the
   * capacity and push a new entry to the front.
   */
  function Set<V>(c: Cache<V>, key: string, value: V, duration: int, now: int): (r: Cache<V>)
    requires Inv(c)
    ensures Inv(r)
    ensures r.capacity == c.capacity
    ensures key in r.items && r.items[key] == Entry(key, value, Some(now + duration))
    ensures r.evictList[0] == key
  {
    if key in c.items then
      var item := c.items[key];
      c.(evictList := MoveToFront(c.evictList, key),
         items := c.items[key := item.(value := value, expiration := Some(now + duration))])
    else
      var d := if |c.evictList| == c.capacity then EvictOldest(c) else c;
      d.(evictList := [key] + d.evictList,
         items := d.items[key := Entry(key, value, Some(now + duration))])
  }

  /**
   * `Get(key)` at time `now`: the new state and the value found (None for
   * `(nil, false)`). An expired entry is removed; a live one moves to the front.
   */
  function Get<V>(c: Cache<V>, key: string, now: int): (r: (Cache<V>, Option<V>))
    requires Inv(c)
    ensures Inv(r.0)
    ensures WithinCapacity(c) ==> WithinCapacity(r.0)
    ensures r.0.capacity == c.capacity
    ensures r.1.Some? <==> key in c.items && !Expired(c.items[key], now)
    ensures r.1.Some? ==> r.1.value == c.items[key].value
  {
    if key in c.items then
      var item := c.items[key];
      if Expired(item, now) then
        (RemoveElement(c, key), None)
      else
        (c.(evictList := MoveToFront(c.evictList, key)), Some(item.value))
    else
      (c, None)
  }
}
