/**
 * What the cache promises, proved about the state functions of LruSpec:
 * the size bound, the exact effect of each path through Set and Get,
 * a Set followed by a Get, and the invariant over any sequence of calls.
 */
module LruProperties {
  import opened Recency
  import opened LruSpec

  /** With capacity >= 1, Set never takes the size past the capacity. */
  lemma SetWithinCapacity<V>(c: Cache<V>, key: string, value: V, duration: int, now: int)
    requires Inv(c) && WithinCapacity(c)
    ensures WithinCapacity(Set(c, key, value, duration, now))
  {
    if key in c.items {
    } else if |c.evictList| == c.capacity && c.capacity >= 1 {
      assert |EvictOldest(c).evictList| == |c.evictList| - 1;
    }
  }

  /**
   * Set on an indexed key: same keys and size, nothing evicted, the key at the
   * front with the new value and expiration `now + duration` (even if it had
   * expired), the other keys in the same order with the same entries.
   */
  lemma SetExistingKey<V>(c: Cache<V>, key: string, value: V, duration: int, now: int)
    requires Inv(c) && key in c.items
    ensures var r := Set(c, key, value, duration, now);
      && r.items.Keys == c.items.Keys
      && |r.evictList| == |c.evictList|
      && r.evictList[0] == key
      && r.items[key] == Entry(key, value, Some(now + duration))
      && (forall t :: t <= now + duration ==> !Expired(r.items[key], t))
      && Remove(r.evictList, key) == Remove(c.evictList, key)
      && (forall k :: k in c.items && k != key ==> r.items[k] == c.items[k])
  {
  }

  /**
   * Set on a new key when the list is full: exactly the back key is evicted,
   * expired or not; the new key goes to the front; every other key keeps its
   * entry and its place in the order.
   */
  lemma SetNewKeyWhenFull<V>(c: Cache<V>, key: string, value: V, duration: int, now: int)
    requires Inv(c) && key !in c.items && |c.evictList| == c.capacity >= 1
    ensures var r := Set(c, key, value, duration, now);
      var victim := c.evictList[|c.evictList| - 1];
      && r.evictList == [key] + c.evictList[..|c.evictList| - 1]
      && victim !in r.items
      && r.items.Keys == c.items.Keys - {victim} + {key}
      && |r.evictList| == |c.evictList|
      && r.items[key] == Entry(key, value, Some(now + duration))
      && (forall k :: k in c.items && k != victim ==> r.items[k] == c.items[k])
  {
    var victim := c.evictList[|c.evictList| - 1];
    var d := EvictOldest(c);
    assert victim !in d.evictList by {
      assert victim !in c.evictList[..|c.evictList| - 1];
    }
    assert key != victim;
  }

  /** Set on a new key with room to spare: nothing is evicted and the key goes to the front. */
  lemma SetNewKeyWithRoom<V>(c: Cache<V>, key: string, value: V, duration: int, now: int)
    requires Inv(c) && key !in c.items && |c.evictList| != c.capacity
    ensures var r := Set(c, key, value, duration, now);
      && r.evictList == [key] + c.evictList
      && r.items == c.items[key := Entry(key, value, Some(now + duration))]
  {
  }

  /** Get on a live key: its value, the key moved to the front, the keys and all entries unchanged. */
  lemma GetLive<V>(c: Cache<V>, key: string, now: int)
    requires Inv(c) && key in c.items && !Expired(c.items[key], now)
    ensures var (r, found) := Get(c, key, now);
      && found == Some(c.items[key].value)
      && r.items == c.items
      && r.evictList[0] == key
      && |r.evictList| == |c.evictList|
      && Remove(r.evictList, key) == Remove(c.evictList, key)
  {
  }

  /** Get on an expired key: absent, and the key leaves both the index and the list; the rest keep their order. */
  lemma GetExpired<V>(c: Cache<V>, key: string, now: int)
    requires Inv(c) && key in c.items && Expired(c.items[key], now)
    ensures var (r, found) := Get(c, key, now);
      && found == None
      && key !in r.items && key !in r.evictList
      && r.items == c.items - {key}
      && r.evictList == Remove(c.evictList, key)
      && |r.evictList| == |c.evictList| - 1
  {
  }

  /** Get on a missing key: absent, nothing changes. */
  lemma GetMissing<V>(c: Cache<V>, key: string, now: int)
    requires Inv(c) && key !in c.items
    ensures Get(c, key, now) == (c, None)
  {
  }

  /** Set at `now`, then Get at any `t <= now + duration`, returns the value set; after that, absent. */
  lemma SetThenGet<V>(c: Cache<V>, key: string, value: V, duration: int, now: int, t: int)
    requires Inv(c)
    ensures var after := Get(Set(c, key, value, duration, now), key, t).1;
      after == if t <= now + duration then Some(value) else None
  {
  }

  /** A call of the cache's public interface. */
  datatype Call<V> = SetCall(key: string, value: V, duration: int, now: int) | GetCall(key: string, now: int)

  /** The state after a sequence of calls, applied one at a time. */
  function Run<V>(c: Cache<V>, calls: seq<Call<V>>): (r: Cache<V>)
    requires Inv(c)
    ensures Inv(r) && r.capacity == c.capacity
    decreases |calls|
  {
    if calls == [] then c
    else
      var next := match calls[0]
        case SetCall(k, v, d, n) => Set(c, k, v, d, n)
        case GetCall(k, n) => Get(c, k, n).0;
      Run(next, calls[1..])
  }

  /** Every state reached from NewLRUCache keeps the index and list in step and, for capacity >= 1, within capacity. */
  lemma {:induction false} RunWithinCapacity<V>(c: Cache<V>, calls: seq<Call<V>>)
    requires Inv(c) && WithinCapacity(c)
    ensures WithinCapacity(Run(c, calls))
    decreases |calls|
  {
    if calls != [] {
      match calls[0]
      case SetCall(k, v, d, n) =>
        SetWithinCapacity(c, k, v, d, n);
        RunWithinCapacity(Set(c, k, v, d, n), calls[1..]);
      case GetCall(k, n) =>
        RunWithinCapacity(Get(c, k, n).0, calls[1..]);
    }
  }

  /** Under the invariant the index and the list have the same size. */
  lemma SizeAgrees<V>(c: Cache<V>)
    requires Inv(c)
    ensures |c.items| == |c.evictList|
  {
    DistinctCardinality(c.evictList);
    assert c.items.Keys == Elements(c.evictList);
  }

  /**
   * Set evicts nothing when the key is already indexed, when there is room
   * below the capacity, or when the capacity is not positive; the index then
   * changes exactly as a plain map assignment would change it.
   */
  lemma SetWithoutEviction<V>(c: Cache<V>, key: string, value: V, duration: int, now: int)
    requires Inv(c) && (key in c.items || c.capacity <= 0 || |c.items| < c.capacity)
    ensures Set(c, key, value, duration, now).items == c.items[key := Entry(key, value, Some(now + duration))]
  {
    SizeAgrees(c);
  }

  /** Every call in the sequence is a Set. */
  predicate OnlySets<V>(calls: seq<Call<V>>) {
    forall i :: 0 <= i < |calls| ==> calls[i].SetCall?
  }

  /** The keys the calls name. */
  ghost function CallKeys<V>(calls: seq<Call<V>>): set<string>
    decreases |calls|
  {
    if calls == [] then {} else {calls[0].key} + CallKeys(calls[1..])
  }

  /**
   * The reference: the map an unbounded dictionary would hold after the Sets,
   * each key bound to the entry of its last Set.
   */
  ghost function Assigned<V>(items: map<string, Entry<V>>, calls: seq<Call<V>>): (m: map<string, Entry<V>>)
    requires OnlySets(calls)
    ensures m.Keys == items.Keys + CallKeys(calls)
    decreases |calls|
  {
    if calls == [] then items
    else
      var call := calls[0];
      assert OnlySets(calls[1..]) by {
        forall i | 0 <= i < |calls[1..]| ensures calls[1..][i].SetCall? { assert calls[1..][i] == calls[i + 1]; }
      }
      Assigned(items[call.key := Entry(call.key, call.value, Some(call.now + call.duration))], calls[1..])
  }

  /** The keys of the index and of the calls fit in the capacity, or the capacity is not positive. */
  ghost predicate Fits<V>(c: Cache<V>, calls: seq<Call<V>>) {
    c.capacity <= 0 || |c.items.Keys + CallKeys(calls)| <= c.capacity
  }

  /** The first Set of a fitting sequence finds its key indexed, or room for it, or a capacity that is not positive. */
  lemma FitsLeavesRoom<V>(c: Cache<V>, calls: seq<Call<V>>)
    requires calls != [] && Fits(c, calls)
    ensures calls[0].key in c.items || c.capacity <= 0 || |c.items| < c.capacity
  {
    var key := calls[0].key;
    assert CallKeys(calls) == {key} + CallKeys(calls[1..]);
    if c.capacity > 0 && key !in c.items {
      assert c.items.Keys + {key} <= c.items.Keys + CallKeys(calls);
      assert |c.items.Keys + {key}| == |c.items| + 1;
    }
  }

  /** Once the first key is assigned, the rest of the sequence names the same keys and still fits. */
  lemma FitsAfterAssign<V>(c: Cache<V>, calls: seq<Call<V>>, next: Cache<V>)
    requires calls != [] && Fits(c, calls)
    requires next.capacity == c.capacity && next.items.Keys == c.items.Keys + {calls[0].key}
    ensures next.items.Keys + CallKeys(calls[1..]) == c.items.Keys + CallKeys(calls)
    ensures Fits(next, calls[1..])
  {
    assert CallKeys(calls) == {calls[0].key} + CallKeys(calls[1..]);
  }

  /** The first step of Run on a fitting sequence of Sets: a plain assignment to the index. */
  lemma RunSetStep<V>(c: Cache<V>, calls: seq<Call<V>>) returns (next: Cache<V>)
    requires Inv(c) && calls != [] && OnlySets(calls) && Fits(c, calls)
    ensures Inv(next) && OnlySets(calls[1..]) && Fits(next, calls[1..])
    ensures Run(c, calls) == Run(next, calls[1..])
    ensures Assigned(c.items, calls) == Assigned(next.items, calls[1..])
  {
    var call := calls[0];
    assert call.SetCall?;
    FitsLeavesRoom(c, calls);
    SetWithoutEviction(c, call.key, call.value, call.duration, call.now);
    next := Set(c, call.key, call.value, call.duration, call.now);
    FitsAfterAssign(c, calls, next);
    RunFirstSet(c, calls);
    AssignedFirst(c.items, calls, next.items);
  }

  /** Run applies a leading Set and continues with the rest. */
  lemma RunFirstSet<V>(c: Cache<V>, calls: seq<Call<V>>)
    requires Inv(c) && calls != [] && calls[0].SetCall?
    ensures Run(c, calls) == Run(Set(c, calls[0].key, calls[0].value, calls[0].duration, calls[0].now), calls[1..])
  {
  }

  /** The reference map assigns the first key and continues with the rest. */
  lemma AssignedFirst<V>(items: map<string, Entry<V>>, calls: seq<Call<V>>, next: map<string, Entry<V>>)
    requires calls != [] && OnlySets(calls)
    requires next == items[calls[0].key := Entry(calls[0].key, calls[0].value, Some(calls[0].now + calls[0].duration))]
    ensures OnlySets(calls[1..])
    ensures Assigned(items, calls) == Assigned(next, calls[1..])
  {
    assert OnlySets(calls[1..]) by {
      forall i | 0 <= i < |calls[1..]| ensures calls[1..][i].SetCall? { assert calls[1..][i] == calls[i + 1]; }
    }
  }

  /**
   * Sets naming at most `capacity` distinct keys in all lose nothing: the
   * index after them is exactly the reference map, so every key holds the
   * entry of its last Set (RunSetsRetrievable: a Get returns it until it
   * expires). With a capacity that is not positive this holds for any number
   * of keys.
   */
  lemma {:induction false} RunSetsKeepAll<V>(c: Cache<V>, calls: seq<Call<V>>)
    requires Inv(c) && OnlySets(calls) && Fits(c, calls)
    ensures Run(c, calls).items == Assigned(c.items, calls)
    decreases |calls|
  {
    if calls != [] {
      var next := RunSetStep(c, calls);
      RunSetsKeepAll(next, calls[1..]);
    }
  }

  /** After such Sets, a Get of any key they named returns its last-set value while it has not expired. */
  lemma RunSetsRetrievable<V>(c: Cache<V>, calls: seq<Call<V>>, k: string, t: int)
    requires Inv(c) && OnlySets(calls) && Fits(c, calls)
    requires k in CallKeys(calls) && !Expired(Assigned(c.items, calls)[k], t)
    ensures Get(Run(c, calls), k, t).1 == Some(Assigned(c.items, calls)[k].value)
  {
    RunSetsKeepAll(c, calls);
  }

  /**
   * With capacity 0 or below, eviction never fires after the first insertion:
   * Sets of n distinct keys on a new cache leave n entries, past any bound.
   */
  lemma NonPositiveCapacityNeverEvicts<V>(capacity: int, calls: seq<Call<V>>)
    requires capacity <= 0 && OnlySets(calls)
    ensures Run(New<V>(capacity), calls).items.Keys == CallKeys(calls)
    ensures |Run(New<V>(capacity), calls).evictList| == |CallKeys(calls)|
  {
    assert Fits(New<V>(capacity), calls);
    RunSetsKeepAll(New<V>(capacity), calls);
    SizeAgrees(Run(New<V>(capacity), calls));
  }

  /** One hour in nanoseconds, the unit of Go's `time.Duration`. */
  const Hour: int := 3_600_000_000_000

  /** Capacity 2: a, b, c set in turn evicts a; b and c are still there. */
  lemma ScenarioEvictsOldest()
    ensures var c := Set(Set(Set(New<int>(2), "a", 1, Hour, 0), "b", 2, Hour, 0), "c", 3, Hour, 0);
      var (c1, ra) := Get(c, "a", 0);
      var (c2, rb) := Get(c1, "b", 0);
      var (_, rc) := Get(c2, "c", 0);
      ra == None && rb == Some(2) && rc == Some(3)
  {
    var s1 := Set(New<int>(2), "a", 1, Hour, 0);
    SetNewKeyWithRoom(New<int>(2), "a", 1, Hour, 0);
    var s2 := Set(s1, "b", 2, Hour, 0);
    SetNewKeyWithRoom(s1, "b", 2, Hour, 0);
    assert s2.evictList == ["b", "a"];
    var s3 := Set(s2, "c", 3, Hour, 0);
    SetNewKeyWhenFull(s2, "c", 3, Hour, 0);
    assert s3.evictList == ["c", "b"];
    assert "a" !in s3.items;
    var (c1, ra) := Get(s3, "a", 0);
    GetMissing(s3, "a", 0);
    var (c2, rb) := Get(c1, "b", 0);
    GetLive(c1, "b", 0);
    GetLive(c2, "c", 0);
  }

  /** Capacity 2: after a, b and a Get of a, setting c evicts b, the least recently used. */
  lemma ScenarioGetRefreshesRecency()
    ensures var s2 := Set(Set(New<int>(2), "a", 1, Hour, 0), "b", 2, Hour, 0);
      var (s3, ra) := Get(s2, "a", 0);
      var s4 := Set(s3, "c", 3, Hour, 0);
      var (c1, rb) := Get(s4, "b", 0);
      var (c2, ra') := Get(c1, "a", 0);
      var (_, rc) := Get(c2, "c", 0);
      ra == Some(1) && rb == None && ra' == Some(1) && rc == Some(3)
  {
    var s1 := Set(New<int>(2), "a", 1, Hour, 0);
    SetNewKeyWithRoom(New<int>(2), "a", 1, Hour, 0);
    var s2 := Set(s1, "b", 2, Hour, 0);
    SetNewKeyWithRoom(s1, "b", 2, Hour, 0);
    assert s2.evictList == ["b", "a"];
    var (s3, ra) := Get(s2, "a", 0);
    GetLive(s2, "a", 0);
    assert s3.evictList == ["a", "b"] by {
      assert Remove(s2.evictList, "a") == ["b"];
      assert |s3.evictList| == 2;
      assert s3.evictList[1..] == Remove(s3.evictList, "a");
    }
    var s4 := Set(s3, "c", 3, Hour, 0);
    SetNewKeyWhenFull(s3, "c", 3, Hour, 0);
    assert s4.evictList == ["c", "a"];
    var (c1, rb) := Get(s4, "b", 0);
    GetMissing(s4, "b", 0);
    var (c2, ra') := Get(c1, "a", 0);
    GetLive(c1, "a", 0);
    GetLive(c2, "c", 0);
  }

  /** Set("x", 1, 1ms) at time 0; a Get 10ms later finds it absent. */
  lemma ScenarioExpires()
    ensures Get(Set(New<int>(1024), "x", 1, 1_000_000, 0), "x", 10_000_000).1 == None
  {
    SetThenGet(New<int>(1024), "x", 1, 1_000_000, 0, 10_000_000);
  }
}
