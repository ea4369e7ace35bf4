# Bounded TTL-LRU cache, modelled in Dafny

This project models the cache engine of the LRU_Cache service (`main.go`).
The engine is an in-memory key-value store. It holds at most `capacity`
entries (when the capacity is at least 1) and evicts the least recently used one. Each entry also carries an
expiration time. The cache keeps two structures in step:

- the index `items`, from key to entry;
- the recency list `evictList`, most recently used key at the front.

`Set` refreshes an existing key in place, or evicts the back of the list
when the size equals the capacity and then pushes the new key to the front.
`Get` lazily removes an entry whose expiration is strictly before the
current time. Otherwise it moves the entry to the front and returns its
value.

Files:

- `recency.dfy` (module `Recency`): the recency list as a sequence of keys,
  with front index 0. It holds removal and move-to-front, and the lemma that
  removing the element at a position keeps the others in their order.
- `lru_spec.dfy` (module `LruSpec`): the entry and cache state as values.
  It defines the invariant that ties the index to the list. Each operation
  is a function from the old state to the new one.
- `lru_properties.dfy` (module `LruProperties`): what the cache promises,
  proved about those functions. This covers the size bound, every path
  through `Set` and `Get`, and a `Set` followed by a `Get`. It also proves
  that the invariant holds over any sequence of calls, and that Sets naming
  no more keys than the capacity lose nothing, against a plain dictionary
  as reference. It checks the concrete capacity-2 and expiry scenarios.
- `lru_cache.dfy` (module `LruCache`): the class `LRUCache` with the
  fields `capacity`, `items` and `evictList`. Its methods update those
  fields in place. Each method is proved to produce exactly the state its
  `LruSpec` function gives.

Time is an integer count of nanoseconds, the unit of Go's `time.Duration`.
The clock reading `now` is a parameter of `Set` and `Get`. An entry's
expiration is `now + duration`, taken at the time of the `Set`.

Two details follow `main.go` as written:

- Expiry is strict. The test is `Before` (`main.go:66`), so an entry whose
  expiration equals `now` is still returned.
- Eviction fires only when `Len() == capacity` (`main.go:49`), and the
  capacity may be any `int`. So the size bound needs capacity >= 1. With
  capacity 0 the test holds only on the empty list, where `Back()` is nil;
  with a negative capacity it never holds. In both cases nothing is ever
  evicted: `NonPositiveCapacityNeverEvicts` proves that Sets naming n
  distinct keys leave n entries, for every n.

## Model

| member | source | states |
|---|---|---|
| `Recency.Remove` | main.go:85 | the list without the removed key: every other key stays, none is duplicated, the length drops by one when the key was present, and the list is unchanged when it was absent |
| `Recency.MoveToFront` | main.go:40 | the key is at the front, the same keys remain, the length is kept, and the other keys keep their relative order |
| `Recency.RemoveAt` | main.go:85 | removing the element at position `i` of a duplicate-free list leaves the elements before it followed by those after it, in their order; for the back (main.go:78-80) that is the first `n-1` positions |
| `LruSpec.New` | main.go:26-32 | a new cache has the given capacity, an empty index and an empty list, and satisfies the invariant |
| `LruSpec.RemoveElement` | main.go:84-88 | the key leaves both the index and the list, the other keys keep their recency order, all other entries are unchanged, the capacity is kept, the size drops by one, and the invariant and size bound are kept |
| `LruSpec.EvictOldest` | main.go:77-82 | with an empty list nothing changes; otherwise exactly the back key is removed from the list and from the index; the surviving entries and the capacity are unchanged; the invariant is kept |
| `LruSpec.Set` | main.go:34-56 | after Set the key is indexed with the new value and expiration `now + duration`, it is at the front, and the invariant is kept |
| `LruSpec.Get` | main.go:58-75 | a value is returned exactly when the key is indexed and not expired, and it is that entry's value; the invariant and size bound are kept |
| `LruProperties.SetWithinCapacity` | main.go:48-55 | with capacity >= 1, Set never takes the number of entries past the capacity |
| `LruProperties.SetExistingKey` | main.go:38-45 | Set on an indexed key keeps the key set and size and evicts nothing; the key moves to the front with the new value and expiration; an expired entry is refreshed too; other keys keep their entries and relative order |
| `LruProperties.SetNewKeyWhenFull` | main.go:48-55 | Set on a new key when the list is full removes exactly the back key, expired or not; the new key goes to the front; all other keys keep their entries and order |
| `LruProperties.SetNewKeyWithRoom` | main.go:52-55 | Set on a new key below capacity evicts nothing, pushes the key to the front and adds its entry |
| `LruProperties.GetLive` | main.go:62-72 | Get on a live key returns its value, moves it to the front, and leaves the index and the order of the other keys unchanged |
| `LruProperties.GetExpired` | main.go:65-68 | Get on a key expired strictly before `now` returns absence and removes the key from the index and the list; the other keys keep their order |
| `LruProperties.GetMissing` | main.go:62-74 | Get on a missing key returns absence and changes nothing |
| `LruProperties.SetThenGet` | main.go:52-74 | Set at time `now` followed by Get at time `t` returns the value exactly when `t <= now + duration`, and absence after that |
| `LruProperties.Run` | main.go:34-75 | any sequence of Set and Get calls, applied one at a time, keeps the index and list in agreement and keeps the capacity |
| `LruProperties.RunWithinCapacity` | main.go:34-75 | any sequence of calls from a state within capacity stays within capacity |
| `LruProperties.SizeAgrees` | main.go:22-23 | under the invariant the index and the list have the same number of keys |
| `LruProperties.SetWithoutEviction` | main.go:39-55 | when the key is indexed, there is room below the capacity, or the capacity is not positive, Set changes the index exactly as a plain map assignment of the new entry |
| `LruProperties.RunSetsKeepAll` | main.go:34-56 | Sets naming at most `capacity` distinct keys in all (or any number, when the capacity is not positive) lose nothing: the index afterwards equals the map a plain dictionary would hold, each key bound to the entry of its last Set |
| `LruProperties.RunSetsRetrievable` | main.go:58-74 | after such Sets, a Get of any key they named returns the value of its last Set while that entry has not expired |
| `LruProperties.NonPositiveCapacityNeverEvicts` | main.go:49-51 | with capacity 0 or below, Sets of n distinct keys on a new cache leave exactly those n keys and n list elements: the size passes any bound |
| `LruProperties.ScenarioEvictsOldest` | main.go:48-55 | capacity 2: after setting a, b and c, a is absent, while b gives 2 and c gives 3 |
| `LruProperties.ScenarioGetRefreshesRecency` | main.go:62-72 | capacity 2: after setting a and b, a Get of a saves a from eviction when c is set; b is evicted, a gives 1 and c gives 3 |
| `LruProperties.ScenarioExpires` | main.go:66 | an entry set with a 1 ms duration is absent 10 ms later |
| `LruCache.LRUCache.constructor` | main.go:26-32 | the new cache has the given capacity, an empty index and an empty list, and is valid |
| `LruCache.LRUCache.Set` | main.go:34-56 | the fields become exactly `LruSpec.Set` of the old fields; validity, including the size bound, is kept |
| `LruCache.LRUCache.Get` | main.go:58-75 | the fields and result are exactly `LruSpec.Get` of the old fields; a value is returned iff the key was indexed and not expired, and it is then at the front |
| `LruCache.LRUCache.EvictOldest` | main.go:77-82 | the fields become exactly `LruSpec.EvictOldest` of the old fields, and validity is kept |
| `LruCache.LRUCache.RemoveElement` | main.go:84-88 | the fields become exactly `LruSpec.RemoveElement` of the old fields, and validity is kept |

## Left out

- The HTTP layer in `main` (gin router, CORS, JSON replies, `time.ParseDuration`) is I/O and library plumbing.
- The `sync.Mutex` is left out. Each operation is modelled as one atomic sequential step, which is what the lock guarantees.
- The wall clock `time.Now()` is replaced by the parameter `now`.
- `container/list` pointers are replaced by a sequence of keys. The model does not capture O(1) unlinking, or the sharing of one `CacheItem` between the list element and the map; an in-place field update becomes a replacement of the map entry.
- The type assertion `elem.Value.(*CacheItem)` is replaced by a typed entry with a generic value type `V`.
- Integer widths: expiration `now + duration` and the capacity are unbounded integers. Go's int64 time arithmetic and `int` overflow are not modelled.
