# LRU order cache of order-service, in Dafny

This project models the in-memory cache of order-service. The cache is a
fixed-capacity, least-recently-used (LRU) map from an order identifier to an
order record. It also has two persistence operations. At shutdown,
EvacuateToDB saves the cached entries into a `cache` table of the store. At
startup, RestoreFromDB replays that table through Add and then truncates it.

The layout:

- `cache.dfy` (module `Cache`) holds the class `LRUCache<V>`, with the same
  fields as the Go struct:
  - `capacity`, which is fixed;
  - `queue`, the recency list, as a sequence of element references, front
    (most recently used) first;
  - `items`, the index from key to element, as a map.
  Its elements are objects of class `Item<V>`, so Add can update a present
  key's value in place through the index, as the Go code does. The ghost
  field `Contents` is the list of (key, value) pairs front to back. `Valid()`
  ties the queue, the index and `Contents` together, and bounds the number
  of entries by a positive capacity. Add, Get, Remove, deleteItem,
  EvacuateToDB and RestoreFromDB are proved against a function of module
  `LruSpec` or `Persistence`. clear, Len and the two steps of Add's update
  path (MoveToFront, SetFrontValue) state their result or new state
  directly.
- `element_list.dfy` (module `ElementList`) covers the parts of the doubly
  linked list from `container/list` that the cache uses: `Remove`,
  `MoveToFront`, `PushFront` and `Back`, on the sequence of elements.
- `lru_spec.dfy` (module `LruSpec`) is the abstract view. Each cache
  operation is a function on the pair sequence: `Added`, `Touched`,
  `Without` and `Evicted`. `Folded` is a run of Adds.
- `lru_properties.dfy` (module `LruProperties`) proves what the cache
  promises on that view:
  - the index and the queue agree, so no key occurs twice;
  - Len is the number of entries;
  - Add, Get and Remove update, move, evict and delete exactly as intended;
  - the capacity bound holds;
  - a run of inserts keeps the most recently inserted keys.
- `persistence.dfy` (module `Persistence`) and `persistence_properties.dfy`
  (module `PersistenceProperties`) model the logic of the two persistence
  operations.
  - The table is a value: missing, or present with its rows in insertion
    order.
  - The primary key on `id` is the one store rule modelled.
  - Serialising a payload and reading back its id are function parameters
    (`encode`, `decode`, `idOf`).
  The properties cover partial writes, stopping at the first failure,
  truncating after a full replay, a second restore adding nothing, and the
  evacuate–restore round trip.
- `scenarios.dfy` (module `Scenarios`) gives concrete runs, two of them on
  an `LRUCache` object and the others on the specification functions:
  - eviction order;
  - a read refreshing recency;
  - an update;
  - a remove;
  - capacity 0;
  - a shutdown and restart.

Where the code and the design disagree, the model follows the code.

- **Capacity.** The design says capacity 0 behaves as a cache where
  every insert is immediately evicted. In the code, Add evicts only when
  `queue.Len() == capacity`, and `clear()` on an empty list does nothing. So
  a cache with capacity 0 or less never evicts and grows without bound
  (`LruProperties.NonPositiveCapacityNeverEvicts`,
  `Scenarios.ZeroCapacityGrows`). The bound `Len() <= capacity` is part of
  `Valid()` for capacity 1 or more only.
- **Row ids.** EvacuateToDB keys each row by the payload's own `OrderUid`, not
  by the cache key. The model keeps that distinction with `idOf`.
- **Restore order.** RestoreFromDB adds rows in the order the store returns
  them. If that is insertion order, the restored recency order is the
  reverse of the evacuated one
  (`PersistenceProperties.RestoreInInsertionOrderReverses`). The
  design calls restored recency order best effort, which is
  consistent with this.
- **Return values.** Add and Remove always return true, which the model
  keeps. Get returns `Option` rather than a nil interface.

## Model

| member | source | states |
|---|---|---|
| Cache.LRUCache.New | internal/cache/cache.go:33-40 | A new cache has the given capacity and no entries, and its index and queue agree. |
| Cache.LRUCache.Add | internal/cache/cache.go:42-65 | The entries become `Added(old, capacity, key, value)`. A present key gets the new value in place and moves to the front. A new key first evicts the back entry when the queue length equals the capacity, and then goes to the front. The invariant is kept and the result is true. |
| Cache.LRUCache.SetFrontValue | internal/cache/cache.go:48 | Storing the value through the indexed element changes the front pair's value only. The queue and every other pair stay the same. |
| Cache.LRUCache.Get | internal/cache/cache.go:67-78 | On a hit: the cached value, with that entry moved to the front. On a miss: None, with nothing changed. The result and the new entries are `Touched(old, key)`. The queue holds only its old elements: nothing is allocated. |
| Cache.LRUCache.MoveToFront | internal/cache/cache.go:47 | Moving an indexed element to the front moves its pair to the front of the entries. The element carries the value Get reports. The index still agrees. |
| Cache.LRUCache.Remove | internal/cache/cache.go:80-89 | The entries become `Without(old, key)`: the key's entry is unlinked if present, and nothing changes otherwise. The result is true. The queue holds only its old elements. |
| Cache.LRUCache.Len | internal/cache/cache.go:91-95 | The size of the index equals the number of entries. |
| Cache.LRUCache.Clear | internal/cache/cache.go:97-101 | The back (least recently used) entry is dropped. An empty cache stays empty. |
| Cache.LRUCache.DeleteItem | internal/cache/cache.go:103-106 | The element is unlinked from the queue and its key is deleted from the index. The entries become `Without(old, key)`. |
| Cache.LRUCache.EvacuateToDB | internal/cache/cache.go:108-155 | The result is `Evacuated(entries, idOf, encode, table)`. An empty cache leaves the table as it is. Otherwise a missing table is created, and the rows (payload id, encoded payload) are inserted front to back. The first insert that breaks the primary key stops with DuplicateId, and the rows inserted before it stay. |
| Cache.LRUCache.RestoreFromDB | internal/cache/cache.go:157-231 | The result is `Restored(old, capacity, table, decode)`. A missing table changes nothing. Otherwise the rows are added in the order read, keyed by row id. The first row that does not deserialise stops the replay with Undecodable, keeping what was added and leaving the table alone. A full replay truncates the table. The invariant is kept. |
| ElementList.Remove | internal/cache/cache.go:104 | Unlinking an element shortens the list by one. The elements before it stay in place, the elements after it move forward by one, and every other element is kept. |
| ElementList.MoveToFront | internal/cache/cache.go:47 | The element becomes first. The elements before it move back by one, the elements after it stay in place, and the list keeps the same elements and length. |
| ElementList.Back | internal/cache/cache.go:98 | The back element exists exactly when the list is non-empty, and it is the last element. |
| LruSpec.KeyIndex | internal/cache/cache.go:30 | The index's position for a key is the first entry carrying that key. |
| LruProperties.KeyIndexOf | internal/cache/cache.go:30 | With distinct keys, each entry is the one the index reaches through its key. |
| LruProperties.KeysCardinality | internal/cache/cache.go:94 | With distinct keys, `len(items)` (the number of keys) equals the queue length. |
| LruProperties.LookupIsMembership | internal/cache/cache.go:71-77 | A lookup finds `v` under `k` exactly when the pair `(k, v)` is cached. It finds nothing exactly when the key is absent. |
| LruProperties.WithoutFacts | internal/cache/cache.go:80-89 | Remove keeps the keys distinct and drops exactly the key. The size falls by one exactly when the key was present. Every other key keeps its value, and removing an absent key changes nothing. |
| LruProperties.AddPresentFacts | internal/cache/cache.go:46-50 | Add on a present key puts the new pair at the front. Size and key set are unchanged, and the other entries keep their relative order. |
| LruProperties.AddAbsentFacts | internal/cache/cache.go:52-62 | Add on a new key puts it at the front. Below capacity, or on an empty queue, nothing is evicted and the size grows by one. At capacity (more than zero), exactly the back entry is evicted and the size stays at the capacity. |
| LruProperties.AddKeys | internal/cache/cache.go:42-65 | After Add the key set is the old one plus the key, minus the back entry's key exactly when a new key was added at capacity. |
| LruProperties.AddKeepsInvariant | internal/cache/cache.go:42-65 | Add keeps keys distinct. For capacity 1 or more, Add keeps the size within the capacity. |
| LruProperties.AddLookup | internal/cache/cache.go:42-65 | After Add the key holds the new value. Every other key keeps its value, except the evicted back key, which is gone. |
| LruProperties.NonPositiveCapacityNeverEvicts | internal/cache/cache.go:52-54 | With capacity 0 or less, distinct inserts are never evicted: all stay, most recent first. |
| LruProperties.GetFacts | internal/cache/cache.go:67-78 | Get returns the lookup result. On a miss it changes nothing. On a hit the key moves to the front, and size, keys, the multiset of pairs and the order of the others are unchanged. |
| LruProperties.ReplaceFront | internal/cache/cache.go:48 | Giving the front entry a new value keeps the key set and distinct keys. |
| LruProperties.AddPresentIsTouchThenStore | internal/cache/cache.go:46-50 | Add on a present key is Get's move to the front followed by storing the new value at the front. |
| LruProperties.AddAbsentIsTake | internal/cache/cache.go:52-62 | For capacity 1 or more, a new key added to a cache within capacity is pushed to the front and the result is cut to the capacity. |
| LruProperties.FoldedFresh | internal/cache/cache.go:52-62 | A run of new-key inserts gives the new keys, most recent first, ahead of the old entries, cut to the capacity. |
| LruProperties.KeepsMostRecent | internal/cache/cache.go:42-65 | Inserting distinct keys into an empty cache of capacity C leaves exactly the C most recently inserted, most recent first. With more than C inserts, the size is C. |
| PersistenceProperties.SaveAllSticky | internal/cache/cache.go:145-147 | Once an insert has failed, the later rows change nothing. |
| PersistenceProperties.SaveAllStep | internal/cache/cache.go:142-151 | After a run of successful inserts, the next insert fails with DuplicateId when its id is already stored, and is appended otherwise. |
| PersistenceProperties.SaveAllWritesPrefix | internal/cache/cache.go:141-151 | What evacuation writes is the existing rows plus a prefix of the new ones. It succeeds exactly when the prefix is all of them. Otherwise the first row left out is the failure, and its id was already stored. |
| PersistenceProperties.SaveAllKeepsPrimaryKey | internal/cache/cache.go:118 | The table never holds two rows with the same id. |
| PersistenceProperties.SaveAllFresh | internal/cache/cache.go:141-151 | Rows with distinct ids none of which is stored are all written, in order, without error. |
| PersistenceProperties.RowKeys | internal/cache/cache.go:143-145 | When each payload's own id is its cache key, the rows are the keys with the encoded payloads, and distinct keys give distinct ids. |
| PersistenceProperties.EvacuateSavesEveryEntry | internal/cache/cache.go:108-155 | An empty cache leaves the table as it is. From a missing or empty table, every entry is saved, front to back, without error. |
| PersistenceProperties.ReplaySticky | internal/cache/cache.go:214-216 | Once a row has failed to deserialise, the later rows change nothing. |
| PersistenceProperties.ReplayStep | internal/cache/cache.go:204-219 | After a run of successful rows, the next row stops the replay when it does not deserialise, and is added otherwise. |
| PersistenceProperties.RestoreStopsAt | internal/cache/cache.go:211-216 | After a run of added rows, a row that does not deserialise is reported by id, and the table is left as it was (not truncated). |
| PersistenceProperties.RestoreCompletes | internal/cache/cache.go:220-227 | A restore whose rows were all added truncates the table. |
| PersistenceProperties.ReplayKeepsInvariant | internal/cache/cache.go:204-219 | A replay, complete or stopped, keeps the keys distinct and, for capacity 1 or more, the size within the capacity. |
| PersistenceProperties.ReplayAllDecoded | internal/cache/cache.go:204-219 | When every row deserialises, the replay is Add applied to each decoded row in order, without error. |
| PersistenceProperties.ReplayStopsAtFirstBadRow | internal/cache/cache.go:211-216 | When the first bad row is row k, the replay keeps exactly the Adds of rows 0 to k-1 and reports row k's id. |
| PersistenceProperties.SecondRestoreIsNoop | internal/cache/cache.go:224-227 | After a successful restore the table is missing or empty, and a second restore changes nothing. |
| PersistenceProperties.DecodeReadBack | internal/cache/cache.go:204-218 | Rows read back as a permutation of the saved rows all deserialise. They decode to exactly the saved pairs, the same number of them. |
| PersistenceProperties.RestoreBringsBackEntries | internal/cache/cache.go:204-227 | Rows read back in any order into an empty cache with room for them give back exactly the saved pairs, without error and without duplicate keys. |
| PersistenceProperties.EvacuateRestoreRoundTrip | internal/cache/cache.go:108-231 | Evacuating a non-empty cache into a missing or empty table and restoring the rows in any order brings back exactly the same (key, value) pairs, and truncates the table. |
| PersistenceProperties.RestoreInInsertionOrderReverses | internal/cache/cache.go:204-218 | Rows read back in insertion order are restored with the recency order reversed. |
| Scenarios.EvictsLeastRecentlyAdded | internal/cache/cache.go:52-62 | With capacity 2, after adding a, b and c the cache holds c then b, and a is gone. |
| Scenarios.ReadRefreshesRecency | internal/cache/cache.go:67-78 | With capacity 2, reading a after adding a and b means that adding c evicts b, not a. |
| Scenarios.ReadRefreshesRecencyOnCache | internal/cache/cache.go:42-78 | On an LRUCache object of capacity 2: after Add a, Add b, Get a and Add c, Get b finds nothing, Get a gives 1 and Get c gives 3. |
| Scenarios.RemoveThenAddOnCache | internal/cache/cache.go:42-89 | On an LRUCache object: Add a, Remove a, Add a with a new value, and Get a then gives the new value. |
| Scenarios.UpdateKeepsOthers | internal/cache/cache.go:46-50 | Adding a present key replaces its value, moves it to the front and evicts nothing. |
| Scenarios.RemoveDropsOneKey | internal/cache/cache.go:80-89 | Removing a present key drops only it. Removing an absent key changes nothing. |
| Scenarios.ZeroCapacityGrows | internal/cache/cache.go:52-54 | A cache of capacity 0 keeps every key added. |
| Scenarios.ShutdownAndRestart | internal/cache/cache.go:108-231 | With capacity 3, two orders are saved into a new table. Read back in insertion order, they are restored in reversed recency order and the table is truncated. A second restore adds nothing. |

## Left out

- SQL and the connection are not modelled: opening the store, preparing statements, the table-exists query, scanning rows and `rows.Err()`. Their failures are I/O errors, not cache logic. A present table stands for a table-exists count greater than zero.
- Store failures other than a duplicate id when an insert runs, and a truncate that fails, are not modelled. Only the primary key on `id` is kept. The `UNIQUE (id, data)` constraint is implied by it.
- The contents of error messages and their wrapping are not modelled; the model keeps only which step failed and the row id. Logging is not modelled either.
- JSON encoding of orders is the `encode` parameter. JSON decoding by `json.Unmarshal` is the `decode` parameter, where None means an unmarshalling error. Reading an order's `OrderUid` is the `idOf` parameter.
- The type assertions `.(*Item)` and `.(*domain.Order)` are not modelled. A payload of another type would panic in Go. The model is generic in the payload type, so that case cannot arise.
- The mutex and concurrency are not modelled. Each method is modelled as one atomic step, and the RW-lock itself is left out. In particular, Get takes only the read lock while it reorders the queue, and EvacuateToDB walks the queue without the lock; the model cannot say anything about either.
- `capacity` is a mathematical integer. Go's `int` is 64 bits, and the only arithmetic on it is an equality test, so no wrap-around can arise.
- The `Cache` interface is not modelled; it only restates the signatures of Add and Get. The other packages are not part of this model: the HTTP handler, the message-feed subscriber, the Postgres storage and process wiring.
- Scenarios: apart from `ReadRefreshesRecencyOnCache` and `RemoveThenAddOnCache`, the runs are stated on the specification functions rather than on an `LRUCache` object. This keeps each proof small. The class methods are proved against the same functions, so the results carry over.
- Table: the snapshot column is `id CHAR(19)`, and the model stores and compares ids exactly as given. That matches the store only for ids of exactly 19 characters, which are the only ones the service uses. A shorter id would come back blank-padded and be restored under a different key. A longer id would make the insert fail. The primary key would also ignore trailing blanks. None of this is modelled.
- RestoreFromDB: the order in which `SELECT id, data FROM cache` returns rows is taken to be the table's sequence, which is insertion order. The store does not promise that order. The round-trip lemmas (`DecodeReadBack`, `RestoreBringsBackEntries`, `EvacuateRestoreRoundTrip`) therefore accept the rows read back in any order.
