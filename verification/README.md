# ttlcache: an LRU cache with per-entry TTL, in Dafny

This project models the in-memory cache of the Go package `ttlcache`. The cache is built by
`NewLRU(capacity, defaultTTL, onEvict)` and offers `Set`, `Get` and `Remove`.

- Each entry holds a key, a value and an absolute expiry instant.
- An index maps keys to entries. A doubly-linked recency order runs from the most recently
  touched entry (front) to the next eviction victim (back).
- `Set` of a new key inserts it at the front. When that overflows the capacity, the back entry
  is evicted and handed to the eviction callback.
- `Set` of an existing key overwrites it and promotes it.
- `Get` promotes a live entry. It demotes an expired entry to the back, but still returns its
  value, flagged stale.
- `Remove` deletes a key without calling the callback.
- A background sweep demotes expired entries that nobody reads.
- A non-positive capacity gives the disabled cache, on which every call is a no-op.

The model has four modules:

- `LruSpec` (`lru_spec.dfy`) is the cache as a value. A state is the sequence of entries in
  recency order. `Set`, `Get`, `Remove` and `Sweep` are functions from state to state, with
  contracts giving their results and the new order.
- `TtlCache` (`ttl_cache.dfy`) is the cache as the program keeps it, in the class `LRU`:
  - `table`, a map from key to arena slot;
  - the arrays `entries`, `prev` and `next`, a doubly-linked list over arena slots, with
    `head` and `tail`;
  - a stack of unused slots, `free`/`freeCount`.

  Each method updates these in place. The ghost fields `Slots`, `Used` and `Contents` tie them
  together, and every method is proved to change `Contents` exactly as the `LruSpec` function
  does. The object invariant `Valid()` states:
  - the links spell out the order;
  - the index and the order match one to one;
  - keys are unique;
  - there are at most `capacity` entries.
- `LruProperties` (`lru_properties.dfy`) holds properties that span several calls.
- `CacheTests` (`cache_tests.dfy`) replays each scenario of the package's test suite as a
  verified client of `LRU`, with the outcome the test checks stated in its `ensures`.

Modelling choices:

- Time is an explicit `now: nat` argument to every call, in milliseconds. An entry is stale
  once `now` reaches its expiry instant.
- A TTL of 0 passed to `Set` means the default TTL. If the default is also 0, the entry never
  expires.
- The eviction callback becomes the `evicted: Option<(K, V)>` result of `Set`.
- The background timer becomes an explicit `Sweep(now)` method. It walks the list once and
  demotes each expired entry to the back, so live entries keep their order in front of the
  expired ones, which also keep theirs.

## Model

| member | source | states |
|---|---|---|
| LruSpec.ExpiryFor | cache_test.go:78-97 | An entry written at `now` is stale at `t` exactly when its effective TTL is positive and `now + TTL <= t`. The effective TTL is the given one, or the default when 0. With both 0 the entry never goes stale. |
| LruSpec.Find | cache_test.go:30-34 | The index lookup: the position of the key's entry in the order, or -1 exactly when no entry has that key. |
| LruSpec.Promote | cache_test.go:196-209 | Promote-to-front: the chosen entry becomes the front; those ahead of it move back one place; the rest stay put; nothing is lost or added. |
| LruSpec.Demote | cache_test.go:242-246 | Demote-to-back: the chosen entry becomes the back; those behind it move forward one place; nothing is lost or added. |
| LruSpec.Delete | cache_test.go:128-131 | Removal of one position: the others keep their order, and exactly one occurrence of the removed entry is gone. |
| LruSpec.Set | cache_test.go:20-56 | Set reports "created" exactly when the cache is enabled and the key was absent. The written entry is then at the front, and an existing key's old entry is dropped without any eviction. An eviction happens exactly when a new key meets a full cache, and the victim is the previous back entry. The result keeps unique keys and the capacity bound. The disabled cache is left unchanged. |
| LruSpec.Get | cache_test.go:58-117 | A miss gives `(None, false)` and leaves the order alone, so a miss is never stale. A hit returns the stored value, stale exactly when expired. A fresh hit is promoted and a stale hit demoted, never deleted. |
| LruSpec.Remove | cache_test.go:119-156 | Remove reports "found" exactly when the key was present. A found entry is deleted from its position and the key is absent afterwards. Otherwise the order is unchanged. |
| LruSpec.Sweep | cache_test.go:279-285 | The sweep's result is a permutation of the order. No expired entry comes before a live one. The live entries and the expired entries each keep their relative order. Keys stay unique. |
| LruSpec.SweepStep | cache_test.go:279-285 | One visit of the sweep's walk: the visited entry is moved to the back if it is expired and left in place if it is live. |
| LruSpec.SweepComplete | cache_test.go:279-285 | A walk that has visited every entry has produced `Sweep`. |
| TtlCache.LRU.NewLRU | cache_test.go:288-293 | A new cache is empty and satisfies the invariant, with the given capacity and default TTL. For a capacity <= 0 the invariant keeps it empty forever, which makes it the disabled cache. |
| TtlCache.LRU.Set | cache_test.go:20-56 | On the map-and-linked-list representation, Set leaves `Contents`, "created" and the evicted pair equal to `LruSpec.Set` of the old contents with expiry `ExpiryFor(ttl, defaultTTL, now)`. It keeps the invariant. |
| TtlCache.LRU.Insert | cache_test.go:158-182 | A new key is stored at the front. When no unused slot is left, the back entry is unlinked, freed and returned as evicted, matching `LruSpec.Set`. |
| TtlCache.LRU.Get | cache_test.go:58-117 | The returned value, the stale flag and the new order equal `LruSpec.Get` of the old contents. It keeps the invariant. |
| TtlCache.LRU.Remove | cache_test.go:119-156 | The "found" result and the new order equal `LruSpec.Remove` of the old contents. It keeps the invariant. |
| TtlCache.LRU.Sweep | cache_test.go:279-285 | One walk over the linked list leaves `Contents` equal to `LruSpec.Sweep` of the old contents. It keeps the invariant. |
| TtlCache.LRU.SweepVisit | cache_test.go:279-285 | Visiting the slot of the m-th original entry advances the order from the state after m visits to the state after m+1. It returns the slot of the next original entry. |
| TtlCache.LRU.PushFront | cache_test.go:168-175 | Insert-at-front: an unused slot takes the new entry and its key is indexed. The order gains the entry in front and one unused slot is consumed. |
| TtlCache.LRU.RemoveAt | cache_test.go:128-131 | Removing the entry at a position frees its slot and unindexes its key. The entry is returned, and the order loses exactly that position. |
| TtlCache.LRU.MoveToFront | cache_test.go:204-209 | Relinking a slot at the front promotes its entry (`LruSpec.Promote`) and keeps the invariant. |
| TtlCache.LRU.MoveToBack | cache_test.go:242-246 | Relinking a slot at the back demotes its entry (`LruSpec.Demote`) and keeps the invariant. |
| TtlCache.LRU.Overwrite | cache_test.go:46-54 | Writing a new entry for the same key into its slot replaces that position's entry and nothing else. |
| TtlCache.LRU.Locate | cache_test.go:30-38 | Every key in the index names a listed slot whose entry carries that key, so index and order match one to one. |
| TtlCache.LRU.IndexGivesDistinctKeys | cache_test.go:30-38 | A consistent index implies unique keys in the order. |
| LruProperties.SetThenGet | cache_test.go:58-76 | After a Set, a Get of the key returns the value written. It is stale exactly when the new expiry has passed, whatever the overwritten entry's state. |
| LruProperties.SetTwice | cache_test.go:41-56 | A Set of an absent key creates it, and a second Set of the same key never does. |
| LruProperties.RemoveThenGet | cache_test.go:119-141 | After a Remove, a Get of the key misses and is not stale. |
| LruProperties.RemoveOnlyThatKey | cache_test.go:143-156 | A Remove leaves every other key present exactly when it was before, with the same entry. |
| LruProperties.StaleReadRepeats | cache_test.go:78-97 | A stale read is non-destructive: reading again returns the same value, stale again, and the order does not change. |
| LruProperties.FreshReadIsNotEvictedNext | cache_test.go:184-217 | In a full cache, a key just read fresh is not the victim of the next new-key Set. |
| LruProperties.StaleReadIsEvictedNext | cache_test.go:219-253 | In a full cache, a key just read stale is exactly the victim of the next new-key Set. |
| LruProperties.SweepThenOverflowEvictsExpired | cache_test.go:255-286 | After a sweep, a full cache holding any expired entry evicts an expired entry, never a live one, on the next new-key Set. |
| LruProperties.DisabledCacheIsInert | cache_test.go:288-308 | With capacity <= 0 the cache is empty: Set creates nothing, Get misses without staleness, and Remove finds nothing. |
| LruProperties.GetKeepsValid | cache_test.go:184-217 | Get keeps unique keys and the capacity bound, and does not change the size. |
| LruProperties.RemoveKeepsValid | cache_test.go:119-141 | Remove keeps unique keys and the capacity bound. |
| LruProperties.StepKeepsValid | cache_test.go:158-182 | Each of Set, Get, Remove and Sweep keeps unique keys and at most `capacity` entries. |
| LruProperties.Run | cache_test.go:158-217 | After any trace of calls the cache still has unique keys and at most `capacity` entries. |
| CacheTests.Fill | cache_test.go:168-175 | Writing key-0 .. key-9 into an empty cache of capacity 10 creates every key and leaves them newest first. |
| CacheTests.FillStep | cache_test.go:168-175 | Each write of the fill loop creates its key in front and evicts nothing. |
| CacheTests.ReadAllButLast | cache_test.go:204-209 | Reading key-0 .. key-8 in turn brings them to the front, newest read first, and leaves key-9 at the back. |
| CacheTests.ReadStep | cache_test.go:204-209 | Each read of that loop returns the key's value, not stale, and moves the key from the back to the front. |
| CacheTests.StaleRead | cache_test.go:242-246 | At 100 ms, key-0 (TTL 50 ms) is read stale, keeps its value and stays at the back. |
| CacheTests.TimerSweep | cache_test.go:279-285 | The sweep at 100 ms moves key-9 (TTL 50 ms) from the front to the back and leaves the rest in order. |
| CacheTests.TestSet | cache_test.go:20-39 | Set of a new key returns true, and the index maps "key" to a slot holding exactly ("key", "value"). |
| CacheTests.TestDoubleSet | cache_test.go:41-56 | The first Set returns true and the second false. |
| CacheTests.TestSetGet | cache_test.go:58-76 | Get right after Set returns "value", not stale. |
| CacheTests.TestGetStale | cache_test.go:78-97 | With a 50 ms default TTL, Get at 100 ms returns "value", stale. |
| CacheTests.TestGetMiss | cache_test.go:99-117 | Get of an unknown key returns nothing, not stale. |
| CacheTests.TestSetRemoveGet | cache_test.go:119-141 | Remove of a stored key returns true, and a later Get misses, not stale. |
| CacheTests.TestRemoveNonExistent | cache_test.go:143-156 | Remove of an unknown key returns false. |
| CacheTests.TestLRU1 | cache_test.go:158-182 | After ten writes, "new-key" is created and ("key-0", "val-0") is evicted. |
| CacheTests.TestLRU2 | cache_test.go:184-217 | After ten writes and reads of key-0 .. key-8, "new-key" is created and ("key-9", "val-9") is evicted. |
| CacheTests.TestStaleLRU | cache_test.go:219-253 | key-0 with a 50 ms TTL is read stale at 100 ms. Then "new-key" is created and ("key-0", "val-0") is evicted. |
| CacheTests.TestLRUTimer | cache_test.go:255-286 | key-9 with a 50 ms TTL is swept at 100 ms. Then "new-key" is created and ("key-9", "val-9") is evicted. |
| CacheTests.TestNilCache | cache_test.go:288-308 | The capacity-0 cache returns false from Set, nothing and not stale from Get, and false from Remove. |

## Left out

- The package's implementation file is not part of this model. The behaviour modelled is the one
  the test suite checks, together with the design of the index, the recency order and the sweep.
  Where the two leave a choice open, the model takes the simplest reading consistent with the
  tests.
- Concurrency: the mutex, the shared benchmark instance `tc` and the parallel race tests
  `TestSetMany`, `TestGetMany` and `TestRemoveMany` (cache_test.go:13-18, 312-347). Each call is
  modelled as atomic. What `TestGetMany` checks sequentially, that a miss is never stale, is part
  of `LruSpec.Get`.
- Clocks and sleeping: time is the explicit `now` argument, in milliseconds. Durations are
  natural numbers, so negative durations are not modelled.
- The background timer goroutine: when and how often it fires is not modelled. The sweep is the
  explicit `Sweep(now)` call.
- The sweep demotes every entry that is stale when it runs, including entries that an earlier
  stale read already moved to the back. Expired entries keep their existing relative order; they
  are not re-sorted by expiry instant.
- The eviction callback: it becomes the `evicted` result of `Set`. What it does (printing, failing
  a test) and whether it may call back into the cache are not modelled.
- Go's `interface{}` values and nil receivers: values are a type parameter `V`. `NewLRU` with
  capacity <= 0 returns a disabled `LRU` object instead of `nil`, so the `c != nil` check of
  `TestNilCache` (cache_test.go:290-292) is not expressible. The object's calls behave as the nil
  cache's do.
- The list package's element type: `c.table[k]` holds an arena slot number. The slot's entry
  stands for `elem.Value.(*entry)` (cache_test.go:31-36).
