# zin1 dual-backend LRU cache in Dafny

This project models the three core pieces of the zin1 cache service:

- **The process-local LRU store** (`in_memory`). It keeps a map and a doubly-linked recency list in lock-step. Every node may carry an expiry.
- **The Redis-backed LRU store** (`redis`). It rebuilds the same policy from a Redis list named `cache` (front = most recent) and one Redis string per key.
- **The coordinator** (`multi_cache`). It applies every operation to both stores. Its `Get` returns a value only when the two stores agree on it.

Each store is modelled in two layers:

- **Functions on values.** A recency list of nodes (`InMemory.Insert`, `Fetch`, `LiveNodes`, `Sweep`), or a Redis list plus a value map (`Redis.Store`, `Load`, `Evict`, `Trim`, `Present`, `Shown`). Each operation is a function from the old state to the new state and the result.
- **A class** holding the mutable state (`InMemory.LRUCache`, `Redis.LRUCache`). Each method updates the fields and is proved to do exactly what the function says. Print, cleanup and the two loops of `evictItems` are `while` loops with their invariants.

The coordinator `MultiCache.MultiCache` holds the two store objects. The relation `MultiCache.Mirrors` states when the two stores hold the same entries in the same order. The lemmas prove that `Set` keeps that relation for writes without expiry (ttl -1), a capacity of at least 1 and a local list within that capacity, that `Get` and `Del` keep it, that `Get` then reads the same value from both stores, and that the two `Print` texts are equal.

Wall-clock time is an integer `now`, in seconds, passed to every time-dependent call.

Redis's native expiry is the explicit step `Redis.LRUCache.Expire(now)`. It drops every value whose deadline has come.

A `log.Fatalf` is modelled as the outcome `Failed(cause)`, together with the server state at that moment. The model covers three fatal paths:

- a ttl that is neither -1 nor positive;
- `LINDEX` past the end of the list;
- `RPOP` on an empty list.

Some behaviour of the code is easy to miss. The model keeps it as written.

- **Put's signature.** `multi_cache/multi_cache.go:31` and `:36` call a 3-argument `Put`, and `:20` calls `in_memory.NewLRUCache()` with no argument. `in_memory/in_memory.go:89` and `redis/redis.go:39` define a 4-argument `Put(key, value, length, ttl)`, and `in_memory/in_memory.go:28` takes a cleanup interval. The model uses the 4-argument form throughout and threads `ttl` through `Set`, as `api/api.go:43` calls it.
- **Expiry boundary.** `Get` and `Print` (`in_memory/in_memory.go:75`, `:133`) keep a node only while its expiry is `After` the current time. A node is therefore already expired at its expiry time. `cleanup` (`in_memory/in_memory.go:59`) tests `Before`, so it still keeps such a node. `InMemory.ExpiryBoundary` proves this.
- **The eviction scan.** `redis/redis.go:150-154` removes each listed key without a value. It is fatal when such a key occurs twice in the list. `LREM` removes every copy, while the cached length drops by one only, so `LINDEX` reads past the end. A duplicate arises when a key's value expires and the key is then written again: `Put` sees `EXISTS == 0` and skips the `LREM` (`redis/redis.go:41-50`). `Redis.EvictFatal` and `Redis.FatalScenario` prove this.
- **A lost write.** In the same situation at full capacity, and when every other listed key still has a value, the pop loop (`redis/redis.go:158-168`) removes whatever sits at the back of the list. If that is the stale copy, the loop runs `DEL` on the key, which deletes the value just written, and a later `Get` of that key misses (`Redis.StaleAtBackLost`). Otherwise the back key is evicted, the write survives, and the key stays listed twice (`Redis.StaleBeforeBackKept`). When another listed key has lost its value too, the scan (`redis/redis.go:150-154`) shortens the list first, so fewer keys, or none, are popped (`Redis.StaleScanSavesWrite`).
- **The capacity bound.** The local store checks the length only for a new key (`in_memory/in_memory.go:103`). Suppose a caller fills the store at `length` 3 and then updates one of those keys with `length` 1. The list still holds 3 nodes, whereas Redis pops down to 1. At `length` 0 the local store keeps the one new entry, while Redis pops it at once. `MultiCache.CapacityZeroDiverges` shows the two stores parting there.

## Model

| member | source | states |
|---|---|---|
| InMemory.LRUCache.constructor | in_memory/in_memory.go:28-37 | A new store has an empty list and an empty map, and the lock-step invariant holds. |
| InMemory.LRUCache.Get | in_memory/in_memory.go:70-84 | The returned value and the new list are those of `Fetch`. The map stays in lock-step with the list. |
| InMemory.LRUCache.Put | in_memory/in_memory.go:89-114 | The new list is `Insert` of the old one. The map stays in lock-step with the list. |
| InMemory.LRUCache.Evict | in_memory/in_memory.go:117-122 | The back node leaves both the list and the map. On an empty list nothing changes. |
| InMemory.LRUCache.Del | in_memory/in_memory.go:153-160 | The key's node leaves the list and the key leaves the map. Nothing else changes, and an absent key changes nothing. |
| InMemory.LRUCache.DelAll | in_memory/in_memory.go:145-150 | Both the list and the map end empty. |
| InMemory.LRUCache.Print | in_memory/in_memory.go:125-142 | The text is the joined `key:value` items of the live nodes, front to back. Exactly the expired nodes leave the list and the map. |
| InMemory.LRUCache.Cleanup | in_memory/in_memory.go:52-66 | Exactly the nodes whose expiry lies strictly before `now` leave the list and the map. The rest keep their order. |
| InMemory.ConsistentDetermined | in_memory/in_memory.go:19-21 | Under the lock-step invariant, the map is determined by the list. |
| InMemory.LookupByMap | in_memory/in_memory.go:73 | Under the invariant, a key is in the map iff a list node carries it, and the map entry is that node. |
| InMemory.PushFrontConsistent | in_memory/in_memory.go:111-113 | Pushing a node of a new key to the front, and mapping the key to it, keeps the invariant. |
| InMemory.MoveToFrontConsistent | in_memory/in_memory.go:92-100 | Replacing a key's node and moving it to the front keeps the invariant. |
| InMemory.RemoveKeyConsistent | in_memory/in_memory.go:157-158 | Removing a key from both the list and the map keeps the invariant. |
| InMemory.DropBackConsistent | in_memory/in_memory.go:118-120 | Removing the back node, and its key from the map, keeps the invariant. |
| InMemory.DropBackIsRemove | in_memory/in_memory.go:117-120 | With unique keys, dropping the back node is the same as removing the back key. |
| InMemory.RemoveKeyKeys | in_memory/in_memory.go:153-160 | After Del, the listed keys are exactly the old ones other than the deleted key. Every remaining node was already on the list. |
| InMemory.RemoveKeyAbsent | in_memory/in_memory.go:156 | Del of an absent key leaves the list unchanged. |
| InMemory.RemoveKeyShorter | in_memory/in_memory.go:156-157 | Del of a present key shortens the list. |
| InMemory.InsertExisting | in_memory/in_memory.go:92-101 | Put on an existing key gives the front node the new value and the new expiry: `now + ttl` if `ttl > 0`, else none. The other nodes keep their order, and the count and the key set are unchanged. |
| InMemory.InsertEvictsBack | in_memory/in_memory.go:103-113 | Put of a new key on a full list puts the new node first, followed by the old list without its back node. The back node's key is gone. |
| InMemory.InsertCapacity | in_memory/in_memory.go:103-113 | For `length >= 1`, a list of at most `length` nodes still has at most `length` nodes after Put. |
| InMemory.FetchLive | in_memory/in_memory.go:73-78 | Get on a live node returns its value and moves it to the front. The other nodes keep their relative order. |
| InMemory.FetchExpired | in_memory/in_memory.go:79-81 | Get on an expired node returns "" and removes the node. |
| InMemory.FetchAbsent | in_memory/in_memory.go:83 | Get on an absent key returns "" and changes nothing. |
| InMemory.PutThenGet | in_memory/in_memory.go:89-114 | Get right after Put of a key, at the same time, returns the value just written. |
| InMemory.DelThenGet | in_memory/in_memory.go:153-160 | Get right after Del of a key returns "" and changes nothing. |
| InMemory.LiveNodesExact | in_memory/in_memory.go:130-140 | Print keeps exactly the live nodes, and splits over concatenation, so list order is kept. |
| InMemory.SweepExact | in_memory/in_memory.go:56-65 | cleanup keeps exactly the nodes that are not stale, and splits over concatenation, so list order is kept. |
| InMemory.ExpiryBoundary | in_memory/in_memory.go:59 | A node expiring exactly at `now` survives cleanup, is dropped by Print, and misses in Get. |
| InMemory.ScenarioLists | testing/testing_test.go:62-75 | With capacity 2 the lists are [a1], then [b1, a1], then [c1, b1]: c1 evicts a1. |
| InMemory.ScenarioTexts | testing/testing_test.go:66-83 | Those lists print as "b1:2, a1:1" and "c1:3, b1:2". |
| InMemory.PrintScenario | testing/testing_test.go:57-85 | The store object, driven through the same calls, returns exactly those two texts. |
| Redis.LRUCache.constructor | redis/redis.go:22-35 | A new store has an empty list. Values already on the server stay. |
| Redis.LRUCache.Expire | redis/redis.go:57 | The server's own expiry drops exactly the values whose deadline has come. The list is untouched. |
| Redis.LRUCache.Put | redis/redis.go:39-63 | The outcome, list and values are those of `Store`. |
| Redis.LRUCache.Get | redis/redis.go:67-80 | The value and the new list are those of `Load`. The values are untouched. |
| Redis.LRUCache.Print | redis/redis.go:83-105 | The text joins `key:value` for each listed key that has a value, in list order. Keys without a value leave the list. |
| Redis.LRUCache.Del | redis/redis.go:108-125 | If the key has a value, every copy leaves the list and the value is deleted. Otherwise nothing changes. |
| Redis.LRUCache.DelAll | redis/redis.go:128-130 | FLUSHALL leaves no list and no values. |
| Redis.LRUCache.EvictItems | redis/redis.go:133-169 | The outcome, list and values are those of `Evict`. |
| Redis.LRUCache.DropMissing | redis/redis.go:141-155 | The scan ends with exactly the keys that have a value, in order. It completes iff no valueless key occurs twice. |
| Redis.LRUCache.PopExcess | redis/redis.go:158-168 | The pop loop yields the outcome, list and values of `Trim`. |
| Redis.WithoutLength | redis/redis.go:151 | `LREM cache 0 key` shortens the list by the number of copies of the key. |
| Redis.WithoutCount | redis/redis.go:151 | After the LREM, each removed key has no copy left, and each other key keeps its count. |
| Redis.PresentExact | redis/redis.go:92-97 | A key stays on Print's list iff it was listed and has a value. Its number of copies is unchanged. |
| Redis.ShownExact | redis/redis.go:92-101 | Print's items correspond one to one, in order, to the kept keys, each as `key:value` of its stored value. |
| Redis.UniqueNeverFails | redis/redis.go:141-155 | When every key is listed once, the scan never reads past the end. With `maxLength >= 0`, eviction completes. |
| Redis.EvictFatal | redis/redis.go:141-168 | Eviction fails at LINDEX iff a key without a value is listed more than once. It fails at RPOP iff the scan completes and `maxLength < 0`. |
| Redis.EvictBound | redis/redis.go:157-168 | A completed eviction leaves at most `maxLength` keys, a prefix of the kept list. Every popped key has lost its value, and every other value is unchanged. |
| Redis.EvictKeepsValues | redis/redis.go:141-168 | With unique keys and `maxLength >= 0`, eviction completes, and every key it keeps still has its old value. |
| Redis.StoreThenLoad | redis/redis.go:39-80 | For `maxLength >= 1`, a completed Put with a valid ttl leaves the key at the front and the list within `maxLength`. If the key had a value or was unlisted, the key is listed once, holds the new entry, and Get returns the new value. |
| Redis.StoreMove | redis/redis.go:41-50 | Put without expiry (ttl -1) of a key that has a value, on a unique list within capacity whose listed keys all have a value, moves the key to the front and stores the value without expiry. |
| Redis.StorePush | redis/redis.go:50-62 | Put without expiry (ttl -1) of a new key below capacity, on a list whose listed keys all have a value, pushes it to the front and evicts nothing. |
| Redis.StoreEvictOne | redis/redis.go:158-168 | Put without expiry (ttl -1) of a new key on a full list whose listed keys all have a value pops the oldest key and deletes its value. |
| Redis.StoreInvalidTtl | redis/redis.go:58-60 | A ttl that is neither -1 nor positive is fatal after the LPUSH has already run. The values are unchanged. |
| Redis.StaleListedTwice | redis/redis.go:45-63 | Below capacity and with a valid ttl, Put of a key that is listed but whose value has expired skips the LREM, so the key ends up listed at least twice. |
| Redis.StoreExpiredKey | redis/redis.go:45-50 | An example of the above: Put of "k" into `["k"]` with no values gives the list `["k", "k"]`. |
| Redis.StaleAtBackLost | redis/redis.go:157-168 | On a full list where every other listed key still has a value, with a valid ttl, Put of a stale-listed key that is the back key pops that copy and deletes the value just written. The values end as they were, the other keys shift back by one, and Get of the key misses. |
| Redis.StaleBeforeBackKept | redis/redis.go:157-168 | On a full list where every other listed key still has a value, with a valid ttl, Put of a stale-listed key that is not the back key evicts the back key and deletes its value instead. The new value is kept and read back, and the key is listed at least twice. |
| Redis.StalePutLosesValue | redis/redis.go:45-62 | An example of StaleAtBackLost: Put of "k" into `["x", "k"]` at capacity 2, with only x valued, leaves `["k", "x"]` and no value for k, and Get of k misses. |
| Redis.StaleNotAtBack | redis/redis.go:45-63 | An example of StaleBeforeBackKept: Put of "k" into `["k", "x"]` at capacity 2, with only x valued, evicts x and leaves `["k", "k"]` holding the new value. |
| Redis.StaleScanSavesWrite | redis/redis.go:141-155 | When another listed key has also lost its value, the scan's LREM shortens the list before the pop loop: Put of "k" into `["y", "k"]` at capacity 2 with no values pops nothing, keeps the write and lists k twice. |
| Redis.LoadExact | redis/redis.go:67-80 | Get on a miss returns "" and leaves the list alone. On a hit it returns the value and leaves the key exactly once, at the front; every other key keeps its count. |
| Redis.DelThenLoad | redis/redis.go:108-125 | After Del, Get misses. The key stays listed exactly when it was listed without a value, because the LREM runs only after EXISTS succeeds. |
| Redis.UnexpiredExact | redis/redis.go:57 | Native expiry keeps exactly the values with no deadline or a deadline still ahead. Their entries are unchanged. |
| Redis.WriteExpires | redis/redis.go:55-57 | A value written with `ttl > 0` at `now` is read back, and its key moved to the front, while the server's clock is before `now + ttl`. From `now + ttl` on, Get misses and changes nothing. |
| Redis.FatalStepOne | redis/redis.go:52-57 | Put of "k" with ttl 1 stores a deadline one second ahead, and a second later the value is gone. |
| Redis.FatalStepTwo | redis/redis.go:45-50 | Put of "k" again, after its value expired, leaves "k" listed twice. |
| Redis.FatalStepThree | redis/redis.go:141-145 | The next Put of another key ends fatally at LINDEX. |
| Redis.StaleTwicePresent | redis/redis.go:150-154 | The scan's LREM removes both copies of the stale key. |
| Redis.StaleTwiceFatal | redis/redis.go:141-155 | That list has a valueless key listed twice. |
| Redis.FatalScenario | redis/redis.go:39-169 | The store object, driven through those three Puts with the server's expiry between them, is fatal on the third. |
| Redis.PrintWriteOne | testing/testing_test.go:195 | With capacity 2, Put a1 leaves [a1]. |
| Redis.PrintWriteTwo | testing/testing_test.go:196 | Then Put b1 leaves [b1, a1]. |
| Redis.PrintWriteThree | testing/testing_test.go:209 | Then Put c1 pops a1 and deletes its value, leaving [c1, b1]. |
| Redis.PrintTextOne | testing/testing_test.go:199-201 | [b1, a1] prints as "b1:2, a1:1" and stays as it is. |
| Redis.PrintTextTwo | testing/testing_test.go:212-213 | [c1, b1] prints as "c1:3, b1:2" and stays as it is. |
| Redis.PrintScenario | testing/testing_test.go:190-219 | The store object, driven through the same calls, returns exactly those two texts. |
| MultiCache.AgreeExact | multi_cache/multi_cache.go:59-63 | A non-empty result equals both stores' results. Equal results are returned. If either store misses, the result is "". |
| MultiCache.MultiCache.constructor | multi_cache/multi_cache.go:17-22 | The coordinator starts with two fresh stores with empty lists. |
| MultiCache.MultiCache.Set | multi_cache/multi_cache.go:25-39 | Both stores get `Put` with the same key, value, length and ttl. |
| MultiCache.MultiCache.Get | multi_cache/multi_cache.go:42-65 | Both stores' `Get` run, with all their side effects. The result is the common value, or "" if the two differ. |
| MultiCache.MultiCache.PrintRedis | multi_cache/multi_cache.go:68-81 | Returns exactly the Redis store's Print; the local store is untouched. |
| MultiCache.MultiCache.PrintInMem | multi_cache/multi_cache.go:84-97 | Returns exactly the local store's Print; the Redis store is untouched. |
| MultiCache.MultiCache.Del | multi_cache/multi_cache.go:100-117 | Both stores' `Del` run. |
| MultiCache.MultiCache.DelAll | multi_cache/multi_cache.go:119-136 | Both stores end empty. |
| MultiCache.MirrorsEmpty | multi_cache/multi_cache.go:17-22 | Two empty stores mirror each other. |
| MultiCache.SetExisting | multi_cache/multi_cache.go:25-39 | Set of an existing key, without expiry, keeps the two stores mirrored and within capacity. |
| MultiCache.SetFresh | multi_cache/multi_cache.go:25-39 | Set of a new key without expiry (ttl -1) below capacity keeps the two stores mirrored. |
| MultiCache.SetFull | multi_cache/multi_cache.go:25-39 | Set of a new key without expiry (ttl -1) on a full list (`|nodes| == length >= 1`) evicts the same key from both stores and keeps them mirrored. |
| MultiCache.SetKeepsMirror | multi_cache/multi_cache.go:25-39 | For any capacity `>= 1` and no expiry, Set keeps the Redis step free of faults, the two stores mirrored, and the local size within capacity. |
| MultiCache.GetAgrees | multi_cache/multi_cache.go:42-63 | On mirrored stores both Gets return the same value, the coordinator returns it, and the stores stay mirrored. |
| MultiCache.DelKeepsMirror | multi_cache/multi_cache.go:100-117 | Del keeps the two stores mirrored. |
| MultiCache.KeysRemoveKey | multi_cache/multi_cache.go:100-117 | The local Del removes from the key order exactly what Redis's `LREM` removes. |
| MultiCache.ItemsShown | multi_cache/multi_cache.go:68-97 | When every local node's value is Redis's value for its key, the two Prints produce the same items. |
| MultiCache.PrintAgrees | testing/testing_test.go:296-312 | On mirrored stores, `Print_in_mem` equals `Print_redis`, and neither Print removes anything. |
| MultiCache.DelAllThenGet | multi_cache/multi_cache.go:119-136 | After Del_ALL has emptied both stores, Get of any key misses in the local store, in Redis and in the coordinator. |
| MultiCache.CapacityZeroDiverges | multi_cache/multi_cache.go:25-63 | With capacity 0, the local store keeps the key while Redis pops it. The coordinator's Get then returns "", although the local store holds "1". |
| MultiCache.TwoSets | testing/testing_test.go:272-273 | With capacity 2, Set a then Set b leaves the local list [b, a]. |
| MultiCache.GetMiss | testing/testing_test.go:276-279 | Get c on that list misses and changes nothing. |
| MultiCache.GetHit | testing/testing_test.go:281-285 | Get a on that list returns "1". |
| MultiCache.DelFirst | testing/testing_test.go:325 | Del a leaves [b]. |
| MultiCache.DelMiss | testing/testing_test.go:327-330 | Get a then misses. |
| MultiCache.DelHit | testing/testing_test.go:332-335 | Get b still returns "2". |
| MultiCache.GetScenario | testing/testing_test.go:268-286 | The coordinator, driven through the same calls, returns "" for c and "1" for a. |
| MultiCache.PrintScenario | testing/testing_test.go:289-314 | The coordinator's two Print texts agree, both before and after the eviction. |
| MultiCache.DelScenario | testing/testing_test.go:317-336 | After Del a, the coordinator returns "" for a and "2" for b. |

## Left out

- **Concurrency.** The goroutines and `sync.WaitGroup` in the coordinator are left out, because each goroutine touches a different store. `Set` runs the local `Put` and then the Redis `Put`; `Get` and `Del` run the local call and then the Redis call. The store's `sync.Mutex` is left out too: a method call is one atomic step. Connection pooling is also left out.
- **The background sweep.** The ticker goroutine `startCleanupRoutine` and `cleanupTime` are left out. `LRUCache.Cleanup(now)` is a method that can be called at any time.
- **Walk order.** Print and cleanup walk local copies of the list and the map and write them back at the end. The mutex makes this indistinguishable from removing nodes one at a time.
- **Time.** Wall-clock time and `time.Duration` arithmetic are left out. Time is an integer `now` in seconds, and each call takes its `now` as a parameter.
- **Native expiry in Redis.** The moment Redis expires a key is not modelled. The step `Expire(now)` runs wherever the caller puts it. It drops a value once `deadline <= now`. This boundary is a modelling choice: the server's exact expiry instant is not part of the source, and time here is in whole seconds. `Redis.FatalStepOne` and `Redis.WriteExpires` depend on it.
- **Element identity.** List elements are identified by their key, and `list.Remove(elem)` is `RemoveKey(list, key)`. The two agree because of the unique-keys invariant.
- **The Redis client.** The go-redis client, its connection options, `context`, and every transport or protocol error are left out. The abstract server never fails. Only the three fatal paths named above are modelled.
- **Key collision.** A user key named `cache` would collide with the list; user keys are assumed to differ from it.
- **Formatting.** The model treats `fmt.Sprintf` applied to the joined text in the local Print as the plain join. It therefore does not capture how `%` in a key or value would be mangled.
- **Glue.** The HTTP handlers, `strconv.Atoi` parsing and `main.go`'s router are not part of this model.
- **The test files.** They are not modelled as files; the scenarios above restate the behaviour they assert. Those tests call the 3-argument `Put`, so each scenario passes the argument that means "no expiry" in its store: a ttl of 0 or -1 (any ttl <= 0) in the local store and ttl -1 in Redis. The coordinator scenarios pass -1 to both stores. `bench_marking_test.go` asserts nothing.
- Redis.StoreThenLoad: every conclusion after the first (listed exactly once, holds the new entry, Get returns the new value) is proved only when the key had a value or was not listed. In the excluded case, where the key is listed but its value has expired, the source breaks them too. Below capacity the key ends up listed at least twice (`Redis.StaleListedTwice`). At capacity, and when every other listed key still has a value, the write is lost if the stale copy is the back key (`Redis.StaleAtBackLost`). Otherwise the back key is evicted and the key stays listed twice (`Redis.StaleBeforeBackKept`). When other listed keys have lost their values too, the scan shortens the list first, so fewer keys are popped (`Redis.StaleScanSavesWrite`).
- MultiCache.SetKeepsMirror: proved for writes without expiry (ttl -1) only. Once a value can expire, the two stores expire it at different moments, so they need not stay mirrored.
- MultiCache.MirrorsEmpty: the mirror results start from a Redis server with no values at all. The coordinator's constructor accepts values already on the server, and those break the relation from the start.
- MultiCache.MultiCache.Set: when Redis's Put is fatal, the model still runs the local Put first. In the source the two run concurrently and the process then ends.
