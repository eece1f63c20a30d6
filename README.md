# LRU cache with per-entry expiry

A model of `Cache[K, V]` from `lru.go`. The cache is capacity-bounded and
evicts the least recently used entry. It keeps two structures in step:

- a key index (`items`);
- a recency list (`list`), front = most recently used.

It also holds a capacity (`size`) and a default time-to-live (`ttl`).
Each entry carries an absolute expiry instant, or "never".

The model has three modules:

- `Recency` (`recency.dfy`) holds the pure description.
  - The recency list is a sequence of entries, index 0 = front.
  - `Expiry` is either `Never` (Go's zero `time.Time`) or `At(t)`.
  - There is one function per operation, giving the list that operation
    leaves behind: `AfterSet`, `AfterRead`, `AfterExpire`, `Without`,
    `Purged`.
  - `ReadValue`, `LiveKeys` and `Visit` give what `Get`/`Peek`, `Keys` and
    `Range` report.
  - The lemmas state the cache's promises about these functions.
- `Lru` (`cache.dfy`) holds the class `Cache`.
  - Its fields `items`, `order`, `size` and `ttl` are updated in place.
  - There is one method per Go method, plus the list primitives
    `removeElement`, `removeOldest`, `MoveToFront`, `PushFront` and the
    in-place node update.
  - The operation methods (`Set`, `Expire`, `Get`, `Peek`, `Delete`,
    `Purge`, `SetCapacity`, `Clear`, `TTL`) keep the invariant `Valid()`.
    The list primitives keep only `Consistent()`, the index/list agreement
    without the capacity bound: `PushFront` may leave one entry too many
    until `Insert` trims it.
  - `Set`, `Expire`, `Get`, `Peek`, `Delete` and `Purge` are proved to
    leave exactly the list their `Recency` function describes.
    `SetCapacity`, `Clear` and `TTL` state their new state directly.
  - `Valid()` says: keys distinct, index keys equal list keys, each key
    maps to its own entry, capacity positive, length within capacity.
    `Consistent()` is its first three parts.
  - `Purge`, `SetCapacity`, `Keys` and `Range` are loops, as in Go.
- `Scenarios` (`scenarios.dfy`) replays the LRU eviction scenarios of
  `lru_test.go` on `Cache` objects.

Two Go time checks are kept apart:

- Live (`get`, `Keys`, `Range`): `expireAt.IsZero() || now.Before(expireAt)`.
- Stale (`Purge`): `!expireAt.IsZero() && now.After(expireAt)`.

So an entry whose instant is exactly `now` survives `Purge` but is already
absent to `Get` (`PurgeBoundary`).

`time.Now()` is the integer parameter `now`, passed to `Set`, `Expire`,
`Get`, `Peek`, `Purge`, `Keys` and `Range`. In Go, a node is reached
through the `*list.Element` held in the index. Here it is reached by its
position in `order`, found by `IndexOf`. The handle `entryOption` holds only
the key, so `Expire` looks the key up again.

## Model

| member | source | states |
|---|---|---|
| Recency.NormalizeCapacity | lru.go:41-51 | the stored capacity is always positive: `n` when `n > 0`, `DefaultCacheSize` (10) otherwise |
| Recency.ExpiryAfter | lru.go:177-180 | the computed expiry is "never" exactly when the duration is not positive; otherwise it is `now + d`, strictly after `now` |
| Recency.IndexOf | lru.go:17 | the node found for a present key holds that key, no node before it does, and when keys are distinct (as the index keeps them) no other node does |
| Recency.DistinctKeysCount | lru.go:282-286 | with distinct keys the list is as long as the index, so `Size()` (the list length) is also the number of indexed keys |
| Recency.WithoutMembers | lru.go:375-379 | removing a key keeps exactly the entries with other keys; the key set loses exactly that key |
| Recency.WithoutDistinct | lru.go:375-379 | removing a key keeps keys distinct and shortens the list by one exactly when the key was present |
| Recency.WithoutAt | lru.go:375-379 | removing the key of the node at position `i` is unlinking that node: the entries before and after stay in order |
| Recency.WithoutAbsent | lru.go:269-278 | deleting a key that is not present changes nothing |
| Recency.WithoutTwice | lru.go:269-278 | deleting the same key twice is the same as deleting it once |
| Recency.ReadValueAt | lru.go:238-253 | a read of a present key returns its value exactly when the entry is live (never expires, or `now` is before its instant) |
| Recency.ReadValueMissing | lru.go:238-253 | a read of a missing key reports absent and leaves the list unchanged, promoting or not |
| Recency.ReadKeepsOthers | lru.go:238-253 | a read never moves or removes another entry; keys stay distinct; the key set loses the read key exactly when it was present and expired |
| Recency.AfterReadAt | lru.go:238-253 | by position: an expired entry is unlinked, a live one moves to the front on `Get` and stays in place on `Peek` |
| Recency.ReadPromotion | lru.go:227-264 | a successful `Peek` leaves the order unchanged; a successful `Get` puts the key at the front with the value it returned |
| Recency.ReadAgain | lru.go:238-253 | reading twice at the same instant gives the same answer, whether the first read promoted or not |
| Recency.SetKeepsInvariant | lru.go:172-202 | after `Set` keys stay distinct, the length is within the capacity, the written key and value are at the front, and the key set gains the key and, on an eviction, loses exactly the back key |
| Recency.SetInsertInvariant | lru.go:191-199 | inserting a new key and trimming back to capacity drops at most one key, the back one, and only when the list was full |
| Recency.SetEvictsOnlyBack | lru.go:172-202 | apart from the written key every entry keeps its place, except that a new key in a full cache drops exactly the back entry; the length grows by one only for a new key in a non-full cache |
| Recency.SetExpiry | lru.go:176-190 | a new entry gets the default TTL; an existing entry stays "never" if it never expired, and otherwise gets `now + ttl` ("never" when `ttl <= 0`) |
| Recency.SetThenRead | lru.go:172-202 | right after `Set(k, v)`, `Get(k)` and `Peek(k)` return `v` |
| Recency.ExpireKeepsOrder | lru.go:207-221 | `Expire` changes only the expiry of the handle's key: same length, keys, values and order; a missing key is a no-op |
| Recency.ExpireThenRead | lru.go:207-221 | after `Expire(d)` the key reads as present at time `t` exactly when `d <= 0` or `t < now + d` |
| Recency.PurgeWalkStep | lru.go:154-162 | each step of the front-to-back sweep, removing or passing over, keeps "kept prefix + sweep of the rest" equal to the sweep of the whole list |
| Recency.PurgedMembers | lru.go:147-165 | `Purge` keeps exactly the entries that are not stale (no finite instant strictly before `now`) |
| Recency.PurgedDistinct | lru.go:147-165 | `Purge` keeps keys distinct |
| Recency.PurgeCount | lru.go:147-165 | the number removed equals the number of stale keys |
| Recency.PurgeKeepsLiveKeys | lru.go:147-165 | `Purge` does not change what `Keys` reports |
| Recency.PurgeTwice | lru.go:147-165 | a second `Purge` at the same instant removes nothing |
| Recency.PurgeSplits | lru.go:147-165 | sweeping two pieces gives the sweep of the whole, so survivors keep their relative order |
| Recency.PurgeBoundary | lru.go:147-165 | an entry expiring exactly at `now` survives `Purge` yet reads as absent at `now` |
| Recency.LiveKeysOnlyKeysOf | lru.go:317-332 | `Keys` returns only present keys, and no more of them than the list holds |
| Recency.LiveKeysMatchRead | lru.go:317-332 | a key is among `Keys()` exactly when `Get`/`Peek` would return a value for it at the same instant |
| Recency.VisitIsPrefix | lru.go:337-350 | `Range` calls `fn` on live entries front to back, in the order `Keys` lists them; it stops early only after an answer of false, and every pair passed is what `Peek` would return |
| Recency.VisitAll | lru.go:337-350 | when `fn` always answers true, `Range` visits exactly the keys `Keys` returns |
| Lru.Cache.constructor | lru.go:41-51 | `New(n)` gives an empty, valid cache with the normalized capacity and no default TTL |
| Lru.Cache.TTL | lru.go:56-61 | stores the default TTL and changes nothing else |
| Lru.Cache.Size | lru.go:282-286 | the size is the list length, equals the number of indexed keys, and never exceeds the capacity |
| Lru.Cache.Capacity | lru.go:290-294 | the capacity is positive and bounds the list |
| Lru.Cache.RemoveElement | lru.go:375-379 | unlinks the node at position `i` and drops its key from the index, keeping index and list consistent |
| Lru.Cache.RemoveOldest | lru.go:365-369 | drops the back node if there is one, and otherwise does nothing |
| Lru.Cache.Replace | lru.go:184-188 | the node keeps its place and takes the new entry; the index maps the key to it |
| Lru.Cache.PushFront | lru.go:193-194 | a new key's entry goes to the front and into the index |
| Lru.Cache.MoveToFront | lru.go:189 | the node moves to the front; the rest keep their order |
| Lru.Cache.Update | lru.go:182-190 | update branch of `Set`: new value, expiry renewed unless never, node at the front, invariant kept |
| Lru.Cache.Insert | lru.go:191-199 | insert branch of `Set`: push to the front, evict the back entry once past the capacity, invariant kept |
| Lru.Cache.Set | lru.go:172-202 | leaves exactly `AfterSet` of the old list with the current TTL and capacity, keeps the invariant, and returns a handle for the key |
| Lru.Cache.Expire | lru.go:207-221 | leaves exactly `AfterExpire` of the old list and keeps the invariant |
| Lru.Cache.Read | lru.go:238-253 | returns `ReadValue` of the old list and leaves `AfterRead` (promoting when `updatePos`) |
| Lru.Cache.Get | lru.go:227-232 | the promoting read |
| Lru.Cache.Peek | lru.go:259-264 | the non-promoting read; it still removes an expired entry |
| Lru.Cache.Delete | lru.go:269-278 | returns true exactly when the key was present; afterwards only that key is gone and the others keep their order |
| Lru.Cache.SetCapacity | lru.go:300-313 | stores the normalized capacity and trims the back until the list fits, keeping the most recently used prefix |
| Lru.Cache.Keys | lru.go:317-332 | returns the live keys front to back (`LiveKeys`) and changes nothing |
| Lru.Cache.Range | lru.go:337-350 | the calls made are exactly `Visit`: live entries front to back until `fn` answers false; nothing changes |
| Lru.Cache.Clear | lru.go:354-360 | empties the list and index and keeps capacity and TTL |
| Lru.Cache.Purge | lru.go:147-165 | leaves exactly `Purged` of the old list, keeps the invariant, and returns the number removed, which is the number of stale keys |
| Scenarios.GetProtectsFromEviction | lru_test.go:125-186 | `TestGet`: a and b inserted at capacity 3, `Get("a")`, a missed `Get("c")` and `Set("c")` leave c, a, b with "b" at the back; `Get("b")` then saves "b", so `Set("d")` evicts "a" and "b" is still found |
| Scenarios.WithoutReadEvicted | lru_test.go:156-178 | the same run without `Get("b")`: `Set("d")` evicts "b", the back entry, and "a" is still found, so the read is what saved "b" |
| Scenarios.PeekDoesNotProtect | lru_test.go:192-225 | capacity 3 with a, b, c: `Peek("a")` returns 1 but does not promote, so `Set("d")` evicts "a" |

## Left out

- Locking: the `sync.RWMutex` is not modelled, and every operation is
  atomic. This includes `Peek` holding only the read lock while `get` may
  remove an expired entry.
- The background cleaner is not modelled: `Cleaner`, `startCleaner`,
  `cleanerLoop`, `Close` and the finalizer (lru.go:68-142). They involve a
  goroutine, a ticker, a stop channel, panic recovery, a finalizer and
  printing.
- Wall-clock time: `time.Now()` is the parameter `now`, an integer
  instant, and durations are integers.
  - `time.Time` arithmetic near its range limits is not modelled.
  - Neither is a computed instant that happens to equal the zero time,
    which Go would read as "never".
- Chaining: `TTL` and `Expire` return their receiver only for chaining. The
  model returns nothing from them.
- `Lru.Cache.Expire` is a method of the cache that takes the handle. The
  Go handle carries its own cache pointer, so a handle used on a different
  cache is not modelled.
- Go's `(V, bool)` results of `Get` and `Peek` become `Option<V>`: the zero
  value with `false` is `None`.
- `Lru.Cache.Range` takes `fn` as a pure function. A callback with side
  effects, such as one that calls back into the cache (which in Go would
  block on the lock), is not modelled.
- O(1) node access through `*list.Element` pointers is replaced by finding
  the node's position (`IndexOf`). The model captures which node changes,
  not the cost.
- Keys are assumed to have reflexive equality (`K(==)`). A Go key type
  whose values need not equal themselves, such as a float key holding NaN,
  is not modelled. For such a key the index lookup always misses, so every
  `Set` pushes a new node, and `delete` in `removeElement` removes nothing
  from the index. The index and the list then drift apart, which the
  invariant here rules out.
- Test-only code is not modelled: `printCacheStatus`, the benchmarks, and
  the concurrency, finalizer and cleaner tests.
