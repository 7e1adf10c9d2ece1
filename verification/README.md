# LRU cache model

A Dafny model of `LruCache<TKey, TValue>`, the bounded least-recently-used
cache of the tokenizer library (`Libs/TokenizerLib/src/Utils/LRUCache.cs`).

The C# class keeps two structures side by side: a `Dictionary` from a key to
its node, and a `LinkedList` of `CacheItem`s in recency order, with the head
the most recently used entry and the tail the next victim. The model keeps
both as immutable values in `LruCache.Cache`:

- `index` is a `map` from a key to the item its node holds;
- `list` is a `seq` of items, head first;
- `capacity` is the constructor argument.

Every operation updates the two structures separately, at the points where
the C# code does. The one exception: a hit in `Lookup` rewrites the dictionary
entry with the value it already holds, which the C# code does not do. That
write is proved to leave the dictionary unchanged.

`LruCache.Synced` is the invariant that ties the two structures together: no
key occurs twice in the list, and the dictionary is exactly the map the list
determines (`LruCache.IndexOf`). `LruCache.Valid` adds
`1 <= capacity` and `Count <= capacity`.

The virtual `OnEviction` hook is modelled by its observable effect: every
operation that can evict returns the sequence of values handed to the hook,
first call first.

Modules:

- `options.dfy` (`Options`): the `Option` result. It stands for the C#
  `bool` return value together with its `out` parameter.
- `recency.dfy` (`Recency`): reference definitions on the recency list.
  - `KeysOf` gives the list's keys.
  - `Get` gives the value of the first item with a key.
  - `Without` is the list with one key removed and the order kept.
  - It also holds the facts about these definitions that the cache proofs use.
- `lru_cache.dfy` (`LruCache`): the state, the invariant, and every operation
  of the class, each specified against the reference definitions.
- `lru_properties.dfy` (`LruProperties`): properties that span several calls:
  - any sequence of public calls preserves the invariant;
  - a replacement evicts at most one entry, and only when the cache is full;
  - strict LRU eviction order;
  - a second lookup of the same key is idempotent;
  - two scenarios at capacity 2: insert A, B, C; and insert A, B, look up A,
    insert C.

## Model

| member | source | states |
|---|---|---|
| LruCache.New | Libs/TokenizerLib/src/Utils/LRUCache.cs:41-46 | The constructor gives a valid, empty cache with the requested capacity: count 0 and no keys. The capacity defaults to `DefaultCacheSize`, 4096. |
| LruCache.Count | Libs/TokenizerLib/src/Utils/LRUCache.cs:126 | The count is read from the dictionary. On a synced cache it equals the list length and the number of distinct keys in the list. |
| LruCache.Lookup | Libs/TokenizerLib/src/Utils/LRUCache.cs:59-75 | A hit returns the stored value (the one `Get` finds) and moves that entry to the head. The other entries keep their relative order, and the dictionary and capacity are unchanged. A miss returns `None` and leaves the whole state as it was. The invariant is preserved. |
| LruCache.EvictIfNeeded | Libs/TokenizerLib/src/Utils/LRUCache.cs:79-88 | The loop ends with the dictionary and list still in sync, the capacity unchanged, and strictly fewer entries than the capacity. |
| LruCache.EvictIfNeededTail | Libs/TokenizerLib/src/Utils/LRUCache.cs:81-86 | The loop keeps the first `capacity - 1` items in order, or all of them when there are fewer. It passes every other value to the hook, starting at the tail and moving inwards. |
| LruCache.EvictStep | Libs/TokenizerLib/src/Utils/LRUCache.cs:83-86 | One turn of the loop: the tail's value is reported first, and the rest of the eviction proceeds on the list without its tail. |
| LruCache.Replace | Libs/TokenizerLib/src/Utils/LRUCache.cs:97-121 | Returns the previous value exactly when the key was present. Afterwards the key maps to the new value. An existing key moves to the head, with no eviction, the other entries in order, and the same key set. For a new key, the tail is evicted down to `capacity - 1` entries, tail first, and the new item is linked at the head of the surviving prefix. The invariant is preserved. |
| LruCache.Insert | Libs/TokenizerLib/src/Utils/LRUCache.cs:115-120 | The new-key branch: the eviction loop runs, then the new item goes at the head of the surviving prefix. The new key maps to its value, and the count is at most the capacity. |
| LruCache.Add | Libs/TokenizerLib/src/Utils/LRUCache.cs:95 | Gives the same state and the same hook calls as `Replace`, with the previous value discarded. |
| LruCache.Clear | Libs/TokenizerLib/src/Utils/LRUCache.cs:131-135 | Empties both structures, which stay in sync. The count becomes 0, no key remains, and the capacity is kept. |
| LruCache.MoveToHead | Libs/TokenizerLib/src/Utils/LRUCache.cs:110-112 | Unlinks a key's node, stores the value in it and relinks it at the head. The dictionary entry becomes the new item, and the list is the new item followed by the others in their old order. The key set and the count are unchanged. |
| LruCache.RemoveLast | Libs/TokenizerLib/src/Utils/LRUCache.cs:83-85 | Dropping the tail node and its dictionary key leaves the list without its last item. The dictionary loses exactly that key, and the two stay in sync. |
| LruCache.AddFirst | Libs/TokenizerLib/src/Utils/LRUCache.cs:116-118 | Entering a new key in the dictionary and linking its node at the head keeps the two in sync. |
| LruCache.SyncedPosition | Libs/TokenizerLib/src/Utils/LRUCache.cs:64 | The node the dictionary holds for a key is in the list, at the returned position. |
| LruCache.SyncedCount | Libs/TokenizerLib/src/Utils/LRUCache.cs:28-29 | In a synced cache the dictionary, the list and the set of keys all have the same size. |
| LruCache.SyncedPromote | Libs/TokenizerLib/src/Utils/LRUCache.cs:66-67 | Moving a key's node to the head, with the dictionary entry updated, keeps the two structures in sync. |
| LruCache.SyncedDropLast | Libs/TokenizerLib/src/Utils/LRUCache.cs:84-85 | Removing the tail node and its key keeps the two structures in sync. |
| LruCache.SyncedAddFirst | Libs/TokenizerLib/src/Utils/LRUCache.cs:117-118 | Adding an absent key to the dictionary and its node at the head keeps the two structures in sync. |
| LruCache.IndexOfWithout | Libs/TokenizerLib/src/Utils/LRUCache.cs:28-29 | Removing a key from the list removes exactly that key from the dictionary the list determines. |
| Recency.RemoveAtIsWithout | Libs/TokenizerLib/src/Utils/LRUCache.cs:66 | In a list without duplicate keys, unlinking the node at a position is the same as removing that key and keeping the order of the rest. |
| LruProperties.Step | Libs/TokenizerLib/src/Utils/LRUCache.cs:59-135 | Any public call keeps a valid cache valid. It causes at most one eviction, and only an insertion evicts at all. |
| LruProperties.Run | Libs/TokenizerLib/src/Utils/LRUCache.cs:59-135 | After any sequence of public calls the cache is valid and the count is at most the capacity. There are no more hook calls in total than there were calls. |
| LruProperties.AddAll | Libs/TokenizerLib/src/Utils/LRUCache.cs:95 | Adding items one by one keeps a valid cache valid. |
| LruProperties.ReplaceThenLookup | Libs/TokenizerLib/src/Utils/LRUCache.cs:107-120 | On any synced cache, whether the key is present or not and whether the cache is full or not: after `Replace(key, value)`, `Lookup(key)` finds `value`. |
| LruProperties.InsertWithRoom | Libs/TokenizerLib/src/Utils/LRUCache.cs:115-118 | If the cache is below capacity, a new key reports no previous value and evicts nothing. It is linked in front of the whole old list. |
| LruProperties.InsertWhenFull | Libs/TokenizerLib/src/Utils/LRUCache.cs:81-86 | If the cache is full, a new key evicts exactly the tail entry, with one hook call carrying its value. It is then linked in front of the rest. |
| LruProperties.EvictsOnlyWhenFull | Libs/TokenizerLib/src/Utils/LRUCache.cs:81 | On a valid cache a replacement evicts at most one entry. It evicts one if and only if the key is new and the count equals the capacity. |
| LruProperties.LookupIdempotent | Libs/TokenizerLib/src/Utils/LRUCache.cs:63-69 | A second lookup of the same key returns the same value and leaves the state exactly as the first lookup left it. |
| LruProperties.PromotionProtects | Libs/TokenizerLib/src/Utils/LRUCache.cs:66-67 | With capacity two or more, a key that has just been looked up survives the insertion of another new key and keeps its value. |
| LruProperties.OtherStaysAbsent | Libs/TokenizerLib/src/Utils/LRUCache.cs:66-67 | Promoting one key does not make any other absent key present. |
| LruProperties.AddAllFresh | Libs/TokenizerLib/src/Utils/LRUCache.cs:95 | Adding distinct new keys to a cache with room for all of them evicts nothing. They are stacked at the head, the last added first. |
| LruProperties.FillThenOverflow | Libs/TokenizerLib/src/Utils/LRUCache.cs:79-88 | Strict LRU: fill an empty cache of capacity N with N distinct keys, then insert one more. Exactly the first key added is evicted, with one hook call, and the others stay in recency order. |
| LruProperties.DefaultCapacity | Libs/TokenizerLib/src/Utils/LRUCache.cs:41-46 | A cache built without a capacity argument has capacity `DefaultCacheSize`, which is 4096, and starts valid and empty. |
| LruProperties.ClearThenLookupMisses | Libs/TokenizerLib/src/Utils/LRUCache.cs:131-135 | After `Clear`, every lookup misses and changes nothing. |
| LruProperties.InsertAThenB | Libs/TokenizerLib/src/Utils/LRUCache.cs:95 | With capacity 2, adding A then B gives the list B, A. |
| LruProperties.OverflowTwo | Libs/TokenizerLib/src/Utils/LRUCache.cs:79-88 | In a full cache of two entries, a new key evicts the tail only. The head still hits and the tail misses. |
| LruProperties.TouchTail | Libs/TokenizerLib/src/Utils/LRUCache.cs:64-69 | In a cache of two entries, looking up the tail returns its value and swaps the two entries. |
| LruProperties.ScenarioEvictsOldest | Libs/TokenizerLib/src/Utils/LRUCache.cs:79-88 | Capacity 2: add A, B, then C. C evicts A and the hook sees 1. B still gives 2 and A misses. |
| LruProperties.ScenarioLookupProtects | Libs/TokenizerLib/src/Utils/LRUCache.cs:59-75 | Capacity 2: add A and B, look up A, then add C. C evicts B, not A, and the hook sees 2. |

## Left out

- The `lock (_lockObject)` regions: the model is sequential. `Clear` takes no lock in the code, which makes no difference in a sequential model.
- The internals of `Dictionary` and `LinkedList`: hashing, node identity and pointer sharing. The node the dictionary and the list share is modelled as the same item stored in both. An in-place value update in `ReplaceInternal` updates both.
- Virtual dispatch of `OnEviction`: only the sequence of values passed to the hook is modelled. Subclass behaviour and exceptions thrown by the hook are not. The hook is called after the node has left both structures (lines 84-86 of `LRUCache.cs`). Since the model records only the values passed, the timing of the call within a loop turn is not modelled.
- Non-positive capacity: `LruCache.New` requires `1 <= capacity`, and the inserting operations require it too. With `_cacheSize <= 0`, the condition `_cache.Count >= _cacheSize` still holds once both structures are empty. The first new-key insertion therefore reaches `_lruList.RemoveLast()` on an empty list (lines 81-84 of `LRUCache.cs`), which throws `InvalidOperationException`. That failure is not modelled.
- Null keys: `Dictionary.TryGetValue` rejects a null key with `ArgumentNullException` (lines 64 and 107 of `LRUCache.cs`), so `Lookup`, `Replace` and `Add` throw on one. The model's keys have no null, so this error path is not modelled.
- `LruCache.New` also requires `capacity <= int.MaxValue`. Counts are unbounded integers, and no 32-bit overflow is modelled, because a count never exceeds the capacity.
