/** The bounded LRU cache `LruCache<TKey, TValue>`.

    The state keeps the two structures of the C# class side by side: `index`
    is the dictionary from a key to the contents of its list node, `list` is
    the recency-ordered linked list (head = most recently used).  Every
    operation updates the two separately, where the C# code does (a hit in
    `Lookup` also rewrites the dictionary entry with the value it already
    holds, a write proved to change nothing), and `Synced` is the invariant saying they still describe the same set
    of entries.  The `OnEviction` hook is observed as the sequence of values
    handed to it, in call order. */
module LruCache {
  import opened Options
  import opened Recency

  /** Capacity used when the constructor is given none. */
  const DefaultCacheSize: int := 4096

  /** `int.MaxValue`: the capacity is a C# `int`. */
  const IntMax: int := 0x7fff_ffff

  datatype Cache<K, V> = Cache(index: map<K, Item<K, V>>, list: seq<Item<K, V>>, capacity: int)

  /** The state after an operation that may evict, with the values passed to
      `OnEviction`, first call first. */
  datatype Evicted<K, V> = Evicted(cache: Cache<K, V>, evicted: seq<V>)

  datatype LookupResult<K, V> = LookupResult(cache: Cache<K, V>, value: Option<V>)

  datatype ReplaceResult<K, V> = ReplaceResult(cache: Cache<K, V>, oldValue: Option<V>, evicted: seq<V>)

  /** The dictionary the list determines: each key of the list mapped to
      its first item. */
  function IndexOf<K, V>(list: seq<Item<K, V>>): map<K, Item<K, V>>
  {
    if |list| == 0 then map[] else IndexOf(list[1..])[list[0].key := list[0]]
  }

  /** The dictionary and the linked list describe the same entries: no key
      twice in the list, and the dictionary maps exactly the list's keys,
      each to the very item the list holds for it. */
  ghost predicate Synced<K, V>(c: Cache<K, V>)
  {
    NoDupKeys(c.list) && c.index == IndexOf(c.list)
  }

  /** The invariant of every cache a caller can hold. */
  ghost predicate Valid<K, V>(c: Cache<K, V>)
  {
    && Synced(c)
    && 1 <= c.capacity
    && Count(c) <= c.capacity
  }

  /** The values of the items of `list`, tail first: the order in which the
      eviction loop hands them to `OnEviction`. */
  function TailFirstValues<K, V>(list: seq<Item<K, V>>): (r: seq<V>)
    ensures |r| == |list|
  {
    if |list| == 0 then [] else [list[|list| - 1].value] + TailFirstValues(list[..|list| - 1])
  }

  /** The first `kept` items of `list` survive and `evicted` holds the values
      of all the others, taken from the tail inwards. */
  ghost predicate EvictedTail<K, V>(list: seq<Item<K, V>>, kept: nat, evicted: seq<V>)
  {
    kept <= |list| && evicted == TailFirstValues(list[kept..])
  }

  /** The constructor, with the same default capacity.  The C# code does not
      check its argument; a capacity below one makes the first insertion
      fail, so it is required here. */
  function New<K(==), V>(capacity: int := DefaultCacheSize): (c: Cache<K, V>)
    requires 1 <= capacity <= IntMax
    ensures Valid(c) && c.capacity == capacity && Count(c) == 0
    ensures KeysOf(c.list) == {}
  {
    Cache(map[], [], capacity)
  }

  /** The number of entries, read from the dictionary. */
  function Count<K, V>(c: Cache<K, V>): (n: nat)
    ensures Synced(c) ==> n == |c.list| == |KeysOf(c.list)|
  {
    SyncedCount(c);
    |c.index|
  }

  /** A hit returns the stored value and moves the entry to the head; the
      other entries keep their order and the dictionary is untouched.  A
      miss changes nothing. */
  function Lookup<K(==), V>(c: Cache<K, V>, key: K): (r: LookupResult<K, V>)
    requires Synced(c)
    ensures Synced(r.cache) && r.cache.index == c.index && r.cache.capacity == c.capacity
    ensures Valid(c) ==> Valid(r.cache)
    ensures r.value == Get(c.list, key)
    ensures r.value.Some? ==> r.cache.list == [Item(key, r.value.value)] + Without(c.list, key)
    ensures r.value.None? ==> r.cache == c
  {
    GetSomeIffKey(c.list, key);
    IndexOfKeys(c.list);
    if key in c.index then
      var cached := c.index[key];
      var moved := MoveToHead(c, key, cached.value);
      LookupResult(moved, Some(cached.value))
    else
      LookupResult(c, None)
  }

  /** The eviction loop: while the dictionary holds `capacity` entries or
      more, unlink the tail node, drop its key from the dictionary and pass
      its value to `OnEviction`.  Only tail items go, and they go from the
      tail inwards. */
  function EvictIfNeeded<K(==), V>(c: Cache<K, V>): (r: Evicted<K, V>)
    requires Synced(c) && 1 <= c.capacity
    ensures Synced(r.cache) && r.cache.capacity == c.capacity
    ensures Count(r.cache) < c.capacity
    decreases |c.list|
  {
    if Count(c) >= c.capacity then
      var nodeToEvict := c.list[|c.list| - 1];
      var rest := EvictIfNeeded(RemoveLast(c));
      Evicted(rest.cache, [nodeToEvict.value] + rest.evicted)
    else
      Evicted(c, [])
  }

  /** The loop keeps the first `capacity - 1` items in order, or all of them
      when fewer are cached, and evicts the others tail first. */
  lemma {:induction false} EvictIfNeededTail<K, V>(c: Cache<K, V>)
    requires Synced(c) && 1 <= c.capacity
    ensures var r := EvictIfNeeded(c);
            && |r.cache.list| == (if |c.list| < c.capacity then |c.list| else c.capacity - 1)
            && r.cache.list == c.list[..|r.cache.list|]
            && EvictedTail(c.list, |r.cache.list|, r.evicted)
    decreases |c.list|
  {
    if Count(c) >= c.capacity {
      var rest := EvictIfNeeded(RemoveLast(c));
      EvictIfNeededTail(RemoveLast(c));
      EvictStep(c.list, c.capacity, rest.cache.list, rest.evicted);
    }
  }

  /** Adds or replaces a mapping.  An existing key gets the new value in its
      node, moves to the head and reports its previous value; nothing is
      evicted.  A new key first runs the eviction loop and is then linked at
      the head; it reports no previous value. */
  function Replace<K(==), V>(c: Cache<K, V>, key: K, value: V): (r: ReplaceResult<K, V>)
    requires Synced(c) && 1 <= c.capacity
    ensures Synced(r.cache) && r.cache.capacity == c.capacity
    ensures r.oldValue == Get(c.list, key)
    ensures Get(r.cache.list, key) == Some(value)
    ensures r.oldValue.Some? ==>
              && r.evicted == []
              && r.cache.list == [Item(key, value)] + Without(c.list, key)
              && KeysOf(r.cache.list) == KeysOf(c.list)
    ensures r.oldValue.None? ==>
              var kept := |c.list| - |r.evicted|;
              && kept == (if |c.list| < c.capacity then |c.list| else c.capacity - 1)
              && EvictedTail(c.list, kept, r.evicted)
              && r.cache.list == [Item(key, value)] + c.list[..kept]
    ensures Valid(c) ==> Valid(r.cache)
  {
    GetSomeIffKey(c.list, key);
    IndexOfKeys(c.list);
    if key in c.index then
      var cached := c.index[key];
      var moved := MoveToHead(c, key, value);
      ReplaceResult(moved, Some(cached.value), [])
    else
      var ins := Insert(c, Item(key, value));
      ReplaceResult(ins.cache, None, ins.evicted)
  }

  /** The new-key branch of `Replace`: the eviction loop, then the new node
      linked at the head. */
  function Insert<K(==), V>(c: Cache<K, V>, item: Item<K, V>): (r: Evicted<K, V>)
    requires Synced(c) && 1 <= c.capacity && item.key !in c.index
    ensures Synced(r.cache) && r.cache.capacity == c.capacity
    ensures var kept := |c.list| - |r.evicted|;
            && kept == (if |c.list| < c.capacity then |c.list| else c.capacity - 1)
            && EvictedTail(c.list, kept, r.evicted)
            && r.cache.list == [item] + c.list[..kept]
    ensures Get(r.cache.list, item.key) == Some(item.value)
    ensures Count(r.cache) <= c.capacity
  {
    var ev := EvictIfNeeded(c);
    EvictIfNeededTail(c);
    PrefixKeys(c.list, |ev.cache.list|);
    IndexOfKeys(c.list);
    IndexOfKeys(ev.cache.list);
    Evicted(AddFirst(ev.cache, item), ev.evicted)
  }

  /** `Replace` with the previous value discarded. */
  function Add<K(==), V>(c: Cache<K, V>, key: K, value: V): (r: Evicted<K, V>)
    requires Synced(c) && 1 <= c.capacity
    ensures var full := Replace(c, key, value); r.cache == full.cache && r.evicted == full.evicted
    ensures Get(r.cache.list, key) == Some(value)
    ensures Valid(c) ==> Valid(r.cache)
  {
    var full := Replace(c, key, value);
    Evicted(full.cache, full.evicted)
  }

  /** Empties both structures; no value is passed to `OnEviction`. */
  function Clear<K(==), V>(c: Cache<K, V>): (r: Cache<K, V>)
    ensures Synced(r) && r.capacity == c.capacity && Count(r) == 0
    ensures KeysOf(r.list) == {}
    ensures Valid(c) ==> Valid(r)
  {
    Cache(map[], [], c.capacity)
  }

  // The steps of the two structures the operations are built from.

  /** Unlinks the node of `key`, stores `value` in it and links it at the
      head (`Remove` then `AddFirst`; a replacement also writes the new value
      into the node, which the dictionary shares). */
  function MoveToHead<K(==), V>(c: Cache<K, V>, key: K, value: V): (r: Cache<K, V>)
    requires Synced(c) && key in c.index
    ensures Synced(r) && r.capacity == c.capacity
    ensures r.index == c.index[key := Item(key, value)]
    ensures r.list == [Item(key, value)] + Without(c.list, key)
    ensures KeysOf(r.list) == KeysOf(c.list) && |r.list| == |c.list|
    ensures value == c.index[key].value ==> r.index == c.index
    ensures Get(c.list, key) == Some(c.index[key].value)
    ensures Get(r.list, key) == Some(value) && Count(r) == Count(c)
  {
    var i := SyncedPosition(c, key);
    var item := Item(key, value);
    IndexOfKeys(c.list);
    assert value == c.index[key].value ==> c.index[key := item] == c.index;
    SyncedPromote(c, i, item);
    RemoveAtIsWithout(c.list, i);
    GetAt(c.list, i);
    IndexOfKeys([item] + RemoveAt(c.list, i));
    Cache(c.index[key := item], [item] + RemoveAt(c.list, i), c.capacity)
  }

  /** Unlinks the tail node and removes its key from the dictionary. */
  function RemoveLast<K(==), V>(c: Cache<K, V>): (r: Cache<K, V>)
    requires Synced(c) && |c.list| > 0
    ensures Synced(r) && r.capacity == c.capacity
    ensures r.list == c.list[..|c.list| - 1]
    ensures r.index.Keys == c.index.Keys - {c.list[|c.list| - 1].key}
  {
    var nodeToEvict := c.list[|c.list| - 1];
    SyncedDropLast(c);
    Cache(c.index - {nodeToEvict.key}, c.list[..|c.list| - 1], c.capacity)
  }

  /** Links a node for a key the cache does not hold at the head and enters
      it in the dictionary. */
  function AddFirst<K(==), V>(c: Cache<K, V>, item: Item<K, V>): (r: Cache<K, V>)
    requires Synced(c) && item.key !in c.index
    ensures Synced(r) && r.capacity == c.capacity
    ensures r.list == [item] + c.list
    ensures r.index == c.index[item.key := item]
  {
    SyncedAddFirst(c, item);
    Cache(c.index[item.key := item], [item] + c.list, c.capacity)
  }

  // Facts about the two structures moving in step.

  lemma SyncedCount<K, V>(c: Cache<K, V>)
    ensures Synced(c) ==> |c.index| == |c.list| == |KeysOf(c.list)|
  {
    if Synced(c) {
      KeysOfCard(c.list);
      IndexOfKeys(c.list);
      assert |c.index| == |c.index.Keys|;
    }
  }

  /** The node the dictionary holds for `key` is in the list, at the
      returned position. */
  function SyncedPosition<K(==), V>(c: Cache<K, V>, key: K): (i: nat)
    requires Synced(c) && key in c.index
    ensures i < |c.list| && c.list[i] == c.index[key] && c.list[i].key == key
  {
    IndexOfKeys(c.list);
    var i := PositionOf(c.list, key);
    GetAt(c.list, i);
    IndexOfGet(c.list, key);
    i
  }

  lemma SyncedPromote<K, V>(c: Cache<K, V>, i: nat, item: Item<K, V>)
    requires Synced(c) && i < |c.list| && item.key == c.list[i].key
    ensures Synced(c.(index := c.index[item.key := item], list := [item] + RemoveAt(c.list, i)))
  {
    RemoveAtIsWithout(c.list, i);
    PromoteNoDup(c.list, item);
    PromoteIndex(c.list, item);
  }

  /** Linking a key's item at the head of the list without that key keeps
      the keys unique. */
  lemma PromoteNoDup<K, V>(list: seq<Item<K, V>>, item: Item<K, V>)
    requires NoDupKeys(list)
    ensures NoDupKeys([item] + Without(list, item.key))
  {
    var w := Without(list, item.key);
    WithoutKeys(list, item.key);
    WithoutNoDup(list, item.key);
    assert ([item] + w)[1..] == w;
  }

  /** ... and gives the dictionary with that key's entry replaced. */
  lemma PromoteIndex<K, V>(list: seq<Item<K, V>>, item: Item<K, V>)
    ensures IndexOf([item] + Without(list, item.key)) == IndexOf(list)[item.key := item]
  {
    var w := Without(list, item.key);
    assert ([item] + w)[1..] == w;
    IndexOfWithout(list, item.key);
    var m := IndexOf(list);
    assert (m - {item.key})[item.key := item] == m[item.key := item];
  }

  lemma SyncedDropLast<K, V>(c: Cache<K, V>)
    requires Synced(c) && |c.list| > 0
    ensures var last := c.list[|c.list| - 1];
            Synced(c.(index := c.index - {last.key}, list := c.list[..|c.list| - 1]))
  {
    var n := |c.list|;
    NoDupPrefix(c.list, n - 1);
    RemoveAtIsWithout(c.list, n - 1);
    assert RemoveAt(c.list, n - 1) == c.list[..n - 1];
    IndexOfWithout(c.list, c.list[n - 1].key);
  }

  lemma SyncedAddFirst<K, V>(c: Cache<K, V>, item: Item<K, V>)
    requires Synced(c) && item.key !in c.index
    ensures Synced(c.(index := c.index[item.key := item], list := [item] + c.list))
  {
    var list' := [item] + c.list;
    assert list'[1..] == c.list;
    IndexOfKeys(c.list);
    KeysOfCons(list');
  }

  /** The dictionary a list determines has the list's keys. */
  lemma {:induction false} IndexOfKeys<K, V>(list: seq<Item<K, V>>)
    ensures IndexOf(list).Keys == KeysOf(list)
  {
    if |list| > 0 {
      KeysOfCons(list);
      IndexOfKeys(list[1..]);
    }
  }

  /** ... and maps each of them to the item `Get` finds. */
  lemma {:induction false} IndexOfGet<K, V>(list: seq<Item<K, V>>, key: K)
    requires key in IndexOf(list)
    ensures Get(list, key).Some? && IndexOf(list)[key] == Item(key, Get(list, key).value)
  {
    if list[0].key != key {
      IndexOfGet(list[1..], key);
    }
  }

  /** Removing a key from the list removes it from the dictionary. */
  lemma {:induction false} IndexOfWithout<K, V>(list: seq<Item<K, V>>, key: K)
    ensures IndexOf(Without(list, key)) == IndexOf(list) - {key}
  {
    if |list| > 0 {
      var rest := IndexOf(list[1..]);
      IndexOfWithout(list[1..], key);
      if list[0].key == key {
        assert rest[key := list[0]] - {key} == rest - {key};
      } else {
        var w := Without(list, key);
        assert w[1..] == Without(list[1..], key);
        assert (rest - {key})[list[0].key := list[0]] == rest[list[0].key := list[0]] - {key};
      }
    }
  }

  /** One turn of the eviction loop, on the list alone: if evicting from
      the list without its tail left `restList` and evicted `restEvicted`,
      then evicting from the whole list leaves the same prefix and evicts the
      tail first. */
  lemma EvictStep<K, V>(list: seq<Item<K, V>>, capacity: int, restList: seq<Item<K, V>>, restEvicted: seq<V>)
    requires 1 <= capacity <= |list|
    requires |restList| == if |list| - 1 < capacity then |list| - 1 else capacity - 1
    requires restList == list[..|list| - 1][..|restList|]
    requires EvictedTail(list[..|list| - 1], |restList|, restEvicted)
    ensures |restList| == capacity - 1
    ensures restList == list[..|restList|]
    ensures EvictedTail(list, |restList|, [list[|list| - 1].value] + restEvicted)
  {
    var n := |list|;
    var gone := list[|restList|..];
    assert gone[..|gone| - 1] == list[..n - 1][|restList|..];
    assert list[..n - 1][..|restList|] == list[..|restList|];
  }
}
