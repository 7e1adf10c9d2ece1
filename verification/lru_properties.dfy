/** Properties of the cache that relate several operations: round trips,
    idempotence of a touch, strict least-recently-used eviction, and the
    invariant kept over any sequence of calls. */
module LruProperties {
  import opened Options
  import opened Recency
  import opened LruCache

  /** A public call on the cache. */
  datatype Op<K, V> =
    | LookupOp(key: K)
    | ReplaceOp(key: K, value: V)
    | AddOp(key: K, value: V)
    | CountOp
    | ClearOp

  /** One public call; its answer is dropped, the state and the values
      passed to `OnEviction` are kept.  A valid cache stays valid and no
      call evicts more than one entry; only insertions evict at all. */
  function Step<K(==), V>(c: Cache<K, V>, op: Op<K, V>): (r: Evicted<K, V>)
    requires Valid(c)
    ensures Valid(r.cache) && r.cache.capacity == c.capacity
    ensures |r.evicted| <= 1
    ensures op.LookupOp? || op.CountOp? || op.ClearOp? ==> r.evicted == []
  {
    match op
    case LookupOp(key) => Evicted(Lookup(c, key).cache, [])
    case ReplaceOp(key, value) =>
      var full := Replace(c, key, value);
      Evicted(full.cache, full.evicted)
    case AddOp(key, value) => Add(c, key, value)
    case CountOp => Evicted(c, [])
    case ClearOp => Evicted(Clear(c), [])
  }

  /** A sequence of calls, with all the values passed to `OnEviction`.
      The count stays within the capacity whatever the calls are. */
  function Run<K(==), V>(c: Cache<K, V>, ops: seq<Op<K, V>>): (r: Evicted<K, V>)
    requires Valid(c)
    ensures Valid(r.cache) && r.cache.capacity == c.capacity
    ensures Count(r.cache) <= c.capacity
    ensures |r.evicted| <= |ops|
    decreases |ops|
  {
    if |ops| == 0 then Evicted(c, [])
    else
      var first := Step(c, ops[0]);
      var rest := Run(first.cache, ops[1..]);
      Evicted(rest.cache, first.evicted + rest.evicted)
  }

  /** Adds the items in order, the first one first. */
  function AddAll<K(==), V>(c: Cache<K, V>, items: seq<Item<K, V>>): (r: Evicted<K, V>)
    requires Valid(c)
    ensures Valid(r.cache) && r.cache.capacity == c.capacity
    decreases |items|
  {
    if |items| == 0 then Evicted(c, [])
    else
      var first := Add(c, items[0].key, items[0].value);
      var rest := AddAll(first.cache, items[1..]);
      Evicted(rest.cache, first.evicted + rest.evicted)
  }

  function Reverse<T>(s: seq<T>): (r: seq<T>)
    ensures |r| == |s|
  {
    if |s| == 0 then [] else Reverse(s[1..]) + [s[0]]
  }

  /** Replacing a key, then looking it up, finds the value just stored,
      whether the key was present or new and whether the cache was full. */
  lemma ReplaceThenLookup<K, V>(c: Cache<K, V>, key: K, value: V)
    requires Synced(c) && 1 <= c.capacity
    ensures Lookup(Replace(c, key, value).cache, key).value == Some(value)
  {
  }

  /** On a valid cache with room, a new key is linked at the head and
      nothing is evicted. */
  lemma InsertWithRoom<K, V>(c: Cache<K, V>, key: K, value: V)
    requires Valid(c) && Get(c.list, key) == None && |c.list| < c.capacity
    ensures var r := Replace(c, key, value);
            && r.oldValue == None && r.evicted == []
            && r.cache.list == [Item(key, value)] + c.list
  {
  }

  /** On a full valid cache, a new key evicts exactly the tail entry, one
      call of `OnEviction` with its value, and is then linked at the head. */
  lemma InsertWhenFull<K, V>(c: Cache<K, V>, key: K, value: V)
    requires Valid(c) && Get(c.list, key) == None && |c.list| == c.capacity
    ensures var r := Replace(c, key, value);
            && r.oldValue == None
            && r.evicted == [c.list[|c.list| - 1].value]
            && r.cache.list == [Item(key, value)] + c.list[..|c.list| - 1]
  {
    var r := Replace(c, key, value);
    assert |r.evicted| == 1;
  }

  /** On a valid cache a replacement evicts at most one entry, and it
      evicts one exactly when the key is new and the cache is full. */
  lemma EvictsOnlyWhenFull<K, V>(c: Cache<K, V>, key: K, value: V)
    requires Valid(c)
    ensures var r := Replace(c, key, value);
            && |r.evicted| <= 1
            && (|r.evicted| == 1 <==> Get(c.list, key) == None && Count(c) == c.capacity)
  {
    if Get(c.list, key) == None {
      if Count(c) < c.capacity {
        InsertWithRoom(c, key, value);
      } else {
        InsertWhenFull(c, key, value);
      }
    }
  }

  /** Looking the same key up twice in a row is the same as once: the
      second touch changes neither the order nor the count. */
  lemma {:induction false} LookupIdempotent<K, V>(c: Cache<K, V>, key: K)
    requires Synced(c)
    ensures var first := Lookup(c, key); Lookup(first.cache, key) == first
  {
    var first := Lookup(c, key);
    if first.value.Some? {
      var w := Without(c.list, key);
      var item := Item(key, first.value.value);
      var l := [item] + w;
      assert l[1..] == w;
      WithoutKeys(c.list, key);
      WithoutAbsent(w, key);
      assert Without(l, key) == w;
    }
  }

  /** After a hit on `key`, inserting a different new key into a cache of
      capacity two or more does not evict `key`: the touch made it the most
      recently used entry, and only the tail is evicted. */
  lemma PromotionProtects<K, V>(c: Cache<K, V>, key: K, other: K, value: V)
    requires Valid(c) && 2 <= c.capacity
    requires Get(c.list, key).Some? && Get(c.list, other) == None
    ensures var touched := Lookup(c, key);
            var r := Replace(touched.cache, other, value);
            Get(r.cache.list, key) == touched.value
  {
    var touched := Lookup(c, key);
    var l := touched.cache.list;
    OtherStaysAbsent(c.list, key, other, touched.value.value);
    var r := Replace(touched.cache, other, value);
    if |l| < c.capacity {
      InsertWithRoom(touched.cache, other, value);
    } else {
      InsertWhenFull(touched.cache, other, value);
    }
    assert r.cache.list[1] == l[0];
  }

  /** A key missing before the touch of another key is still missing. */
  lemma OtherStaysAbsent<K, V>(list: seq<Item<K, V>>, key: K, other: K, v: V)
    requires Get(list, other) == None && key != other
    ensures Get([Item(key, v)] + Without(list, key), other) == None
  {
    GetSomeIffKey(list, other);
    WithoutKeys(list, key);
    GetSomeIffKey(Without(list, key), other);
    assert ([Item(key, v)] + Without(list, key))[1..] == Without(list, key);
  }

  /** Adding items with fresh, distinct keys into a cache with room for all
      of them evicts nothing and stacks them at the head, last added first. */
  lemma {:induction false} AddAllFresh<K, V>(c: Cache<K, V>, items: seq<Item<K, V>>)
    requires Valid(c) && NoDupKeys(items)
    requires KeysOf(items) !! KeysOf(c.list)
    requires |c.list| + |items| <= c.capacity
    ensures AddAll(c, items).cache.list == Reverse(items) + c.list
    ensures AddAll(c, items).evicted == []
    decreases |items|
  {
    if |items| > 0 {
      var item := items[0];
      KeysOfCons(items);
      GetSomeIffKey(c.list, item.key);
      InsertWithRoom(c, item.key, item.value);
      var first := Add(c, item.key, item.value);
      var l := first.cache.list;
      assert l == [item] + c.list;
      assert l[1..] == c.list;
      KeysOfCons(l);
      AddAllFresh(first.cache, items[1..]);
      ReverseCons(items, c.list);
    }
  }

  lemma KeysOfReverse<K, V>(items: seq<Item<K, V>>)
    ensures KeysOf(Reverse(items)) == KeysOf(items)
  {
    if |items| > 0 {
      KeysOfCons(items);
      KeysOfReverse(items[1..]);
      var r := Reverse(items);
      assert r == Reverse(items[1..]) + [items[0]];
      forall k | k in KeysOf(r)
        ensures k in KeysOf(items)
      {
        var i :| 0 <= i < |r| && r[i].key == k;
        if i < |r| - 1 {
          assert Reverse(items[1..])[i].key == k;
        }
      }
      forall k | k in KeysOf(items)
        ensures k in KeysOf(r)
      {
        if k == items[0].key {
          assert r[|r| - 1].key == k;
        } else {
          var i :| 0 <= i < |Reverse(items[1..])| && Reverse(items[1..])[i].key == k;
          assert r[i].key == k;
        }
      }
    }
  }

  /** Strict LRU: filling an empty cache of capacity N with N distinct keys
      and then inserting one more evicts exactly the first key added, with
      one call of `OnEviction`, and keeps the others in recency order. */
  lemma FillThenOverflow<K, V>(capacity: int, items: seq<Item<K, V>>, extra: Item<K, V>)
    requires 1 <= capacity <= IntMax
    requires |items| == capacity && NoDupKeys(items)
    requires extra.key !in KeysOf(items)
    ensures var full := AddAll(New(capacity), items).cache;
            var r := Replace(full, extra.key, extra.value);
            && r.evicted == [items[0].value]
            && r.cache.list == [extra] + Reverse(items[1..])
  {
    var c0: Cache<K, V> := New(capacity);
    AddAllFresh(c0, items);
    var full := AddAll(c0, items).cache;
    assert full.list == Reverse(items);
    KeysOfReverse(items);
    GetSomeIffKey(full.list, extra.key);
    InsertWhenFull(full, extra.key, extra.value);
    ReverseSplit(items);
  }

  lemma ReverseCons<T>(s: seq<T>, rest: seq<T>)
    requires |s| > 0
    ensures Reverse(s) + rest == Reverse(s[1..]) + ([s[0]] + rest)
  {
    var front := Reverse(s[1..]);
    assert Reverse(s) == front + [s[0]];
    AppendAssoc(front, [s[0]], rest);
  }

  /** Associativity of `+` on sequences, called where a proof about
      `Reverse` needs it so that the fact is not searched for. */
  lemma AppendAssoc<T>(a: seq<T>, b: seq<T>, c: seq<T>)
    ensures (a + b) + c == a + (b + c)
  {
  }

  lemma ReverseSplit<T>(s: seq<T>)
    requires |s| > 0
    ensures Reverse(s)[|s| - 1] == s[0]
    ensures Reverse(s)[..|s| - 1] == Reverse(s[1..])
  {
    assert Reverse(s) == Reverse(s[1..]) + [s[0]];
  }

  /** A cache built without a capacity argument gets `DefaultCacheSize`
      entries of room and starts empty. */
  lemma DefaultCapacity<K, V>()
    ensures var c: Cache<K, V> := New();
            && c.capacity == DefaultCacheSize == 4096
            && Valid(c) && Count(c) == 0
  {
  }

  /** After `Clear` every lookup misses and changes nothing. */
  lemma ClearThenLookupMisses<K, V>(c: Cache<K, V>, key: K)
    requires Valid(c)
    ensures Valid(Clear(c))
    ensures Lookup(Clear(c), key) == LookupResult(Clear(c), None)
  {
  }

  /** The common start of the two scenarios below: capacity 2, insert A
      then B; B is the head and A the tail. */
  lemma InsertAThenB() returns (c2: Cache<char, int>)
    ensures c2 == Add(Add(New(2), 'A', 1).cache, 'B', 2).cache
    ensures Valid(c2) && c2.capacity == 2
    ensures c2.list == [Item('B', 2), Item('A', 1)]
  {
    var c0: Cache<char, int> := New(2);
    InsertWithRoom(c0, 'A', 1);
    var c1 := Add(c0, 'A', 1).cache;
    InsertWithRoom(c1, 'B', 2);
    c2 := Add(c1, 'B', 2).cache;
  }

  /** A full cache of two entries: a new key evicts the tail, after which
      the head still hits and the tail misses. */
  lemma OverflowTwo<K, V>(c: Cache<K, V>, head: Item<K, V>, tail: Item<K, V>, extra: Item<K, V>)
    requires Valid(c) && c.capacity == 2 && c.list == [head, tail]
    requires extra.key != head.key && extra.key != tail.key
    ensures var r := Add(c, extra.key, extra.value);
            && r.evicted == [tail.value]
            && Lookup(r.cache, head.key).value == Some(head.value)
            && Lookup(r.cache, tail.key).value == None
  {
    assert head.key != tail.key by {
      NoDupIndex(c.list, 0, 1);
    }
    assert Get(c.list, extra.key) == None by {
      assert c.list[1..] == [tail] && c.list[1..][1..] == [];
      assert Get(c.list, extra.key) == Get(c.list[1..], extra.key)
          == Get(c.list[1..][1..], extra.key);
    }
    InsertWhenFull(c, extra.key, extra.value);
    var l := Add(c, extra.key, extra.value).cache.list;
    assert l == [extra, head];
    assert l[1..] == [head] && l[1..][1..] == [];
    assert Get(l, tail.key) == Get(l[1..], tail.key) == Get(l[1..][1..], tail.key);
  }

  /** A cache of two entries: a lookup of the tail swaps the two. */
  lemma TouchTail<K, V>(c: Cache<K, V>, head: Item<K, V>, tail: Item<K, V>)
    requires Valid(c) && c.list == [head, tail]
    ensures var touched := Lookup(c, tail.key);
            && Valid(touched.cache) && touched.cache.capacity == c.capacity
            && touched.value == Some(tail.value)
            && touched.cache.list == [tail, head]
  {
    assert head.key != tail.key by {
      NoDupIndex(c.list, 0, 1);
    }
    GetAt(c.list, 1);
    assert c.list[1..] == [tail] && c.list[1..][1..] == [];
    assert Without(c.list, tail.key) == [head] + Without(c.list[1..], tail.key);
    assert Without(c.list[1..], tail.key) == Without(c.list[1..][1..], tail.key) == [];
  }

  /** Capacity 2: insert A, B, C; C evicts A (the hook sees 1), B is still
      there with 2 and A misses. */
  lemma ScenarioEvictsOldest()
    ensures var c2 := Add(Add(New(2), 'A', 1).cache, 'B', 2).cache;
            var r3 := Add(c2, 'C', 3);
            && r3.evicted == [1]
            && Lookup(r3.cache, 'B').value == Some(2)
            && Lookup(r3.cache, 'A').value == None
  {
    var c2 := InsertAThenB();
    OverflowTwo(c2, Item('B', 2), Item('A', 1), Item('C', 3));
  }

  /** Capacity 2: insert A, B, look A up, insert C; C evicts B, not A,
      because the lookup made A the most recently used. */
  lemma ScenarioLookupProtects()
    ensures var c2 := Add(Add(New(2), 'A', 1).cache, 'B', 2).cache;
            var c3 := Lookup(c2, 'A').cache;
            var r4 := Add(c3, 'C', 3);
            && r4.evicted == [2]
            && Lookup(r4.cache, 'A').value == Some(1)
            && Lookup(r4.cache, 'B').value == None
  {
    var c2 := InsertAThenB();
    TouchTail(c2, Item('B', 2), Item('A', 1));
    var c3 := Lookup(c2, 'A').cache;
    OverflowTwo(c3, Item('A', 1), Item('B', 2), Item('C', 3));
  }
}
