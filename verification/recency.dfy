/** The recency list of the cache, abstracted to a sequence of items ordered
    from most recently used (index 0, the head) to least recently used (the
    last index, the tail and next eviction victim).  This module holds the
    reference definitions the cache operations are specified against:
    which keys a list holds, what value it gives a key, and the list with
    one key taken out and everything else left in order. */
module Recency {
  import opened Options

  /** One cached mapping (the C# `CacheItem`); its key never changes. */
  datatype Item<K, V> = Item(key: K, value: V)

  /** The set of keys the list holds. */
  function KeysOf<K, V>(list: seq<Item<K, V>>): set<K>
  {
    set i | 0 <= i < |list| :: list[i].key
  }

  /** No key occurs at two positions of the list: the head's key is not
      among the keys after it, and the same holds of the rest. */
  predicate NoDupKeys<K(==), V>(list: seq<Item<K, V>>)
  {
    |list| == 0 || (list[0].key !in KeysOf(list[1..]) && NoDupKeys(list[1..]))
  }

  /** Reference lookup: the value of the first item holding `key`. */
  function Get<K(==), V>(list: seq<Item<K, V>>, key: K): Option<V>
  {
    if |list| == 0 then None
    else if list[0].key == key then Some(list[0].value)
    else Get(list[1..], key)
  }

  /** Reference removal: every item of `key` dropped, the others kept in
      their relative order. */
  function Without<K(==), V>(list: seq<Item<K, V>>, key: K): seq<Item<K, V>>
  {
    if |list| == 0 then []
    else if list[0].key == key then Without(list[1..], key)
    else [list[0]] + Without(list[1..], key)
  }

  /** The position of the first item holding `key`; the linked list finds
      the node through the index, the sequence has to search for it. */
  function PositionOf<K(==), V>(list: seq<Item<K, V>>, key: K): (i: nat)
    requires key in KeysOf(list)
    ensures i < |list| && list[i].key == key
    ensures forall j :: 0 <= j < i ==> list[j].key != key
  {
    if list[0].key == key then 0
    else
      KeysOfCons(list);
      PositionOf(list[1..], key) + 1
  }

  /** The list with the item at position `i` unlinked (LinkedList.Remove). */
  function RemoveAt<K, V>(list: seq<Item<K, V>>, i: nat): (r: seq<Item<K, V>>)
    requires i < |list|
    ensures |r| == |list| - 1
    ensures forall j :: 0 <= j < |r| ==> r[j] == if j < i then list[j] else list[j + 1]
  {
    list[..i] + list[i + 1..]
  }

  lemma KeysOfCons<K, V>(list: seq<Item<K, V>>)
    requires |list| > 0
    ensures KeysOf(list) == {list[0].key} + KeysOf(list[1..])
  {
    forall k | k in KeysOf(list)
      ensures k in {list[0].key} + KeysOf(list[1..])
    {
      var i :| 0 <= i < |list| && list[i].key == k;
      if i > 0 {
        assert list[1..][i - 1].key == k;
      }
    }
    forall k | k in KeysOf(list[1..])
      ensures k in KeysOf(list)
    {
      var j :| 0 <= j < |list| - 1 && list[1..][j].key == k;
      assert list[j + 1].key == k;
    }
  }

  /** In a duplicate-free list two positions hold two different keys. */
  lemma {:induction false} NoDupIndex<K, V>(list: seq<Item<K, V>>, i: nat, j: nat)
    requires NoDupKeys(list) && i < j < |list|
    ensures list[i].key != list[j].key
  {
    assert list[1..][j - 1] == list[j];
    if i > 0 {
      assert list[1..][i - 1] == list[i];
      NoDupIndex(list[1..], i - 1, j - 1);
    }
  }

  /** A prefix holds no key the whole list lacks. */
  lemma PrefixKeys<K, V>(list: seq<Item<K, V>>, n: nat)
    requires n <= |list|
    ensures KeysOf(list[..n]) <= KeysOf(list)
  {
    forall k | k in KeysOf(list[..n])
      ensures k in KeysOf(list)
    {
      var j :| 0 <= j < n && list[..n][j].key == k;
      assert list[j].key == k;
    }
  }

  /** A prefix of a duplicate-free list is duplicate-free. */
  lemma {:induction false} NoDupPrefix<K, V>(list: seq<Item<K, V>>, n: nat)
    requires NoDupKeys(list) && n <= |list|
    ensures NoDupKeys(list[..n])
  {
    if n > 0 {
      assert list[..n][1..] == list[1..][..n - 1];
      PrefixKeys(list[1..], n - 1);
      NoDupPrefix(list[1..], n - 1);
    }
  }

  /** A key at position `i` of a duplicate-free list is what `Get` finds. */
  lemma {:induction false} GetAt<K, V>(list: seq<Item<K, V>>, i: nat)
    requires NoDupKeys(list) && i < |list|
    ensures Get(list, list[i].key) == Some(list[i].value)
  {
    if i > 0 {
      NoDupIndex(list, 0, i);
      assert list[1..][i - 1] == list[i];
      GetAt(list[1..], i - 1);
    }
  }

  /** `Get` finds a value exactly for the keys the list holds. */
  lemma {:induction false} GetSomeIffKey<K, V>(list: seq<Item<K, V>>, key: K)
    ensures Get(list, key).Some? <==> key in KeysOf(list)
  {
    if |list| > 0 {
      KeysOfCons(list);
      GetSomeIffKey(list[1..], key);
    }
  }

  /** What `Without` leaves: the keys minus the removed one, nothing new. */
  lemma {:induction false} WithoutKeys<K, V>(list: seq<Item<K, V>>, key: K)
    ensures KeysOf(Without(list, key)) == KeysOf(list) - {key}
    ensures forall x :: x in Without(list, key) ==> x in list && x.key != key
  {
    if |list| > 0 {
      KeysOfCons(list);
      WithoutKeys(list[1..], key);
      if list[0].key != key {
        KeysOfCons(Without(list, key));
        assert Without(list, key)[1..] == Without(list[1..], key);
      }
    }
  }

  lemma {:induction false} WithoutNoDup<K, V>(list: seq<Item<K, V>>, key: K)
    requires NoDupKeys(list)
    ensures NoDupKeys(Without(list, key))
  {
    if |list| > 0 {
      WithoutNoDup(list[1..], key);
      if list[0].key != key {
        var w := Without(list, key);
        assert w[1..] == Without(list[1..], key);
        WithoutKeys(list[1..], key);
      }
    }
  }

  /** Removing a key the list does not hold changes nothing. */
  lemma {:induction false} WithoutAbsent<K, V>(list: seq<Item<K, V>>, key: K)
    requires key !in KeysOf(list)
    ensures Without(list, key) == list
  {
    if |list| > 0 {
      KeysOfCons(list);
      WithoutAbsent(list[1..], key);
    }
  }

  /** Unlinking the one node of a key is the reference removal of that key. */
  lemma {:induction false} RemoveAtIsWithout<K, V>(list: seq<Item<K, V>>, i: nat)
    requires NoDupKeys(list) && i < |list|
    ensures RemoveAt(list, i) == Without(list, list[i].key)
  {
    var key := list[i].key;
    if i == 0 {
      WithoutAbsent(list[1..], key);
      assert RemoveAt(list, 0) == list[1..];
    } else {
      assert list[1..][i - 1] == list[i];
      RemoveAtIsWithout(list[1..], i - 1);
      assert RemoveAt(list, i) == [list[0]] + RemoveAt(list[1..], i - 1);
    }
  }

  /** A duplicate-free list has as many keys as items. */
  lemma {:induction false} KeysOfCard<K, V>(list: seq<Item<K, V>>)
    requires NoDupKeys(list)
    ensures |KeysOf(list)| == |list|
  {
    if |list| > 0 {
      KeysOfCons(list);
      KeysOfCard(list[1..]);
    }
  }
}
