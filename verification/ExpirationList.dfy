/**
 The abstract view of an expiration cache: a sequence of items sorted by expiration, at most one
 item per key. Every operation of the cache is defined here as a function on that sequence, by
 filtering and by splitting, without nodes or links.
 */
module ExpirationList {
  import opened Wrappers

  // `time.Time` is modelled as a total order, here the integers.
  datatype Item<K, V> = Item(key: K, value: V, expiresAt: int)

  ghost predicate Sorted<K, V>(s: seq<Item<K, V>>) {
    forall i, j :: 0 <= i < j < |s| ==> s[i].expiresAt <= s[j].expiresAt
  }

  ghost predicate UniqueKeys<K, V>(s: seq<Item<K, V>>) {
    forall i, j :: 0 <= i < j < |s| ==> s[i].key != s[j].key
  }

  ghost predicate WellFormed<K, V>(s: seq<Item<K, V>>, capacity: int) {
    Sorted(s) && UniqueKeys(s) && |s| <= capacity
  }

  ghost function Keys<K, V>(s: seq<Item<K, V>>): set<K> {
    set it | it in s :: it.key
  }

  ghost function Filter<T>(s: seq<T>, p: T -> bool): seq<T>
  {
    if s == [] then []
    else (if p(s[0]) then [s[0]] else []) + Filter(s[1..], p)
  }

  /** The items whose expiration lies after `now`, in their order. */
  ghost function Unexpired<K, V>(s: seq<Item<K, V>>, now: int): seq<Item<K, V>> {
    Filter(s, (it: Item<K, V>) => it.expiresAt > now)
  }

  /** The items that belong to other keys, in their order. */
  ghost function Without<K, V>(s: seq<Item<K, V>>, key: K): seq<Item<K, V>> {
    Filter(s, (it: Item<K, V>) => it.key != key)
  }

  /** Makes room for one more item: drops the earliest item of a full list. */
  ghost function EvictIfFull<K, V>(s: seq<Item<K, V>>, capacity: int): seq<Item<K, V>>
    requires capacity > 0
  {
    if |s| < capacity then s else s[1..]
  }

  /** What a set of `key` at time `now` keeps of the list before it inserts the new item. */
  ghost function Kept<K, V>(s: seq<Item<K, V>>, capacity: int, key: K, now: int): seq<Item<K, V>>
    requires capacity > 0
  {
    var live := Unexpired(s, now);
    if key in Keys(live) then Without(live, key) else EvictIfFull(live, capacity)
  }

  /** The search from the head stops at the first item that expires strictly later. */
  ghost function InsertFromHead<K, V>(s: seq<Item<K, V>>, it: Item<K, V>): seq<Item<K, V>> {
    if s == [] || it.expiresAt < s[0].expiresAt then [it] + s
    else [s[0]] + InsertFromHead(s[1..], it)
  }

  /** The search from the tail stops at the first item that expires strictly earlier. */
  ghost function InsertFromTail<K, V>(s: seq<Item<K, V>>, it: Item<K, V>): seq<Item<K, V>> {
    if s == [] || it.expiresAt > s[|s| - 1].expiresAt then s + [it]
    else InsertFromTail(s[..|s| - 1], it) + [s[|s| - 1]]
  }

  datatype End = Head | Tail

  ghost function Insert<K, V>(end: End, s: seq<Item<K, V>>, it: Item<K, V>): seq<Item<K, V>> {
    if end == Head then InsertFromHead(s, it) else InsertFromTail(s, it)
  }

  /** `SetFromHead` and `SetFromTail` on the abstract view. */
  ghost function Set<K, V>(end: End, s: seq<Item<K, V>>, capacity: int, key: K, value: V, now: int, expiresAt: int)
    : seq<Item<K, V>>
    requires capacity > 0
  {
    Insert(end, Kept(s, capacity, key, now), Item(key, value, expiresAt))
  }

  /** `Get` on the abstract view: only an unexpired item answers. */
  ghost function Lookup<K, V>(s: seq<Item<K, V>>, key: K, now: int): (r: Option<V>) {
    if s == [] then None
    else if s[0].key == key then if s[0].expiresAt > now then Some(s[0].value) else None
    else Lookup(s[1..], key, now)
  }
}
