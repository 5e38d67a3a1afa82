/** Where the list functions cut and splice: the facts the linked structure is proved against. */
module ExpirationListLemmas {
  import opened Wrappers
  import opened ExpirationList

  lemma {:induction false} FilterAll<T(!new)>(s: seq<T>, p: T -> bool)
    requires forall x <- s :: p(x)
    ensures Filter(s, p) == s
  {
    if s == [] {
    } else {
      FilterAll(s[1..], p);
    }
  }

  lemma {:induction false} FilterNone<T(!new)>(s: seq<T>, p: T -> bool)
    requires forall x <- s :: !p(x)
    ensures Filter(s, p) == []
  {
    if s == [] {
    } else {
      FilterNone(s[1..], p);
    }
  }

  lemma {:induction false} FilterMembers<T(!new)>(s: seq<T>, p: T -> bool)
    ensures forall x :: x in Filter(s, p) <==> x in s && p(x)
    ensures |Filter(s, p)| <= |s|
  {
    if s == [] {
    } else {
      FilterMembers(s[1..], p);
      assert s == [s[0]] + s[1..];
    }
  }

  lemma {:induction false} FilterConcat<T(!new)>(a: seq<T>, b: seq<T>, p: T -> bool)
    ensures Filter(a + b, p) == Filter(a, p) + Filter(b, p)
  {
    if a == [] {
      assert a + b == b;
    } else {
      FilterConcat(a[1..], b, p);
      var first := if p(a[0]) then [a[0]] else [];
      assert (a + b)[1..] == a[1..] + b;
      assert first + (Filter(a[1..], p) + Filter(b, p)) == first + Filter(a[1..], p) + Filter(b, p);
    }
  }

  lemma SortedTail<K(!new), V(!new)>(s: seq<Item<K, V>>)
    requires Sorted(s) && s != []
    ensures Sorted(s[1..]) && forall x :: x in s[1..] ==> s[0].expiresAt <= x.expiresAt
  {
  }

  lemma SortedCons<K(!new), V(!new)>(it: Item<K, V>, s: seq<Item<K, V>>)
    requires Sorted(s) && forall x :: x in s ==> it.expiresAt <= x.expiresAt
    ensures Sorted([it] + s)
  {
  }

  lemma {:induction false} FilterKeepsSorted<K(!new), V(!new)>(s: seq<Item<K, V>>, p: Item<K, V> -> bool)
    requires Sorted(s)
    ensures Sorted(Filter(s, p))
  {
    hide Sorted;
    if s == [] {
    } else {
      SortedTail(s);
      FilterKeepsSorted(s[1..], p);
      FilterMembers(s[1..], p);
      SortedCons(s[0], Filter(s[1..], p));
      assert [] + Filter(s[1..], p) == Filter(s[1..], p);
    }
  }

  lemma UniqueTail<K(!new), V(!new)>(s: seq<Item<K, V>>)
    requires UniqueKeys(s) && s != []
    ensures UniqueKeys(s[1..]) && forall x :: x in s[1..] ==> s[0].key != x.key
  {
  }

  lemma UniqueCons<K(!new), V(!new)>(it: Item<K, V>, s: seq<Item<K, V>>)
    requires UniqueKeys(s) && forall x :: x in s ==> it.key != x.key
    ensures UniqueKeys([it] + s)
  {
  }

  lemma {:induction false} FilterKeepsUnique<K(!new), V(!new)>(s: seq<Item<K, V>>, p: Item<K, V> -> bool)
    requires UniqueKeys(s)
    ensures UniqueKeys(Filter(s, p))
  {
    hide UniqueKeys;
    if s == [] {
    } else {
      UniqueTail(s);
      FilterKeepsUnique(s[1..], p);
      FilterMembers(s[1..], p);
      UniqueCons(s[0], Filter(s[1..], p));
      assert [] + Filter(s[1..], p) == Filter(s[1..], p);
    }
  }

  lemma SortedAfter<K(!new), V(!new)>(s: seq<Item<K, V>>, now: int, n: nat)
    requires Sorted(s) && n <= |s| && (n < |s| ==> s[n].expiresAt > now)
    ensures forall x :: x in s[n..] ==> x.expiresAt > now
  {
  }

  /** On a sorted list the expired items are a prefix, so pruning may stop at the first live one. */
  lemma UnexpiredIsSuffix<K(!new), V(!new)>(s: seq<Item<K, V>>, now: int, n: nat)
    requires Sorted(s) && n <= |s|
    requires forall i :: 0 <= i < n ==> s[i].expiresAt <= now
    requires n < |s| ==> s[n].expiresAt > now
    ensures Unexpired(s, now) == s[n..]
  {
    SortedAfter(s, now, n);
    hide Sorted, Filter;
    var p := (it: Item<K, V>) => it.expiresAt > now;
    assert s == s[..n] + s[n..];
    FilterConcat(s[..n], s[n..], p);
    FilterNone(s[..n], p);
    FilterAll(s[n..], p);
  }

  lemma WithoutAt<K(!new), V(!new)>(s: seq<Item<K, V>>, i: nat)
    requires UniqueKeys(s) && i < |s|
    ensures Without(s, s[i].key) == s[..i] + s[i + 1..]
  {
    hide Filter;
    var p := (it: Item<K, V>) => it.key != s[i].key;
    assert s == s[..i] + [s[i]] + s[i + 1..];
    FilterConcat(s[..i] + [s[i]], s[i + 1..], p);
    FilterConcat(s[..i], [s[i]], p);
    FilterNone([s[i]], p);
    FilterAll(s[..i], p);
    FilterAll(s[i + 1..], p);
  }

  lemma WithoutAbsent<K(!new), V(!new)>(s: seq<Item<K, V>>, key: K)
    requires key !in Keys(s)
    ensures Without(s, key) == s
  {
    forall it <- s ensures it.key != key {
      assert it.key in Keys(s);
    }
    FilterAll(s, (it: Item<K, V>) => it.key != key);
  }

  lemma SpliceCons<T(!new)>(s: seq<T>, x: T, j: nat)
    requires 0 < j <= |s|
    ensures s[..j] + [x] + s[j..] == [s[0]] + (s[1..][..j - 1] + [x] + s[1..][j - 1..])
  {
  }

  /** The head search puts the item after everything that expires no later than it. */
  lemma {:induction false} InsertFromHeadAt<K(!new), V(!new)>(s: seq<Item<K, V>>, it: Item<K, V>, j: nat)
    requires j <= |s|
    requires forall i :: 0 <= i < j ==> s[i].expiresAt <= it.expiresAt
    requires j < |s| ==> it.expiresAt < s[j].expiresAt
    ensures InsertFromHead(s, it) == s[..j] + [it] + s[j..]
  {
    if j == 0 {
    } else {
      InsertFromHeadAt(s[1..], it, j - 1);
      SpliceCons(s, it, j);
    }
  }

  /** The tail search puts the item before everything that expires no earlier than it. */
  lemma {:induction false} InsertFromTailAt<K(!new), V(!new)>(s: seq<Item<K, V>>, it: Item<K, V>, j: nat)
    requires j <= |s|
    requires forall i :: j <= i < |s| ==> s[i].expiresAt >= it.expiresAt
    requires j > 0 ==> it.expiresAt > s[j - 1].expiresAt
    ensures InsertFromTail(s, it) == s[..j] + [it] + s[j..]
  {
    if j < |s| {
      var front := s[..|s| - 1];
      InsertFromTailAt(front, it, j);
      assert s[..j] + [it] + s[j..] == front[..j] + [it] + front[j..] + [s[|s| - 1]];
    } else {
      assert s[..j] == s && s[j..] == [];
    }
  }

  /** The number of leading items that expire before `bound`; on a sorted list, all of them. */
  ghost function CountBefore<K(!new), V(!new)>(s: seq<Item<K, V>>, bound: int): (n: nat)
    ensures n <= |s|
    ensures forall i :: 0 <= i < n ==> s[i].expiresAt < bound
    ensures n < |s| ==> s[n].expiresAt >= bound
    ensures Sorted(s) ==> forall i :: n <= i < |s| ==> s[i].expiresAt >= bound
  {
    if s == [] || s[0].expiresAt >= bound then 0
    else 1 + CountBefore(s[1..], bound)
  }

  lemma InsertSplits<K(!new), V(!new)>(end: End, s: seq<Item<K, V>>, it: Item<K, V>)
    returns (j: nat)
    requires Sorted(s)
    ensures j <= |s| && Insert(end, s, it) == s[..j] + [it] + s[j..]
    ensures forall i :: 0 <= i < j ==>
      if end == Head then s[i].expiresAt <= it.expiresAt else s[i].expiresAt < it.expiresAt
    ensures forall i :: j <= i < |s| ==>
      if end == Head then s[i].expiresAt > it.expiresAt else s[i].expiresAt >= it.expiresAt
  {
    j := CountBefore(s, if end == Head then it.expiresAt + 1 else it.expiresAt);
    if end == Head {
      InsertFromHeadAt(s, it, j);
    } else {
      InsertFromTailAt(s, it, j);
    }
  }

  lemma SpliceMembers<T(!new)>(s: seq<T>, x: T, j: nat)
    requires j <= |s|
    ensures forall y :: y in s[..j] + [x] + s[j..] <==> y == x || y in s
  {
    assert s == s[..j] + s[j..];
  }

  lemma SpliceSorted<K(!new), V(!new)>(s: seq<Item<K, V>>, it: Item<K, V>, j: nat)
    requires Sorted(s) && j <= |s|
    requires forall i :: 0 <= i < j ==> s[i].expiresAt <= it.expiresAt
    requires forall i :: j <= i < |s| ==> s[i].expiresAt >= it.expiresAt
    ensures Sorted(s[..j] + [it] + s[j..])
  {
  }

  lemma SpliceUnique<K(!new), V(!new)>(s: seq<Item<K, V>>, it: Item<K, V>, j: nat)
    requires UniqueKeys(s) && it.key !in Keys(s) && j <= |s|
    ensures UniqueKeys(s[..j] + [it] + s[j..])
  {
    forall i | 0 <= i < |s| ensures s[i].key != it.key {
      assert s[i].key in Keys(s);
    }
  }

  lemma InsertKeepsOrder<K(!new), V(!new)>(end: End, s: seq<Item<K, V>>, it: Item<K, V>)
    requires Sorted(s) && UniqueKeys(s) && it.key !in Keys(s)
    ensures var r := Insert(end, s, it);
      && Sorted(r) && UniqueKeys(r) && |r| == |s| + 1
      && (forall x :: x in r <==> x == it || x in s)
  {
    hide Insert, Sorted, UniqueKeys, Keys;
    var j := InsertSplits(end, s, it);
    SpliceSorted(s, it, j);
    SpliceUnique(s, it, j);
    SpliceMembers(s, it, j);
  }

  lemma {:induction false} KeysCount<K(!new), V(!new)>(s: seq<Item<K, V>>)
    requires UniqueKeys(s)
    ensures |Keys(s)| == |s|
  {
    if s == [] {
    } else {
      KeysCount(s[1..]);
      assert Keys(s) == {s[0].key} + Keys(s[1..]);
    }
  }

  /** With unique keys, an item in the list is the one its key looks up. */
  lemma {:induction false} LookupFinds<K(!new), V(!new)>(s: seq<Item<K, V>>, it: Item<K, V>, now: int)
    requires UniqueKeys(s) && it in s
    ensures Lookup(s, it.key, now) == if it.expiresAt > now then Some(it.value) else None
  {
    if s[0] != it {
      assert it in s[1..];
      LookupFinds(s[1..], it, now);
    }
  }

  lemma {:induction false} LookupMisses<K(!new), V(!new)>(s: seq<Item<K, V>>, key: K, now: int)
    requires key !in Keys(s)
    ensures Lookup(s, key, now) == None
  {
    if s == [] {
    } else {
      assert s[0] in s;
      LookupMisses(s[1..], key, now);
    }
  }
}
