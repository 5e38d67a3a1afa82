/** Whole runs of the cache: operation traces over the sorted-list view, and what they preserve. */
module CacheRuns {
  import opened Wrappers
  import opened ExpirationList
  import opened ExpirationListLemmas

  datatype Op<K, V> =
    | Set(end: End, key: K, value: V, now: int, expiresAt: int)
    | Remove(key: K)
    | Clear
    | Get(key: K, now: int)

  ghost function Step<K, V>(s: seq<Item<K, V>>, capacity: int, op: Op<K, V>): seq<Item<K, V>>
    requires capacity > 0
  {
    match op
    case Set(end, key, value, now, expiresAt) => ExpirationList.Set(end, s, capacity, key, value, now, expiresAt)
    case Remove(key) => Without(s, key)
    case Clear => []
    case Get(_, _) => s
  }

  ghost function Run<K, V>(s: seq<Item<K, V>>, capacity: int, ops: seq<Op<K, V>>): seq<Item<K, V>>
    requires capacity > 0
    decreases |ops|
  {
    if ops == [] then s else Run(Step(s, capacity, ops[0]), capacity, ops[1..])
  }

  /** What the Gets of a run answer, in order. */
  ghost function Answers<K, V>(s: seq<Item<K, V>>, capacity: int, ops: seq<Op<K, V>>): seq<Option<V>>
    requires capacity > 0
    decreases |ops|
  {
    if ops == [] then []
    else
      (if ops[0].Get? then [Lookup(s, ops[0].key, ops[0].now)] else [])
      + Answers(Step(s, capacity, ops[0]), capacity, ops[1..])
  }

  // ----- one step

  /** A set of an uncached key evicts when the unexpired items already fill the cache. */
  ghost predicate Evicts<K, V>(s: seq<Item<K, V>>, capacity: int, key: K, now: int) {
    key !in Keys(Unexpired(s, now)) && |Unexpired(s, now)| >= capacity
  }

  lemma UnexpiredFacts<K(!new), V(!new)>(s: seq<Item<K, V>>, capacity: int, now: int)
    requires WellFormed(s, capacity)
    ensures WellFormed(Unexpired(s, now), capacity)
    ensures forall it :: it in Unexpired(s, now) <==> it in s && it.expiresAt > now
  {
    hide Filter, Sorted, UniqueKeys;
    var p := (it: Item<K, V>) => it.expiresAt > now;
    FilterKeepsSorted(s, p);
    FilterKeepsUnique(s, p);
    FilterMembers(s, p);
  }

  lemma WithoutFacts<K(!new), V(!new)>(s: seq<Item<K, V>>, capacity: int, key: K)
    requires WellFormed(s, capacity)
    ensures WellFormed(Without(s, key), capacity)
    ensures forall it :: it in Without(s, key) <==> it in s && it.key != key
  {
    hide Filter, Sorted, UniqueKeys;
    var p := (it: Item<K, V>) => it.key != key;
    FilterKeepsSorted(s, p);
    FilterKeepsUnique(s, p);
    FilterMembers(s, p);
  }

  lemma EvictFacts<K(!new), V(!new)>(live: seq<Item<K, V>>, capacity: int)
    requires WellFormed(live, capacity) && capacity > 0
    ensures WellFormed(EvictIfFull(live, capacity), capacity - 1)
    ensures forall it :: it in EvictIfFull(live, capacity) <==> it in live && (|live| >= capacity ==> it != live[0])
  {
    if |live| >= capacity {
      assert live == [live[0]] + live[1..];
      assert live[0] !in live[1..];
    }
  }

  /** Setting a cached key takes its one item off the list. */
  lemma ReuseFacts<K(!new), V(!new)>(live: seq<Item<K, V>>, capacity: int, key: K)
    requires WellFormed(live, capacity) && key in Keys(live)
    ensures WellFormed(Without(live, key), capacity - 1)
  {
    hide Filter, Sorted, Without;
    WithoutFacts(live, capacity, key);
    var i :| 0 <= i < |live| && live[i].key == key;
    WithoutAt(live, i);
  }

  /** Exactly which items a set keeps: live, of another key, and not the evicted head. */
  lemma KeptFacts<K(!new), V(!new)>(s: seq<Item<K, V>>, capacity: int, key: K, now: int)
    requires WellFormed(s, capacity) && capacity > 0
    ensures WellFormed(Kept(s, capacity, key, now), capacity - 1) && key !in Keys(Kept(s, capacity, key, now))
    ensures forall it ::
      it in Kept(s, capacity, key, now) <==>
      && it in s && it.expiresAt > now && it.key != key
      && (Evicts(s, capacity, key, now) ==> it != Unexpired(s, now)[0])
  {
    hide Filter, Sorted, UniqueKeys, Unexpired, Without, EvictIfFull;
    UnexpiredFacts(s, capacity, now);
    var live := Unexpired(s, now);
    if key in Keys(live) {
      ReuseFacts(live, capacity, key);
      WithoutFacts(live, capacity, key);
    } else {
      assert forall it :: it in live ==> it.key in Keys(live);
      EvictFacts(live, capacity);
    }
  }

  /** The whole effect of a set, for every search direction. */
  lemma SetFacts<K(!new), V(!new)>(
      end: End, s: seq<Item<K, V>>, capacity: int, key: K, value: V, now: int, expiresAt: int)
    requires WellFormed(s, capacity) && capacity > 0
    ensures WellFormed(ExpirationList.Set(end, s, capacity, key, value, now, expiresAt), capacity)
    ensures forall it ::
      it in ExpirationList.Set(end, s, capacity, key, value, now, expiresAt) <==>
      || it == Item(key, value, expiresAt)
      || (&& it in s && it.expiresAt > now && it.key != key
          && (Evicts(s, capacity, key, now) ==> it != Unexpired(s, now)[0]))
  {
    hide Filter, Sorted, UniqueKeys, Unexpired, Kept, Insert;
    KeptFacts(s, capacity, key, now);
    InsertKeepsOrder(end, Kept(s, capacity, key, now), Item(key, value, expiresAt));
  }

  lemma SetKeepsWellFormed<K(!new), V(!new)>(
      end: End, s: seq<Item<K, V>>, capacity: int, key: K, value: V, now: int, expiresAt: int)
    requires WellFormed(s, capacity) && capacity > 0
    ensures WellFormed(ExpirationList.Set(end, s, capacity, key, value, now, expiresAt), capacity)
  {
    SetFacts(end, s, capacity, key, value, now, expiresAt);
  }

  lemma StepKeepsWellFormed<K(!new), V(!new)>(s: seq<Item<K, V>>, capacity: int, op: Op<K, V>)
    requires WellFormed(s, capacity) && capacity > 0
    ensures WellFormed(Step(s, capacity, op), capacity)
  {
    match op
    case Set(end, key, value, now, expiresAt) => SetFacts(end, s, capacity, key, value, now, expiresAt);
    case Remove(key) => WithoutFacts(s, capacity, key);
    case Clear =>
    case Get(_, _) =>
  }

  lemma {:induction false} RunKeepsWellFormed<K(!new), V(!new)>(s: seq<Item<K, V>>, capacity: int, ops: seq<Op<K, V>>)
    requires WellFormed(s, capacity) && capacity > 0
    ensures WellFormed(Run(s, capacity, ops), capacity)
    decreases |ops|
  {
    if ops == [] {
    } else {
      StepKeepsWellFormed(s, capacity, ops[0]);
      RunKeepsWellFormed(Step(s, capacity, ops[0]), capacity, ops[1..]);
    }
  }

  // ----- the two setters

  lemma SplicesDiffer<T>(s: seq<T>, x: T, t: nat, h: nat)
    requires t < h <= |s| && s[t] != x
    ensures s[..t] + [x] + s[t..] != s[..h] + [x] + s[h..]
  {
    assert (s[..t] + [x] + s[t..])[t] == x;
    assert (s[..h] + [x] + s[h..])[t] == s[t];
  }

  lemma InsertionPointsAgree<K(!new), V(!new)>(s: seq<Item<K, V>>, it: Item<K, V>)
    requires Sorted(s) && it.key !in Keys(s)
    ensures InsertFromHead(s, it) == InsertFromTail(s, it) <==> forall x :: x in s ==> x.expiresAt != it.expiresAt
  {
    hide InsertFromHead, InsertFromTail, Sorted;
    var h := InsertSplits(Head, s, it);
    var t := InsertSplits(Tail, s, it);
    if t < h {
      assert s[t] in s && s[t].key in Keys(s);
      SplicesDiffer(s, it, t, h);
    } else {
      forall x | x in s ensures x.expiresAt != it.expiresAt {
        var i :| 0 <= i < |s| && s[i] == x;
      }
    }
  }

  /** The setters cache the same items; their lists differ exactly when another kept item shares the expiration. */
  lemma HeadAndTailAgree<K(!new), V(!new)>(
      s: seq<Item<K, V>>, capacity: int, key: K, value: V, now: int, expiresAt: int)
    requires WellFormed(s, capacity) && capacity > 0
    ensures var h := ExpirationList.Set(Head, s, capacity, key, value, now, expiresAt);
      var t := ExpirationList.Set(Tail, s, capacity, key, value, now, expiresAt);
      && (forall it :: it in h <==> it in t)
      && (h == t <==> forall it :: it in Kept(s, capacity, key, now) ==> it.expiresAt != expiresAt)
  {
    SetFacts(Head, s, capacity, key, value, now, expiresAt);
    SetFacts(Tail, s, capacity, key, value, now, expiresAt);
    KeptFacts(s, capacity, key, now);
    InsertionPointsAgree(Kept(s, capacity, key, now), Item(key, value, expiresAt));
  }

  // ----- retention

  /** The other keys that hold, or in `ops` are given, an expiration no earlier than that of `it`. */
  ghost function Rivals<K, V>(s: seq<Item<K, V>>, it: Item<K, V>): set<K> {
    set x | x in s && x.key != it.key && x.expiresAt >= it.expiresAt :: x.key
  }

  ghost function LaterRivals<K, V>(ops: seq<Op<K, V>>, it: Item<K, V>): set<K> {
    set op | op in ops && op.Set? && op.key != it.key && op.expiresAt >= it.expiresAt :: op.key
  }

  /** The operation neither overwrites, removes nor clears the item, nor runs after it expired. */
  ghost predicate Spares<K, V>(op: Op<K, V>, it: Item<K, V>) {
    match op
    case Set(_, key, _, now, _) => key != it.key && now < it.expiresAt
    case Remove(key) => key != it.key
    case Clear => false
    case Get(_, _) => true
  }

  /** The number of rivals of an item over a whole run. */
  ghost function RivalCount<K, V>(s: seq<Item<K, V>>, ops: seq<Op<K, V>>, it: Item<K, V>): nat {
    |Rivals(s, it) + LaterRivals(ops, it)|
  }

  ghost predicate AllSpare<K, V>(ops: seq<Op<K, V>>, it: Item<K, V>) {
    forall i :: 0 <= i < |ops| ==> Spares(ops[i], it)
  }

  lemma {:induction false} SubsetSize<T>(a: set<T>, b: set<T>)
    requires a <= b
    ensures |a| <= |b|
  {
    if a != {} {
      var x :| x in a;
      SubsetSize(a - {x}, b - {x});
    }
  }

  lemma FewRivalsNoEviction<K(!new), V(!new)>(s: seq<Item<K, V>>, capacity: int, key: K, now: int, it: Item<K, V>)
    requires WellFormed(s, capacity) && capacity > 0 && it in s && it.expiresAt > now
    requires |Rivals(s, it)| < capacity - 1
    ensures Evicts(s, capacity, key, now) ==> it != Unexpired(s, now)[0]
  {
    var live := Unexpired(s, now);
    UnexpiredFacts(s, capacity, now);
    if Evicts(s, capacity, key, now) && it == live[0] {
      KeysCount(live);
      forall k | k in Keys(live) - {it.key} ensures k in Rivals(s, it) {
        var i :| 0 <= i < |live| && live[i].key == k;
        assert live[i] in live;
      }
      SubsetSize(Keys(live) - {it.key}, Rivals(s, it));
      assert false;
    }
  }

  lemma StepRivals<K(!new), V(!new)>(s: seq<Item<K, V>>, capacity: int, ops: seq<Op<K, V>>, it: Item<K, V>)
    requires WellFormed(s, capacity) && capacity > 0 && ops != []
    ensures Rivals(Step(s, capacity, ops[0]), it) + LaterRivals(ops[1..], it) <= Rivals(s, it) + LaterRivals(ops, it)
  {
    match ops[0]
    case Set(end, key, value, now, expiresAt) => SetFacts(end, s, capacity, key, value, now, expiresAt);
    case Remove(key) => WithoutFacts(s, capacity, key);
    case Clear =>
    case Get(_, _) =>
  }

  /** Retention: with fewer than `capacity - 1` rivals over the whole run, an item is never evicted. */
  lemma {:induction false} Retention<K(!new), V(!new)>(
      s: seq<Item<K, V>>, capacity: int, ops: seq<Op<K, V>>, it: Item<K, V>)
    requires WellFormed(s, capacity) && capacity > 0 && it in s
    requires RivalCount(s, ops, it) < capacity - 1 && AllSpare(ops, it)
    ensures it in Run(s, capacity, ops)
    decreases |ops|
  {
    if ops == [] {
    } else {
      var op := ops[0];
      var next := Step(s, capacity, op);
      assert Spares(op, it);
      assert it in next by {
        match op
        case Set(end, key, value, now, expiresAt) =>
          SubsetSize(Rivals(s, it), Rivals(s, it) + LaterRivals(ops, it));
          FewRivalsNoEviction(s, capacity, key, now, it);
          SetFacts(end, s, capacity, key, value, now, expiresAt);
        case Remove(key) => WithoutFacts(s, capacity, key);
        case Get(_, _) =>
      }
      StepKeepsWellFormed(s, capacity, op);
      StepRivals(s, capacity, ops, it);
      SubsetSize(Rivals(next, it) + LaterRivals(ops[1..], it), Rivals(s, it) + LaterRivals(ops, it));
      Retention(next, capacity, ops[1..], it);
    }
  }

  /** The bound is tight: the head of any full list has `capacity - 1` rivals, and a new key evicts it. */
  lemma RetentionBoundIsTight<K(!new), V(!new)>(
      end: End, s: seq<Item<K, V>>, capacity: int, key: K, value: V, now: int, expiresAt: int)
    requires WellFormed(s, capacity) && capacity > 0 && |s| == capacity
    requires s[0].expiresAt > now && key !in Keys(s)
    ensures |Rivals(s, s[0])| == capacity - 1
    ensures s[0] !in ExpirationList.Set(end, s, capacity, key, value, now, expiresAt)
  {
    hide Filter, Kept, Insert;
    UnexpiredIsSuffix(s, now, 0);
    assert s[0..] == s;
    SetFacts(end, s, capacity, key, value, now, expiresAt);
    assert s[0] in s && s[0].key in Keys(s);
    KeysCount(s);
    forall k | k in Keys(s) - {s[0].key} ensures k in Rivals(s, s[0]) {
      var i :| 0 <= i < |s| && s[i].key == k;
      assert s[i] in s;
    }
    assert Rivals(s, s[0]) == Keys(s) - {s[0].key};
  }
}
