/** Which items an overfull cache gives up: over a whole run, those that expire first. */
module CacheEviction {
  import opened Wrappers
  import opened ExpirationList
  import opened ExpirationListLemmas
  import opened CacheRuns
  import opened CacheTransparency

  ghost function MapRun<K, V>(m: map<K, Stamped<V>>, ops: seq<Op<K, V>>): map<K, Stamped<V>>
    decreases |ops|
  {
    if ops == [] then m else MapRun(MapStep(m, ops[0]), ops[1..])
  }

  ghost function LastTick<K, V>(clock: int, ops: seq<Op<K, V>>): int
    decreases |ops|
  {
    if ops == [] then clock else LastTick(Tick(clock, ops[0]), ops[1..])
  }

  /** The key set last in the run, if any. */
  ghost function LastSet<K, V>(last: Option<K>, ops: seq<Op<K, V>>): Option<K>
    decreases |ops|
  {
    if ops == [] then last else LastSet(if ops[0].Set? then Some(ops[0].key) else last, ops[1..])
  }

  /** The run only sets and gets, and sets no key twice. */
  ghost predicate SetsOnce<K, V>(ops: seq<Op<K, V>>) {
    && (forall i :: 0 <= i < |ops| ==> ops[i].Set? || ops[i].Get?)
    && (forall i, j :: 0 <= i < j < |ops| && ops[i].Set? && ops[j].Set? ==> ops[i].key != ops[j].key)
  }

  ghost predicate SetsNone<K, V>(ops: seq<Op<K, V>>, m: map<K, Stamped<V>>) {
    forall i :: 0 <= i < |ops| && ops[i].Set? ==> ops[i].key !in m
  }

  /**
   Whatever has been given up although it is unexpired, the cache is full of items that expire no
   earlier, but for the last one set.
   */
  ghost predicate EarliestFirst<K(!new), V(!new)>(
      s: seq<Item<K, V>>, m: map<K, Stamped<V>>, capacity: int, clock: int, last: Option<K>) {
    forall k :: k in m && m[k].expiresAt > clock && k !in Keys(s) ==>
      && |s| == capacity
      && forall x :: x in s && last != Some(x.key) ==> m[k].expiresAt <= x.expiresAt
  }

  /** Setting a new key: the list afterwards is one longer than what the eviction leaves. */
  lemma SetSize<K(!new), V(!new)>(
      end: End, s: seq<Item<K, V>>, capacity: int, key: K, value: V, now: int, expiresAt: int)
    requires WellFormed(s, capacity) && capacity > 0 && key !in Keys(s)
    ensures key !in Keys(Unexpired(s, now))
    ensures |ExpirationList.Set(end, s, capacity, key, value, now, expiresAt)| ==
      if |Unexpired(s, now)| < capacity then |Unexpired(s, now)| + 1 else capacity
  {
    hide Filter, Unexpired, Without, Insert;
    UnexpiredFacts(s, capacity, now);
    KeptFacts(s, capacity, key, now);
    InsertKeepsOrder(end, Kept(s, capacity, key, now), Item(key, value, expiresAt));
  }

  lemma HeadIsEarliest<K(!new), V(!new)>(s: seq<Item<K, V>>)
    requires Sorted(s) && s != []
    ensures s[0] in s && forall x :: x in s ==> s[0].expiresAt <= x.expiresAt
  {
  }

  /** If only the item of `last` can have expired, at most that one is missing. */
  lemma AllButLastLive<K(!new), V(!new)>(s: seq<Item<K, V>>, capacity: int, now: int, last: Option<K>)
    requires WellFormed(s, capacity) && |s| == capacity
    requires forall x :: x in s && last != Some(x.key) ==> x.expiresAt > now
    ensures |Unexpired(s, now)| >= capacity - 1
    ensures (exists x :: x in Unexpired(s, now) && last == Some(x.key)) ==> |Unexpired(s, now)| == capacity
  {
    hide Filter, Unexpired, Sorted, UniqueKeys;
    var live := Unexpired(s, now);
    UnexpiredFacts(s, capacity, now);
    KeysCount(s);
    KeysCount(live);
    var others := set k | k in Keys(s) && last != Some(k);
    assert others <= Keys(live);
    SubsetSize(others, Keys(live));
    if last.Some? {
      assert Keys(s) <= others + {last.value};
      SubsetSize(Keys(s), others + {last.value});
      if exists x :: x in live && last == Some(x.key) {
        assert Keys(s) <= Keys(live);
        SubsetSize(Keys(s), Keys(live));
      }
    } else {
      assert Keys(s) == others;
    }
  }

  /** The item is given up by this very set: it is the earliest of a full list. */
  lemma EvictedNow<K(!new), V(!new)>(
      end: End, s: seq<Item<K, V>>, capacity: int, key: K, value: V, now: int, expiresAt: int, it: Item<K, V>)
    requires WellFormed(s, capacity) && capacity > 0 && key !in Keys(s)
    requires it in s && it.expiresAt > now && it !in ExpirationList.Set(end, s, capacity, key, value, now, expiresAt)
    ensures var s' := ExpirationList.Set(end, s, capacity, key, value, now, expiresAt);
      |s'| == capacity && forall x :: x in s' && x.key != key ==> it.expiresAt <= x.expiresAt
  {
    hide Filter, Unexpired, ExpirationList.Set, Sorted, UniqueKeys;
    assert it.key in Keys(s);
    UnexpiredFacts(s, capacity, now);
    SetFacts(end, s, capacity, key, value, now, expiresAt);
    SetSize(end, s, capacity, key, value, now, expiresAt);
    HeadIsEarliest(Unexpired(s, now));
  }

  lemma OneItemPerKey<K(!new), V(!new)>(s: seq<Item<K, V>>, x: Item<K, V>, y: Item<K, V>)
    requires UniqueKeys(s) && x in s && y in s
    ensures x.key == y.key ==> x == y
  {
  }

  /** The item was given up before: this set gives up nothing that expires later. */
  lemma EvictedBefore<K(!new), V(!new)>(
      end: End, s: seq<Item<K, V>>, capacity: int, key: K, value: V, now: int, expiresAt: int, last: Option<K>, e: int)
    requires WellFormed(s, capacity) && capacity > 0 && key !in Keys(s)
    requires |s| == capacity && e > now && forall x :: x in s && last != Some(x.key) ==> e <= x.expiresAt
    ensures var s' := ExpirationList.Set(end, s, capacity, key, value, now, expiresAt);
      |s'| == capacity && forall x :: x in s' && x.key != key ==> e <= x.expiresAt
  {
    hide Filter, Unexpired, ExpirationList.Set, Sorted, UniqueKeys;
    var live := Unexpired(s, now);
    UnexpiredFacts(s, capacity, now);
    SetFacts(end, s, capacity, key, value, now, expiresAt);
    SetSize(end, s, capacity, key, value, now, expiresAt);
    AllButLastLive(s, capacity, now, last);
    forall x | x in ExpirationList.Set(end, s, capacity, key, value, now, expiresAt) && x.key != key
      ensures e <= x.expiresAt
    {
      if last == Some(x.key) {
        HeadIsEarliest(live);
        OneItemPerKey(s, live[0], x);
      }
    }
  }

  lemma SetKeepsEarliestFirst<K(!new), V(!new)>(
      end: End, s: seq<Item<K, V>>, m: map<K, Stamped<V>>, capacity: int, clock: int, last: Option<K>,
      key: K, value: V, now: int, expiresAt: int)
    requires WellFormed(s, capacity) && capacity > 0 && Sound(s, m) && EarliestFirst(s, m, capacity, clock, last)
    requires clock <= now && key !in m
    ensures EarliestFirst(ExpirationList.Set(end, s, capacity, key, value, now, expiresAt),
      m[key := Stamped(value, expiresAt)], capacity, now, Some(key))
  {
    hide ExpirationList.Set, Sorted, UniqueKeys;
    var s' := ExpirationList.Set(end, s, capacity, key, value, now, expiresAt);
    SoundItem(s, m);
    SetFacts(end, s, capacity, key, value, now, expiresAt);
    assert Item(key, value, expiresAt) in s';
    forall k | k in m && m[k].expiresAt > now && k != key && k !in Keys(s')
      ensures |s'| == capacity && forall x :: x in s' && x.key != key ==> m[k].expiresAt <= x.expiresAt
    {
      if k in Keys(s) {
        var it :| it in s && it.key == k;
        EvictedNow(end, s, capacity, key, value, now, expiresAt, it);
      } else {
        EvictedBefore(end, s, capacity, key, value, now, expiresAt, last, m[k].expiresAt);
      }
    }
  }

  lemma {:induction false} RunKeepsEarliestFirst<K(!new), V(!new)>(
      s: seq<Item<K, V>>, m: map<K, Stamped<V>>, capacity: int, clock: int, last: Option<K>, ops: seq<Op<K, V>>)
    requires WellFormed(s, capacity) && capacity > 0 && Sound(s, m) && EarliestFirst(s, m, capacity, clock, last)
    requires Monotone(clock, ops) && SetsOnce(ops) && SetsNone(ops, m)
    ensures EarliestFirst(Run(s, capacity, ops), MapRun(m, ops), capacity, LastTick(clock, ops), LastSet(last, ops))
    decreases |ops|
  {
    if ops == [] {
    } else {
      var op := ops[0];
      StepKeepsWellFormed(s, capacity, op);
      StepSound(s, m, capacity, op);
      if op.Set? {
        SetKeepsEarliestFirst(op.end, s, m, capacity, clock, last, op.key, op.value, op.now, op.expiresAt);
      }
      RunKeepsEarliestFirst(Step(s, capacity, op), MapStep(m, op), capacity, Tick(clock, op),
        if op.Set? then Some(op.key) else last, ops[1..]);
    }
  }

  /**
   Along a forward clock, when no key is set twice and none is removed: an unexpired item that the
   cache has given up expires no later than any cached one, except the one set last.
   */
  lemma EvictsEarliestFirst<K(!new), V(!new)>(capacity: int, clock: int, ops: seq<Op<K, V>>)
    requires capacity > 0 && Monotone(clock, ops) && SetsOnce(ops)
    ensures var s, m := Run([], capacity, ops), MapRun(map[], ops);
      forall k :: k in m && m[k].expiresAt > LastTick(clock, ops) && k !in Keys(s) ==>
        && |s| == capacity
        && forall x :: x in s && LastSet(None, ops) != Some(x.key) ==> m[k].expiresAt <= x.expiresAt
  {
    RunKeepsEarliestFirst([], map[], capacity, clock, None, ops);
  }
}
