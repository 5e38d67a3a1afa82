/**
 The cache against a plain map that remembers every last set and never prunes or evicts: when do
 the two answer alike?
 */
module CacheTransparency {
  import opened Wrappers
  import opened ExpirationList
  import opened ExpirationListLemmas
  import opened CacheRuns

  datatype Stamped<V> = Stamped(value: V, expiresAt: int)

  ghost function MapStep<K, V>(m: map<K, Stamped<V>>, op: Op<K, V>): map<K, Stamped<V>> {
    match op
    case Set(_, key, value, _, expiresAt) => m[key := Stamped(value, expiresAt)]
    case Remove(key) => m - {key}
    case Clear => map[]
    case Get(_, _) => m
  }

  ghost function MapLookup<K, V>(m: map<K, Stamped<V>>, key: K, now: int): Option<V> {
    if key in m && m[key].expiresAt > now then Some(m[key].value) else None
  }

  ghost function MapAnswers<K, V>(m: map<K, Stamped<V>>, ops: seq<Op<K, V>>): seq<Option<V>>
    decreases |ops|
  {
    if ops == [] then []
    else
      (if ops[0].Get? then [MapLookup(m, ops[0].key, ops[0].now)] else [])
      + MapAnswers(MapStep(m, ops[0]), ops[1..])
  }

  ghost function Tick<K, V>(clock: int, op: Op<K, V>): int {
    if op.Set? || op.Get? then op.now else clock
  }

  /** The clock never runs backwards along the run. */
  ghost predicate Monotone<K, V>(clock: int, ops: seq<Op<K, V>>)
    decreases |ops|
  {
    ops != [] ==> clock <= Tick(clock, ops[0]) && Monotone(Tick(clock, ops[0]), ops[1..])
  }

  ghost function Live<K, V>(m: map<K, Stamped<V>>, now: int): set<K> {
    set k | k in m && m[k].expiresAt > now
  }

  /** At every set, the keys that are live at that moment and the key being set fit the capacity. */
  ghost predicate Fits<K, V>(m: map<K, Stamped<V>>, capacity: int, ops: seq<Op<K, V>>)
    decreases |ops|
  {
    ops != [] ==>
      && (ops[0].Set? ==> |Live(m, ops[0].now) + {ops[0].key}| <= capacity)
      && Fits(MapStep(m, ops[0]), capacity, ops[1..])
  }

  /** From this moment on, every Get would be answered alike. */
  ghost predicate Agrees<K(!new), V>(s: seq<Item<K, V>>, m: map<K, Stamped<V>>, clock: int) {
    forall k, now :: now >= clock ==> Lookup(s, k, now) == MapLookup(m, k, now)
  }

  /** The cache and the map agree before, between and after all operations of the run. */
  ghost predicate Transparent<K(!new), V>(
      s: seq<Item<K, V>>, m: map<K, Stamped<V>>, capacity: int, clock: int, ops: seq<Op<K, V>>)
    requires capacity > 0
    decreases |ops|
  {
    && Agrees(s, m, clock)
    && (ops != [] ==>
          Transparent(Step(s, capacity, ops[0]), MapStep(m, ops[0]), capacity, Tick(clock, ops[0]), ops[1..]))
  }

  // ----- the coupling

  /** Every cached item is the map's, and everything the map has that is still live is cached. */
  ghost predicate Sound<K, V>(s: seq<Item<K, V>>, m: map<K, Stamped<V>>) {
    forall i :: 0 <= i < |s| ==> s[i].key in m && m[s[i].key] == Stamped(s[i].value, s[i].expiresAt)
  }

  ghost predicate Synced<K, V>(s: seq<Item<K, V>>, m: map<K, Stamped<V>>, clock: int) {
    && Sound(s, m)
    && forall k :: k in m && m[k].expiresAt > clock ==> Item(k, m[k].value, m[k].expiresAt) in s
  }

  lemma SoundItem<K(!new), V(!new)>(s: seq<Item<K, V>>, m: map<K, Stamped<V>>)
    requires Sound(s, m)
    ensures forall it :: it in s ==> it.key in m && m[it.key] == Stamped(it.value, it.expiresAt)
  {
  }

  lemma SyncedAgrees<K(!new), V(!new)>(s: seq<Item<K, V>>, m: map<K, Stamped<V>>, clock: int)
    requires UniqueKeys(s) && Synced(s, m, clock)
    ensures Agrees(s, m, clock)
  {
    forall k, now | now >= clock ensures Lookup(s, k, now) == MapLookup(m, k, now) {
      if k in Keys(s) {
        var it :| it in s && it.key == k;
        SoundItem(s, m);
        LookupFinds(s, it, now);
      } else {
        LookupMisses(s, k, now);
        if k in m {
          assert Item(k, m[k].value, m[k].expiresAt) !in s;
        }
      }
    }
  }

  /** Once pruned, the cache holds exactly the live keys of the map. */
  lemma LiveKeys<K(!new), V(!new)>(s: seq<Item<K, V>>, m: map<K, Stamped<V>>, capacity: int, clock: int, now: int)
    requires WellFormed(s, capacity) && Synced(s, m, clock) && clock <= now
    ensures Keys(Unexpired(s, now)) == Live(m, now)
    ensures |Unexpired(s, now)| == |Live(m, now)|
  {
    UnexpiredFacts(s, capacity, now);
    SoundItem(s, m);
    forall k | k in Live(m, now) ensures k in Keys(Unexpired(s, now)) {
      assert Item(k, m[k].value, m[k].expiresAt) in Unexpired(s, now);
    }
    KeysCount(Unexpired(s, now));
  }

  lemma EvictsIffOverfull<K(!new), V(!new)>(
      s: seq<Item<K, V>>, m: map<K, Stamped<V>>, capacity: int, clock: int, key: K, now: int)
    requires WellFormed(s, capacity) && Synced(s, m, clock) && clock <= now
    ensures Evicts(s, capacity, key, now) <==> |Live(m, now) + {key}| > capacity
  {
    LiveKeys(s, m, capacity, clock, now);
    UnexpiredFacts(s, capacity, now);
    if key in Live(m, now) {
      assert Live(m, now) + {key} == Live(m, now);
    }
  }

  lemma SetSynced<K(!new), V(!new)>(
      end: End, s: seq<Item<K, V>>, m: map<K, Stamped<V>>, capacity: int, clock: int, key: K, value: V, now: int,
      expiresAt: int)
    requires WellFormed(s, capacity) && capacity > 0 && Synced(s, m, clock) && clock <= now
    requires !Evicts(s, capacity, key, now)
    ensures Synced(ExpirationList.Set(end, s, capacity, key, value, now, expiresAt),
      m[key := Stamped(value, expiresAt)], now)
  {
    SetFacts(end, s, capacity, key, value, now, expiresAt);
    var s' := ExpirationList.Set(end, s, capacity, key, value, now, expiresAt);
    var m' := m[key := Stamped(value, expiresAt)];
    SoundItem(s, m);
    forall i | 0 <= i < |s'| ensures s'[i].key in m' && m'[s'[i].key] == Stamped(s'[i].value, s'[i].expiresAt) {
      assert s'[i] in s';
    }
    forall k | k in m' && m'[k].expiresAt > now ensures Item(k, m'[k].value, m'[k].expiresAt) in s' {
      if k != key {
        assert k in m && m[k].expiresAt > clock;
      }
    }
  }

  /** A set that evicts hides a live item: a Get at the same moment already tells the two apart. */
  lemma EvictionShows<K(!new), V(!new)>(
      end: End, s: seq<Item<K, V>>, m: map<K, Stamped<V>>, capacity: int, clock: int, key: K, value: V, now: int,
      expiresAt: int)
    requires WellFormed(s, capacity) && capacity > 0 && Synced(s, m, clock) && clock <= now
    requires Evicts(s, capacity, key, now)
    ensures !Agrees(ExpirationList.Set(end, s, capacity, key, value, now, expiresAt),
      m[key := Stamped(value, expiresAt)], now)
  {
    var s' := ExpirationList.Set(end, s, capacity, key, value, now, expiresAt);
    var m' := m[key := Stamped(value, expiresAt)];
    SetFacts(end, s, capacity, key, value, now, expiresAt);
    UnexpiredFacts(s, capacity, now);
    var victim := Unexpired(s, now)[0];
    assert victim in Unexpired(s, now) && victim.key in Keys(Unexpired(s, now));
    SoundItem(s, m);
    assert forall it :: it in s && it.key == victim.key ==> it == victim;
    assert victim.key !in Keys(s');
    LookupMisses(s', victim.key, now);
    assert MapLookup(m', victim.key, now) == Some(victim.value);
  }

  lemma StepSynced<K(!new), V(!new)>(s: seq<Item<K, V>>, m: map<K, Stamped<V>>, capacity: int, clock: int, op: Op<K, V>)
    requires WellFormed(s, capacity) && capacity > 0 && Synced(s, m, clock) && clock <= Tick(clock, op)
    requires op.Set? ==> !Evicts(s, capacity, op.key, op.now)
    ensures Synced(Step(s, capacity, op), MapStep(m, op), Tick(clock, op))
  {
    match op
    case Set(end, key, value, now, expiresAt) => SetSynced(end, s, m, capacity, clock, key, value, now, expiresAt);
    case Remove(key) =>
      WithoutFacts(s, capacity, key);
      SoundItem(s, m);
      var s' := Without(s, key);
      forall i | 0 <= i < |s'| ensures s'[i].key in m - {key} && m[s'[i].key] == Stamped(s'[i].value, s'[i].expiresAt) {
        assert s'[i] in s';
      }
    case Clear =>
    case Get(_, _) =>
  }

  // ----- theorems

  /** Along a forward clock, the cache is indistinguishable from the map exactly when every set fits. */
  lemma {:induction false} TransparentIffFits<K(!new), V(!new)>(
      s: seq<Item<K, V>>, m: map<K, Stamped<V>>, capacity: int, clock: int, ops: seq<Op<K, V>>)
    requires WellFormed(s, capacity) && capacity > 0 && Synced(s, m, clock) && Monotone(clock, ops)
    ensures Transparent(s, m, capacity, clock, ops) <==> Fits(m, capacity, ops)
    decreases |ops|
  {
    SyncedAgrees(s, m, clock);
    if ops == [] {
    } else {
      var op := ops[0];
      if op.Set? {
        EvictsIffOverfull(s, m, capacity, clock, op.key, op.now);
      }
      if op.Set? && Evicts(s, capacity, op.key, op.now) {
        EvictionShows(op.end, s, m, capacity, clock, op.key, op.value, op.now, op.expiresAt);
      } else {
        StepSynced(s, m, capacity, clock, op);
        StepKeepsWellFormed(s, capacity, op);
        TransparentIffFits(Step(s, capacity, op), MapStep(m, op), capacity, Tick(clock, op), ops[1..]);
      }
    }
  }

  /** A run from the empty cache, as its clients see it. */
  lemma NewCacheTransparentIffFits<K(!new), V(!new)>(capacity: int, clock: int, ops: seq<Op<K, V>>)
    requires capacity > 0 && Monotone(clock, ops)
    ensures Transparent([], map[], capacity, clock, ops) <==> Fits(map[], capacity, ops)
  {
    TransparentIffFits([], map[], capacity, clock, ops);
  }

  lemma {:induction false} TransparentAnswers<K(!new), V(!new)>(
      s: seq<Item<K, V>>, m: map<K, Stamped<V>>, capacity: int, clock: int, ops: seq<Op<K, V>>)
    requires capacity > 0 && Monotone(clock, ops) && Transparent(s, m, capacity, clock, ops)
    ensures Answers(s, capacity, ops) == MapAnswers(m, ops)
    decreases |ops|
  {
    if ops == [] {
    } else {
      TransparentAnswers(Step(s, capacity, ops[0]), MapStep(m, ops[0]), capacity, Tick(clock, ops[0]), ops[1..]);
    }
  }

  ghost function SetKeys<K, V>(ops: seq<Op<K, V>>): set<K> {
    set op | op in ops && op.Set? :: op.key
  }

  lemma {:induction false} FewKeysFit<K(!new), V(!new)>(
      m: map<K, Stamped<V>>, capacity: int, ops: seq<Op<K, V>>, keys: set<K>)
    requires m.Keys <= keys && SetKeys(ops) <= keys && |keys| <= capacity
    ensures Fits(m, capacity, ops)
    decreases |ops|
  {
    if ops == [] {
    } else {
      assert ops[0] in ops;
      if ops[0].Set? {
        assert ops[0].key in SetKeys(ops);
        SubsetSize(Live(m, ops[0].now) + {ops[0].key}, keys);
      }
      forall k | k in SetKeys(ops[1..]) ensures k in keys {
        assert k in SetKeys(ops);
      }
      FewKeysFit(MapStep(m, ops[0]), capacity, ops[1..], keys);
    }
  }

  /** With at most `capacity` distinct keys every set fits, so all Gets are answered as by the map. */
  lemma FewKeysAnswerAlike<K(!new), V(!new)>(capacity: int, clock: int, ops: seq<Op<K, V>>)
    requires capacity > 0 && Monotone(clock, ops) && |SetKeys(ops)| <= capacity
    ensures Answers([], capacity, ops) == MapAnswers(map[], ops)
  {
    FewKeysFit(map[], capacity, ops, SetKeys(ops));
    NewCacheTransparentIffFits(capacity, clock, ops);
    TransparentAnswers([], map[], capacity, clock, ops);
  }

  lemma StepSound<K(!new), V(!new)>(s: seq<Item<K, V>>, m: map<K, Stamped<V>>, capacity: int, op: Op<K, V>)
    requires WellFormed(s, capacity) && capacity > 0 && Sound(s, m)
    ensures Sound(Step(s, capacity, op), MapStep(m, op))
  {
    SoundItem(s, m);
    if op.Set? {
      SetFacts(op.end, s, capacity, op.key, op.value, op.now, op.expiresAt);
    } else if op.Remove? {
      WithoutFacts(s, capacity, op.key);
    }
    var s' := Step(s, capacity, op);
    var m' := MapStep(m, op);
    forall i | 0 <= i < |s'| ensures s'[i].key in m' && m'[s'[i].key] == Stamped(s'[i].value, s'[i].expiresAt) {
      assert s'[i] in s';
    }
  }

  lemma HitIsTrue<K(!new), V(!new)>(s: seq<Item<K, V>>, m: map<K, Stamped<V>>, key: K, now: int)
    requires UniqueKeys(s) && Sound(s, m)
    ensures Lookup(s, key, now).Some? ==> Lookup(s, key, now) == MapLookup(m, key, now)
  {
    hide Lookup, UniqueKeys;
    if key in Keys(s) {
      var it :| it in s && it.key == key;
      SoundItem(s, m);
      LookupFinds(s, it, now);
    } else {
      LookupMisses(s, key, now);
    }
  }

  /** Whatever the clock does and however full the cache is, a hit never lies. */
  lemma {:induction false} HitsAreTrue<K(!new), V(!new)>(
      s: seq<Item<K, V>>, m: map<K, Stamped<V>>, capacity: int, ops: seq<Op<K, V>>)
    requires WellFormed(s, capacity) && capacity > 0 && Sound(s, m)
    ensures |Answers(s, capacity, ops)| == |MapAnswers(m, ops)|
    ensures forall i :: 0 <= i < |Answers(s, capacity, ops)| && Answers(s, capacity, ops)[i].Some? ==>
      Answers(s, capacity, ops)[i] == MapAnswers(m, ops)[i]
    decreases |ops|
  {
    hide Lookup, Step, Sorted, UniqueKeys, MapLookup, MapStep, Sound;
    if ops == [] {
    } else {
      var op := ops[0];
      StepKeepsWellFormed(s, capacity, op);
      StepSound(s, m, capacity, op);
      HitsAreTrue(Step(s, capacity, op), MapStep(m, op), capacity, ops[1..]);
      if op.Get? {
        HitIsTrue(s, m, op.key, op.now);
      }
    }
  }
}
