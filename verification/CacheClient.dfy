/** Arbitrary clients of the cache object: its whole runs refine the list runs, node by node. */
module CacheClient {
  import opened Wrappers
  import opened ExpirationList
  import opened ExpirationListLemmas
  import opened CacheRuns
  import opened CacheTransparency
  import opened ExpirationCache

  /** The operation leaves `key` cached, and does not prune it on the way to setting it anew. */
  ghost predicate StaysThrough<K, V>(s: seq<Item<K, V>>, capacity: int, op: Op<K, V>, key: K)
    requires capacity > 0
  {
    && key in Keys(Step(s, capacity, op))
    && (op.Set? && op.key == key ==> key in Keys(Unexpired(s, op.now)))
  }

  /** `key` is cached without a break all along the run. */
  ghost predicate Stays<K, V>(s: seq<Item<K, V>>, capacity: int, ops: seq<Op<K, V>>, key: K)
    requires capacity > 0
    decreases |ops|
  {
    ops != [] ==>
      StaysThrough(s, capacity, ops[0], key) && Stays(Step(s, capacity, ops[0]), capacity, ops[1..], key)
  }

  /** How many operations of the run go by before that stay ends. */
  ghost function StayLength<K, V>(s: seq<Item<K, V>>, capacity: int, ops: seq<Op<K, V>>, key: K): (n: nat)
    requires capacity > 0
    ensures n <= |ops|
    ensures n == |ops| <==> Stays(s, capacity, ops, key)
    decreases |ops|
  {
    if ops == [] || !StaysThrough(s, capacity, ops[0], key) then 0
    else 1 + StayLength(Step(s, capacity, ops[0]), capacity, ops[1..], key)
  }

  lemma IndexedNodes<K, V>(m: map<K, Node<K, V>>, nodes: seq<Node<K, V>>)
    requires Indexes(m, Members(nodes))
    ensures forall k :: k in m ==> m[k] in nodes && m[k].key == k
    ensures forall n :: n in nodes ==> n.key in m && m[n.key] == n
  {
    forall n | n in nodes ensures n.key in m && m[n.key] == n {
      assert n in Members(nodes);
    }
  }

  /** Which nodes survive, told from the keys: nodes keep their keys, and new keys mean new nodes. */
  lemma NodesFollowKeys<K, V>(
      m: map<K, Node<K, V>>, nodes: seq<Node<K, V>>, m': map<K, Node<K, V>>, nodes': seq<Node<K, V>>,
      added: set<Node<K, V>>)
    requires Indexes(m, Members(nodes)) && Indexes(m', Members(nodes'))
    requires forall n :: n in nodes' ==> n in nodes || n in added
    ensures forall n :: n in nodes && (forall a :: a in added ==> a.key != n.key) ==> (n in nodes' <==> n.key in m')
  {
    IndexedNodes(m, nodes);
    IndexedNodes(m', nodes');
  }

  method Apply<K(==, !new), V(!new)>(c: ExpirationCache<K, V>, op: Op<K, V>) returns (answers: seq<Option<V>>)
    requires c.Valid()
    modifies c, c.Nodes
    ensures c.Valid() && c.Contents() == Step(old(c.Contents()), c.capacity, op)
    ensures answers == if op.Get? then [Lookup(old(c.Contents()), op.key, op.now)] else []
    ensures forall i :: 0 <= i < |c.Nodes| ==> c.Nodes[i] in old(c.Nodes) || fresh(c.Nodes[i])
    ensures forall n :: n in old(c.Nodes) ==>
      (n in c.Nodes <==> StaysThrough(old(c.Contents()), c.capacity, op, n.key))
    ensures forall n :: n in old(c.Nodes) && n !in c.Nodes ==> n.AsItem() == old(n.AsItem())
  {
    hide Distinct, Chained, Sorted, UniqueKeys, Members, Indexes, ItemsOf;
    hide Keys, Lookup, Filter, ExpirationList.Set, Kept;
    answers := [];
    ghost var items := c.Contents();
    ghost var m, nodes := c.nodeByKey, c.Nodes;
    IndexedNodes(m, nodes);
    match op
    case Set(end, key, value, now, expiresAt) =>
      if end == Head {
        c.SetFromHead(key, value, now, expiresAt);
      } else {
        c.SetFromTail(key, value, now, expiresAt);
      }
      c.KeysAreIndexed();
      IndexedNodes(c.nodeByKey, c.Nodes);
      NodesFollowKeys(m, nodes, c.nodeByKey, c.Nodes, {c.nodeByKey[key]});
    case Remove(key) =>
      var found := c.Remove(key);
      c.KeysAreIndexed();
      NodesFollowKeys(m, nodes, c.nodeByKey, c.Nodes, {});
    case Clear =>
      c.Clear();
      c.KeysAreIndexed();
      NodesFollowKeys(m, nodes, c.nodeByKey, c.Nodes, {});
    case Get(key, now) =>
      c.KeysAreIndexed();
      NodesFollowKeys(m, nodes, c.nodeByKey, c.Nodes, {});
      var value := c.Get(key, now);
      answers := [value];
  }

  lemma NodesShowItems<K(!new), V(!new)>(c: ExpirationCache<K, V>)
    ensures forall n :: n in c.Nodes ==> n.AsItem() in c.Contents()
  {
    forall n | n in c.Nodes ensures n.AsItem() in c.Contents() {
      var i :| 0 <= i < |c.Nodes| && c.Nodes[i] == n;
      ItemAt(c.Nodes, i);
    }
  }

  lemma StayUnfolds<K, V>(s: seq<Item<K, V>>, capacity: int, ops: seq<Op<K, V>>, key: K)
    requires capacity > 0 && ops != [] && StaysThrough(s, capacity, ops[0], key)
    ensures var s' := Step(s, capacity, ops[0]);
      Run(s, capacity, ops[..StayLength(s, capacity, ops, key)]) ==
      Run(s', capacity, ops[1..][..StayLength(s', capacity, ops[1..], key)])
  {
    hide Step, StaysThrough;
    var n := StayLength(s, capacity, ops, key);
    assert ops[..n][0] == ops[0] && ops[..n][1..] == ops[1..][..n - 1];
  }

  /**
   Any run of operations on the object. A node that a client holds a pointer to is in the cache
   exactly as long as its key stays cached without a break, and shows the item its key had last in
   that stay. A node outside the cache is never written and never linked back in.
   */
  method Replay<K(==, !new), V(!new)>(c: ExpirationCache<K, V>, ops: seq<Op<K, V>>) returns (answers: seq<Option<V>>)
    requires c.Valid()
    modifies c, c.Nodes
    ensures c.Valid() && c.Contents() == Run(old(c.Contents()), c.capacity, ops)
    ensures answers == Answers(old(c.Contents()), c.capacity, ops)
    ensures forall i :: 0 <= i < |c.Nodes| ==> c.Nodes[i] in old(c.Nodes) || fresh(c.Nodes[i])
    ensures forall n: Node<K, V> :: old(allocated(n)) && n !in old(c.Nodes) ==> n !in c.Nodes && unchanged(n)
    ensures forall n :: n in c.Nodes ==> n.AsItem() in c.Contents()
    ensures forall n :: n in old(c.Nodes) ==>
      && (n in c.Nodes <==> Stays(old(c.Contents()), c.capacity, ops, n.key))
      && n.AsItem() in Run(old(c.Contents()), c.capacity, ops[..StayLength(old(c.Contents()), c.capacity, ops, n.key)])
    decreases |ops|
  {
    hide Distinct, Chained, Sorted, UniqueKeys, Members, Indexes, ItemsOf;
    hide Keys, Lookup, Filter, ExpirationList.Set, Kept, Step, StaysThrough;
    ghost var items, nodes := c.Contents(), c.Nodes;
    NodesShowItems(c);
    if ops == [] {
      return [];
    }
    var first := Apply(c, ops[0]);
    var rest := Replay(c, ops[1..]);
    answers := first + rest;
    forall n | n in nodes && StaysThrough(items, c.capacity, ops[0], n.key)
      ensures n.AsItem() in Run(items, c.capacity, ops[..StayLength(items, c.capacity, ops, n.key)])
    {
      StayUnfolds(items, c.capacity, ops, n.key);
    }
  }

  /**
   A client that keeps the pointer `GetEntry` gave it. As long as the key stays cached without a
   break the pointer shows what the key now holds. Once the stay has ended the pointer is out of the
   cache for good, and shows what the key held when it ended.
   */
  method HoldEntry<K(==, !new), V(!new)>(c: ExpirationCache<K, V>, key: K, now: int, ops: seq<Op<K, V>>)
    returns (entry: Node?<K, V>, answers: seq<Option<V>>)
    requires c.Valid()
    modifies c, c.Nodes
    ensures c.Valid() && c.Contents() == Run(old(c.Contents()), c.capacity, ops)
    ensures answers == Answers(old(c.Contents()), c.capacity, ops)
    ensures entry != null <==> Lookup(old(c.Contents()), key, now) != None
    ensures entry != null ==> (entry in c.Nodes <==> Stays(old(c.Contents()), c.capacity, ops, key))
    ensures entry != null ==>
      var ending := Run(old(c.Contents()), c.capacity, ops[..StayLength(old(c.Contents()), c.capacity, ops, key)]);
      forall t :: Lookup(ending, key, t) == if entry.expiresAt > t then Some(entry.value) else None
  {
    hide Distinct, Chained, Sorted, UniqueKeys, Members, Indexes, ItemsOf, Lookup, Run, Stays, StayLength;
    entry := c.GetEntry(key, now);
    ghost var items := c.Contents();
    answers := Replay(c, ops);
    if entry != null {
      ghost var ending := Run(items, c.capacity, ops[..StayLength(items, c.capacity, ops, key)]);
      RunKeepsWellFormed(items, c.capacity, ops[..StayLength(items, c.capacity, ops, key)]);
      forall t ensures Lookup(ending, key, t) == if entry.expiresAt > t then Some(entry.value) else None {
        LookupFinds(ending, entry.AsItem(), t);
      }
    }
  }

  /** Two clients of one cache, one after the other, are one client that does both their runs. */
  method ReplayTwice<K(==, !new), V(!new)>(c: ExpirationCache<K, V>, ops: seq<Op<K, V>>, ops': seq<Op<K, V>>)
    returns (answers: seq<Option<V>>, answers': seq<Option<V>>)
    requires c.Valid()
    modifies c, c.Nodes
    ensures c.Valid() && c.Contents() == Run(Run(old(c.Contents()), c.capacity, ops), c.capacity, ops')
    ensures answers == Answers(old(c.Contents()), c.capacity, ops)
    ensures answers' == Answers(Run(old(c.Contents()), c.capacity, ops), c.capacity, ops')
  {
    hide Run, Answers, Stays, StayLength;
    answers := Replay(c, ops);
    answers' := Replay(c, ops');
  }

  /** A new cache of any requested capacity, driven by a run whose sets all fit, answers as the plain map. */
  method FreshRun<K(==, !new), V(!new)>(
      capacity: int, ghost clock: int, ops: seq<Op<K, V>>) returns (answers: seq<Option<V>>)
    requires Monotone(clock, ops)
    requires Fits(map[], if capacity <= 0 then 0x7fff_ffff_ffff_ffff else capacity, ops)
    ensures answers == MapAnswers(map[], ops)
  {
    var c := new ExpirationCache<K, V>(capacity);
    NewCacheTransparentIffFits(c.capacity, clock, ops);
    TransparentAnswers([], map[], c.capacity, clock, ops);
    answers := Replay(c, ops);
  }

  /** Without a positive capacity nothing is ever evicted, for as many keys as an `int` can count. */
  method UnboundedRun<K(==, !new), V(!new)>(
      capacity: int, ghost clock: int, ops: seq<Op<K, V>>) returns (answers: seq<Option<V>>)
    requires capacity <= 0 && Monotone(clock, ops)
    requires |set op | op in ops && op.Set? :: op.key| <= 0x7fff_ffff_ffff_ffff
    ensures answers == MapAnswers(map[], ops)
  {
    assert (set op | op in ops && op.Set? :: op.key) == SetKeys(ops);
    FewKeysFit(map[], 0x7fff_ffff_ffff_ffff, ops, SetKeys(ops));
    answers := FreshRun(capacity, clock, ops);
  }
}
