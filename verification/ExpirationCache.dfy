/**
 The cache itself: one set of nodes, reached both through a map by key and through a doubly linked
 list sorted by expiration, updated in place. The ghost field `Nodes` is the list as a sequence.
 */
module ExpirationCache {
  import opened Wrappers
  import opened ExpirationList
  import opened ExpirationListLemmas
  import opened CacheRuns

  class Node<K, V> {
    var prev: Node?<K, V>
    var next: Node?<K, V>
    var expiresAt: int
    const key: K
    var value: V

    constructor (key: K, value: V, expiresAt: int)
      ensures prev == null && next == null && AsItem() == Item(key, value, expiresAt)
    {
      this.prev, this.next := null, null;
      this.key, this.value, this.expiresAt := key, value, expiresAt;
    }

    ghost function AsItem(): Item<K, V>
      reads `expiresAt, `value
    {
      Item(key, value, expiresAt)
    }
  }

  ghost function ItemsOf<K, V>(nodes: seq<Node<K, V>>): (s: seq<Item<K, V>>)
    reads nodes`expiresAt, nodes`value
    ensures |s| == |nodes|
  {
    if nodes == [] then [] else [nodes[0].AsItem()] + ItemsOf(nodes[1..])
  }

  lemma {:induction false} ItemAt<K, V>(nodes: seq<Node<K, V>>, i: nat)
    requires i < |nodes|
    ensures ItemsOf(nodes)[i] == nodes[i].AsItem()
  {
    if i == 0 {
    } else {
      ItemAt(nodes[1..], i - 1);
    }
  }

  lemma {:induction false} ItemsOfConcat<K, V>(a: seq<Node<K, V>>, b: seq<Node<K, V>>)
    ensures ItemsOf(a + b) == ItemsOf(a) + ItemsOf(b)
  {
    if a == [] {
      assert a + b == b;
    } else {
      assert (a + b)[1..] == a[1..] + b;
      ItemsOfConcat(a[1..], b);
    }
  }

  lemma ItemsOfSplit<K, V>(nodes: seq<Node<K, V>>, i: nat)
    requires i <= |nodes|
    ensures ItemsOf(nodes[..i]) == ItemsOf(nodes)[..i]
    ensures ItemsOf(nodes[i..]) == ItemsOf(nodes)[i..]
  {
    ItemsOfConcat(nodes[..i], nodes[i..]);
    assert nodes == nodes[..i] + nodes[i..];
  }

  lemma ItemsOfWithout<K, V>(nodes: seq<Node<K, V>>, i: nat)
    requires i < |nodes|
    ensures ItemsOf(nodes)[i] == nodes[i].AsItem()
    ensures ItemsOf(nodes[..i] + nodes[i + 1..]) == ItemsOf(nodes)[..i] + ItemsOf(nodes)[i + 1..]
  {
    ItemAt(nodes, i);
    ItemsOfSplit(nodes, i);
    ItemsOfSplit(nodes, i + 1);
    ItemsOfConcat(nodes[..i], nodes[i + 1..]);
  }

  lemma ItemsOfWith<K, V>(nodes: seq<Node<K, V>>, i: nat, node: Node<K, V>)
    requires i <= |nodes|
    ensures ItemsOf(nodes[..i] + [node] + nodes[i..]) == ItemsOf(nodes)[..i] + [node.AsItem()] + ItemsOf(nodes)[i..]
  {
    ItemsOfConcat(nodes[..i] + [node], nodes[i..]);
    ItemsOfConcat(nodes[..i], [node]);
    assert ItemsOf([node]) == [node.AsItem()];
    ItemsOfSplit(nodes, i);
  }

  /** Relinking nodes leaves their items as they were. */
  twostate lemma {:induction false} ItemsKept<K, V>(nodes: seq<Node<K, V>>)
    requires forall n :: n in nodes ==> n.expiresAt == old(n.expiresAt) && n.value == old(n.value)
    ensures ItemsOf(nodes) == old(ItemsOf(nodes))
  {
    if nodes == [] {
    } else {
      ItemsKept(nodes[1..]);
    }
  }

  ghost function Members<K, V>(nodes: seq<Node<K, V>>): set<Node<K, V>> {
    set n | n in nodes
  }

  /** The map finds exactly the given nodes, each under its own key. */
  ghost predicate Indexes<K, V>(m: map<K, Node<K, V>>, nodes: set<Node<K, V>>) {
    && (forall k :: k in m ==> m[k] in nodes && m[k].key == k)
    && (forall n :: n in nodes ==> n.key in m && m[n.key] == n)
  }

  ghost predicate Distinct<K, V>(nodes: seq<Node<K, V>>) {
    forall i, j :: 0 <= i < j < |nodes| ==> nodes[i] != nodes[j]
  }

  lemma IndexesWithout<K, V>(m: map<K, Node<K, V>>, nodes: seq<Node<K, V>>, i: nat)
    requires i < |nodes| && Distinct(nodes) && Indexes(m, Members(nodes))
    ensures nodes[i].key in m && m[nodes[i].key] == nodes[i]
    ensures Indexes(m - {nodes[i].key}, Members(nodes[..i] + nodes[i + 1..]))
    ensures Members(nodes[..i] + nodes[i + 1..]) + {nodes[i]} == Members(nodes)
    ensures nodes[i] !in nodes[..i] + nodes[i + 1..]
  {
    assert nodes == nodes[..i] + [nodes[i]] + nodes[i + 1..];
    assert nodes[i] in Members(nodes);
    assert Members(nodes[..i] + nodes[i + 1..]) == Members(nodes) - {nodes[i]};
  }

  lemma IndexesPlus<K, V>(m: map<K, Node<K, V>>, nodes: set<Node<K, V>>, node: Node<K, V>)
    requires Indexes(m, nodes) && node.key !in m
    ensures Indexes(m[node.key := node], nodes + {node})
  {
  }

  lemma IndexOf<K, V>(m: map<K, Node<K, V>>, nodes: seq<Node<K, V>>, key: K) returns (i: nat)
    requires Indexes(m, Members(nodes)) && key in m
    ensures i < |nodes| && nodes[i] == m[key] && nodes[i].key == key
  {
    i :| i < |nodes| && nodes[i] == m[key];
  }

  lemma IndexesAt<K, V>(m: map<K, Node<K, V>>, nodes: set<Node<K, V>>, node: Node<K, V>)
    requires Indexes(m, nodes) && node in nodes
    ensures node.key in m && m[node.key] == node
  {
  }

  lemma MembersWith<K, V>(nodes: seq<Node<K, V>>, i: nat, node: Node<K, V>)
    requires i <= |nodes|
    ensures Members(nodes[..i] + [node] + nodes[i..]) == Members(nodes) + {node}
    ensures var r := nodes[..i] + [node] + nodes[i..]; forall k :: 0 <= k < |r| ==> r[k] in nodes || r[k] == node
  {
    assert nodes == nodes[..i] + nodes[i..];
  }

  // ----- doubly linked chains

  /** The links of `nodes`, in both directions, spell out the sequence. */
  ghost predicate Chained<K, V>(nodes: seq<Node<K, V>>)
    reads nodes`prev, nodes`next
  {
    && (forall i {:trigger nodes[i].prev} :: 0 <= i < |nodes| ==>
          nodes[i].prev == if i == 0 then null else nodes[i - 1])
    && (forall i {:trigger nodes[i].next} :: 0 <= i < |nodes| ==>
          nodes[i].next == if i == |nodes| - 1 then null else nodes[i + 1])
  }

  /** All links bypass `nodes[i]`; its own links are arbitrary. */
  ghost predicate ChainedAround<K, V>(nodes: seq<Node<K, V>>, i: nat)
    requires i < |nodes|
    reads nodes`prev, nodes`next
  {
    && (forall k {:trigger nodes[k].prev} :: 0 <= k < |nodes| && k != i ==>
          nodes[k].prev ==
            if k == i + 1 then if i == 0 then null else nodes[i - 1]
            else if k == 0 then null else nodes[k - 1])
    && (forall k {:trigger nodes[k].next} :: 0 <= k < |nodes| && k != i ==>
          nodes[k].next ==
            if k == i - 1 then if i == |nodes| - 1 then null else nodes[i + 1]
            else if k == |nodes| - 1 then null else nodes[k + 1])
  }

  /** `node` sits between `nodes[j - 1]` and `nodes[j]`. */
  ghost predicate ChainedThrough<K, V>(nodes: seq<Node<K, V>>, j: nat, node: Node<K, V>)
    requires j <= |nodes|
    reads nodes`prev, nodes`next, node`prev, node`next
  {
    && node.prev == (if j == 0 then null else nodes[j - 1])
    && node.next == (if j == |nodes| then null else nodes[j])
    && (forall k {:trigger nodes[k].prev} :: 0 <= k < |nodes| ==>
          nodes[k].prev == if k == j then node else if k == 0 then null else nodes[k - 1])
    && (forall k {:trigger nodes[k].next} :: 0 <= k < |nodes| ==>
          nodes[k].next == if k == j - 1 then node else if k == |nodes| - 1 then null else nodes[k + 1])
  }

  lemma OthersDiffer<K, V>(nodes: seq<Node<K, V>>, j: nat)
    requires Distinct(nodes) && j < |nodes|
    ensures forall k :: 0 <= k < |nodes| && k != j ==> nodes[k] != nodes[j]
  {
  }

  lemma ChainedWithout<K, V>(nodes: seq<Node<K, V>>, i: nat)
    requires i < |nodes| && Distinct(nodes) && ChainedAround(nodes, i)
    ensures var r := nodes[..i] + nodes[i + 1..]; Distinct(r) && Chained(r)
  {
    var r := nodes[..i] + nodes[i + 1..];
    assert forall k :: 0 <= k < |r| ==> r[k] == nodes[if k < i then k else k + 1];
  }

  lemma ChainedAlone<K, V>(node: Node<K, V>)
    requires node.prev == null && node.next == null
    ensures Distinct([node]) && Chained([node])
  {
  }

  lemma ChainedWith<K, V>(nodes: seq<Node<K, V>>, j: nat, node: Node<K, V>)
    requires j <= |nodes| && Distinct(nodes) && node !in nodes && ChainedThrough(nodes, j, node)
    ensures var r := nodes[..j] + [node] + nodes[j..]; Distinct(r) && Chained(r)
  {
    var r := nodes[..j] + [node] + nodes[j..];
    assert forall k :: 0 <= k < |r| ==> r[k] == if k < j then nodes[k] else if k == j then node else nodes[k - 1];
  }

  // ----- iteration

  ghost function Pairs<K, V>(s: seq<Item<K, V>>): (r: seq<(K, V)>)
    ensures |r| == |s| && forall i :: 0 <= i < |s| ==> r[i] == (s[i].key, s[i].value)
  {
    seq(|s|, i requires 0 <= i < |s| => (s[i].key, s[i].value))
  }

  ghost function Reverse<T>(s: seq<T>): (r: seq<T>)
    ensures |r| == |s| && forall i :: 0 <= i < |s| ==> r[i] == s[|s| - 1 - i]
  {
    seq(|s|, i requires 0 <= i < |s| => s[|s| - 1 - i])
  }

  /** `visited` is what a consumer that stops as soon as `more` says no sees of `all`. */
  ghost predicate IsVisit<T>(visited: seq<T>, all: seq<T>, more: seq<T> -> bool) {
    && visited <= all
    && (forall k :: 0 < k < |visited| ==> more(visited[..k]))
    && (visited == all || (visited != [] && !more(visited)))
  }

  lemma VisitStops<T>(all: seq<T>, n: nat, more: seq<T> -> bool)
    requires n <= |all| && forall k :: 0 < k < n ==> more(all[..k])
    requires n == |all| || (n > 0 && !more(all[..n]))
    ensures IsVisit(all[..n], all, more)
  {
    assert forall k :: 0 <= k <= n ==> all[..n][..k] == all[..k];
  }

  /** The visit ends with the first elements that the consumer refuses, and with the last one if it refuses none. */
  lemma VisitMeaning<T>(visited: seq<T>, all: seq<T>, more: seq<T> -> bool)
    requires IsVisit(visited, all, more)
    ensures forall n :: 0 < n <= |all| && !more(all[..n]) && (forall k :: 0 < k < n ==> more(all[..k])) ==>
      visited == all[..n]
    ensures (forall k :: 0 < k <= |all| ==> more(all[..k])) ==> visited == all
  {
    var m := |visited|;
    assert visited == all[..m];
    assert forall k :: 0 <= k <= m ==> visited[..k] == all[..k];
    assert all[..|all|] == all;
  }

  lemma VisitUnique<T>(visited: seq<T>, visited': seq<T>, all: seq<T>, more: seq<T> -> bool)
    requires IsVisit(visited, all, more) && IsVisit(visited', all, more)
    ensures visited == visited'
  {
    assert visited == all[..|visited|] && visited' == all[..|visited'|];
    assert forall k :: 0 <= k <= |visited| ==> visited[..k] == all[..k];
    assert forall k :: 0 <= k <= |visited'| ==> visited'[..k] == all[..k];
  }

  // The largest `int` of a 64-bit platform: the capacity of an "unbounded" cache.
  const MAX_INT := 0x7fff_ffff_ffff_ffff

  class ExpirationCache<K(==, !new), V(!new)> {
    var nodeByKey: map<K, Node<K, V>>
    const capacity: int
    var head: Node?<K, V>
    var tail: Node?<K, V>
    ghost var Nodes: seq<Node<K, V>>

    ghost predicate Linked()
      reads `head, `tail, `Nodes, Nodes`prev, Nodes`next
    {
      && head == (if Nodes == [] then null else Nodes[0])
      && tail == (if Nodes == [] then null else Nodes[|Nodes| - 1])
      && Distinct(Nodes) && Chained(Nodes)
    }

    ghost function Contents(): seq<Item<K, V>>
      reads `Nodes, Nodes`expiresAt, Nodes`value
    {
      ItemsOf(Nodes)
    }

    ghost predicate Valid()
      reads this, Nodes
    {
      capacity > 0 && Linked() && Indexes(nodeByKey, Members(Nodes)) && WellFormed(Contents(), capacity)
    }

    constructor (capacity: int)
      ensures Valid() && Contents() == [] && fresh(Nodes)
      ensures this.capacity == if capacity <= 0 then 0x7fff_ffff_ffff_ffff else capacity
    {
      this.capacity := if capacity <= 0 then MAX_INT else capacity;
      nodeByKey := map[];
      head, tail := null, null;
      Nodes := [];
    }

    lemma KeysAreIndexed()
      requires Indexes(nodeByKey, Members(Nodes)) && UniqueKeys(Contents())
      ensures Keys(Contents()) == nodeByKey.Keys && |nodeByKey| == |Nodes|
    {
      KeysCount(Contents());
      forall k | k in nodeByKey ensures k in Keys(Contents()) {
        var i :| 0 <= i < |Nodes| && Nodes[i] == nodeByKey[k];
        ItemAt(Nodes, i);
        assert Contents()[i] in Contents();
      }
      forall k | k in Keys(Contents()) ensures k in nodeByKey {
        var i :| 0 <= i < |Contents()| && Contents()[i].key == k;
        ItemAt(Nodes, i);
        assert Nodes[i] in Members(Nodes);
      }
    }

    // ----- the list

    method Detach(node: Node<K, V>, ghost i: nat)
      requires Linked() && i < |Nodes| && Nodes[i] == node
      modifies `head, `tail, `Nodes, Nodes`prev, Nodes`next
      ensures Linked() && Nodes == old(Nodes[..i] + Nodes[i + 1..])
      ensures node.prev == old(node.prev) && node.next == old(node.next)
      ensures node.next == if i + 1 < old(|Nodes|) then old(Nodes)[i + 1] else null
      ensures Nodes == [] ==> node.prev == null && node.next == null
    {
      ghost var nodes := Nodes;
      OthersDiffer(nodes, i);
      if i > 0 {
        OthersDiffer(nodes, i - 1);
      }
      if i + 1 < |nodes| {
        OthersDiffer(nodes, i + 1);
      }
      hide Distinct;
      if node.prev != null {
        node.prev.next := node.next;
      } else {
        head := node.next;
      }
      if node.next != null {
        node.next.prev := node.prev;
      } else {
        tail := node.prev;
      }
      assert ChainedAround(nodes, i);
      Nodes := nodes[..i] + nodes[i + 1..];
      ChainedWithout(nodes, i);
    }

    method InsertBefore(node: Node<K, V>, mark: Node<K, V>, ghost j: nat)
      requires Linked() && node !in Nodes && j < |Nodes| && Nodes[j] == mark
      modifies `head, `Nodes, node`prev, node`next, Nodes`prev, Nodes`next
      ensures Linked() && Nodes == old(Nodes[..j] + [node] + Nodes[j..])
    {
      ghost var nodes := Nodes;
      OthersDiffer(nodes, j);
      if j > 0 {
        OthersDiffer(nodes, j - 1);
      }
      hide Distinct;
      node.prev := mark.prev;
      node.next := mark;
      if mark.prev != null {
        mark.prev.next := node;
      } else {
        head := node;
      }
      mark.prev := node;
      assert ChainedThrough(nodes, j, node);
      Nodes := nodes[..j] + [node] + nodes[j..];
      ChainedWith(nodes, j, node);
    }

    method InsertAfter(node: Node<K, V>, mark: Node<K, V>, ghost j: nat)
      requires Linked() && node !in Nodes && j < |Nodes| && Nodes[j] == mark
      modifies `tail, `Nodes, node`prev, node`next, Nodes`prev, Nodes`next
      ensures Linked() && Nodes == old(Nodes[..j + 1] + [node] + Nodes[j + 1..])
    {
      ghost var nodes := Nodes;
      OthersDiffer(nodes, j);
      if j + 1 < |nodes| {
        OthersDiffer(nodes, j + 1);
      }
      hide Distinct;
      node.prev := mark;
      node.next := mark.next;
      if mark.next != null {
        mark.next.prev := node;
      } else {
        tail := node;
      }
      mark.next := node;
      assert ChainedThrough(nodes, j + 1, node);
      Nodes := nodes[..j + 1] + [node] + nodes[j + 1..];
      ChainedWith(nodes, j + 1, node);
    }

    /** Deletes the node's key and unlinks it. Its own links stay, so a walk may go on through them. */
    method RemoveNode(node: Node<K, V>, ghost i: nat)
      requires Valid() && i < |Nodes| && Nodes[i] == node
      modifies `nodeByKey, `head, `tail, `Nodes, Nodes`prev, Nodes`next
      ensures Valid() && Nodes == old(Nodes[..i] + Nodes[i + 1..])
      ensures Contents() == Without(old(Contents()), node.key) == old(Contents()[..i] + Contents()[i + 1..])
      ensures node.prev == old(node.prev) && node.next == old(node.next)
      ensures node.next == if i + 1 < old(|Nodes|) then old(Nodes)[i + 1] else null
      ensures nodeByKey == old(nodeByKey) - {node.key}
    {
      hide Distinct, Chained, Sorted, UniqueKeys, Indexes, Members, ItemsOf;
      ghost var nodes, items := Nodes, Contents();
      IndexesWithout(nodeByKey, nodes, i);
      ItemsOfWithout(nodes, i);
      WithoutAt(items, i);
      WithoutFacts(items, capacity, node.key);
      nodeByKey := nodeByKey - {node.key};
      Detach(node, i);
      ItemsKept(Nodes);
    }

    method RemoveFirst(node: Node<K, V>)
      requires Valid() && Nodes != [] && Nodes[0] == node
      modifies `nodeByKey, `head, `tail, `Nodes, Nodes`prev, Nodes`next
      ensures Valid() && Nodes == old(Nodes)[1..] && Contents() == old(Contents())[1..]
      ensures node.next == if |Nodes| > 0 then Nodes[0] else null
      ensures nodeByKey.Keys <= old(nodeByKey.Keys)
    {
      hide Valid, Without, ItemsOf;
      RemoveNode(node, 0);
    }

    method PruneExpired(now: int) returns (ghost n: nat)
      requires Valid()
      modifies `nodeByKey, `head, `tail, `Nodes, Nodes`prev, Nodes`next
      ensures Valid() && Contents() == Unexpired(old(Contents()), now)
      ensures n <= |old(Nodes)| && Nodes == old(Nodes)[n..]
    {
      hide Distinct, Chained, Sorted, UniqueKeys, Indexes, Members, ItemsOf, Unexpired;
      ghost var nodes, items := Nodes, Contents();
      var node := head;
      n := 0;
      while node != null
        invariant 0 <= n <= |nodes| == |items| && Valid()
        invariant Nodes == nodes[n..] && Contents() == items[n..]
        invariant node == if n < |nodes| then nodes[n] else null
        invariant forall i :: 0 <= i < n ==> items[i].expiresAt <= now
        decreases |nodes| - n
      {
        ItemAt(Nodes, 0);
        if node.expiresAt > now {
          break;
        }
        RemoveFirst(node);
        node := node.next;
        n := n + 1;
      }
      UnexpiredIsSuffix(items, now, n);
    }

    method PruneOldest()
      requires Valid()
      modifies `nodeByKey, `head, `tail, `Nodes, Nodes`prev, Nodes`next
      ensures Valid() && Contents() == EvictIfFull(old(Contents()), capacity)
      ensures Nodes == if |old(Nodes)| < capacity then old(Nodes) else old(Nodes)[1..]
      ensures nodeByKey.Keys <= old(nodeByKey.Keys)
    {
      hide Distinct, Chained, Sorted, UniqueKeys, Indexes, Members, Keys, ItemsOf;
      KeysAreIndexed();
      if |nodeByKey| < capacity {
        return;
      }
      RemoveFirst(head);
    }

    /** Takes a cached node off the list and gives it its new value and expiration. */
    method ReuseNode(node: Node<K, V>, value: V, expiresAt: int)
      requires Valid() && node.key in nodeByKey && nodeByKey[node.key] == node
      modifies `head, `tail, `Nodes, Nodes`prev, Nodes`next, node`expiresAt, node`value
      ensures Linked() && node !in Nodes && Indexes(nodeByKey, Members(Nodes) + {node})
      ensures Contents() == Without(old(Contents()), node.key)
      ensures node in old(Nodes) && node.AsItem() == Item(node.key, value, expiresAt)
      ensures Nodes == [] ==> node.prev == null && node.next == null
      ensures forall i :: 0 <= i < |Nodes| ==> Nodes[i] in old(Nodes)
    {
      hide Distinct, Chained, Sorted, UniqueKeys, ItemsOf, Members, Indexes, Keys;
      ghost var nodes := Nodes;
      ghost var i := IndexOf(nodeByKey, nodes, node.key);
      IndexesWithout(nodeByKey, nodes, i);
      ItemsOfWithout(nodes, i);
      WithoutAt(Contents(), i);
      Detach(node, i);
      node.expiresAt := expiresAt;
      node.value := value;
      ItemsKept(Nodes);
    }

    method CreateNode(key: K, value: V, expiresAt: int) returns (node: Node<K, V>)
      requires Valid() && key !in nodeByKey
      modifies `nodeByKey
      ensures Linked() && node !in Nodes && Indexes(nodeByKey, Members(Nodes) + {node})
      ensures Contents() == old(Contents())
      ensures fresh(node) && node.AsItem() == Item(key, value, expiresAt)
      ensures node.prev == null && node.next == null
    {
      hide Distinct, Chained, Sorted, UniqueKeys, ItemsOf, Members, Indexes, Keys;
      node := new Node(key, value, expiresAt);
      IndexesPlus(nodeByKey, Members(Nodes), node);
      nodeByKey := nodeByKey[key := node];
    }

    method GetOrCreateNode(key: K, value: V, now: int, expiresAt: int) returns (node: Node<K, V>)
      requires Valid()
      modifies this, Nodes
      ensures Linked() && node !in Nodes && Indexes(nodeByKey, Members(Nodes) + {node})
      ensures Contents() == Kept(old(Contents()), capacity, key, now)
      ensures node.AsItem() == Item(key, value, expiresAt)
      ensures Nodes == [] ==> node.prev == null && node.next == null
      ensures forall i :: 0 <= i < |Nodes| ==> Nodes[i] in old(Nodes)
      ensures forall n :: n in Nodes ==> n in old(Nodes)
      ensures if key in Keys(Unexpired(old(Contents()), now)) then node in old(Nodes) else fresh(node)
      ensures forall n :: n in old(Nodes) && n != node ==> n.AsItem() == old(n.AsItem())
    {
      hide Distinct, Chained, Sorted, UniqueKeys, ItemsOf, Members, Indexes, Keys, Unexpired, Without, EvictIfFull;
      ghost var n := PruneExpired(now);
      KeysAreIndexed();
      if key !in nodeByKey {
        PruneOldest();
        node := CreateNode(key, value, expiresAt);
      } else {
        node := nodeByKey[key];
        ghost var i := IndexOf(nodeByKey, Nodes, key);
        ReuseNode(node, value, expiresAt);
      }
    }

    /** The first node, from the head on, that expires strictly after `expiresAt`. */
    method SearchFromHead(expiresAt: int) returns (mark: Node?<K, V>, ghost j: nat)
      requires Linked()
      ensures j <= |Nodes| && mark == if j < |Nodes| then Nodes[j] else null
      ensures forall i :: 0 <= i < j ==> Contents()[i].expiresAt <= expiresAt
      ensures j < |Nodes| ==> expiresAt < Contents()[j].expiresAt
      ensures mark != null ==> mark in Nodes && expiresAt < mark.expiresAt
      ensures mark == null ==> forall i :: 0 <= i < |Nodes| ==> Contents()[i].expiresAt <= expiresAt
    {
      hide Distinct, ItemsOf;
      mark, j := head, 0;
      while mark != null
        invariant j <= |Nodes| && mark == if j < |Nodes| then Nodes[j] else null
        invariant forall i :: 0 <= i < j ==> Contents()[i].expiresAt <= expiresAt
        decreases |Nodes| - j
      {
        ItemAt(Nodes, j);
        if expiresAt < mark.expiresAt {
          return;
        }
        mark := mark.next;
        j := j + 1;
      }
    }

    /** Links `node` in before `mark`, or at the end when there is no mark. */
    method PlaceBefore(node: Node<K, V>, mark: Node?<K, V>, ghost j: nat)
      requires Linked() && node !in Nodes && (Nodes == [] ==> node.prev == null && node.next == null)
      requires j <= |Nodes| && mark == if j < |Nodes| then Nodes[j] else null
      modifies `head, `tail, `Nodes, node`prev, node`next, Nodes`prev, Nodes`next
      ensures Linked() && Nodes == old(Nodes[..j] + [node] + Nodes[j..])
      ensures Contents() == old(Contents()[..j] + [node.AsItem()] + Contents()[j..])
    {
      hide Distinct, Chained, ItemsOf;
      ghost var nodes := Nodes;
      if head == null {
        head, tail, Nodes := node, node, [node];
        ChainedAlone(node);
      } else if mark != null {
        InsertBefore(node, mark, j);
      } else {
        InsertAfter(node, tail, j - 1);
      }
      assert Nodes == nodes[..j] + [node] + nodes[j..];
      ItemsKept(nodes);
      ItemsOfWith(nodes, j, node);
    }

    /** Links `node` in after `mark`, or at the front when there is no mark. */
    method PlaceAfter(node: Node<K, V>, mark: Node?<K, V>, ghost j: nat)
      requires Linked() && node !in Nodes && (Nodes == [] ==> node.prev == null && node.next == null)
      requires j <= |Nodes| && mark == if j > 0 then Nodes[j - 1] else null
      modifies `head, `tail, `Nodes, node`prev, node`next, Nodes`prev, Nodes`next
      ensures Linked() && Nodes == old(Nodes[..j] + [node] + Nodes[j..])
      ensures Contents() == old(Contents()[..j] + [node.AsItem()] + Contents()[j..])
    {
      hide Distinct, Chained, ItemsOf;
      ghost var nodes := Nodes;
      if tail == null {
        head, tail, Nodes := node, node, [node];
        ChainedAlone(node);
      } else if mark != null {
        InsertAfter(node, mark, j - 1);
      } else {
        InsertBefore(node, head, 0);
      }
      assert Nodes == nodes[..j] + [node] + nodes[j..];
      ItemsKept(nodes);
      ItemsOfWith(nodes, j, node);
    }

    /** Links `node` in at its place in the order, found from the head. */
    method LinkFromHead(node: Node<K, V>)
      requires Linked() && node !in Nodes && (Nodes == [] ==> node.prev == null && node.next == null)
      modifies `head, `tail, `Nodes, node`prev, node`next, Nodes`prev, Nodes`next
      ensures Linked() && Contents() == InsertFromHead(old(Contents()), node.AsItem())
      ensures Members(Nodes) == old(Members(Nodes)) + {node}
      ensures forall i :: 0 <= i < |Nodes| ==> Nodes[i] in old(Nodes) || Nodes[i] == node
    {
      hide Linked, ItemsOf, InsertFromHead;
      var mark, j := SearchFromHead(node.expiresAt);
      InsertFromHeadAt(Contents(), node.AsItem(), j);
      MembersWith(Nodes, j, node);
      PlaceBefore(node, mark, j);
    }

    method SetFromHead(key: K, value: V, now: int, expiresAt: int)
      requires Valid()
      modifies this, Nodes
      ensures Valid()
      ensures Contents() == ExpirationList.Set(Head, old(Contents()), capacity, key, value, now, expiresAt)
      ensures key in nodeByKey && forall i :: 0 <= i < |Nodes| ==> Nodes[i] in old(Nodes) || Nodes[i] == nodeByKey[key]
      ensures forall i :: 0 <= i < |Nodes| ==> Nodes[i] in old(Nodes) || fresh(Nodes[i])
      ensures forall n :: n in old(Nodes) && n != nodeByKey[key] ==> n.AsItem() == old(n.AsItem())
      ensures if key in Keys(Unexpired(old(Contents()), now)) then nodeByKey[key] in old(Nodes)
        else fresh(nodeByKey[key])
    {
      hide Distinct, Chained, Sorted, UniqueKeys, ItemsOf, Members, Indexes, Keys, Kept, Unexpired, InsertFromHead;
      SetKeepsWellFormed(Head, Contents(), capacity, key, value, now, expiresAt);
      var node := GetOrCreateNode(key, value, now, expiresAt);
      IndexesAt(nodeByKey, Members(Nodes) + {node}, node);
      LinkFromHead(node);
    }

    /** The last node, from the tail on, that expires strictly before `expiresAt`. */
    method SearchFromTail(expiresAt: int) returns (mark: Node?<K, V>, ghost j: nat)
      requires Linked()
      ensures j <= |Nodes| && mark == if j > 0 then Nodes[j - 1] else null
      ensures forall i :: j <= i < |Nodes| ==> Contents()[i].expiresAt >= expiresAt
      ensures j > 0 ==> expiresAt > Contents()[j - 1].expiresAt
      ensures mark != null ==> mark in Nodes && expiresAt > mark.expiresAt
      ensures mark == null ==> forall i :: 0 <= i < |Nodes| ==> Contents()[i].expiresAt >= expiresAt
    {
      hide Distinct, ItemsOf;
      mark, j := tail, |Nodes|;
      while mark != null
        invariant j <= |Nodes| && mark == if j > 0 then Nodes[j - 1] else null
        invariant forall i :: j <= i < |Nodes| ==> Contents()[i].expiresAt >= expiresAt
        decreases j
      {
        ItemAt(Nodes, j - 1);
        if expiresAt > mark.expiresAt {
          return;
        }
        mark := mark.prev;
        j := j - 1;
      }
    }

    /** Links `node` in at its place in the order, found from the tail. */
    method LinkFromTail(node: Node<K, V>)
      requires Linked() && node !in Nodes && (Nodes == [] ==> node.prev == null && node.next == null)
      modifies `head, `tail, `Nodes, node`prev, node`next, Nodes`prev, Nodes`next
      ensures Linked() && Contents() == InsertFromTail(old(Contents()), node.AsItem())
      ensures Members(Nodes) == old(Members(Nodes)) + {node}
      ensures forall i :: 0 <= i < |Nodes| ==> Nodes[i] in old(Nodes) || Nodes[i] == node
    {
      hide Linked, ItemsOf, InsertFromTail;
      var mark, j := SearchFromTail(node.expiresAt);
      InsertFromTailAt(Contents(), node.AsItem(), j);
      MembersWith(Nodes, j, node);
      PlaceAfter(node, mark, j);
    }

    method SetFromTail(key: K, value: V, now: int, expiresAt: int)
      requires Valid()
      modifies this, Nodes
      ensures Valid()
      ensures Contents() == ExpirationList.Set(Tail, old(Contents()), capacity, key, value, now, expiresAt)
      ensures key in nodeByKey && forall i :: 0 <= i < |Nodes| ==> Nodes[i] in old(Nodes) || Nodes[i] == nodeByKey[key]
      ensures forall i :: 0 <= i < |Nodes| ==> Nodes[i] in old(Nodes) || fresh(Nodes[i])
      ensures forall n :: n in old(Nodes) && n != nodeByKey[key] ==> n.AsItem() == old(n.AsItem())
      ensures if key in Keys(Unexpired(old(Contents()), now)) then nodeByKey[key] in old(Nodes)
        else fresh(nodeByKey[key])
    {
      hide Distinct, Chained, Sorted, UniqueKeys, ItemsOf, Members, Indexes, Keys, Kept, Unexpired, InsertFromTail;
      SetKeepsWellFormed(Tail, Contents(), capacity, key, value, now, expiresAt);
      var node := GetOrCreateNode(key, value, now, expiresAt);
      IndexesAt(nodeByKey, Members(Nodes) + {node}, node);
      LinkFromTail(node);
    }

    method Remove(key: K) returns (found: bool)
      requires Valid()
      modifies this, Nodes`prev, Nodes`next
      ensures Valid() && Contents() == Without(old(Contents()), key)
      ensures found <==> key in Keys(old(Contents()))
      ensures forall i :: 0 <= i < |Nodes| ==> Nodes[i] in old(Nodes)
    {
      hide Distinct, Chained, Sorted, UniqueKeys, ItemsOf, Members, Indexes;
      KeysAreIndexed();
      if key !in nodeByKey {
        WithoutAbsent(Contents(), key);
        return false;
      }
      ghost var i := IndexOf(nodeByKey, Nodes, key);
      RemoveNode(nodeByKey[key], i);
      return true;
    }

    method Clear()
      requires Valid()
      modifies this
      ensures Valid() && Contents() == [] && Nodes == []
    {
      nodeByKey := map[];
      head, tail := null, null;
      Nodes := [];
    }

    // ----- queries

    lemma FindNode(key: K, now: int)
      requires Valid()
      ensures Lookup(Contents(), key, now) ==
        if key in nodeByKey && nodeByKey[key].expiresAt > now then Some(nodeByKey[key].value) else None
      ensures key in nodeByKey ==> nodeByKey[key] in Nodes && nodeByKey[key].key == key
    {
      hide Distinct, Chained, ItemsOf, Lookup;
      KeysAreIndexed();
      if key in nodeByKey {
        var i := IndexOf(nodeByKey, Nodes, key);
        ItemAt(Nodes, i);
        assert Contents()[i] in Contents();
        LookupFinds(Contents(), Contents()[i], now);
      } else {
        LookupMisses(Contents(), key, now);
      }
    }

    method Get(key: K, now: int) returns (value: Option<V>)
      requires Valid()
      ensures value == Lookup(Contents(), key, now)
    {
      FindNode(key, now);
      if key !in nodeByKey || nodeByKey[key].expiresAt <= now {
        return None;
      }
      return Some(nodeByKey[key].value);
    }

    /** The pointer the source returns is to the entry inside the node; here it is the node. */
    method GetEntry(key: K, now: int) returns (entry: Node?<K, V>)
      requires Valid()
      ensures entry == null <==> Lookup(Contents(), key, now) == None
      ensures entry != null ==> entry in Nodes && entry.key == key && Lookup(Contents(), key, now) == Some(entry.value)
    {
      FindNode(key, now);
      if key !in nodeByKey || nodeByKey[key].expiresAt <= now {
        return null;
      }
      return nodeByKey[key];
    }

    method Contains(key: K) returns (ok: bool)
      requires Valid()
      ensures ok <==> key in Keys(Contents())
    {
      KeysAreIndexed();
      ok := key in nodeByKey;
    }

    method Len() returns (length: nat)
      requires Valid()
      ensures length == |Contents()| <= capacity
    {
      KeysAreIndexed();
      length := |nodeByKey|;
    }

    /** The consumer is a function of what it has been given so far; it may stop the walk. */
    method All(more: seq<(K, V)> -> bool) returns (visited: seq<(K, V)>)
      requires Valid()
      ensures IsVisit(visited, Pairs(Contents()), more)
    {
      hide Distinct, Sorted, UniqueKeys, ItemsOf, Members, Indexes;
      ghost var all := Pairs(Contents());
      var node := head;
      ghost var i := 0;
      visited := [];
      while node != null
        invariant i <= |Nodes| && node == if i < |Nodes| then Nodes[i] else null
        invariant visited == all[..i]
        invariant forall k :: 0 < k <= i ==> more(all[..k])
        decreases |Nodes| - i
      {
        ItemAt(Nodes, i);
        visited := visited + [(node.key, node.value)];
        i := i + 1;
        assert visited == all[..i];
        if !more(visited) {
          break;
        }
        node := node.next;
      }
      VisitStops(all, i, more);
    }

    method Backward(more: seq<(K, V)> -> bool) returns (visited: seq<(K, V)>)
      requires Valid()
      ensures IsVisit(visited, Reverse(Pairs(Contents())), more)
    {
      hide Distinct, Sorted, UniqueKeys, ItemsOf, Members, Indexes;
      ghost var all := Reverse(Pairs(Contents()));
      var node := tail;
      ghost var i := 0;
      visited := [];
      while node != null
        invariant i <= |Nodes| && node == if i < |Nodes| then Nodes[|Nodes| - 1 - i] else null
        invariant visited == all[..i]
        invariant forall k :: 0 < k <= i ==> more(all[..k])
        decreases |Nodes| - i
      {
        ItemAt(Nodes, |Nodes| - 1 - i);
        visited := visited + [(node.key, node.value)];
        i := i + 1;
        assert visited == all[..i];
        if !more(visited) {
          break;
        }
        node := node.prev;
      }
      VisitStops(all, i, more);
    }
  }
}
