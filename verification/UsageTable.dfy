/** The usage fold: a one-pass join of events with the addresses of their sessions. */
module UsageTable {
  import opened Wrappers

  const UINT64_MOD := 0x1_0000_0000_0000_0000

  /** Unsigned 64-bit wrap-around. */
  function Wrap(x: nat): nat {
    x % UINT64_MOD
  }

  lemma WrapSplit(x: nat)
    ensures x == Wrap(x) + x / UINT64_MOD * UINT64_MOD
  {
  }

  lemma WrapShift(x: nat, q: nat)
    ensures Wrap(x + q * UINT64_MOD) == Wrap(x)
  {
  }

  lemma WrapAdd(x: nat, y: nat)
    ensures Wrap(Wrap(x) + y) == Wrap(x + y)
    ensures Wrap(x + Wrap(y)) == Wrap(x + y)
  {
    hide Wrap;
    WrapSplit(x);
    WrapSplit(y);
    WrapShift(Wrap(x) + y, x / UINT64_MOD);
    WrapShift(x + Wrap(y), y / UINT64_MOD);
  }

  /** Replacing the summand `v` of `total` by its wrapped sum with `b` adds `b` to the total. */
  lemma WrapReplace(total: nat, v: nat, b: nat, other: nat)
    requires v <= total && Wrap(total) == Wrap(other)
    ensures Wrap(total + Wrap(v + Wrap(b)) - v) == Wrap(other + b)
  {
    hide Wrap;
    WrapAdd(v, b);
    WrapAdd(total - v, v + b);
    WrapAdd(total, b);
    WrapAdd(other, b);
  }

  /** `addr` is None when the client address is not valid; the counters are 64-bit words. */
  datatype Event<A> = Event(addr: Option<A>, csid: nat, nl2r: nat, nr2l: nat, payloadBytesSent: nat)

  ghost function Bytes<A>(e: Event<A>): nat {
    e.nl2r + e.nr2l + e.payloadBytesSent
  }

  /** The address of the latest event before `n` in session `csid` that has one. */
  ghost function SessionAddr<A>(events: seq<Event<A>>, n: nat, csid: nat): Option<A>
    requires n <= |events|
  {
    if n == 0 then None
    else if events[n - 1].csid == csid && events[n - 1].addr.Some? then events[n - 1].addr
    else SessionAddr(events, n - 1, csid)
  }

  lemma {:induction false} SessionAddrIsLatest<A(!new)>(events: seq<Event<A>>, n: nat, csid: nat, a: A)
    requires n <= |events|
    ensures SessionAddr(events, n, csid) == Some(a) <==>
      exists j :: 0 <= j < n && events[j].csid == csid && events[j].addr == Some(a)
        && forall k :: j < k < n && events[k].csid == csid ==> events[k].addr == None
  {
    if n == 0 {
    } else {
      SessionAddrIsLatest(events, n - 1, csid, a);
    }
  }

  /** Whom event `i` is charged to: its own address, else the latest earlier one of its nonzero session. */
  ghost function Owner<A>(events: seq<Event<A>>, i: nat): Option<A>
    requires i < |events|
  {
    if events[i].addr.Some? then events[i].addr
    else if events[i].csid != 0 then SessionAddr(events, i, events[i].csid)
    else None
  }

  /** Told from the events alone: `a` is the event's own address, or that of the session's latest one before it. */
  lemma OwnerMeaning<A(!new)>(events: seq<Event<A>>, i: nat, a: A)
    requires i < |events|
    ensures Owner(events, i) == Some(a) <==>
      || events[i].addr == Some(a)
      || (&& events[i].addr == None && events[i].csid != 0
          && exists j ::
               && 0 <= j < i && events[j].csid == events[i].csid && events[j].addr == Some(a)
               && forall k :: j < k < i && events[k].csid == events[i].csid ==> events[k].addr == None)
  {
    hide SessionAddr;
    SessionAddrIsLatest(events, i, events[i].csid, a);
  }

  /** The bytes of the first `n` events that are charged to `a`. */
  ghost function Charged<A>(events: seq<Event<A>>, n: nat, a: A): nat
    requires n <= |events|
  {
    if n == 0 then 0
    else Charged(events, n - 1, a) + if Owner(events, n - 1) == Some(a) then Bytes(events[n - 1]) else 0
  }

  ghost function ChargedToAnyone<A>(events: seq<Event<A>>, n: nat): nat
    requires n <= |events|
  {
    if n == 0 then 0
    else ChargedToAnyone(events, n - 1) + if Owner(events, n - 1).Some? then Bytes(events[n - 1]) else 0
  }

  ghost function TableTotal<A(!new)>(table: map<A, nat>): nat
    decreases |table|
  {
    if table == map[] then 0
    else
      var a :| a in table;
      table[a] + TableTotal(table - {a})
  }

  lemma {:induction false} TableTotalSplits<A(!new)>(table: map<A, nat>, a: A)
    requires a in table
    ensures TableTotal(table) == table[a] + TableTotal(table - {a})
    decreases |table|
  {
    var b :| b in table && TableTotal(table) == table[b] + TableTotal(table - {b});
    if a != b {
      TableTotalSplits(table - {b}, a);
      TableTotalSplits(table - {a}, b);
      assert table - {b} - {a} == table - {a} - {b};
    }
  }

  lemma TableTotalAfter<A(!new)>(table: map<A, nat>, a: A, v: nat)
    ensures a in table ==> table[a] <= TableTotal(table)
    ensures TableTotal(table[a := v]) == TableTotal(table) + v - if a in table then table[a] else 0
  {
    TableTotalSplits(table[a := v], a);
    if a in table {
      TableTotalSplits(table, a);
      assert table[a := v] - {a} == table - {a};
    } else {
      assert table[a := v] - {a} == table;
    }
  }

  // ----- the two tables of the loop, after `n` events

  /** The sessions' latest addresses. */
  ghost predicate KnowsSessions<A>(events: seq<Event<A>>, n: nat, addrByCSID: map<nat, A>)
    requires n <= |events|
  {
    forall s :: s != 0 ==> SessionAddr(events, n, s) == if s in addrByCSID then Some(addrByCSID[s]) else None
  }

  ghost predicate HasOwners<A(!new)>(events: seq<Event<A>>, n: nat, table: map<A, nat>)
    requires n <= |events|
  {
    forall a :: a in table <==> exists i :: 0 <= i < n && Owner(events, i) == Some(a)
  }

  ghost predicate HasSums<A(!new)>(events: seq<Event<A>>, n: nat, table: map<A, nat>)
    requires n <= |events|
  {
    forall a :: Wrap(Charged(events, n, a)) == if a in table then table[a] else 0
  }

  ghost predicate HasTotal<A(!new)>(events: seq<Event<A>>, n: nat, table: map<A, nat>)
    requires n <= |events|
  {
    Wrap(TableTotal(table)) == Wrap(ChargedToAnyone(events, n))
  }

  /** The table after `bytes` more are charged to `a`. */
  ghost function Charge<A>(table: map<A, nat>, a: A, bytes: nat): map<A, nat> {
    table[a := Wrap((if a in table then table[a] else 0) + Wrap(bytes))]
  }

  lemma ChargeKeepsOwners<A(!new)>(events: seq<Event<A>>, n: nat, table: map<A, nat>, a: A)
    requires n < |events| && Owner(events, n) == Some(a) && HasOwners(events, n, table)
    ensures HasOwners(events, n + 1, Charge(table, a, Bytes(events[n])))
  {
    hide Owner, Wrap;
  }

  lemma ChargeKeepsSums<A(!new)>(events: seq<Event<A>>, n: nat, table: map<A, nat>, a: A)
    requires n < |events| && Owner(events, n) == Some(a) && HasSums(events, n, table)
    ensures HasSums(events, n + 1, Charge(table, a, Bytes(events[n])))
  {
    hide Owner, Wrap, Bytes;
    WrapAdd(Charged(events, n, a), Bytes(events[n]));
    WrapAdd(if a in table then table[a] else 0, Bytes(events[n]));
  }

  lemma ChargeKeepsTotal<A(!new)>(events: seq<Event<A>>, n: nat, table: map<A, nat>, a: A)
    requires n < |events| && Owner(events, n) == Some(a) && HasTotal(events, n, table)
    ensures HasTotal(events, n + 1, Charge(table, a, Bytes(events[n])))
  {
    hide Owner, Wrap, Bytes, TableTotal;
    var before := if a in table then table[a] else 0;
    TableTotalAfter(table, a, Wrap(before + Wrap(Bytes(events[n]))));
    WrapReplace(TableTotal(table), before, Bytes(events[n]), ChargedToAnyone(events, n));
  }

  /** An event without an owner changes nothing. */
  lemma SkipKeepsTable<A(!new)>(events: seq<Event<A>>, n: nat, table: map<A, nat>)
    requires n < |events| && Owner(events, n) == None
    requires HasOwners(events, n, table) && HasSums(events, n, table) && HasTotal(events, n, table)
    ensures HasOwners(events, n + 1, table) && HasSums(events, n + 1, table) && HasTotal(events, n + 1, table)
  {
    hide Owner, Wrap, Bytes, TableTotal;
  }

  lemma SessionKnown<A(!new)>(events: seq<Event<A>>, n: nat, addrByCSID: map<nat, A>)
    requires n < |events| && KnowsSessions(events, n, addrByCSID)
    ensures var csid := events[n].csid;
      csid != 0 ==> SessionAddr(events, n, csid) == if csid in addrByCSID then Some(addrByCSID[csid]) else None
  {
  }

  /** An event with its own address becomes the latest of its session. */
  lemma RememberSession<A(!new)>(events: seq<Event<A>>, n: nat, addrByCSID: map<nat, A>)
    requires n < |events| && KnowsSessions(events, n, addrByCSID)
    ensures var event := events[n];
      KnowsSessions(events, n + 1,
        if event.csid != 0 && event.addr.Some? then addrByCSID[event.csid := event.addr.value] else addrByCSID)
  {
  }

  lemma TableMeaning<A(!new)>(events: seq<Event<A>>, table: map<A, nat>)
    requires HasOwners(events, |events|, table) && HasSums(events, |events|, table) && HasTotal(events, |events|, table)
    ensures forall a :: a in table <==> exists i :: 0 <= i < |events| && Owner(events, i) == Some(a)
    ensures forall a :: a in table ==> table[a] == Charged(events, |events|, a) % 0x1_0000_0000_0000_0000
    ensures TableTotal(table) % 0x1_0000_0000_0000_0000 == ChargedToAnyone(events, |events|) % 0x1_0000_0000_0000_0000
  {
    hide TableTotal, Charged, ChargedToAnyone, Owner;
  }

  /** The running sums of one address, from nothing, event by event. */
  lemma ChargedSteps<A(!new)>(events: seq<Event<A>>)
    ensures forall a :: Charged(events, 0, a) == 0
    ensures forall i, a :: 0 <= i < |events| ==>
      Charged(events, i + 1, a) == Charged(events, i, a)
        + if Owner(events, i) == Some(a) then events[i].nl2r + events[i].nr2l + events[i].payloadBytesSent else 0
  {
    hide Owner;
  }

  lemma ChargedToAnyoneSteps<A(!new)>(events: seq<Event<A>>)
    ensures ChargedToAnyone(events, 0) == 0
    ensures forall i :: 0 <= i < |events| ==>
      ChargedToAnyone(events, i + 1) == ChargedToAnyone(events, i)
        + if Owner(events, i).Some? then events[i].nl2r + events[i].nr2l + events[i].payloadBytesSent else 0
  {
    hide Owner;
  }

  lemma EmptyTables<A(!new)>(events: seq<Event<A>>)
    ensures KnowsSessions(events, 0, map[])
    ensures HasOwners(events, 0, map[]) && HasSums(events, 0, map[]) && HasTotal(events, 0, map[])
  {
  }

  /**
   Whom an event is charged to, and what the sums are that the table holds modulo 2^64, is told here
   from the events alone; the table's total is that of all events that are charged to someone.
   */
  method Aggregate<A(==, !new)>(events: seq<Event<A>>) returns (bytesByIP: map<A, nat>)
    ensures forall i, a :: 0 <= i < |events| ==>
      (Owner(events, i) == Some(a) <==>
       || events[i].addr == Some(a)
       || (&& events[i].addr == None && events[i].csid != 0
           && exists j ::
                && 0 <= j < i && events[j].csid == events[i].csid && events[j].addr == Some(a)
                && forall k :: j < k < i && events[k].csid == events[i].csid ==> events[k].addr == None))
    ensures forall a :: Charged(events, 0, a) == 0
    ensures forall i, a :: 0 <= i < |events| ==>
      Charged(events, i + 1, a) == Charged(events, i, a)
        + if Owner(events, i) == Some(a) then events[i].nl2r + events[i].nr2l + events[i].payloadBytesSent else 0
    ensures ChargedToAnyone(events, 0) == 0
    ensures forall i :: 0 <= i < |events| ==>
      ChargedToAnyone(events, i + 1) == ChargedToAnyone(events, i)
        + if Owner(events, i).Some? then events[i].nl2r + events[i].nr2l + events[i].payloadBytesSent else 0
    ensures forall a :: a in bytesByIP <==> exists i :: 0 <= i < |events| && Owner(events, i) == Some(a)
    ensures forall a :: a in bytesByIP ==>
      bytesByIP[a] == Charged(events, |events|, a) % 0x1_0000_0000_0000_0000
    ensures TableTotal(bytesByIP) % 0x1_0000_0000_0000_0000
      == ChargedToAnyone(events, |events|) % 0x1_0000_0000_0000_0000
  {
    hide Wrap, TableTotal, Charged, ChargedToAnyone, HasOwners, HasSums, HasTotal, KnowsSessions;
    var addrByCSID: map<nat, A> := map[];
    bytesByIP := map[];
    EmptyTables(events);
    for n := 0 to |events|
      invariant KnowsSessions(events, n, addrByCSID)
      invariant HasOwners(events, n, bytesByIP) && HasSums(events, n, bytesByIP) && HasTotal(events, n, bytesByIP)
    {
      var event := events[n];
      var addr := event.addr;
      SessionKnown(events, n, addrByCSID);
      RememberSession(events, n, addrByCSID);
      if event.csid != 0 {
        if addr.Some? {
          addrByCSID := addrByCSID[event.csid := addr.value];
        } else {
          addr := if event.csid in addrByCSID then Some(addrByCSID[event.csid]) else None;
        }
      }
      assert Owner(events, n) == addr;
      if addr.Some? {
        var a := addr.value;
        ChargeKeepsOwners(events, n, bytesByIP, a);
        ChargeKeepsSums(events, n, bytesByIP, a);
        ChargeKeepsTotal(events, n, bytesByIP, a);
        var before := if a in bytesByIP then bytesByIP[a] else 0;
        bytesByIP := bytesByIP[a := Wrap(before + Wrap(event.nl2r + event.nr2l + event.payloadBytesSent))];
      } else {
        SkipKeepsTable(events, n, bytesByIP);
      }
    }
    TableMeaning(events, bytesByIP);
    ChargedSteps(events);
    ChargedToAnyoneSteps(events);
    forall i, a | 0 <= i < |events| {
      OwnerMeaning(events, i, a);
    }
  }
}
