/** What the filter of the message parser amounts to: on arbitrary messages, and on interface dumps. */
module RouteFilter {
  import opened SockAddrs
  import opened RouteMessages
  import opened RouteMessageRuns

  /** A message that the parser can log when no filter drops it. */
  ghost predicate Loggable(p: Platform, m: seq<bv8>, kind: MsgKind)
    requires Supported(p) && kind != OtherMsg
  {
    && WellFramed(p, m) && m[2] == p.rtmVersion && Kind(p, m) == kind
    && |m| >= LayoutOf(p, kind).size && AddrsBuf(p, m, LayoutOf(p, kind).size).Some?
  }

  /** A loggable message that is not dropped adds exactly its own record, which the filter may restrict. */
  ghost function RecordOf(p: Platform, m: seq<bv8>, kind: MsgKind): (r: Record)
    requires Supported(p) && kind != OtherMsg && Loggable(p, m, kind)
    ensures r.Logged? && r.kind == kind
  {
    var buf := AddrsBuf(p, m, LayoutOf(p, kind).size).value;
    Logged(kind, m, buf, Offsets(buf, AddrMask(p, m), p.alignTo, 0, p.rtaxMax, 0), false)
  }

  lemma HandleLoggable(p: Platform, m: seq<bv8>, kind: MsgKind, ifindex: nat, filter: bool)
    requires Supported(p) && kind != OtherMsg && Loggable(p, m, kind)
    ensures Handle(p, m, ifindex, filter) ==
      if filter && Dropped(p, m, ifindex) then Handled([], ifindex, false)
      else
        var r := RecordOf(p, m, kind);
        Handled([if filter && kind == RouteMsg then r.(defaultRouteOnly := true) else r],
          if kind == IfaceMsg then Index(p, m) else ifindex, false)
  {
    hide Index, AddrsBuf, Offsets, Uint16At, Uint32At, Dropped;
  }

  /** A message the parser passes over with a note, whatever the filter. */
  ghost predicate Foreign(p: Platform, m: seq<bv8>)
    requires |m| >= 4
  {
    m[2] != p.rtmVersion || Kind(p, m) == OtherMsg
  }

  /** Whole messages, each foreign or well formed for its kind: routes, interfaces and addresses in any order. */
  ghost predicate AreParsable(p: Platform, ms: seq<seq<bv8>>)
    requires Supported(p)
  {
    && AllWellFramed(p, ms)
    && forall i :: 0 <= i < |ms| && !Foreign(p, ms[i]) ==> Loggable(p, ms[i], Kind(p, ms[i]))
  }

  ghost predicate ShowsIface(p: Platform, m: seq<bv8>)
    requires Supported(p) && |m| >= 4 && (Foreign(p, m) || Loggable(p, m, Kind(p, m)))
  {
    !Foreign(p, m) && Kind(p, m) == IfaceMsg && Flags(p, m) & 0x59 == 0x41
  }

  /** The index of the interface shown last among the first `n` messages, or 0 if there is none. */
  ghost function LastShown(p: Platform, ms: seq<seq<bv8>>, n: nat): nat
    requires Supported(p) && AreParsable(p, ms) && n <= |ms|
  {
    if n == 0 then 0
    else if ShowsIface(p, ms[n - 1]) then Index(p, ms[n - 1])
    else LastShown(p, ms, n - 1)
  }

  lemma {:induction false} LastShownIsLatest(p: Platform, ms: seq<seq<bv8>>, n: nat, j: nat)
    requires Supported(p) && AreParsable(p, ms) && j < n <= |ms|
    requires ShowsIface(p, ms[j]) && forall k :: j < k < n ==> !ShowsIface(p, ms[k])
    ensures LastShown(p, ms, n) == Index(p, ms[j])
  {
    hide Supported, IfaceShown, Index, Loggable, Foreign, WellFramed;
    if n == j + 1 {
    } else {
      LastShownIsLatest(p, ms, n - 1, j);
    }
  }

  lemma {:induction false} NothingShownYet(p: Platform, ms: seq<seq<bv8>>, n: nat)
    requires Supported(p) && AreParsable(p, ms) && n <= |ms|
    requires forall k :: 0 <= k < n ==> !ShowsIface(p, ms[k])
    ensures LastShown(p, ms, n) == 0
  {
    hide Supported, IfaceShown, Index, Loggable, Foreign, WellFramed;
    if n == 0 {
    } else {
      NothingShownYet(p, ms, n - 1);
    }
  }

  /**
   Whether the filter lets message `i` through: a route that is up (0x1) through a gateway (0x2) and to no host (0x4),
   an interface that is up (0x1) and running (0x40), no loopback (0x8) and not point to point (0x10), and any address
   of the interface shown last.
   */
  ghost predicate Kept(p: Platform, ms: seq<seq<bv8>>, i: nat)
    requires Supported(p) && AreParsable(p, ms) && i < |ms|
  {
    Foreign(p, ms[i]) ||
    match Kind(p, ms[i])
    case RouteMsg => Flags(p, ms[i]) & 0x7 == 0x3
    case IfaceMsg => Flags(p, ms[i]) & 0x59 == 0x41
    case AddrMsg => Index(p, ms[i]) == LastShown(p, ms, i)
  }

  ghost function KeptMessages(p: Platform, ms: seq<seq<bv8>>, n: nat): (r: seq<seq<bv8>>)
    requires Supported(p) && AreParsable(p, ms) && n <= |ms|
    ensures AllWellFramed(p, r)
  {
    if n == 0 then []
    else KeptMessages(p, ms, n - 1) + if Kept(p, ms, n - 1) then [ms[n - 1]] else []
  }

  /** How the filter renders a log: routes show their destination and netmask only for the default route. */
  ghost function RestrictedLog(log: seq<Record>): (r: seq<Record>)
    ensures |r| == |log|
    ensures forall i :: 0 <= i < |log| ==>
      r[i] == if log[i].Logged? && log[i].kind == RouteMsg then log[i].(defaultRouteOnly := true) else log[i]
  {
    seq(|log|, i requires 0 <= i < |log| =>
      if log[i].Logged? && log[i].kind == RouteMsg then log[i].(defaultRouteOnly := true) else log[i])
  }

  lemma RestrictedConcat(log: seq<Record>, log': seq<Record>)
    ensures RestrictedLog([]) == []
    ensures RestrictedLog(log + log') == RestrictedLog(log) + RestrictedLog(log')
  {
  }

  lemma WalkOne(p: Platform, m: seq<bv8>, ifindex: nat, filter: bool)
    requires Supported(p) && WellFramed(p, m)
    ensures Walk(p, [m], ifindex, filter) == Handle(p, m, ifindex, filter)
  {
    hide Handle, Supported, Uint16At;
    var first := Handle(p, m, ifindex, filter);
    assert first.log + [] == first.log;
  }

  lemma LastShownStep(p: Platform, ms: seq<seq<bv8>>, i: nat)
    requires Supported(p) && AreParsable(p, ms) && i < |ms|
    ensures LastShown(p, ms, i + 1) == if ShowsIface(p, ms[i]) then Index(p, ms[i]) else LastShown(p, ms, i)
  {
  }

  /** One message under the filter: if it is kept, it adds the restricted record, and nothing otherwise. */
  lemma HandleKept(p: Platform, ms: seq<seq<bv8>>, i: nat, ifindex: nat)
    requires Supported(p) && AreParsable(p, ms) && i < |ms|
    ensures var filtered := Handle(p, ms[i], LastShown(p, ms, i), true);
      && !filtered.halted && filtered.ifindex == LastShown(p, ms, i + 1)
      && !Handle(p, ms[i], ifindex, false).halted
      && filtered.log == if Kept(p, ms, i) then RestrictedLog(Handle(p, ms[i], ifindex, false).log) else []
  {
    hide Supported, Uint16At, Uint32At, RouteShown, IfaceShown, AddrsBuf, Offsets, LastShown;
    LastShownStep(p, ms, i);
    if Foreign(p, ms[i]) {
    } else {
      RouteShownBits(Flags(p, ms[i]));
      IfaceShownBits(Flags(p, ms[i]));
      HandleLoggable(p, ms[i], Kind(p, ms[i]), LastShown(p, ms, i), true);
      HandleLoggable(p, ms[i], Kind(p, ms[i]), ifindex, false);
    }
  }

  lemma WalkNone(p: Platform, ifindex: nat, filter: bool)
    requires Supported(p)
    ensures Walk(p, [], ifindex, filter) == Handled([], ifindex, false)
  {
  }

  lemma {:induction false} WalkKept(p: Platform, ms: seq<seq<bv8>>, n: nat, ifindex: nat)
    requires Supported(p) && AreParsable(p, ms) && n <= |ms|
    ensures AllWellFramed(p, ms[..n])
    ensures var filtered := Walk(p, ms[..n], 0, true);
      var unfiltered := Walk(p, KeptMessages(p, ms, n), ifindex, false);
      && !filtered.halted && filtered.ifindex == LastShown(p, ms, n)
      && !unfiltered.halted && filtered.log == RestrictedLog(unfiltered.log)
  {
    hide Supported, Handle, Walk, Kept, WellFramed, Loggable, Foreign;
    if n == 0 {
      WalkNone(p, 0, true);
      WalkNone(p, ifindex, false);
      assert ms[..0] == [];
    } else {
      WalkKept(p, ms, n - 1, ifindex);
      var m, kept := ms[n - 1], KeptMessages(p, ms, n - 1);
      var unfiltered := Walk(p, kept, ifindex, false);
      HandleKept(p, ms, n - 1, unfiltered.ifindex);
      assert ms[..n] == ms[..n - 1] + [m];
      assert AllWellFramed(p, [m]) && AllWellFramed(p, ms[..n - 1]);
      WalkConcat(p, ms[..n - 1], [m], 0, true);
      WalkOne(p, m, LastShown(p, ms, n - 1), true);
      if Kept(p, ms, n - 1) {
        WalkConcat(p, kept, [m], ifindex, false);
        WalkOne(p, m, unfiltered.ifindex, false);
        RestrictedConcat(unfiltered.log, Walk(p, [m], unfiltered.ifindex, false).log);
      } else {
        assert KeptMessages(p, ms, n) == kept;
      }
    }
  }

  /** For any parsable messages, the filtered log is that of the kept messages alone, with its routes restricted. */
  lemma {:induction false} FilteredIsKept(p: Platform, ms: seq<seq<bv8>>)
    requires Supported(p) && AreParsable(p, ms)
    ensures var filtered := Parse(p, Concat(ms), 0, true);
      var unfiltered := Parse(p, Concat(KeptMessages(p, ms, |ms|)), 0, false);
      !filtered.halted && !unfiltered.halted && filtered.log == RestrictedLog(unfiltered.log)
  {
    hide Supported, Handle, Walk, Kept, WellFramed, Loggable, Foreign, Parse, Concat, KeptMessages, LastShown;
    WalkKept(p, ms, |ms|, 0);
    assert ms[..|ms|] == ms;
    ParseOfConcat(p, ms, 0, true);
    ParseOfConcat(p, KeptMessages(p, ms, |ms|), 0, false);
  }

  // ----- interface dumps

  /** An interface message followed by the address messages that carry its index. */
  datatype Group = Group(header: seq<bv8>, addrs: seq<seq<bv8>>)

  ghost predicate IsGroup(p: Platform, g: Group)
    requires Supported(p)
  {
    && Loggable(p, g.header, IfaceMsg)
    && forall i :: 0 <= i < |g.addrs| ==> Loggable(p, g.addrs[i], AddrMsg) && Index(p, g.addrs[i]) == Index(p, g.header)
  }

  ghost predicate IsDump(p: Platform, gs: seq<Group>)
    requires Supported(p)
  {
    forall i :: 0 <= i < |gs| ==> IsGroup(p, gs[i])
  }

  ghost function GroupIndex(p: Platform, g: Group): nat
    requires Supported(p) && IsGroup(p, g)
  {
    Index(p, g.header)
  }

  ghost predicate Passes(p: Platform, g: Group)
    requires Supported(p) && IsGroup(p, g)
  {
    Flags(p, g.header) & 0x59 == 0x41
  }

  ghost function Messages(gs: seq<Group>): seq<seq<bv8>> {
    if gs == [] then [] else [gs[0].header] + gs[0].addrs + Messages(gs[1..])
  }

  lemma NoMessages()
    ensures Messages([]) == []
  {
  }

  /** The groups of the interfaces that pass the filter's test. */
  ghost function Restrict(p: Platform, gs: seq<Group>): (r: seq<Group>)
    requires Supported(p) && IsDump(p, gs)
    ensures IsDump(p, r)
  {
    if gs == [] then [] else (if Passes(p, gs[0]) then [gs[0]] else []) + Restrict(p, gs[1..])
  }

  /** No failing interface with addresses has the index of the last passing one before it, or 0 if there is none. */
  ghost predicate NoStrays(p: Platform, gs: seq<Group>, ifindex: nat)
    requires Supported(p) && IsDump(p, gs)
  {
    gs != [] ==>
      if Passes(p, gs[0]) then NoStrays(p, gs[1..], GroupIndex(p, gs[0]))
      else (gs[0].addrs == [] || GroupIndex(p, gs[0]) != ifindex) && NoStrays(p, gs[1..], ifindex)
  }

  lemma {:induction false} MessagesFramed(p: Platform, gs: seq<Group>)
    requires Supported(p) && IsDump(p, gs)
    ensures AllWellFramed(p, Messages(gs))
  {
    hide WellFramed, Supported, Index, Kind, LayoutOf, AddrsBuf;
    if gs == [] {
    } else {
      assert IsGroup(p, gs[0]);
      MessagesFramed(p, gs[1..]);
    }
  }

  ghost function RecordsOf(p: Platform, ms: seq<seq<bv8>>): (r: seq<Record>)
    requires Supported(p) && forall i :: 0 <= i < |ms| ==> Loggable(p, ms[i], AddrMsg)
    ensures |r| == |ms|
  {
    if ms == [] then [] else [RecordOf(p, ms[0], AddrMsg)] + RecordsOf(p, ms[1..])
  }

  /** A run of address messages of one index is logged as a whole or, filtered under another index, not at all. */
  lemma {:induction false} WalkAddrs(p: Platform, ms: seq<seq<bv8>>, index: nat, ifindex: nat, filter: bool)
    requires Supported(p) && AllWellFramed(p, ms)
    requires forall i :: 0 <= i < |ms| ==> Loggable(p, ms[i], AddrMsg) && Index(p, ms[i]) == index
    ensures Walk(p, ms, ifindex, filter) ==
      Handled(if filter && index != ifindex then [] else RecordsOf(p, ms), ifindex, false)
    decreases |ms|
  {
    hide Handle, Supported, Uint16At, RecordOf, AddrsBuf, Index, WellFramed, LayoutOf;
    if ms == [] {
    } else {
      HandleLoggable(p, ms[0], AddrMsg, ifindex, filter);
      WalkAddrs(p, ms[1..], index, ifindex, filter);
    }
  }

  lemma WalkGroup(p: Platform, g: Group, ifindex: nat, filter: bool)
    requires Supported(p) && IsGroup(p, g)
    ensures AllWellFramed(p, [g.header] + g.addrs)
    ensures var shown := [RecordOf(p, g.header, IfaceMsg)] + RecordsOf(p, g.addrs);
      Walk(p, [g.header] + g.addrs, ifindex, filter) ==
        if !filter || Passes(p, g) then Handled(shown, GroupIndex(p, g), false)
        else Handled(if GroupIndex(p, g) != ifindex then [] else RecordsOf(p, g.addrs), ifindex, false)
  {
    hide Handle, Supported, Uint16At, RecordOf, AddrsBuf, Index, RecordsOf, LayoutOf;
    IfaceShownBits(Flags(p, g.header));
    HandleLoggable(p, g.header, IfaceMsg, ifindex, filter);
    assert ([g.header] + g.addrs)[1..] == g.addrs;
    WalkAddrs(p, g.addrs, GroupIndex(p, g), if !filter || Passes(p, g) then GroupIndex(p, g) else ifindex, filter);
  }

  lemma WalkGroupThen(p: Platform, g: Group, gs: seq<Group>, ifindex: nat, filter: bool)
    requires Supported(p) && IsGroup(p, g) && IsDump(p, gs)
    ensures AllWellFramed(p, Messages([g] + gs)) && AllWellFramed(p, Messages(gs))
    ensures AllWellFramed(p, [g.header] + g.addrs)
    ensures var first := Walk(p, [g.header] + g.addrs, ifindex, filter);
      Walk(p, Messages([g] + gs), ifindex, filter) == Then(first, Walk(p, Messages(gs), first.ifindex, filter))
  {
    hide Walk, Supported, IsGroup, WellFramed;
    WalkGroup(p, g, ifindex, filter);
    MessagesFramed(p, gs);
    MessagesFramed(p, [g] + gs);
    assert ([g] + gs)[1..] == gs;
    WalkConcat(p, [g.header] + g.addrs, Messages(gs), ifindex, filter);
  }

  /** Filtering logs what the restricted dump logs, and more exactly when there are strays. */
  lemma {:induction false} FilteredWalk(p: Platform, gs: seq<Group>, ifindex: nat, ifindex': nat)
    requires Supported(p) && IsDump(p, gs)
    ensures AllWellFramed(p, Messages(gs)) && AllWellFramed(p, Messages(Restrict(p, gs)))
    ensures var filtered := Walk(p, Messages(gs), ifindex, true);
      var restricted := Walk(p, Messages(Restrict(p, gs)), ifindex', false);
      && !filtered.halted && !restricted.halted
      && if NoStrays(p, gs, ifindex) then filtered.log == restricted.log else |filtered.log| > |restricted.log|
  {
    hide Walk, Supported, IsGroup, WellFramed, Messages, GroupIndex, Passes, RecordsOf, RecordOf;
    MessagesFramed(p, gs);
    MessagesFramed(p, Restrict(p, gs));
    if gs == [] {
      NoMessages();
      WalkNone(p, ifindex, true);
      WalkNone(p, ifindex', false);
    } else {
      var g := gs[0];
      assert gs == [g] + gs[1..];
      WalkGroup(p, g, ifindex, true);
      WalkGroupThen(p, g, gs[1..], ifindex, true);
      if Passes(p, g) {
        WalkGroup(p, g, ifindex', false);
        WalkGroupThen(p, g, Restrict(p, gs[1..]), ifindex', false);
        FilteredWalk(p, gs[1..], GroupIndex(p, g), GroupIndex(p, g));
      } else {
        assert Restrict(p, gs) == Restrict(p, gs[1..]);
        FilteredWalk(p, gs[1..], ifindex, ifindex');
      }
    }
  }

  /** The filtered dump reads as the unfiltered dump of the passing interfaces alone exactly when no address strays. */
  lemma {:induction false} FilteredDumpIsRestrictedDump(p: Platform, gs: seq<Group>)
    requires Supported(p) && IsDump(p, gs)
    ensures Parse(p, Concat(Messages(gs)), 0, true).log == Parse(p, Concat(Messages(Restrict(p, gs))), 0, false).log
      <==> NoStrays(p, gs, 0)
  {
    hide Walk, Supported, IsGroup, WellFramed, Messages, Restrict, NoStrays, Parse, Concat;
    FilteredWalk(p, gs, 0, 0);
    ParseOfConcat(p, Messages(gs), 0, true);
    ParseOfConcat(p, Messages(Restrict(p, gs)), 0, false);
  }

  /** Interfaces that appear once, with nonzero indices, leave no strays. */
  lemma {:induction false} DistinctIndicesNoStrays(p: Platform, gs: seq<Group>, ifindex: nat)
    requires Supported(p) && IsDump(p, gs)
    requires forall i :: 0 <= i < |gs| ==> GroupIndex(p, gs[i]) != ifindex
    requires forall i, j :: 0 <= i < j < |gs| ==> GroupIndex(p, gs[i]) != GroupIndex(p, gs[j])
    ensures NoStrays(p, gs, ifindex)
  {
    hide Supported, GroupIndex, IsGroup, Passes;
    if gs == [] {
    } else {
      DistinctIndicesNoStrays(p, gs[1..], if Passes(p, gs[0]) then GroupIndex(p, gs[0]) else ifindex);
    }
  }

  // ----- a dump that strays

  /** Darwin: no header length field, sockaddrs aligned to 4, and the headers of its `net/route.h` and `net/if.h`. */
  ghost function Darwin(): Platform {
    var rt := HeaderLayout(92, 8, 4, 12);
    var ifm := HeaderLayout(112, 8, 12, 4);
    var ifam := HeaderLayout(20, 8, 12, 4);
    Platform(false, 4, 8, 5, 1, 2, 3, 4, 14, 12, 13, rt, ifm, ifam)
  }

  /** A message of version 5 with the given length and type, and zeros elsewhere. */
  ghost function ZeroMessage(size: bv8, msgType: bv8): (m: seq<bv8>)
    requires size >= 20
    ensures |m| == size as int
  {
    [size, 0, 5, msgType] + seq(size as int - 4, _ => 0)
  }

  lemma ZeroMessageFields(size: bv8, msgType: bv8)
    requires size >= 20
    ensures var m := ZeroMessage(size, msgType);
      && m[2] == 5 && m[3] == msgType && Uint16At(m, 0) == |m|
      && Uint32At(m, 4) == Uint32At(m, 8) == 0 && Uint16At(m, 12) == 0
  {
  }

  /** An interface with index 0 that is not up, and an address of it: the filter shows only the address. */
  lemma StrayAddressIsShown()
    ensures var p := Darwin();
      var gs := [Group(ZeroMessage(112, p.rtmIfinfo), [ZeroMessage(20, p.rtmNewaddr)])];
      && Supported(p) && IsDump(p, gs) && Restrict(p, gs) == [] && !NoStrays(p, gs, 0)
      && Parse(p, Concat(Messages(gs)), 0, true).log != Parse(p, Concat(Messages(Restrict(p, gs))), 0, false).log
  {
    hide Uint16At, Uint32At, Parse, Concat, ZeroMessage;
    var p := Darwin();
    var g := Group(ZeroMessage(112, p.rtmIfinfo), [ZeroMessage(20, p.rtmNewaddr)]);
    ZeroMessageFields(112, p.rtmIfinfo);
    ZeroMessageFields(20, p.rtmNewaddr);
    assert IsGroup(p, g) && !Passes(p, g);
    FilteredDumpIsRestrictedDump(p, [g]);
  }
}
