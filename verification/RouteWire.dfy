/** Routing messages told from their bytes: what the parser reads back from messages written by the system. */
module RouteWire {
  import opened Wrappers
  import opened RtaAlignment
  import opened SockAddrs
  import opened RouteMessages
  import opened RouteMessageRuns
  import RouteFilter

  // ----- little-endian fields

  ghost predicate Holds16(m: seq<bv8>, o: nat, n: nat) {
    o + 2 <= |m| && n == m[o] as int + 256 * (m[o + 1] as int)
  }

  ghost function Le32(x: bv32): (r: seq<bv8>)
    ensures |r| == 4
  {
    [(x & 0xFF) as bv8, ((x >> 8) & 0xFF) as bv8, ((x >> 16) & 0xFF) as bv8, (x >> 24) as bv8]
  }

  ghost predicate Holds32(m: seq<bv8>, o: nat, x: bv32) {
    o + 4 <= |m| && m[o..o + 4] == Le32(x)
  }

  lemma LittleEndian()
    ensures Uint16At([0x34, 0x12], 0) == 0x1234
    ensures Le32(0x1234_5678) == [0x78, 0x56, 0x34, 0x12] && Uint32At([0x78, 0x56, 0x34, 0x12], 0) == 0x1234_5678
  {
  }

  lemma Le32Read(x: bv32)
    ensures Uint32At(Le32(x), 0) == x
  {
  }

  lemma Uint32Slice(b: seq<bv8>, o: nat)
    requires o + 4 <= |b|
    ensures Uint32At(b, o) == Uint32At(b[o..o + 4], 0)
  {
  }

  lemma Held16(m: seq<bv8>, o: nat, n: nat)
    requires Holds16(m, o, n)
    ensures Uint16At(m, o) == n
  {
  }

  lemma Held32(m: seq<bv8>, o: nat, x: bv32)
    requires Holds32(m, o, x)
    ensures Uint32At(m, o) == x
  {
    hide Uint32At, Le32;
    Uint32Slice(m, o);
    Le32Read(x);
  }

  // ----- messages and their fields

  /** `hdrlen` is where the sockaddrs begin; `tail` is whatever follows them. */
  datatype Fields = Fields(
    kind: MsgKind, msgType: bv8, flags: bv32, index: nat, mask: bv32, hdrlen: nat, sas: seq<seq<bv8>>, tail: seq<bv8>)

  ghost predicate HasKind(p: Platform, f: Fields) {
    match f.kind
    case RouteMsg => f.msgType in {p.rtmAdd, p.rtmDelete, p.rtmChange, p.rtmGet}
    case IfaceMsg => f.msgType == p.rtmIfinfo
    case AddrMsg => f.msgType in {p.rtmNewaddr, p.rtmDeladdr}
    case OtherMsg => false
  }

  ghost function HeaderOf(p: Platform, f: Fields): HeaderLayout
    requires HasKind(p, f)
  {
    match f.kind
    case RouteMsg => p.rt
    case IfaceMsg => p.ifm
    case AddrMsg => p.ifam
  }

  /** One sockaddr for each bit of the mask; only some systems state the header length in the message. */
  ghost predicate Legal(p: Platform, f: Fields) {
    && Supported(p) && HasKind(p, f)
    && (p.hdrlenField || f.hdrlen == HeaderOf(p, f).size)
    && AreSockAddrs(f.sas, p.alignTo) && |f.sas| == BitCount(f.mask, 0, p.rtaxMax)
  }

  ghost predicate Carries(p: Platform, m: seq<bv8>, f: Fields)
    requires Legal(p, f)
  {
    var l := HeaderOf(p, f);
    && l.size <= |m| && f.hdrlen <= |m|
    && Holds16(m, 0, |m|) && m[2] == p.rtmVersion && m[3] == f.msgType
    && (p.hdrlenField ==> Holds16(m, 4, f.hdrlen))
    && Holds32(m, l.flagsAt, f.flags) && Holds16(m, l.indexAt, f.index) && Holds32(m, l.addrsAt, f.mask)
    && m[f.hdrlen..] == Layout(f.sas, p.alignTo) + f.tail
  }

  lemma CarriedKind(p: Platform, m: seq<bv8>, f: Fields)
    requires Supported(p) && HasKind(p, f) && |m| >= 4 && m[3] == f.msgType
    ensures Kind(p, m) == f.kind && LayoutOf(p, f.kind) == HeaderOf(p, f)
  {
  }

  lemma CarriedFields(p: Platform, m: seq<bv8>, f: Fields)
    requires Legal(p, f) && Carries(p, m, f)
    ensures WellFramed(p, m) && m[2] == p.rtmVersion && Kind(p, m) == f.kind
    ensures LayoutOf(p, f.kind) == HeaderOf(p, f) && HeaderOf(p, f).size <= |m|
    ensures Flags(p, m) == f.flags && Index(p, m) == f.index && AddrMask(p, m) == f.mask
    ensures AddrsBuf(p, m, HeaderOf(p, f).size) == Some(Layout(f.sas, p.alignTo) + f.tail)
  {
    hide Uint16At, Uint32At, HasKind, AreSockAddrs, BitCount, Layout, Holds16, Holds32, Kind, LayoutOf;
    var l := HeaderOf(p, f);
    CarriedKind(p, m, f);
    Held16(m, 0, |m|);
    Held32(m, l.flagsAt, f.flags);
    Held16(m, l.indexAt, f.index);
    Held32(m, l.addrsAt, f.mask);
    if p.hdrlenField {
      Held16(m, 4, f.hdrlen);
    }
  }

  /** The sockaddr of bit `j`, where the aligned lengths before it put it, if 16 of the `size` bytes remain there. */
  ghost function PointerTo(p: Platform, f: Fields, j: nat, size: nat): Option<nat>
    requires Legal(p, f) && j < p.rtaxMax
  {
    BitCountGrows(f.mask, 0, j, p.rtaxMax);
    var o := AlignedTotal(f.sas, p.alignTo, BitCount(f.mask, 0, j));
    if HasBit(f.mask, j) && size - o >= 16 then Some(o) else None
  }

  ghost function Pointers(p: Platform, f: Fields): (r: seq<Option<nat>>)
    requires Legal(p, f)
    ensures |r| == p.rtaxMax
  {
    var size := |Layout(f.sas, p.alignTo) + f.tail|;
    seq(p.rtaxMax, j requires 0 <= j < p.rtaxMax => PointerTo(p, f, j, size))
  }

  lemma PointerIsOffset(p: Platform, f: Fields, j: nat)
    requires Legal(p, f) && j < p.rtaxMax
    ensures var buf := Layout(f.sas, p.alignTo) + f.tail;
      Offsets(buf, f.mask, p.alignTo, 0, p.rtaxMax, 0)[j] == PointerTo(p, f, j, |buf|)
  {
    hide Offsets, Layout, AlignedTotal, BitCount, HasKind, HasBit, IsAlignment, IsSockAddr;
    assert [] + Layout(f.sas, p.alignTo) + f.tail == Layout(f.sas, p.alignTo) + f.tail;
    ParsesLayoutFrom([], f.sas, f.tail, f.mask, p.alignTo, 0, p.rtaxMax, j);
  }

  lemma PointersAreOffsets(p: Platform, f: Fields)
    requires Legal(p, f)
    ensures Offsets(Layout(f.sas, p.alignTo) + f.tail, f.mask, p.alignTo, 0, p.rtaxMax, 0) == Pointers(p, f)
  {
    hide Offsets, Layout, PointerTo, BitCount, HasKind, AreSockAddrs, IsAlignment;
    forall j | 0 <= j < p.rtaxMax
      ensures Offsets(Layout(f.sas, p.alignTo) + f.tail, f.mask, p.alignTo, 0, p.rtaxMax, 0)[j] == Pointers(p, f)[j]
    {
      PointerIsOffset(p, f, j);
    }
  }

  // ----- parsing them

  /** What the filter lets through, by the bits and by the interface reported last. */
  ghost predicate PassesFilter(f: Fields, ifindex: nat) {
    match f.kind
    case RouteMsg => f.flags & 0x7 == 0x3
    case IfaceMsg => f.flags & 0x59 == 0x41
    case AddrMsg => f.index == ifindex
    case OtherMsg => false
  }

  ghost function RecordFor(p: Platform, m: seq<bv8>, f: Fields, filter: bool): Record
    requires Legal(p, f)
  {
    Logged(f.kind, m, Layout(f.sas, p.alignTo) + f.tail, Pointers(p, f), filter && f.kind == RouteMsg)
  }

  /** A message is dropped by its bits or logged with its own kind, address buffer and pointers. */
  lemma HandleCarried(p: Platform, m: seq<bv8>, f: Fields, ifindex: nat, filter: bool)
    requires Legal(p, f) && Carries(p, m, f)
    ensures |m| >= SizeofMsghdr(p)
    ensures Handle(p, m, ifindex, filter) ==
      if filter && !PassesFilter(f, ifindex) then Handled([], ifindex, false)
      else Handled([RecordFor(p, m, f, filter)], if f.kind == IfaceMsg then f.index else ifindex, false)
  {
    hide Carries, RouteShown, IfaceShown, Flags, Index, AddrMask, AddrsBuf, Offsets, Pointers, Layout, Uint16At;
    hide AreSockAddrs, BitCount, Kind, LayoutOf;
    CarriedFields(p, m, f);
    PointersAreOffsets(p, f);
    RouteShownBits(f.flags);
    IfaceShownBits(f.flags);
  }

  ghost predicate AllCarry(p: Platform, ms: seq<seq<bv8>>, fs: seq<Fields>) {
    |ms| == |fs| && forall i :: 0 <= i < |ms| ==> Legal(p, fs[i]) && Carries(p, ms[i], fs[i])
  }

  /** The log, told from the fields of the messages. */
  ghost function LogOf(p: Platform, ms: seq<seq<bv8>>, fs: seq<Fields>, ifindex: nat, filter: bool): seq<Record>
    requires AllCarry(p, ms, fs)
  {
    if fs == [] then []
    else if filter && !PassesFilter(fs[0], ifindex) then LogOf(p, ms[1..], fs[1..], ifindex, filter)
    else
      [RecordFor(p, ms[0], fs[0], filter)]
      + LogOf(p, ms[1..], fs[1..], if fs[0].kind == IfaceMsg then fs[0].index else ifindex, filter)
  }

  lemma {:induction false} WalkCarried(p: Platform, ms: seq<seq<bv8>>, fs: seq<Fields>, ifindex: nat, filter: bool)
    requires Supported(p) && AllCarry(p, ms, fs)
    ensures AllWellFramed(p, ms)
    ensures var walked := Walk(p, ms, ifindex, filter);
      walked.log == LogOf(p, ms, fs, ifindex, filter) && !walked.halted
    decreases |ms|
  {
    hide Supported, Legal, Carries, Handle, RecordFor, PassesFilter, WellFramed;
    forall i | 0 <= i < |ms| ensures WellFramed(p, ms[i]) {
      CarriedFields(p, ms[i], fs[i]);
    }
    if ms == [] {
    } else {
      HandleCarried(p, ms[0], fs[0], ifindex, filter);
      WalkCarried(p, ms[1..], fs[1..], Handle(p, ms[0], ifindex, filter).ifindex, filter);
    }
  }

  /** Round trip over whole buffers: what was written is what is logged, but for what the filter drops by its bits. */
  lemma ParseCarried(p: Platform, ms: seq<seq<bv8>>, fs: seq<Fields>, filter: bool)
    requires Supported(p) && AllCarry(p, ms, fs)
    ensures Parse(p, Concat(ms), 0, filter).log == LogOf(p, ms, fs, 0, filter)
  {
    hide Supported, AllCarry, Walk, Parse, LogOf, Concat;
    WalkCarried(p, ms, fs, 0, filter);
    ParseOfConcat(p, ms, 0, filter);
  }

  // ----- messages and buffers that are refused

  /** The structure that a message of this type must hold; none for other types. */
  ghost function NeededSize(p: Platform, msgType: bv8): Option<nat> {
    if msgType in {p.rtmAdd, p.rtmDelete, p.rtmChange, p.rtmGet} then Some(p.rt.size)
    else if msgType == p.rtmIfinfo then Some(p.ifm.size)
    else if msgType in {p.rtmNewaddr, p.rtmDeladdr} then Some(p.ifam.size)
    else None
  }

  lemma NeededIsLayout(p: Platform, m: seq<bv8>)
    requires Supported(p) && |m| >= 4
    ensures NeededSize(p, m[3]) == if Kind(p, m) == OtherMsg then None else Some(LayoutOf(p, Kind(p, m)).size)
  {
  }

  /** The complaint about a whole message, if there is one, and whether parsing ends with it. */
  lemma HandleRefused(p: Platform, m: seq<bv8>, ifindex: nat, filter: bool)
    requires Supported(p) && |m| >= if p.hdrlenField then 6 else 4
    ensures var handled, needed := Handle(p, m, ifindex, filter), NeededSize(p, m[3]);
      && (m[2] != p.rtmVersion ==> handled == Handled([UnsupportedVersion(m)], ifindex, false))
      && (m[2] == p.rtmVersion && needed == None ==> handled == Handled([UnknownType(m)], ifindex, false))
      && (m[2] == p.rtmVersion && needed.Some? && |m| < needed.value ==>
            handled.log == [InvalidLength(m)] && handled.halted)
      && (m[2] == p.rtmVersion && needed.Some? && |m| >= needed.value && !(filter && Dropped(p, m, ifindex))
          && p.hdrlenField && m[4] as int + 256 * (m[5] as int) > |m| ==>
            handled.log == [InvalidHdrlen(m)] && handled.halted)
  {
    hide Kind, LayoutOf, Offsets, Dropped, AddrMask, Index, NeededSize;
    NeededIsLayout(p, m);
  }

  /** One message more in front: its own records, and what follows unless it ended the parse. */
  lemma ParseFirst(p: Platform, m: seq<bv8>, ms: seq<seq<bv8>>, ifindex: nat, filter: bool)
    requires Supported(p) && WellFramed(p, m) && AllWellFramed(p, ms)
    ensures var first := Handle(p, m, ifindex, filter);
      Parse(p, Concat([m] + ms), ifindex, filter).log ==
        if first.halted then first.log else first.log + Parse(p, Concat(ms), first.ifindex, filter).log
  {
    hide Supported, Handle, Uint16At, Parse, Concat;
    ParseOfConcat(p, [m] + ms, ifindex, filter);
    ParseOfConcat(p, ms, Handle(p, m, ifindex, filter).ifindex, filter);
    assert ([m] + ms)[1..] == ms;
  }

  /** A foreign message is noted and passed over; one that is too short for its type or its header ends the parse. */
  lemma RefusedMessages(p: Platform, m: seq<bv8>, ms: seq<seq<bv8>>, ifindex: nat, filter: bool)
    requires Supported(p) && AllWellFramed(p, ms)
    requires |m| >= (if p.hdrlenField then 6 else 4) && |m| == m[0] as int + 256 * (m[1] as int)
    ensures var log, rest := Parse(p, Concat([m] + ms), ifindex, filter).log, Parse(p, Concat(ms), ifindex, filter).log;
      var needed := NeededSize(p, m[3]);
      && (m[2] != p.rtmVersion ==> log == [UnsupportedVersion(m)] + rest)
      && (m[2] == p.rtmVersion && needed == None ==> log == [UnknownType(m)] + rest)
      && (m[2] == p.rtmVersion && needed.Some? && |m| < needed.value ==> log == [InvalidLength(m)])
      && (m[2] == p.rtmVersion && needed.Some? && |m| >= needed.value && !(filter && Dropped(p, m, ifindex))
          && p.hdrlenField && m[4] as int + 256 * (m[5] as int) > |m| ==>
            log == [InvalidHdrlen(m)])
  {
    hide Supported, Handle, Parse, Concat, NeededSize, AllWellFramed, Uint16At;
    Held16(m, 0, |m|);
    HandleRefused(p, m, ifindex, filter);
    ParseFirst(p, m, ms, ifindex, filter);
  }

  /** What follows the last whole message is complained about once it could hold a header. */
  lemma TruncatedTail(p: Platform, ms: seq<seq<bv8>>, rest: seq<bv8>, ifindex: nat, filter: bool)
    requires Supported(p) && AllWellFramed(p, ms)
    requires var least := if p.hdrlenField then 6 else 4;
      |rest| >= least ==>
        var msglen := rest[0] as int + 256 * (rest[1] as int);
        msglen < least || msglen > |rest|
    ensures var walked := Walk(p, ms, ifindex, filter);
      Parse(p, Concat(ms) + rest, ifindex, filter).log ==
        walked.log
        + if walked.halted || |rest| < (if p.hdrlenField then 6 else 4) then [] else [InvalidMsglen(rest)]
  {
    hide Supported, Walk, Frames, Concat, AllWellFramed;
    FramesUnique(p, ms, rest);
    assert Walk(p, ms, ifindex, filter).log + [] == Walk(p, ms, ifindex, filter).log;
  }

  // ----- a loopback interface

  lemma LogStep(p: Platform, ms: seq<seq<bv8>>, fs: seq<Fields>, ifindex: nat, filter: bool)
    requires AllCarry(p, ms, fs)
    ensures fs == [] ==> LogOf(p, ms, fs, ifindex, filter) == []
    ensures fs != [] ==>
      LogOf(p, ms, fs, ifindex, filter) ==
        (if filter && !PassesFilter(fs[0], ifindex) then [] else [RecordFor(p, ms[0], fs[0], filter)])
        + LogOf(p, ms[1..], fs[1..],
            if fs[0].kind == IfaceMsg && (filter ==> PassesFilter(fs[0], ifindex)) then fs[0].index else ifindex,
            filter)
  {
    hide Legal, Carries, RecordFor, PassesFilter;
  }

  lemma LoopbackBit(flags: bv32)
    ensures flags & 0x8 != 0 ==> flags & 0x59 != 0x41
  {
  }

  /** However a loopback interface and its address are written, the filter hides both, and nothing else hides them. */
  lemma LoopbackIsHidden(p: Platform, ms: seq<seq<bv8>>, fs: seq<Fields>)
    requires Supported(p) && AllCarry(p, ms, fs) && |fs| == 2
    requires fs[0].kind == IfaceMsg && fs[0].flags & 0x8 != 0
    requires fs[1].kind == AddrMsg && fs[1].index == fs[0].index != 0
    ensures Parse(p, Concat(ms), 0, true).log == [] && |Parse(p, Concat(ms), 0, false).log| == 2
  {
    hide Legal, Carries, Parse, Concat, RecordFor, Supported, LogOf;
    ParseCarried(p, ms, fs, true);
    ParseCarried(p, ms, fs, false);
    LoopbackBit(fs[0].flags);
    LogStep(p, ms, fs, 0, true);
    LogStep(p, ms[1..], fs[1..], 0, true);
    LogStep(p, ms[1..][1..], fs[1..][1..], 0, true);
    LogStep(p, ms, fs, 0, false);
    LogStep(p, ms[1..], fs[1..], fs[0].index, false);
    LogStep(p, ms[1..][1..], fs[1..][1..], fs[0].index, false);
  }

  lemma {:induction false} NoBits(i: nat, n: nat)
    requires i <= n <= 32
    ensures BitCount(0, i, n) == 0
    decreases n - i
  {
    if i < n {
      HasBitMeaning(0, i);
      NoBits(i + 1, n);
    }
  }

  /** Darwin's lo0, with flags 0x8049 and index 1, and an address of it. */
  ghost function Lo0Dump(): (ms: seq<seq<bv8>>)
    ensures |ms| == 2 && |ms[0]| == 112 && |ms[1]| == 20
  {
    [RouteFilter.ZeroMessage(112, 14)[8 := 0x49][9 := 0x80][12 := 1], RouteFilter.ZeroMessage(20, 12)[12 := 1]]
  }

  ghost function Lo0Fields(): seq<Fields> {
    [Fields(IfaceMsg, 14, 0x8049, 1, 0, 112, [], []), Fields(AddrMsg, 12, 0, 1, 0, 20, [], [])]
  }

  lemma Lo0Legal()
    ensures var p, fs := RouteFilter.Darwin(), Lo0Fields(); Supported(p) && Legal(p, fs[0]) && Legal(p, fs[1])
  {
    hide BitCount, HasBit;
    NoBits(0, 8);
  }

  lemma Lo0Carried()
    ensures AllCarry(RouteFilter.Darwin(), Lo0Dump(), Lo0Fields())
  {
    hide Legal, Supported;
    Lo0Legal();
    var p, ms, fs := RouteFilter.Darwin(), Lo0Dump(), Lo0Fields();
    assert Layout([], 4) == [];
    assert Le32(0) == [0, 0, 0, 0] && Le32(0x8049) == [0x49, 0x80, 0, 0];
    assert ms[0][8..12] == [0x49, 0x80, 0, 0] && ms[0][4..8] == [0, 0, 0, 0];
    assert ms[1][8..12] == [0, 0, 0, 0] && ms[1][4..8] == [0, 0, 0, 0];
    assert Carries(p, ms[0], fs[0]);
    assert Carries(p, ms[1], fs[1]);
  }

  lemma Lo0IsHidden()
    ensures Parse(RouteFilter.Darwin(), Concat(Lo0Dump()), 0, true).log == []
    ensures |Parse(RouteFilter.Darwin(), Concat(Lo0Dump()), 0, false).log| == 2
  {
    hide Parse, Concat, AllCarry;
    Lo0Carried();
    LoopbackIsHidden(RouteFilter.Darwin(), Lo0Dump(), Lo0Fields());
  }
}
