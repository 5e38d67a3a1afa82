/** Routing messages: framing by message length, dispatch by version and type, and the interface filter. */
module RouteMessages {
  import opened Wrappers
  import opened RtaAlignment
  import opened SockAddrs

  /** Where the fields of a message header lie; the structures are the system's own. */
  datatype HeaderLayout = HeaderLayout(size: nat, flagsAt: nat, indexAt: nat, addrsAt: nat)

  /** What differs between the supported systems. */
  datatype Platform = Platform(
    hdrlenField: bool,
    alignTo: nat,
    rtaxMax: nat,
    rtmVersion: bv8,
    rtmAdd: bv8, rtmDelete: bv8, rtmChange: bv8, rtmGet: bv8,
    rtmIfinfo: bv8, rtmNewaddr: bv8, rtmDeladdr: bv8,
    rt: HeaderLayout, ifm: HeaderLayout, ifam: HeaderLayout)

  function SizeofMsghdr(p: Platform): nat {
    if p.hdrlenField then 6 else 4
  }

  predicate Holds(l: HeaderLayout, sizeofMsghdr: nat) {
    sizeofMsghdr <= l.size && l.flagsAt + 4 <= l.size && l.indexAt + 2 <= l.size && l.addrsAt + 4 <= l.size
  }

  predicate Supported(p: Platform) {
    && IsAlignment(p.alignTo)
    && p.rtaxMax < 32
    && Holds(p.rt, SizeofMsghdr(p)) && Holds(p.ifm, SizeofMsghdr(p)) && Holds(p.ifam, SizeofMsghdr(p))
    && p.rtmIfinfo !in {p.rtmAdd, p.rtmDelete, p.rtmChange, p.rtmGet}
    && {p.rtmNewaddr, p.rtmDeladdr} !! {p.rtmAdd, p.rtmDelete, p.rtmChange, p.rtmGet, p.rtmIfinfo}
  }

  // The values of the flag bits, the same on all supported systems.
  const RTF_UP: bv32 := 0x1
  const RTF_GATEWAY: bv32 := 0x2
  const RTF_HOST: bv32 := 0x4

  const IFF_UP: bv32 := 0x1
  const IFF_LOOPBACK: bv32 := 0x8
  const IFF_POINTOPOINT: bv32 := 0x10
  const IFF_RUNNING: bv32 := 0x40

  function Uint16At(b: seq<bv8>, o: nat): nat
    requires o + 2 <= |b|
  {
    b[o] as int + 256 * (b[o + 1] as int)
  }

  function Uint32At(b: seq<bv8>, o: nat): bv32
    requires o + 4 <= |b|
  {
    b[o] as bv32 | ((b[o + 1] as bv32) << 8) | ((b[o + 2] as bv32) << 16) | ((b[o + 3] as bv32) << 24)
  }

  datatype MsgKind = RouteMsg | IfaceMsg | AddrMsg | OtherMsg

  function Kind(p: Platform, m: seq<bv8>): MsgKind
    requires |m| >= 4
  {
    if m[3] in {p.rtmAdd, p.rtmDelete, p.rtmChange, p.rtmGet} then RouteMsg
    else if m[3] == p.rtmIfinfo then IfaceMsg
    else if m[3] in {p.rtmNewaddr, p.rtmDeladdr} then AddrMsg
    else OtherMsg
  }

  /**
   Each record carries the message it reports on; those with addresses also the buffer, the pointers into it, and
   whether a destination and a netmask are shown only when they are unspecified, as those of the default route are.
   */
  datatype Record =
    | InvalidMsglen(rest: seq<bv8>)
    | UnsupportedVersion(msg: seq<bv8>)
    | InvalidLength(msg: seq<bv8>)
    | InvalidHdrlen(msg: seq<bv8>)
    | UnknownType(msg: seq<bv8>)
    | Logged(kind: MsgKind, msg: seq<bv8>, addrsBuf: seq<bv8>, addrs: seq<Option<nat>>, defaultRouteOnly: bool)

  function AddrsBuf(p: Platform, m: seq<bv8>, size: nat): Option<seq<bv8>>
    requires SizeofMsghdr(p) <= size <= |m|
  {
    if p.hdrlenField then
      var hdrlen := Uint16At(m, 4);
      if hdrlen > |m| then None else Some(m[hdrlen..])
    else Some(m[size..])
  }

  function LayoutOf(p: Platform, kind: MsgKind): HeaderLayout
    requires kind != OtherMsg
  {
    match kind
    case RouteMsg => p.rt
    case IfaceMsg => p.ifm
    case AddrMsg => p.ifam
  }

  // ----- one message

  predicate RouteShown(flags: bv32) {
    flags & RTF_UP != 0 && flags & RTF_GATEWAY != 0 && flags & RTF_HOST == 0
  }

  predicate IfaceShown(flags: bv32) {
    flags & IFF_UP != 0 && flags & IFF_LOOPBACK == 0 && flags & IFF_POINTOPOINT == 0 && flags & IFF_RUNNING != 0
  }

  lemma RouteShownBits(flags: bv32)
    ensures RouteShown(flags) <==> flags & 0x7 == 0x3
  {
  }

  lemma IfaceShownBits(flags: bv32)
    ensures IfaceShown(flags) <==> flags & 0x59 == 0x41
  {
  }

  function Flags(p: Platform, m: seq<bv8>): bv32
    requires Supported(p) && |m| >= 4 && Kind(p, m) != OtherMsg && |m| >= LayoutOf(p, Kind(p, m)).size
  {
    Uint32At(m, LayoutOf(p, Kind(p, m)).flagsAt)
  }

  function Index(p: Platform, m: seq<bv8>): nat
    requires Supported(p) && |m| >= 4 && Kind(p, m) != OtherMsg && |m| >= LayoutOf(p, Kind(p, m)).size
  {
    Uint16At(m, LayoutOf(p, Kind(p, m)).indexAt)
  }

  function AddrMask(p: Platform, m: seq<bv8>): bv32
    requires Supported(p) && |m| >= 4 && Kind(p, m) != OtherMsg && |m| >= LayoutOf(p, Kind(p, m)).size
  {
    Uint32At(m, LayoutOf(p, Kind(p, m)).addrsAt)
  }

  /** Whether the filter drops a message, given the index of the interface reported last. */
  predicate Dropped(p: Platform, m: seq<bv8>, ifindex: nat)
    requires Supported(p) && |m| >= 4 && Kind(p, m) != OtherMsg && |m| >= LayoutOf(p, Kind(p, m)).size
  {
    match Kind(p, m)
    case RouteMsg => !RouteShown(Flags(p, m))
    case IfaceMsg => !IfaceShown(Flags(p, m))
    case AddrMsg => Index(p, m) != ifindex
  }

  /** What one message adds to the log, the interface index after it, and whether parsing ends there. */
  datatype Handled = Handled(log: seq<Record>, ifindex: nat, halted: bool)

  ghost function Handle(p: Platform, m: seq<bv8>, ifindex: nat, filter: bool): Handled
    requires Supported(p) && |m| >= SizeofMsghdr(p)
  {
    if m[2] != p.rtmVersion then Handled([UnsupportedVersion(m)], ifindex, false)
    else if Kind(p, m) == OtherMsg then Handled([UnknownType(m)], ifindex, false)
    else if |m| < LayoutOf(p, Kind(p, m)).size then Handled([InvalidLength(m)], ifindex, true)
    else if filter && Dropped(p, m, ifindex) then Handled([], ifindex, false)
    else
      var after := if Kind(p, m) == IfaceMsg then Index(p, m) else ifindex;
      match AddrsBuf(p, m, LayoutOf(p, Kind(p, m)).size)
      case None => Handled([InvalidHdrlen(m)], after, true)
      case Some(buf) =>
        var addrs := Offsets(buf, AddrMask(p, m), p.alignTo, 0, p.rtaxMax, 0);
        Handled([Logged(Kind(p, m), m, buf, addrs, filter && Kind(p, m) == RouteMsg)], after, false)
  }

  // ----- framing

  ghost predicate WellFramed(p: Platform, m: seq<bv8>) {
    SizeofMsghdr(p) <= |m| && Uint16At(m, 0) == |m|
  }

  ghost predicate AllWellFramed(p: Platform, ms: seq<seq<bv8>>) {
    forall i :: 0 <= i < |ms| ==> WellFramed(p, ms[i])
  }

  /** A whole message lies at the front of `b`. */
  ghost predicate StartsWithFrame(p: Platform, b: seq<bv8>) {
    SizeofMsghdr(p) <= |b| && SizeofMsghdr(p) <= Uint16At(b, 0) <= |b|
  }

  ghost function Concat(ms: seq<seq<bv8>>): seq<bv8> {
    if ms == [] then [] else ms[0] + Concat(ms[1..])
  }

  datatype Framing = Framing(frames: seq<seq<bv8>>, rest: seq<bv8>)

  /** Cuts whole messages off the front of `b` for as long as there are any. */
  ghost function Frames(p: Platform, b: seq<bv8>): (r: Framing)
    ensures AllWellFramed(p, r.frames) && !StartsWithFrame(p, r.rest)
    decreases |b|
  {
    if StartsWithFrame(p, b) then
      var n := Uint16At(b, 0);
      var more := Frames(p, b[n..]);
      Framing([b[..n]] + more.frames, more.rest)
    else Framing([], b)
  }

  // ----- whole buffers

  /** Handles messages in order until one ends the parse. */
  ghost function Walk(p: Platform, ms: seq<seq<bv8>>, ifindex: nat, filter: bool): Handled
    requires Supported(p) && AllWellFramed(p, ms)
    decreases |ms|
  {
    if ms == [] then Handled([], ifindex, false)
    else
      var first := Handle(p, ms[0], ifindex, filter);
      if first.halted then first
      else
        var more := Walk(p, ms[1..], first.ifindex, filter);
        Handled(first.log + more.log, more.ifindex, more.halted)
  }

  /** The parse of a buffer: its frames, and then a complaint if what is left is no whole message. */
  ghost function Parse(p: Platform, b: seq<bv8>, ifindex: nat, filter: bool): Handled
    requires Supported(p)
  {
    var walked := Walk(p, Frames(p, b).frames, ifindex, filter);
    if walked.halted || |Frames(p, b).rest| < SizeofMsghdr(p) then walked
    else Handled(walked.log + [InvalidMsglen(Frames(p, b).rest)], walked.ifindex, true)
  }

  /** Parsing goes frame by frame. */
  lemma ParseStep(p: Platform, b: seq<bv8>, ifindex: nat, filter: bool)
    requires Supported(p) && StartsWithFrame(p, b)
    ensures var n := Uint16At(b, 0);
      var first := Handle(p, b[..n], ifindex, filter);
      if first.halted then Parse(p, b, ifindex, filter) == first
      else
        var more := Parse(p, b[n..], first.ifindex, filter);
        Parse(p, b, ifindex, filter) == Handled(first.log + more.log, more.ifindex, more.halted)
  {
    hide Handle, Uint16At, Supported;
    var n := Uint16At(b, 0);
    var first := Handle(p, b[..n], ifindex, filter);
    var fs := Frames(p, b).frames;
    assert fs[0] == b[..n] && fs[1..] == Frames(p, b[n..]).frames;
    var rest := Walk(p, fs[1..], first.ifindex, filter);
    var bad := [InvalidMsglen(Frames(p, b).rest)];
    assert first.log + (rest.log + bad) == first.log + rest.log + bad;
  }

  // ----- the parser

  method LogAddrs(p: Platform, m: seq<bv8>, size: nat, mask: bv32, kind: MsgKind, defaultRouteOnly: bool)
    returns (record: Record)
    requires Supported(p) && SizeofMsghdr(p) <= size <= |m|
    ensures record == match AddrsBuf(p, m, size)
      case None => InvalidHdrlen(m)
      case Some(buf) => Logged(kind, m, buf, Offsets(buf, mask, p.alignTo, 0, p.rtaxMax, 0), defaultRouteOnly)
  {
    var buf := AddrsBuf(p, m, size);
    if buf == None {
      return InvalidHdrlen(m);
    }
    var addrs := new Option<nat>[p.rtaxMax](_ => None);
    ParseAddrs(addrs, buf.value, mask, p.alignTo);
    ghost var all := Offsets(buf.value, mask, p.alignTo, 0, p.rtaxMax, 0);
    assert forall k :: 0 <= k < p.rtaxMax ==> addrs[k] == all[k];
    return Logged(kind, m, buf.value, addrs[..], defaultRouteOnly);
  }

  lemma ParseEnd(p: Platform, b: seq<bv8>, ifindex: nat, filter: bool)
    requires Supported(p) && !StartsWithFrame(p, b)
    ensures Parse(p, b, ifindex, filter) ==
      if |b| < SizeofMsghdr(p) then Handled([], ifindex, false) else Handled([InvalidMsglen(b)], ifindex, true)
  {
  }

  /** The body of the parse loop, for one message. */
  method ParseMsg(
      p: Platform, m: seq<bv8>, ifindex: nat, filter: bool) returns (log: seq<Record>, after: nat, halted: bool)
    requires Supported(p) && |m| >= SizeofMsghdr(p)
    ensures Handled(log, after, halted) == Handle(p, m, ifindex, filter)
  {
    hide Uint16At, Uint32At, RouteShown, IfaceShown, Offsets, AddrsBuf;
    after, halted := ifindex, false;
    if m[2] != p.rtmVersion {
      return [UnsupportedVersion(m)], after, halted;
    }
    var record;
    if m[3] in {p.rtmAdd, p.rtmDelete, p.rtmChange, p.rtmGet} {
      if |m| < p.rt.size {
        return [InvalidLength(m)], after, true;
      }
      if filter && !RouteShown(Uint32At(m, p.rt.flagsAt)) {
        return [], after, halted;
      }
      record := LogAddrs(p, m, p.rt.size, Uint32At(m, p.rt.addrsAt), RouteMsg, filter);
    } else if m[3] == p.rtmIfinfo {
      if |m| < p.ifm.size {
        return [InvalidLength(m)], after, true;
      }
      if filter && !IfaceShown(Uint32At(m, p.ifm.flagsAt)) {
        return [], after, halted;
      }
      after := Uint16At(m, p.ifm.indexAt);
      record := LogAddrs(p, m, p.ifm.size, Uint32At(m, p.ifm.addrsAt), IfaceMsg, false);
    } else if m[3] in {p.rtmNewaddr, p.rtmDeladdr} {
      if |m| < p.ifam.size {
        return [InvalidLength(m)], after, true;
      }
      if filter && Uint16At(m, p.ifam.indexAt) != ifindex {
        return [], after, halted;
      }
      record := LogAddrs(p, m, p.ifam.size, Uint32At(m, p.ifam.addrsAt), AddrMsg, false);
    } else {
      record := UnknownType(m);
    }
    return [record], after, record.InvalidHdrlen?;
  }

  lemma LogChain(a: seq<Record>, b: seq<Record>, c: seq<Record>)
    ensures a + (b + c) == a + b + c
  {
  }

  method ParseAndLogMsgs(p: Platform, b: seq<bv8>, filter: bool) returns (log: seq<Record>)
    requires Supported(p)
    ensures log == Parse(p, b, 0, filter).log
  {
    hide Supported, Uint16At, Parse, Handle, Frames;
    var rest, ifindex := b, 0;
    log := [];
    while |rest| >= SizeofMsghdr(p)
      invariant Parse(p, b, 0, filter).log == log + Parse(p, rest, ifindex, filter).log
      decreases |rest|
    {
      var msglen := Uint16At(rest, 0);
      if msglen < SizeofMsghdr(p) || msglen > |rest| {
        ParseEnd(p, rest, ifindex, filter);
        return log + [InvalidMsglen(rest)];
      }
      ParseStep(p, rest, ifindex, filter);
      var records, halted;
      records, ifindex, halted := ParseMsg(p, rest[..msglen], ifindex, filter);
      LogChain(log, records, Parse(p, rest[msglen..], ifindex, filter).log);
      log := log + records;
      if halted {
        return;
      }
      rest := rest[msglen..];
    }
    ParseEnd(p, rest, ifindex, filter);
  }
}
