/** Whole buffers: framing never loses its place, and parsing composes. */
module RouteMessageRuns {
  import opened RouteMessages

  // ----- framing

  /** The frames tile a prefix of the buffer. */
  lemma {:induction false} FramesTile(p: Platform, b: seq<bv8>)
    ensures Concat(Frames(p, b).frames) + Frames(p, b).rest == b
    decreases |b|
  {
    hide Uint16At, AllWellFramed;
    if StartsWithFrame(p, b) {
      var n := Uint16At(b, 0);
      FramesTile(p, b[n..]);
      var more := Frames(p, b[n..]);
      assert Frames(p, b).frames[1..] == more.frames;
      assert b[..n] + Concat(more.frames) + more.rest == b[..n] + (Concat(more.frames) + more.rest);
    }
  }

  lemma WholeFrame(p: Platform, m: seq<bv8>, after: seq<bv8>)
    requires WellFramed(p, m)
    ensures StartsWithFrame(p, m + after) && Uint16At(m + after, 0) == |m|
    ensures (m + after)[..|m|] == m && (m + after)[|m|..] == after
  {
    assert (m + after)[0] == m[0] && (m + after)[1] == m[1];
  }

  /** Whole messages in front are framed as they were written, whatever follows. */
  lemma {:induction false} FramesOfConcat(p: Platform, ms: seq<seq<bv8>>, after: seq<bv8>)
    requires AllWellFramed(p, ms)
    ensures Frames(p, Concat(ms) + after) == Framing(ms + Frames(p, after).frames, Frames(p, after).rest)
  {
    hide Uint16At, StartsWithFrame, WellFramed;
    if ms == [] {
      assert Concat(ms) + after == after;
      assert ms + Frames(p, after).frames == Frames(p, after).frames;
    } else {
      var tail := Concat(ms[1..]) + after;
      assert Concat(ms) + after == ms[0] + tail;
      WholeFrame(p, ms[0], tail);
      FramesOfConcat(p, ms[1..], after);
      assert ms + Frames(p, after).frames == [ms[0]] + (ms[1..] + Frames(p, after).frames);
    }
  }

  /** A tiling by whole messages that ends where no whole message starts is the parser's own. */
  lemma {:induction false} FramesUnique(p: Platform, ms: seq<seq<bv8>>, rest: seq<bv8>)
    requires AllWellFramed(p, ms) && !StartsWithFrame(p, rest)
    ensures Frames(p, Concat(ms) + rest) == Framing(ms, rest)
  {
    hide Uint16At, StartsWithFrame, WellFramed;
    FramesOfConcat(p, ms, rest);
    assert ms + [] == ms;
  }

  // ----- composition

  /** One parse after another, unless the first one ended the parse. */
  ghost function Then(first: Handled, second: Handled): Handled {
    if first.halted then first else Handled(first.log + second.log, second.ifindex, second.halted)
  }

  lemma {:induction false} WalkConcat(p: Platform, ms: seq<seq<bv8>>, ms': seq<seq<bv8>>, ifindex: nat, filter: bool)
    requires Supported(p) && AllWellFramed(p, ms) && AllWellFramed(p, ms')
    ensures Walk(p, ms + ms', ifindex, filter) ==
      Then(Walk(p, ms, ifindex, filter), Walk(p, ms', Walk(p, ms, ifindex, filter).ifindex, filter))
    decreases |ms|
  {
    hide Handle, Uint16At, Supported;
    if ms == [] {
      assert ms + ms' == ms';
    } else {
      var first := Handle(p, ms[0], ifindex, filter);
      assert (ms + ms')[1..] == ms[1..] + ms';
      if !first.halted {
        WalkConcat(p, ms[1..], ms', first.ifindex, filter);
      }
    }
  }

  /** Parsing whole messages and then more is parsing the first part, then the second from the carried index. */
  lemma ParseConcat(p: Platform, x: seq<bv8>, y: seq<bv8>, ifindex: nat, filter: bool)
    requires Supported(p) && Frames(p, x).rest == []
    ensures Parse(p, x + y, ifindex, filter) ==
      Then(Parse(p, x, ifindex, filter), Parse(p, y, Parse(p, x, ifindex, filter).ifindex, filter))
  {
    hide Handle, WellFramed, Supported, Walk, Frames, StartsWithFrame;
    FramesTile(p, x);
    var ms := Frames(p, x).frames;
    assert Concat(ms) + [] == Concat(ms);
    FramesOfConcat(p, ms, y);
    WalkConcat(p, ms, Frames(p, y).frames, ifindex, filter);
    var first := Walk(p, ms, ifindex, filter);
    var second := Walk(p, Frames(p, y).frames, first.ifindex, filter);
    var bad := [InvalidMsglen(Frames(p, y).rest)];
    assert first.log + (second.log + bad) == first.log + second.log + bad;
  }

  /** A list of whole messages is parsed as exactly those messages, in order. */
  lemma {:induction false} ParseOfConcat(p: Platform, ms: seq<seq<bv8>>, ifindex: nat, filter: bool)
    requires Supported(p) && AllWellFramed(p, ms)
    ensures Parse(p, Concat(ms), ifindex, filter) == Walk(p, ms, ifindex, filter)
  {
    hide Handle, WellFramed, Supported, Walk, Frames, Uint16At;
    assert Concat(ms) + [] == Concat(ms);
    FramesUnique(p, ms, []);
  }

  /** The record of a message that the parser passes over. */
  ghost function NoteOn(p: Platform, m: seq<bv8>): Record
    requires |m| >= 4
  {
    if m[2] != p.rtmVersion then UnsupportedVersion(m) else UnknownType(m)
  }

  lemma ForeignFirst(p: Platform, m: seq<bv8>, ms: seq<seq<bv8>>, ifindex: nat, filter: bool)
    requires Supported(p) && WellFramed(p, m) && AllWellFramed(p, ms)
    requires m[2] != p.rtmVersion || Kind(p, m) == OtherMsg
    ensures AllWellFramed(p, [m] + ms)
    ensures var rest := Walk(p, ms, ifindex, filter);
      Walk(p, [m] + ms, ifindex, filter) ==
        Handled([NoteOn(p, m)] + rest.log, rest.ifindex, rest.halted)
  {
    hide Supported, WellFramed;
    assert ([m] + ms)[1..] == ms;
  }

  /** A message of an unsupported version or an unknown type adds one record and disturbs nothing after it. */
  lemma ForeignMessagesAreSkipped(
      p: Platform, ms: seq<seq<bv8>>, m: seq<bv8>, ms': seq<seq<bv8>>, ifindex: nat, filter: bool)
    requires Supported(p) && AllWellFramed(p, ms) && WellFramed(p, m) && AllWellFramed(p, ms')
    requires m[2] != p.rtmVersion || Kind(p, m) == OtherMsg
    ensures var with := Parse(p, Concat(ms + [m] + ms'), ifindex, filter);
      var without := Parse(p, Concat(ms + ms'), ifindex, filter);
      && with.ifindex == without.ifindex && with.halted == without.halted
      && if Walk(p, ms, ifindex, filter).halted then with.log == without.log
         else
           var n := |Walk(p, ms, ifindex, filter).log|;
           && n <= |without.log|
           && with.log == without.log[..n] + [NoteOn(p, m)] + without.log[n..]
  {
    hide Handle, Supported, Walk, WellFramed, Concat, Parse;
    assert AllWellFramed(p, [m]);
    ParseOfConcat(p, ms + [m] + ms', ifindex, filter);
    ParseOfConcat(p, ms + ms', ifindex, filter);
    assert ms + [m] + ms' == ms + ([m] + ms');
    WalkConcat(p, ms, [m] + ms', ifindex, filter);
    WalkConcat(p, ms, ms', ifindex, filter);
    var before := Walk(p, ms, ifindex, filter);
    ForeignFirst(p, m, ms', before.ifindex, filter);
  }
}
