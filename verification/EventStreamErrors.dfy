/** What the event stream is told in bytes, and which error ends a run. */
module EventStreamErrors {
  import opened Wrappers
  import opened Bytes
  import opened EventStream
  import opened EventStreamRuns
  import opened EventStreamLoss

  // ----- the filter, in bytes: an event runs from '{' (123) through '\n' (10)

  lemma {:induction false} NoBraceNothing(s: seq<byte>)
    requires 123 !in s
    ensures Filter(s, false) == []
  {
    if s == [] {
    } else {
      NoBraceNothing(s[1..]);
    }
  }

  lemma {:induction false} GapDropped(gap: seq<byte>, after: seq<byte>)
    requires 123 !in gap
    ensures Filter(gap + [123] + after, false) == [123] + Filter(after, true)
  {
    var s := gap + [123] + after;
    if gap == [] {
      assert s[1..] == after;
    } else {
      assert s[1..] == gap[1..] + [123] + after;
      GapDropped(gap[1..], after);
    }
  }

  lemma {:induction false} LineKept(line: seq<byte>, after: seq<byte>)
    requires 10 !in line
    ensures Filter(line, true) == line && Filter(line + [10] + after, true) == line + [10] + Filter(after, false)
  {
    var s := line + [10] + after;
    if line == [] {
      assert s[1..] == after;
    } else {
      assert s[1..] == line[1..] + [10] + after;
      LineKept(line[1..], after);
      assert line == [line[0]] + line[1..];
      Chain([line[0]], line[1..] + [10], Filter(after, false));
      Chain([line[0]], line[1..], [10]);
    }
  }

  /** The three shapes of an input, taken apart at its first brace and the newline after that. */
  lemma FilterMeaning(gap: seq<byte>, line: seq<byte>, after: seq<byte>)
    requires 123 !in gap && 10 !in line
    ensures Filter(gap, false) == []
    ensures Filter(gap + [123] + line, false) == [123] + line
    ensures Filter(gap + [123] + line + [10] + after, false) == [123] + line + [10] + Filter(after, false)
  {
    hide Filter;
    NoBraceNothing(gap);
    GapDropped(gap, line);
    GapDropped(gap, line + [10] + after);
    LineKept(line, after);
    assert gap + [123] + line + [10] + after == gap + [123] + (line + [10] + after);
    assert [123] + (line + [10] + Filter(after, false)) == [123] + line + [10] + Filter(after, false);
  }

  // ----- bufio, in bytes

  /** A slice ends with the delimiter, or fills the buffer, or takes all there is; it is never longer than need be. */
  lemma ReadSliceMeaning(src: Source, s: seq<byte>, delim: byte)
    ensures var r := ReadSlice(src, s, delim);
      && r.line + r.rest == s
      && match r.err
         case None => 0 < |r.line| <= src.size && r.line[|r.line| - 1] == delim && delim !in r.line[..|r.line| - 1]
         case Some(_) =>
           && delim !in r.line
           && if |s| < src.size then r.line == s && r.err == Some(src.end)
              else |r.line| == src.size && r.err == Some(BufferFull)
  {
    hide IndexOf;
    var i := IndexOf(s, delim);
    assert s[..i] + s[i..] == s;
    if i < |s| {
      assert s[..i + 1] + s[i + 1..] == s && s[..i + 1][..i] == s[..i];
    }
    if |s| >= src.size {
      assert s[..src.size] + s[src.size..] == s;
    }
  }

  // ----- the error that ends a run

  /** The error of the first gap or line, in the order of the input, that bufio cannot deliver whole. */
  ghost function FirstError(src: Source, s: seq<byte>): Error
    decreases |s|
  {
    var gap := ReadSlice(src, s, OPEN_BRACE);
    if gap.err.Some? then gap.err.value
    else
      var line := ReadSlice(src, gap.rest, NEWLINE);
      if line.err.Some? then line.err.value else FirstError(src, line.rest)
  }

  /** The kept error, or else the one that the rest of the input will give. */
  ghost function ErrorAhead(src: Source, st: State): Error {
    if st.err.Some? then st.err.value else FirstError(src, st.rest)
  }

  lemma {:induction false} FillError(src: Source, rest: seq<byte>, room: nat)
    ensures var o := Fill(src, rest, room);
      if o.err.Some? then o.err.value == FirstError(src, rest) else ErrorAhead(src, o.state) == FirstError(src, rest)
    decreases room
  {
    hide ReadSlice;
    if room == 0 {
    } else {
      var gap := ReadSlice(src, rest, OPEN_BRACE);
      if gap.err == None {
        var line := ReadSlice(src, gap.rest, NEWLINE);
        if |line.line| <= room - 1 && line.err == None {
          FillError(src, line.rest, room - 1 - |line.line|);
        }
      }
    }
  }

  lemma ReadError(src: Source, st: State, room: nat)
    ensures var o := Read(src, st, room);
      if o.err.Some? then o.err.value == ErrorAhead(src, st) else ErrorAhead(src, o.state) == ErrorAhead(src, st)
  {
    hide Fill, FirstError;
    if st.err == None && room > |st.leftover| {
      FillError(src, st.rest, room - |st.leftover|);
    }
  }

  lemma {:induction false} DeliverError(src: Source, st: State, sizes: seq<nat>)
    ensures var o := Deliver(src, st, sizes); o.err.Some? ==> o.err.value == ErrorAhead(src, st)
    decreases |sizes|
  {
    hide Read, ErrorAhead;
    if sizes == [] {
    } else {
      ReadError(src, st, sizes[0]);
      DeliverError(src, Read(src, st, sizes[0]).state, sizes[1..]);
    }
  }

  lemma {:induction false} WholeEventsPass(src: Source, x: seq<byte>, y: seq<byte>)
    requires WholeEvents(src, x)
    ensures FirstError(src, x + y) == FirstError(src, y)
    decreases |x|
  {
    hide ReadSlice, WholeEvents, Filter;
    if x == [] {
      assert x + y == y;
    } else {
      var line, x' := FirstEvent(src, x, y);
      WholeEventsPass(src, x', y);
    }
  }

  /** A stretch that fills the bufio buffer without a brace. */
  ghost predicate GapOverflows(src: Source, y: seq<byte>) {
    |y| >= src.size && 123 !in y[..src.size]
  }

  /** A brace in time, and after it a line that fills the bufio buffer without a newline. */
  ghost predicate LineOverflows(src: Source, y: seq<byte>, i: nat) {
    && i < |y| && i < src.size && y[i] == 123 && 123 !in y[..i]
    && |y| - (i + 1) >= src.size && 10 !in y[i + 1..][..src.size]
  }

  ghost predicate Overflows(src: Source, y: seq<byte>) {
    GapOverflows(src, y) || exists i :: LineOverflows(src, y, i)
  }

  lemma NoIndex(s: seq<byte>, b: byte, n: nat)
    requires n <= |s|
    ensures b !in s[..n] <==> IndexOf(s, b) >= n
  {
    hide IndexOf;
    if IndexOf(s, b) < n {
      assert s[..n][IndexOf(s, b)] == b;
    }
  }

  lemma GapErrors(src: Source, y: seq<byte>)
    ensures ReadSlice(src, y, OPEN_BRACE).err == Some(BufferFull) && src.end != BufferFull ==> GapOverflows(src, y)
    ensures GapOverflows(src, y) ==> ReadSlice(src, y, OPEN_BRACE).err == Some(BufferFull)
  {
    hide IndexOf;
    if |y| >= src.size {
      NoIndex(y, OPEN_BRACE, src.size);
    }
  }

  lemma LineErrors(src: Source, y: seq<byte>, i: nat)
    requires i == IndexOf(y, OPEN_BRACE) && i < |y| && i < src.size && src.end != BufferFull
    ensures ReadSlice(src, y, OPEN_BRACE) == Slice(y[..i + 1], None, y[i + 1..])
    ensures ReadSlice(src, y[i + 1..], NEWLINE).err == Some(BufferFull) <==> LineOverflows(src, y, i)
  {
    hide IndexOf;
    var t := y[i + 1..];
    NoIndex(y, OPEN_BRACE, i);
    if |t| >= src.size {
      NoIndex(t, NEWLINE, src.size);
    }
  }

  lemma OverflowAt(src: Source, y: seq<byte>, i: nat)
    requires LineOverflows(src, y, i)
    ensures i == IndexOf(y, OPEN_BRACE) && i < |y| && i < src.size
  {
    hide IndexOf;
    NoIndex(y, OPEN_BRACE, i);
  }

  lemma OverflowError(src: Source, y: seq<byte>)
    requires Proper(src) && Overflows(src, y)
    ensures FirstError(src, y) == BufferFull
  {
    hide ReadSlice, IndexOf, LineOverflows, GapOverflows;
    GapErrors(src, y);
    if !GapOverflows(src, y) {
      var i :| LineOverflows(src, y, i);
      OverflowAt(src, y, i);
      LineErrors(src, y, i);
    }
  }

  lemma FirstAt(s: seq<byte>, after: seq<byte>, b: byte)
    requires s != [] && b !in s[..|s| - 1] && s[|s| - 1] == b
    ensures IndexOf(s + after, b) == |s| - 1 && (s + after)[|s|..] == after
  {
    hide IndexOf;
    var n := |s| - 1;
    assert (s + after)[..n] == s[..n] && (s + after)[n] == b;
    NoIndex(s + after, b, n);
  }

  lemma WholeLineCons(src: Source, line: seq<byte>, x: seq<byte>)
    requires WholeEvents(src, x)
    requires 0 < |line| <= src.size && NEWLINE !in line[..|line| - 1] && line[|line| - 1] == NEWLINE
    ensures WholeLine(src, line + x)
  {
    hide IndexOf, WholeEvents;
    FirstAt(line, x, NEWLINE);
  }

  /** An event in front of whole events. */
  lemma WholeEventsCons(src: Source, gap: seq<byte>, line: seq<byte>, x: seq<byte>)
    requires WholeEvents(src, x)
    requires 0 < |gap| <= src.size && OPEN_BRACE !in gap[..|gap| - 1] && gap[|gap| - 1] == OPEN_BRACE
    requires 0 < |line| <= src.size && NEWLINE !in line[..|line| - 1] && line[|line| - 1] == NEWLINE
    ensures WholeEvents(src, gap + line + x)
  {
    hide IndexOf, WholeLine;
    WholeLineCons(src, line, x);
    FirstAt(gap, line + x, OPEN_BRACE);
    Chain(gap, line, x);
  }

  lemma NoEvents(src: Source)
    ensures WholeEvents(src, [])
  {
  }

  lemma {:induction false} FindOverflow(src: Source, s: seq<byte>) returns (n: nat)
    requires Proper(src) && FirstError(src, s) == BufferFull
    ensures n <= |s| && WholeEvents(src, s[..n]) && Overflows(src, s[n..])
    decreases |s|
  {
    hide ReadSlice, IndexOf, GapOverflows, LineOverflows, WholeEvents;
    var gap := ReadSlice(src, s, OPEN_BRACE);
    ReadSliceMeaning(src, s, OPEN_BRACE);
    GapErrors(src, s);
    NoEvents(src);
    n := 0;
    assert s[..0] == [] && s[0..] == s;
    if gap.err == None {
      var i := |gap.line| - 1;
      NoIndex(s, OPEN_BRACE, i);
      assert s[..i] == gap.line[..i] && s[i] == OPEN_BRACE && s[i + 1..] == gap.rest;
      assert i == IndexOf(s, OPEN_BRACE);
      LineErrors(src, s, i);
      var line := ReadSlice(src, gap.rest, NEWLINE);
      ReadSliceMeaning(src, gap.rest, NEWLINE);
      if line.err == None {
        var k := FindOverflow(src, line.rest);
        n := |gap.line| + |line.line| + k;
        WholeEventsCons(src, gap.line, line.line, line.rest[..k]);
        assert s == gap.line + line.line + line.rest;
        assert s[..n] == gap.line + line.line + line.rest[..k] && s[n..] == line.rest[k..];
      }
    }
  }

  lemma {:induction false} FirstErrorIsOne(src: Source, s: seq<byte>)
    ensures FirstError(src, s) == BufferFull || FirstError(src, s) == src.end
    decreases |s|
  {
    hide IndexOf;
    var gap := ReadSlice(src, s, OPEN_BRACE);
    if gap.err == None && ReadSlice(src, gap.rest, NEWLINE).err == None {
      FirstErrorIsOne(src, ReadSlice(src, gap.rest, NEWLINE).rest);
    }
  }

  /**
   Which error a run ends with does not depend on the buffers: it is "buffer full" exactly when whole
   events are followed by a gap or a line that overflows the bufio buffer, and the end of the source otherwise.
   */
  lemma RunEndsWith(src: Source, input: seq<byte>, sizes: seq<nat>)
    requires Proper(src) && Deliver(src, Start(input), sizes).err.Some?
    ensures Deliver(src, Start(input), sizes).err ==
      if exists n :: 0 <= n <= |input| && WholeEvents(src, input[..n]) && Overflows(src, input[n..])
      then Some(BufferFull) else Some(src.end)
  {
    hide Deliver, FirstError, WholeEvents, Overflows;
    DeliverError(src, Start(input), sizes);
    FirstErrorIsOne(src, input);
    if FirstError(src, input) == BufferFull {
      var n := FindOverflow(src, input);
    }
    if n :| 0 <= n <= |input| && WholeEvents(src, input[..n]) && Overflows(src, input[n..]) {
      assert input == input[..n] + input[n..];
      WholeEventsPass(src, input[..n], input[n..]);
      OverflowError(src, input[n..]);
    }
  }
}
