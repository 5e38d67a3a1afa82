/** How little a schedule may deliver when the input is not clean: never less than the whole events at its front. */
module EventStreamLoss {
  import opened Wrappers
  import opened Bytes
  import opened EventStream
  import opened EventStreamRuns

  /** A list of whole events: each gap before a brace, and each line after one, ends in time for the bufio buffer. */
  ghost predicate WholeEvents(src: Source, x: seq<byte>)
    decreases |x|
  {
    var i := IndexOf(x, OPEN_BRACE);
    x == [] || (i < |x| && i < src.size && WholeLine(src, x[i + 1..]))
  }

  /** The line of an event, and then whole events. */
  ghost predicate WholeLine(src: Source, t: seq<byte>)
    decreases |t|
  {
    var j := IndexOf(t, NEWLINE);
    j < |t| && j < src.size && WholeEvents(src, t[j + 1..])
  }

  lemma IndexOfFront(x: seq<byte>, y: seq<byte>, b: byte)
    requires IndexOf(x, b) < |x|
    ensures IndexOf(x + y, b) == IndexOf(x, b)
  {
    hide IndexOf;
    var i := IndexOf(x, b);
    assert (x + y)[i] == b;
  }

  lemma SplitFront<T>(x: seq<T>, y: seq<T>, n: nat)
    requires n <= |x|
    ensures (x + y)[..n] == x[..n] && (x + y)[n..] == x[n..] + y
  {
  }

  lemma ReadSliceAt(src: Source, s: seq<byte>, b: byte, i: nat)
    requires i == IndexOf(s, b) && i < |s| && i < src.size
    ensures ReadSlice(src, s, b) == Slice(s[..i + 1], None, s[i + 1..])
  {
    hide IndexOf;
  }

  lemma ReadSliceFront(src: Source, x: seq<byte>, y: seq<byte>, b: byte, i: nat)
    requires i == IndexOf(x, b) && i < |x| && i < src.size
    ensures ReadSlice(src, x + y, b) == Slice(x[..i + 1], None, x[i + 1..] + y)
  {
    hide IndexOf, ReadSlice;
    IndexOfFront(x, y, b);
    ReadSliceAt(src, x + y, b, i);
    SplitFront(x, y, i + 1);
  }

  lemma FirstGap(src: Source, x: seq<byte>)
    requires WholeEvents(src, x) && x != []
    ensures var i := IndexOf(x, OPEN_BRACE); i < |x| && i < src.size && WholeLine(src, x[i + 1..])
  {
    hide IndexOf, WholeLine;
  }

  lemma FirstLine(src: Source, t: seq<byte>)
    requires WholeLine(src, t)
    ensures var j := IndexOf(t, NEWLINE); j < |t| && j < src.size && WholeEvents(src, t[j + 1..])
  {
    hide IndexOf, WholeEvents;
  }

  /** The first event of a non-empty list, and what follows it. */
  lemma FirstEvent(src: Source, x: seq<byte>, y: seq<byte>) returns (line: seq<byte>, x': seq<byte>)
    requires WholeEvents(src, x) && x != []
    ensures WholeEvents(src, x') && |x'| < |x|
    ensures Filter(x, false) == [OPEN_BRACE] + line + Filter(x', false)
    ensures var gap := ReadSlice(src, x + y, OPEN_BRACE);
      gap.err == None && ReadSlice(src, gap.rest, NEWLINE) == Slice(line, None, x' + y)
  {
    hide IndexOf, Filter, ReadSlice, WholeEvents, WholeLine;
    FirstGap(src, x);
    var i := IndexOf(x, OPEN_BRACE);
    var t := x[i + 1..];
    FirstLine(src, t);
    var j := IndexOf(t, NEWLINE);
    line, x' := t[..j + 1], t[j + 1..];
    assert |x'| == |x| - (i + 1) - (j + 1);
    ReadSliceFront(src, x, y, OPEN_BRACE, i);
    ReadSliceFront(src, t, y, NEWLINE, j);
    FilterGap(x);
    FilterLine(t);
    Chain([OPEN_BRACE], line, Filter(x', false));
  }

  /** The reader has no error yet, and `x`, a list of whole events, lies in front of `y` in its input. */
  ghost predicate Before(src: Source, st: State, x: seq<byte>, y: seq<byte>) {
    st.err == None && st.rest == x + y && WholeEvents(src, x)
  }

  /** What the state still owes of the events in `x`. */
  ghost function Owed(st: State, x: seq<byte>): seq<byte> {
    st.leftover + Filter(x, false)
  }

  lemma OwedAtStart(src: Source, x: seq<byte>, y: seq<byte>)
    requires WholeEvents(src, x)
    ensures Before(src, State(x + y, [], None), x, y) && Owed(State(x + y, [], None), x) == Filter(x, false)
  {
    hide Filter, WholeEvents;
  }

  lemma OwedAfterCut(src: Source, line: seq<byte>, n: nat, x: seq<byte>, y: seq<byte>)
    requires WholeEvents(src, x) && n <= |line|
    ensures var st := State(x + y, line[n..], None);
      && Before(src, st, x, y)
      && [OPEN_BRACE] + line[..n] + Owed(st, x) == [OPEN_BRACE] + line + Filter(x, false)
  {
    hide Filter, WholeEvents;
    assert line == line[..n] + line[n..];
  }

  lemma PrefixGrows<T>(a: seq<T>, b: seq<T>, c: seq<T>)
    requires b <= c
    ensures a + b <= a + c
  {
    assert c == b + c[|b|..];
    Chain(a, b, c[|b|..]);
  }

  /** Filling a buffer delivers the events of `x` or stops among them without an error. */
  lemma {:induction false} FillReaches(src: Source, x: seq<byte>, y: seq<byte>, room: nat) returns (x': seq<byte>)
    requires Proper(src) && WholeEvents(src, x)
    ensures var o := Fill(src, x + y, room);
      || Filter(x, false) <= o.out
      || (o.err == None && Before(src, o.state, x', y) && o.out + Owed(o.state, x') == Filter(x, false))
    decreases room
  {
    hide Filter, ReadSlice, WholeEvents, Before, Owed;
    x' := x;
    if room == 0 {
      OwedAtStart(src, x, y);
    } else if x == [] {
      FilterGap(x);
    } else {
      var line, after := FirstEvent(src, x, y);
      var head := [OPEN_BRACE] + line;
      if room < |head| {
        x' := after;
        OwedAfterCut(src, line, room - 1, after, y);
      } else {
        x' := FillReaches(src, after, y, room - |head|);
        var more := Fill(src, after + y, room - |head|);
        if Filter(after, false) <= more.out {
          PrefixGrows(head, Filter(after, false), more.out);
        } else {
          Chain(head, more.out, Owed(more.state, x'));
        }
      }
    }
  }

  lemma ReadReaches(src: Source, st: State, x: seq<byte>, y: seq<byte>, room: nat) returns (x': seq<byte>)
    requires Proper(src) && Before(src, st, x, y)
    ensures var o := Read(src, st, room);
      || Owed(st, x) <= o.out
      || (o.err == None && Before(src, o.state, x', y) && o.out + Owed(o.state, x') == Owed(st, x))
  {
    hide Filter, Fill, WholeEvents;
    if room <= |st.leftover| {
      x' := x;
      assert st.leftover == st.leftover[..room] + st.leftover[room..];
      Chain(st.leftover[..room], st.leftover[room..], Filter(x, false));
    } else {
      x' := FillReaches(src, x, y, room - |st.leftover|);
      var more := Fill(src, x + y, room - |st.leftover|);
      if Filter(x, false) <= more.out {
        PrefixGrows(st.leftover, Filter(x, false), more.out);
      } else {
        Chain(st.leftover, more.out, Owed(more.state, x'));
      }
    }
  }

  lemma {:induction false} DeliverReaches(src: Source, st: State, x: seq<byte>, y: seq<byte>, sizes: seq<nat>)
    requires Proper(src) && Before(src, st, x, y) && Deliver(src, st, sizes).err.Some?
    ensures Owed(st, x) <= Deliver(src, st, sizes).out
    decreases |sizes|
  {
    hide Filter, Read, Before, Owed;
    var x' := ReadReaches(src, st, x, y, sizes[0]);
    var first := Read(src, st, sizes[0]);
    if first.err == None {
      var more := Deliver(src, first.state, sizes[1..]);
      if Owed(st, x) <= first.out {
        Chain(Owed(st, x), first.out[|Owed(st, x)|..], more.out);
      } else {
        DeliverReaches(src, first.state, x', y, sizes[1..]);
        PrefixGrows(first.out, Owed(first.state, x'), more.out);
      }
    }
  }

  lemma {:induction false} EveryReadDelivers(src: Source, st: State, sizes: seq<nat>)
    requires Proper(src) && Positive(sizes)
    ensures Deliver(src, st, sizes).err == None ==> |Deliver(src, st, sizes).out| >= |sizes|
    decreases |sizes|
  {
    hide Filter, Read, Pending;
    if sizes == [] {
    } else {
      ReadIsPrefix(src, st, sizes[0]);
      EveryReadDelivers(src, Read(src, st, sizes[0]).state, sizes[1..]);
    }
  }

  /** Whatever the input is, enough non-empty buffers reach an error. */
  lemma LongSchedulesEnd(src: Source, st: State, sizes: seq<nat>)
    requires Proper(src) && Positive(sizes) && |sizes| > |Pending(st)|
    ensures Deliver(src, st, sizes).err.Some?
  {
    hide Deliver, Pending;
    EveryReadDelivers(src, st, sizes);
    DeliverIsPrefix(src, st, sizes);
  }

  /** However bad the rest of the input is, the whole events in front of it all arrive before any error. */
  lemma WholeEventsArrive(src: Source, x: seq<byte>, y: seq<byte>, sizes: seq<nat>)
    requires Proper(src) && WholeEvents(src, x)
    requires Deliver(src, Start(x + y), sizes).err.Some?
    ensures Filter(x, false) <= Deliver(src, Start(x + y), sizes).out <= Filter(x + y, false)
  {
    hide Filter, Deliver, WholeEvents, Before, Owed;
    OwedAtStart(src, x, y);
    DeliverReaches(src, Start(x + y), x, y, sizes);
    DeliveredIsPrefixOfFilter(src, x + y, sizes);
  }
}
