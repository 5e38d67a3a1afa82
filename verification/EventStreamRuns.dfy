/** What any schedule of Reads delivers, compared with the filtered input. */
module EventStreamRuns {
  import opened Wrappers
  import opened Bytes
  import opened EventStream

  // ----- the filter, stretch by stretch

  lemma {:induction false} FilterGap(s: seq<byte>)
    ensures var i := IndexOf(s, OPEN_BRACE);
      Filter(s, false) == if i < |s| then [OPEN_BRACE] + Filter(s[i + 1..], true) else []
  {
    if s != [] && s[0] != OPEN_BRACE {
      FilterGap(s[1..]);
      var i := IndexOf(s, OPEN_BRACE);
      if i < |s| {
        assert s[1..][i..] == s[i + 1..];
      }
    }
  }

  lemma IndexOfUnfold(s: seq<byte>, b: byte)
    requires s != []
    ensures IndexOf(s, b) == if s[0] == b then 0 else 1 + IndexOf(s[1..], b)
  {
  }

  /** Putting the first byte back in front of the line and of what follows it. */
  lemma FirstKept(t: seq<byte>, j: nat)
    requires 0 < j <= |t|
    ensures [t[0]] + t[1..] == t
    ensures j < |t| ==>
      && t[1..][j..] == t[j + 1..]
      && [t[0]] + (t[1..][..j] + Filter(t[j + 1..], false)) == t[..j + 1] + Filter(t[j + 1..], false)
  {
    hide Filter;
    if j < |t| {
      assert t[..j + 1] == [t[0]] + t[1..][..j];
    }
  }

  lemma {:induction false} FilterLine(t: seq<byte>)
    ensures var j := IndexOf(t, NEWLINE);
      Filter(t, true) == if j < |t| then t[..j + 1] + Filter(t[j + 1..], false) else t
  {
    hide IndexOf;
    if t == [] {
    } else {
      IndexOfUnfold(t, NEWLINE);
      if t[0] == NEWLINE {
        assert t[..1] == [t[0]];
      } else {
        FilterLine(t[1..]);
        FirstKept(t, IndexOf(t, NEWLINE));
      }
    }
  }

  lemma GapIsDropped(src: Source, s: seq<byte>)
    ensures var gap := ReadSlice(src, s, OPEN_BRACE);
      gap.err == None ==> Filter(s, false) == [OPEN_BRACE] + Filter(gap.rest, true)
  {
    hide Filter;
    FilterGap(s);
  }

  /** Whatever a line read returns begins what the filter keeps from there on. */
  lemma LineIsKept(src: Source, t: seq<byte>)
    ensures var line := ReadSlice(src, t, NEWLINE);
      && line.line <= Filter(t, true)
      && (line.err == None ==> Filter(t, true) == line.line + Filter(line.rest, false))
  {
    FilterLine(t);
  }

  // ----- safety, for every input and every schedule

  /** What is still to come: after a sticky error, at most the leftover. */
  ghost function Pending(st: State): seq<byte> {
    if st.err.Some? then st.leftover else st.leftover + Filter(st.rest, false)
  }

  lemma NothingPending(rest: seq<byte>)
    ensures Pending(State(rest, [], None)) == Filter(rest, false)
  {
    hide Filter;
  }

  lemma Chain<T>(a: seq<T>, b: seq<T>, c: seq<T>)
    ensures a + b + c == a + (b + c)
  {
  }

  /** Cutting a line short keeps the rest of it pending. */
  lemma CutLine(line: Slice, n: nat, whole: seq<byte>)
    requires n <= |line.line| && line.line <= whole
    requires line.err == None ==> whole == line.line + Filter(line.rest, false)
    ensures var after := State(line.rest, line.line[n..], line.err);
      && [OPEN_BRACE] + line.line[..n] + Pending(after) <= [OPEN_BRACE] + whole
      && (line.err == None || whole == line.line ==>
            [OPEN_BRACE] + line.line[..n] + Pending(after) == [OPEN_BRACE] + whole)
  {
    hide Filter;
    assert line.line == line.line[..n] + line.line[n..];
    Chain([OPEN_BRACE], line.line[..n], line.line[n..]);
    if line.err == None {
      Chain(line.line[..n], line.line[n..], Filter(line.rest, false));
      Chain([OPEN_BRACE], line.line[..n], line.line[n..] + Filter(line.rest, false));
    }
  }

  lemma PrefixOfPrefix<T>(a: seq<T>, b: seq<T>, c: seq<T>, d: seq<T>)
    requires b <= c && a + c <= d
    ensures a + b <= d
  {
    assert c == b + c[|b|..];
    assert a + c == a + b + c[|b|..];
  }

  lemma {:induction false} FillIsPrefix(src: Source, rest: seq<byte>, room: nat)
    requires Proper(src)
    ensures var o := Fill(src, rest, room);
      && (o.err == None ==> |o.out| == room && o.out + Pending(o.state) <= Filter(rest, false))
      && (o.err.Some? ==> o.out <= Filter(rest, false))
    decreases room
  {
    hide Filter, ReadSlice, Pending;
    if room == 0 {
      NothingPending(rest);
    } else {
      var gap := ReadSlice(src, rest, OPEN_BRACE);
      if gap.err == None {
        GapIsDropped(src, rest);
        LineIsKept(src, gap.rest);
        var line := ReadSlice(src, gap.rest, NEWLINE);
        var head := [OPEN_BRACE] + line.line;
        if room < |head| {
          CutLine(line, room - 1, Filter(gap.rest, true));
        } else if line.err == None {
          FillIsPrefix(src, line.rest, room - |head|);
          var more := Fill(src, line.rest, room - |head|);
          Chain([OPEN_BRACE], line.line, Filter(line.rest, false));
          PrefixOfPrefix(head, more.out, Filter(line.rest, false), Filter(rest, false));
          if more.err == None {
            PrefixOfPrefix(head, more.out + Pending(more.state), Filter(line.rest, false), Filter(rest, false));
            Chain(head, more.out, Pending(more.state));
          }
        }
      }
    }
  }

  /** A Read without error fills the caller's buffer, and nothing is reordered, dropped or invented. */
  lemma ReadIsPrefix(src: Source, st: State, room: nat)
    requires Proper(src)
    ensures var o := Read(src, st, room);
      && (o.err == None ==> |o.out| == room && o.out + Pending(o.state) <= Pending(st))
      && (o.err.Some? ==> o.out <= Pending(st))
  {
    hide Filter, Fill;
    if st.err.Some? || room <= |st.leftover| {
      var n := if room <= |st.leftover| then room else |st.leftover|;
      assert st.leftover == st.leftover[..n] + st.leftover[n..];
    } else {
      FillIsPrefix(src, st.rest, room - |st.leftover|);
    }
  }

  lemma {:induction false} DeliverIsPrefix(src: Source, st: State, sizes: seq<nat>)
    requires Proper(src)
    ensures var o := Deliver(src, st, sizes);
      && o.out <= Pending(st)
      && (o.err == None ==> o.out + Pending(o.state) <= Pending(st))
    decreases |sizes|
  {
    hide Read, Filter, Pending;
    if sizes == [] {
      assert [] <= Pending(st);
      assert [] + Pending(st) == Pending(st);
    } else {
      ReadIsPrefix(src, st, sizes[0]);
      var first := Read(src, st, sizes[0]);
      if first.err == None {
        DeliverIsPrefix(src, first.state, sizes[1..]);
        var more := Deliver(src, first.state, sizes[1..]);
        PrefixOfPrefix(first.out, more.out, Pending(first.state), Pending(st));
        if more.err == None {
          PrefixOfPrefix(first.out, more.out + Pending(more.state), Pending(first.state), Pending(st));
          Chain(first.out, more.out, Pending(more.state));
        }
      }
    }
  }

  /** Any schedule of buffers receives a prefix of the filtered input. */
  lemma DeliveredIsPrefixOfFilter(src: Source, input: seq<byte>, sizes: seq<nat>)
    requires Proper(src)
    ensures Deliver(src, Start(input), sizes).out <= Filter(input, false)
  {
    hide Filter, Deliver;
    DeliverIsPrefix(src, Start(input), sizes);
  }

  // ----- completeness

  /**
   Every gap before a brace and every line after one fits the bufio buffer, the input after the
   last event is shorter than the buffer, and an unterminated last event has at most one byte after its brace.
   */
  ghost predicate CleanGap(src: Source, s: seq<byte>)
    decreases |s|
  {
    var i := IndexOf(s, OPEN_BRACE);
    if i < |s| then i < src.size && CleanLine(src, s[i + 1..]) else |s| < src.size
  }

  ghost predicate CleanLine(src: Source, t: seq<byte>)
    decreases |t|
  {
    var j := IndexOf(t, NEWLINE);
    if j < |t| then j < src.size && CleanGap(src, t[j + 1..]) else |t| <= 1
  }

  ghost predicate CleanState(src: Source, st: State) {
    if st.err.Some? then st.err == Some(src.end) && |st.leftover| == 1 else CleanGap(src, st.rest)
  }

  ghost predicate Positive(sizes: seq<nat>) {
    forall i :: 0 <= i < |sizes| ==> sizes[i] > 0
  }

  lemma CleanGapRead(src: Source, s: seq<byte>)
    requires CleanGap(src, s)
    ensures var gap := ReadSlice(src, s, OPEN_BRACE);
      if gap.err == None then CleanLine(src, gap.rest) else gap.err == Some(src.end) && Filter(s, false) == []
  {
    hide Filter, CleanLine;
    FilterGap(s);
  }

  lemma CleanLineRead(src: Source, t: seq<byte>)
    requires Proper(src) && CleanLine(src, t)
    ensures var line := ReadSlice(src, t, NEWLINE);
      if line.err == None then CleanGap(src, line.rest)
      else line.err == Some(src.end) && Filter(t, true) == line.line && |line.line| <= 1
  {
    hide Filter, CleanGap;
    FilterLine(t);
  }

  lemma CleanStart(src: Source, rest: seq<byte>)
    requires CleanGap(src, rest)
    ensures CleanState(src, State(rest, [], None))
  {
    hide CleanGap;
  }

  /** Cutting a clean line short leaves a clean state, with exactly the rest of the line pending. */
  lemma CleanCut(src: Source, t: seq<byte>, n: nat)
    requires Proper(src) && CleanLine(src, t) && n < |ReadSlice(src, t, NEWLINE).line|
    ensures var line := ReadSlice(src, t, NEWLINE);
      var after := State(line.rest, line.line[n..], line.err);
      CleanState(src, after) && [OPEN_BRACE] + line.line[..n] + Pending(after) == [OPEN_BRACE] + Filter(t, true)
  {
    hide Filter, ReadSlice, Pending, CleanGap, CleanLine;
    CleanLineRead(src, t);
    LineIsKept(src, t);
    CutLine(ReadSlice(src, t, NEWLINE), n, Filter(t, true));
  }

  lemma {:induction false} CleanFill(src: Source, rest: seq<byte>, room: nat)
    requires Proper(src) && CleanGap(src, rest)
    ensures var o := Fill(src, rest, room);
      && (o.err == None ==> CleanState(src, o.state) && o.out + Pending(o.state) == Filter(rest, false))
      && (o.err.Some? ==> o.err == Some(src.end) && o.out == Filter(rest, false))
    decreases room
  {
    hide Filter, ReadSlice, CleanGap, CleanLine, Pending, CleanState;
    if room == 0 {
      CleanStart(src, rest);
      NothingPending(rest);
    } else {
      var gap := ReadSlice(src, rest, OPEN_BRACE);
      CleanGapRead(src, rest);
      if gap.err == None {
        GapIsDropped(src, rest);
        CleanLineRead(src, gap.rest);
        var line := ReadSlice(src, gap.rest, NEWLINE);
        var head := [OPEN_BRACE] + line.line;
        if room < |head| {
          CleanCut(src, gap.rest, room - 1);
        } else if line.err == None {
          LineIsKept(src, gap.rest);
          CleanFill(src, line.rest, room - |head|);
          var more := Fill(src, line.rest, room - |head|);
          Chain([OPEN_BRACE], line.line, Filter(line.rest, false));
          Chain(head, more.out, Pending(more.state));
        }
      }
    }
  }

  lemma CleanRead(src: Source, st: State, room: nat)
    requires Proper(src) && CleanState(src, st) && room > 0
    ensures var o := Read(src, st, room);
      && (o.err == None ==> CleanState(src, o.state) && o.out + Pending(o.state) == Pending(st) && |o.out| == room)
      && (o.err.Some? ==> o.err == Some(src.end) && o.out == Pending(st))
  {
    hide Filter, Fill, CleanGap, CleanLine;
    ReadIsPrefix(src, st, room);
    if st.err.Some? || room <= |st.leftover| {
      var n := if room <= |st.leftover| then room else |st.leftover|;
      assert st.leftover == st.leftover[..n] + st.leftover[n..];
    } else {
      CleanFill(src, st.rest, room - |st.leftover|);
    }
  }

  lemma {:induction false} CleanDeliver(src: Source, st: State, sizes: seq<nat>)
    requires Proper(src) && CleanState(src, st) && Positive(sizes)
    ensures var o := Deliver(src, st, sizes);
      && (o.err == None ==> |o.out| >= |sizes| && |o.out| <= |Pending(st)|)
      && (o.err.Some? ==> o.err == Some(src.end) && o.out == Pending(st))
    decreases |sizes|
  {
    if sizes == [] {
    } else {
      CleanRead(src, st, sizes[0]);
      var first := Read(src, st, sizes[0]);
      if first.err == None {
        CleanDeliver(src, first.state, sizes[1..]);
      }
    }
  }

  /** The run reached the end of the source and delivered the whole filtered input. */
  ghost predicate Complete(src: Source, input: seq<byte>, sizes: seq<nat>) {
    var o := Deliver(src, Start(input), sizes);
    o.err == Some(src.end) && o.out == Filter(input, false)
  }

  ghost function Ones(n: nat): (r: seq<nat>)
    ensures |r| == n && Positive(r)
  {
    if n == 0 then [] else [1] + Ones(n - 1)
  }

  lemma OnesAreOne(n: nat)
    requires n > 0
    ensures Ones(n)[0] == 1 && Ones(n)[1..] == Ones(n - 1)
  {
  }

  /** The schedule did not deliver all that was pending, or did not stop at the end of the source. */
  ghost predicate Misses(src: Source, st: State, sizes: seq<nat>) {
    var o := Deliver(src, st, sizes);
    !(o.err == Some(src.end) && o.out == Pending(st))
  }

  lemma OnesStep(src: Source, st: State, n: nat)
    requires n > 0 && Read(src, st, 1).err == None
    ensures var first := Read(src, st, 1);
      var more := Deliver(src, first.state, Ones(n - 1));
      Deliver(src, st, Ones(n)) == Outcome(first.out + more.out, more.err, more.state)
  {
    OnesAreOne(n);
  }

  lemma MissesLater(src: Source, st: State, n: nat)
    requires n > 0
    requires var first := Read(src, st, 1);
      && first.err == None && Pending(st) == first.out + Pending(first.state)
      && Misses(src, first.state, Ones(n - 1))
    ensures Misses(src, st, Ones(n))
  {
    hide Filter, Fill, Read, Ones;
    OnesStep(src, st, n);
    var first := Read(src, st, 1);
    var more := Deliver(src, first.state, Ones(n - 1));
    if first.out + more.out == first.out + Pending(first.state) {
      assert more.out == (first.out + more.out)[|first.out|..];
      assert Pending(first.state) == (first.out + Pending(first.state))[|first.out|..];
    }
  }

  lemma UncleanRemains(src: Source, s: seq<byte>)
    requires !CleanGap(src, s)
    requires var gap := ReadSlice(src, s, OPEN_BRACE);
      gap.err == None && ReadSlice(src, gap.rest, NEWLINE).err == None
    ensures !CleanGap(src, ReadSlice(src, ReadSlice(src, s, OPEN_BRACE).rest, NEWLINE).rest)
  {
    hide IndexOf, Filter;
  }

  /** In input that is not clean, a line that hits an error has at least two bytes after its brace. */
  lemma UncleanLine(src: Source, s: seq<byte>)
    requires Proper(src) && !CleanGap(src, s) && ReadSlice(src, s, OPEN_BRACE).err == None
    ensures var line := ReadSlice(src, ReadSlice(src, s, OPEN_BRACE).rest, NEWLINE);
      && line.line != []
      && (line.err.Some? ==> |line.line| >= 2)
      && (line.err == Some(src.end) ==> Filter(s, false) == [OPEN_BRACE] + line.line)
  {
    hide Filter;
    FilterGap(s);
    FilterLine(ReadSlice(src, s, OPEN_BRACE).rest);
  }

  lemma GapErrorMisses(src: Source, st: State, n: nat)
    requires Proper(src) && st.err == None && st.leftover == [] && !CleanGap(src, st.rest) && n > 0
    requires ReadSlice(src, st.rest, OPEN_BRACE).err.Some?
    ensures Misses(src, st, Ones(n))
  {
    assert Ones(n)[0] == 1;
    assert Read(src, st, 1).err == Some(BufferFull);
  }

  /** The line overflows the buffer, or the input ends two or more bytes after the brace. */
  lemma LineErrorMisses(src: Source, st: State, n: nat)
    requires Proper(src) && st.err == None && st.leftover == [] && !CleanGap(src, st.rest) && n > |Pending(st)|
    requires var gap := ReadSlice(src, st.rest, OPEN_BRACE);
      gap.err == None && ReadSlice(src, gap.rest, NEWLINE).err.Some?
    ensures Misses(src, st, Ones(n))
  {
    hide Filter, Ones, ReadSlice, IndexOf, CleanGap, CleanLine;
    var line := ReadSlice(src, ReadSlice(src, st.rest, OPEN_BRACE).rest, NEWLINE);
    UncleanLine(src, st.rest);
    LineIsKept(src, ReadSlice(src, st.rest, OPEN_BRACE).rest);
    GapIsDropped(src, st.rest);
    var first := Read(src, st, 1);
    assert first.out == [OPEN_BRACE] && first.err == None && first.state == State(line.rest, line.line, line.err);
    OnesStep(src, st, n);
    OnesAreOne(n - 1);
    assert Deliver(src, first.state, Ones(n - 1)).out == line.line[..1];
  }

  /** One-byte buffers expose every input that is not clean. */
  lemma {:induction false} OnesMiss(src: Source, st: State, n: nat)
    requires Proper(src) && st.err == None && !CleanGap(src, st.rest) && n > |Pending(st)|
    ensures Misses(src, st, Ones(n))
    decreases n
  {
    hide Filter, Deliver, Misses, Ones, ReadSlice, IndexOf, CleanGap, CleanLine;
    var first := Read(src, st, 1);
    if st.leftover != [] {
      assert st.leftover == st.leftover[..1] + st.leftover[1..];
      Chain(st.leftover[..1], st.leftover[1..], Filter(st.rest, false));
      OnesMiss(src, first.state, n - 1);
      MissesLater(src, st, n);
    } else {
      var gap := ReadSlice(src, st.rest, OPEN_BRACE);
      if gap.err == None {
        var line := ReadSlice(src, gap.rest, NEWLINE);
        GapIsDropped(src, st.rest);
        LineIsKept(src, gap.rest);
        UncleanLine(src, st.rest);
        assert first.out == [OPEN_BRACE] && first.state == State(line.rest, line.line, line.err);
        if line.err == None {
          UncleanRemains(src, st.rest);
          OnesMiss(src, first.state, n - 1);
          MissesLater(src, st, n);
        } else {
          LineErrorMisses(src, st, n);
        }
      } else {
        GapErrorMisses(src, st, n);
      }
    }
  }

  /** Every long enough schedule of non-empty buffers receives everything exactly when the input is clean. */
  lemma CompleteIffClean(src: Source, input: seq<byte>)
    requires Proper(src)
    ensures CleanGap(src, input) <==>
      forall sizes :: Positive(sizes) && |sizes| > |Filter(input, false)| ==> Complete(src, input, sizes)
  {
    if CleanGap(src, input) {
      forall sizes | Positive(sizes) && |sizes| > |Filter(input, false)| ensures Complete(src, input, sizes) {
        CleanDeliver(src, Start(input), sizes);
      }
    } else {
      var n := |Filter(input, false)| + 1;
      OnesMiss(src, Start(input), n);
      assert !Complete(src, input, Ones(n));
    }
  }

  /** The unterminated input "{ab", read through one-byte buffers: its last byte is never delivered. */
  lemma UnterminatedEventIsCut(src: Source)
    requires Proper(src)
    ensures var input: seq<byte> := [123, 97, 98];
      && Filter(input, false) == input && !CleanGap(src, input)
      && Deliver(src, Start(input), [1, 1, 1]).out == [123, 97]
      && Deliver(src, Start(input), [1, 1, 1]).err == Some(src.end)
  {
    var input: seq<byte> := [OPEN_BRACE, 97, 98];
    var line: seq<byte> := [97, 98];
    assert input[1..] == line;
    assert IndexOf(input, OPEN_BRACE) == 0 && IndexOf(line, NEWLINE) == 2;
    assert ReadSlice(src, input, OPEN_BRACE) == Slice([OPEN_BRACE], None, line);
    assert ReadSlice(src, line, NEWLINE) == Slice(line, Some(src.end), []);
    FilterGap(input);
    FilterLine(line);
    assert Read(src, Start(input), 1) == Outcome([OPEN_BRACE], None, State([], line, Some(src.end)));
    assert Read(src, State([], line, Some(src.end)), 1) == Outcome([97], Some(src.end), State([], [98], Some(src.end)));
    var sizes: seq<nat> := [1, 1, 1];
    assert sizes[1..] == [1, 1];
  }
}
