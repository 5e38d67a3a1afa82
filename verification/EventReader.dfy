/** The event reader as an object: caller buffers are arrays, and `leftover` is a window onto bufio's own buffer. */
module EventReader {
  import opened Wrappers
  import opened Bytes
  import EventStream
  import opened EventStreamErrors
  import opened EventStreamLoss
  import opened EventStreamRuns

  type Error = EventStream.Error

  class BufioReader {
    const src: EventStream.Source
    const buf: array<byte>
    // What the underlying reader has yet to give, together with what is already buffered of it.
    var rest: seq<byte>

    ghost predicate Valid() {
      EventStream.Proper(src) && buf.Length == src.size
    }

    constructor (src: EventStream.Source, input: seq<byte>)
      requires EventStream.Proper(src)
      ensures Valid() && this.src == src && rest == input && fresh(buf)
    {
      this.src := src;
      rest := input;
      buf := new byte[src.size];
    }

    /**
     Returns a window onto `buf`, whose former contents are overwritten. `held` is the number of
     bytes in it that the caller still needs; there must be none.
     */
    method ReadSlice(delim: byte, ghost held: nat) returns (lo: nat, hi: nat, err: Option<Error>)
      requires Valid() && held == 0
      modifies `rest, buf
      ensures lo <= hi <= buf.Length
      ensures EventStream.ReadSlice(src, old(rest), delim) == EventStream.Slice(buf[lo..hi], err, rest)
    {
      var n := 0;
      while n < |rest| && n < src.size && rest[n] != delim
        invariant n <= |rest| && n <= src.size
        invariant forall k :: 0 <= k < n ==> rest[k] != delim
      {
        n := n + 1;
      }
      var take;
      if n < |rest| && n < src.size {
        take, err := n + 1, None;
      } else if n == src.size {
        take, err := n, Some(EventStream.BufferFull);
      } else {
        take, err := n, Some(src.end);
      }
      forall i | 0 <= i < take {
        buf[i] := rest[i];
      }
      lo, hi := 0, take;
      rest := rest[take..];
    }
  }

  /** Go's `copy` into `dst[at..]`. */
  method Copy(dst: array<byte>, at: nat, src: array<byte>, lo: nat, hi: nat) returns (n: nat)
    requires dst != src && at <= dst.Length && lo <= hi <= src.Length
    modifies dst
    ensures n == if dst.Length - at < hi - lo then dst.Length - at else hi - lo
    ensures dst[..at + n] == old(dst[..at]) + src[lo..lo + n]
    ensures dst[at + n..] == old(dst[at + n..])
  {
    n := if dst.Length - at < hi - lo then dst.Length - at else hi - lo;
    forall i | at <= i < at + n {
      dst[i] := src[lo + (i - at)];
    }
  }

  method Put(p: array<byte>, n: nat, b: byte)
    requires n < p.Length
    modifies p
    ensures p[..n + 1] == old(p[..n]) + [b]
    ensures p[n + 1..] == old(p[n + 1..])
  {
    p[n] := b;
  }

  lemma CutWindow(a: array<byte>, lo: nat, mid: nat, hi: nat)
    requires lo <= mid <= hi <= a.Length
    ensures a[lo..mid] == a[lo..hi][..mid - lo] && a[mid..hi] == a[lo..hi][mid - lo..]
  {
  }

  /** One turn of the loop, with `pre` already delivered. */
  lemma FillTurn(src: EventStream.Source, rest: seq<byte>, room: nat, pre: seq<byte>)
    requires room > 0
    ensures var f := EventStream.Fill(src, rest, room);
      var gap := EventStream.ReadSlice(src, rest, EventStream.OPEN_BRACE);
      var line := EventStream.ReadSlice(src, gap.rest, EventStream.NEWLINE);
      var braced := pre + [EventStream.OPEN_BRACE];
      if gap.err.Some? then
        pre + f.out == pre && f.err == gap.err && f.state == EventStream.State(gap.rest, [], None)
      else if room - 1 < |line.line| then
        && pre + f.out == braced + line.line[..room - 1] && f.err == None
        && f.state == EventStream.State(line.rest, line.line[room - 1..], line.err)
      else if line.err.Some? then
        pre + f.out == braced + line.line && f.err == line.err && f.state == EventStream.State(line.rest, [], None)
      else
        var more := EventStream.Fill(src, line.rest, room - 1 - |line.line|);
        pre + f.out == braced + line.line + more.out && f.err == more.err && f.state == more.state
  {
    hide EventStream.ReadSlice;
    var gap := EventStream.ReadSlice(src, rest, EventStream.OPEN_BRACE);
    if gap.err == None {
      var line := EventStream.ReadSlice(src, gap.rest, EventStream.NEWLINE);
      if room - 1 < |line.line| {
        Chain(pre, [EventStream.OPEN_BRACE], line.line[..room - 1]);
      } else {
        Chain(pre, [EventStream.OPEN_BRACE], line.line);
        if line.err == None {
          var more := EventStream.Fill(src, line.rest, room - 1 - |line.line|);
          Chain(pre, [EventStream.OPEN_BRACE] + line.line, more.out);
        }
      }
    }
  }

  lemma FillNothing(src: EventStream.Source, rest: seq<byte>)
    ensures EventStream.Fill(src, rest, 0) == EventStream.Outcome([], None, EventStream.State(rest, [], None))
  {
  }

  class EventJSONReader {
    const r: BufioReader
    // leftover is r.buf[lo..hi]
    var lo: nat
    var hi: nat
    var err: Option<Error>

    ghost predicate Valid()
      reads this
    {
      r.Valid() && lo <= hi <= r.buf.Length
    }

    ghost function View(): EventStream.State
      requires Valid()
      reads this, r, r.buf
    {
      EventStream.State(r.rest, r.buf[lo..hi], err)
    }

    constructor (input: seq<byte>, end: Error)
      requires end != EventStream.BufferFull
      ensures Valid() && fresh(r) && fresh(r.buf) && r.src == EventStream.Source(128 * 1024, end)
      ensures View() == EventStream.Start(input)
    {
      r := new BufioReader(EventStream.Source(128 * 1024, end), input);
      lo, hi, err := 0, 0, None;
    }

    /** Hands over as much of the leftover as fits. */
    method TakeLeftover(p: array<byte>) returns (n: nat)
      requires Valid() && p != r.buf
      modifies `lo, p
      ensures Valid() && n == if p.Length < old(hi - lo) then p.Length else old(hi - lo)
      ensures lo == old(lo) + n
      ensures p[..n] == old(View().leftover)[..n] && p[n..] == old(p[n..])
      ensures View() == EventStream.State(r.rest, old(View().leftover)[n..], err)
    {
      n := 0;
      if hi - lo > 0 {
        n := Copy(p, 0, r.buf, lo, hi);
        CutWindow(r.buf, lo, lo + n, hi);
        lo := lo + n;
      }
    }

    /** Reads the rest of a line; what does not fit becomes the leftover, with its error kept for later. */
    method ReadLine(p: array<byte>, at: nat) returns (n: nat, stop: bool, e: Option<Error>)
      requires Valid() && p != r.buf && at <= p.Length && lo == hi && err == None
      modifies this, r, r.buf, p
      ensures Valid() && at <= n <= p.Length && p[n..] == old(p[n..])
      ensures var line := EventStream.ReadSlice(r.src, old(r.rest), EventStream.NEWLINE);
        var room := p.Length - at;
        if room < |line.line| then
          && stop && e == None && p[..n] == old(p[..at]) + line.line[..room]
          && View() == EventStream.State(line.rest, line.line[room..], line.err)
        else
          && stop == line.err.Some? && e == line.err && n == at + |line.line| && p[..n] == old(p[..at]) + line.line
          && lo == hi && err == None && r.rest == line.rest
    {
      hide EventStream.ReadSlice;
      var a, b;
      a, b, e := r.ReadSlice(EventStream.NEWLINE, hi - lo);
      n := Copy(p, at, r.buf, a, b);
      if n < b - a {
        CutWindow(r.buf, a, a + n, b);
        lo, hi := a + n, b;
        err := e;
        return at + n, true, None;
      }
      return at + n, e.Some?, e;
    }

    /** One turn of the loop of `Read`: finds the next event and copies what fits of it to `p[at..]`. */
    method ReadEvent(p: array<byte>, at: nat) returns (n: nat, stop: bool, e: Option<Error>)
      requires Valid() && p != r.buf && at < p.Length && lo == hi && err == None
      modifies this, r, r.buf, p
      ensures Valid() && at <= n <= p.Length && p[n..] == old(p[n..])
      ensures var f := EventStream.Fill(r.src, old(r.rest), p.Length - at);
        var whole := EventStream.Outcome(old(p[..at]) + f.out, f.err, f.state);
        if stop then whole == EventStream.Outcome(p[..n], e, View())
        else
          var more := EventStream.Fill(r.src, r.rest, p.Length - n);
          n > at && lo == hi && err == None && whole == EventStream.Outcome(p[..n] + more.out, more.err, more.state)
    {
      hide EventStream.ReadSlice, EventStream.Fill;
      FillTurn(r.src, r.rest, p.Length - at, p[..at]);
      var a, b;
      a, b, e := r.ReadSlice(EventStream.OPEN_BRACE, hi - lo);
      if e.Some? {
        return at, true, e;
      }
      Put(p, at, EventStream.OPEN_BRACE);
      n, stop, e := ReadLine(p, at + 1);
    }

    method Read(p: array<byte>) returns (n: nat, e: Option<Error>)
      requires Valid() && p != r.buf
      modifies this, r, r.buf, p
      ensures Valid() && n <= p.Length
      ensures EventStream.Read(r.src, old(View()), p.Length) == EventStream.Outcome(p[..n], e, View())
      ensures p[n..] == old(p[n..])
    {
      hide EventStream.ReadSlice, EventStream.Fill;
      ghost var o := EventStream.Read(r.src, View(), p.Length);
      n := TakeLeftover(p);
      if err.Some? {
        return n, err;
      }
      while n < p.Length
        invariant Valid() && n <= p.Length && p[n..] == old(p[n..])
        invariant if n == p.Length then o == EventStream.Outcome(p[..n], None, View()) else
                  var more := EventStream.Fill(r.src, r.rest, p.Length - n);
                  lo == hi && err == None && o == EventStream.Outcome(p[..n] + more.out, more.err, more.state)
      {
        var stop;
        n, stop, e := ReadEvent(p, n);
        if stop {
          return;
        }
        FillNothing(r.src, r.rest);
      }
      return n, None;
    }
  }

  /** A consumer that Reads into fresh buffers of the given sizes until the first error. */
  method Consume(r: EventJSONReader, sizes: seq<nat>) returns (out: seq<byte>, e: Option<Error>)
    requires r.Valid()
    modifies r, r.r, r.r.buf
    ensures r.Valid() && EventStream.Deliver(r.r.src, old(r.View()), sizes) == EventStream.Outcome(out, e, r.View())
    decreases |sizes|
  {
    hide EventStream.Read;
    if sizes == [] {
      return [], None;
    }
    var p := new byte[sizes[0]];
    var n;
    n, e := r.Read(p);
    out := p[..n];
    if e == None {
      var rest;
      rest, e := Consume(r, sizes[1..]);
      out := out + rest;
    }
  }

  /** A new reader delivers a prefix of the filtered input, and on clean input all of it, in any buffers. */
  method ReadAll(input: seq<byte>, end: Error, sizes: seq<nat>) returns (out: seq<byte>, e: Option<Error>)
    requires end != EventStream.BufferFull
    ensures out <= EventStream.Filter(input, false)
    ensures var src := EventStream.Source(128 * 1024, end);
      CleanGap(src, input) && Positive(sizes) && |sizes| > |EventStream.Filter(input, false)| ==>
      out == EventStream.Filter(input, false) && e == Some(end)
    ensures var src := EventStream.Source(128 * 1024, end);
      e.Some? ==>
        e == if exists n :: 0 <= n <= |input| && WholeEvents(src, input[..n]) && Overflows(src, input[n..])
             then Some(EventStream.BufferFull) else Some(end)
  {
    hide EventStream.Filter, EventStream.Deliver, CleanGap, WholeEvents, Overflows;
    var r := new EventJSONReader(input, end);
    DeliveredIsPrefixOfFilter(r.r.src, input, sizes);
    CompleteIffClean(r.r.src, input);
    assert CleanGap(r.r.src, input) && Positive(sizes) && |sizes| > |EventStream.Filter(input, false)| ==>
      Complete(r.r.src, input, sizes);
    if EventStream.Deliver(r.r.src, EventStream.Start(input), sizes).err.Some? {
      RunEndsWith(r.r.src, input, sizes);
    }
    out, e := Consume(r, sizes);
  }
}
