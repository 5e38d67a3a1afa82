/**
 The event reader on values: what it should keep of its input (`Filter`), what `bufio.ReadSlice`
 promises, and what one `Read` and a whole schedule of Reads hand to the caller.
 */
module EventStream {
  import opened Wrappers
  import opened Bytes

  const OPEN_BRACE: byte := 123
  const NEWLINE: byte := 10

  /** Keeps every stretch from an opening brace through the next newline, byte by byte. */
  ghost function Filter(s: seq<byte>, inEvent: bool): seq<byte> {
    if s == [] then []
    else if inEvent then [s[0]] + Filter(s[1..], s[0] != NEWLINE)
    else if s[0] == OPEN_BRACE then [s[0]] + Filter(s[1..], true)
    else Filter(s[1..], false)
  }

  // ----- bufio.Reader

  datatype Error = EndOfFile | BufferFull | SourceFailed

  /** The size of the bufio buffer, and the error the underlying reader ends with. */
  datatype Source = Source(size: nat, end: Error)

  ghost predicate Proper(src: Source) {
    src.size >= 16 && src.end != BufferFull
  }

  ghost function IndexOf(s: seq<byte>, b: byte): (i: nat)
    ensures i <= |s| && (i < |s| ==> s[i] == b)
    ensures forall k :: 0 <= k < i ==> s[k] != b
  {
    if s == [] || s[0] == b then 0 else 1 + IndexOf(s[1..], b)
  }

  datatype Slice = Slice(line: seq<byte>, err: Option<Error>, rest: seq<byte>)

  /** Reads through the first delimiter, unless the buffer fills up or the input ends before it. */
  ghost function ReadSlice(src: Source, rest: seq<byte>, delim: byte): Slice {
    var i := IndexOf(rest, delim);
    if i < |rest| && i < src.size then Slice(rest[..i + 1], None, rest[i + 1..])
    else if |rest| >= src.size then Slice(rest[..src.size], Some(BufferFull), rest[src.size..])
    else Slice(rest, Some(src.end), [])
  }

  // ----- eventJSONReader

  /** `rest` is the input not yet taken from bufio; `err` is the reader's sticky error. */
  datatype State = State(rest: seq<byte>, leftover: seq<byte>, err: Option<Error>)

  ghost function Start(input: seq<byte>): State {
    State(input, [], None)
  }

  datatype Outcome = Outcome(out: seq<byte>, err: Option<Error>, state: State)

  /** The loop of `Read`, with `room` bytes left in the caller's buffer. */
  ghost function Fill(src: Source, rest: seq<byte>, room: nat): Outcome
    decreases room
  {
    if room == 0 then Outcome([], None, State(rest, [], None))
    else
      var gap := ReadSlice(src, rest, OPEN_BRACE);
      if gap.err.Some? then Outcome([], gap.err, State(gap.rest, [], None))
      else
        var line := ReadSlice(src, gap.rest, NEWLINE);
        if room - 1 < |line.line| then
          Outcome([OPEN_BRACE] + line.line[..room - 1], None, State(line.rest, line.line[room - 1..], line.err))
        else if line.err.Some? then
          Outcome([OPEN_BRACE] + line.line, line.err, State(line.rest, [], None))
        else
          var more := Fill(src, line.rest, room - 1 - |line.line|);
          Outcome([OPEN_BRACE] + line.line + more.out, more.err, more.state)
  }

  ghost function Read(src: Source, st: State, room: nat): Outcome {
    if st.err.Some? || room <= |st.leftover| then
      var n := if room <= |st.leftover| then room else |st.leftover|;
      Outcome(st.leftover[..n], st.err, State(st.rest, st.leftover[n..], st.err))
    else
      var more := Fill(src, st.rest, room - |st.leftover|);
      Outcome(st.leftover + more.out, more.err, more.state)
  }

  /** A schedule of Reads, given by its buffer sizes, up to and including the first error. */
  ghost function Deliver(src: Source, st: State, sizes: seq<nat>): Outcome
    decreases |sizes|
  {
    if sizes == [] then Outcome([], None, st)
    else
      var first := Read(src, st, sizes[0]);
      if first.err.Some? then first
      else
        var more := Deliver(src, first.state, sizes[1..]);
        Outcome(first.out + more.out, more.err, more.state)
  }
}
