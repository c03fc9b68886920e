/** The parent's side of the pipe in `nixfs_readlink`
    (nixfs/src/nixfs.c): a bounded read loop over the child's standard
    output into the caller's buffer, and the cut at the first newline. The
    pipe is an oracle: the answers successive `read` calls get. */
module ChildOutput {
  import opened Posix

  /** What the next `read` on the pipe meets: bytes the child wrote,
      `EAGAIN`/`EWOULDBLOCK`, or any other error. The end of the sequence is
      end of file, and so is an empty chunk. */
  datatype PipeEvent = Chunk(bytes: string) | Again | Fault

  /** The outcome of one `read(fd, …, want)`: some bytes and what is left in
      the pipe, a retry, an error, or 0 bytes at end of file. */
  datatype ReadResult = Bytes(data: string, rest: seq<PipeEvent>) | Retry(rest: seq<PipeEvent>) | Error | EndOfFile

  /** `read` returns at most `want` bytes of the next chunk; what it does
      not take stays in the pipe. */
  function ReadPipe(pipe: seq<PipeEvent>, want: nat): (r: ReadResult)
    requires want > 0
    ensures r.Bytes? ==> 0 < |r.data| <= want
    ensures r.Retry? ==> |r.rest| < |pipe|
  {
    if pipe == [] then EndOfFile
    else match pipe[0]
      case Chunk(d) =>
        if d == [] then EndOfFile
        else if |d| <= want then Bytes(d, pipe[1..])
        else Bytes(d[..want], [Chunk(d[want..])] + pipe[1..])
      case Again => Retry(pipe[1..])
      case Fault => Error
  }

  /** Everything the child's output delivers before end of file or the
      first error. */
  function Written(pipe: seq<PipeEvent>): string
  {
    if pipe == [] then []
    else match pipe[0]
      case Chunk(d) => if d == [] then [] else d + Written(pipe[1..])
      case Again => Written(pipe[1..])
      case Fault => []
  }

  /** The output ends in an error rather than at end of file. */
  predicate Breaks(pipe: seq<PipeEvent>)
  {
    if pipe == [] then false
    else match pipe[0]
      case Chunk(d) => d != [] && Breaks(pipe[1..])
      case Again => Breaks(pipe[1..])
      case Fault => true
  }

  /** Each `read` takes its bytes off the front of the output, and a retry
      loses nothing; an error or end of file leaves no more to read. */
  lemma ReadPipeStep(pipe: seq<PipeEvent>, want: nat)
    requires want > 0
    ensures match ReadPipe(pipe, want)
      case Bytes(data, rest) => Written(pipe) == data + Written(rest) && Breaks(pipe) == Breaks(rest)
      case Retry(rest) => Written(pipe) == Written(rest) && Breaks(pipe) == Breaks(rest)
      case Error => Written(pipe) == [] && Breaks(pipe)
      case EndOfFile => Written(pipe) == [] && !Breaks(pipe)
  {
    if pipe != [] && pipe[0].Chunk? && pipe[0].bytes != [] {
      if |pipe[0].bytes| <= want {
        WholeChunk(pipe, want);
      } else {
        SplitChunk(pipe, want);
      }
    }
  }

  /** A chunk that fits is read whole. */
  lemma WholeChunk(pipe: seq<PipeEvent>, want: nat)
    requires want > 0 && pipe != [] && pipe[0].Chunk?
    requires pipe[0].bytes != [] && |pipe[0].bytes| <= want
    ensures ReadPipe(pipe, want) == Bytes(pipe[0].bytes, pipe[1..])
    ensures Written(pipe) == pipe[0].bytes + Written(pipe[1..]) && Breaks(pipe) == Breaks(pipe[1..])
  {
  }

  /** A chunk larger than the request is split: the rest stays in front. */
  lemma SplitChunk(pipe: seq<PipeEvent>, want: nat)
    requires want > 0 && pipe != [] && pipe[0].Chunk? && |pipe[0].bytes| > want
    ensures var d := pipe[0].bytes; var rest := [Chunk(d[want..])] + pipe[1..];
      ReadPipe(pipe, want) == Bytes(d[..want], rest) &&
      Written(pipe) == d[..want] + Written(rest) && Breaks(pipe) == Breaks(rest)
  {
    var d := pipe[0].bytes;
    var rest := [Chunk(d[want..])] + pipe[1..];
    assert rest[0] == Chunk(d[want..]) && rest[1..] == pipe[1..];
    assert Written(rest) == d[want..] + Written(pipe[1..]);
    assert d == d[..want] + d[want..];
  }

  /** What the loop leaves for a buffer with `room` bytes to fill: the
      first `room` bytes of the output, or None (`-EIO`) when the output
      breaks before that many arrive. */
  function Collected(pipe: seq<PipeEvent>, room: nat): (r: Option<string>)
    ensures r.None? <==> Breaks(pipe) && |Written(pipe)| < room
    ensures r.Some? ==> r.value <= Written(pipe) && |r.value| <= room
    ensures r.Some? && |r.value| < room ==> r.value == Written(pipe)
  {
    var w := Written(pipe);
    if |w| < room && Breaks(pipe) then None
    else if |w| <= room then Some(w)
    else Some(w[..room])
  }

  /** The read loop: read into `buf + total` for at most the room left,
      retry on `EAGAIN`, give up on any other error, stop at end of file or
      once `size - 1` bytes are in. Nothing past those bytes is written. */
  method ReadAll(pipe: seq<PipeEvent>, buf: array<char>, size: nat) returns (ok: bool, total: nat)
    requires 1 <= size <= buf.Length
    modifies buf
    ensures total <= size - 1
    ensures ok <==> Collected(pipe, size - 1).Some?
    ensures ok ==> buf[..total] == Collected(pipe, size - 1).value
    ensures forall i :: total <= i < buf.Length ==> buf[i] == old(buf[i])
  {
    var rest := pipe;
    ghost var got: string := [];
    total := 0;
    while total < size - 1
      invariant total <= size - 1
      invariant |got| == total && buf[..total] == got
      invariant Remains(pipe, got, rest)
      invariant forall i :: total <= i < buf.Length ==> buf[i] == old(buf[i])
      decreases size - 1 - total, |rest|
    {
      var r := ReadPipe(rest, size - 1 - total);
      Advance(pipe, got, rest, size - 1 - total);
      match r
      case Retry(next) =>
        rest := next;
      case Error =>
        BrokenEarly(pipe, got, rest, size - 1);
        return false, total;
      case EndOfFile =>
        break;
      case Bytes(data, next) =>
        Place(buf, total, data);
        got := got + data;
        total := total + |data|;
        rest := next;
    }
    CollectedAll(pipe, got, rest, size - 1);
    ok := true;
  }

  /** The bytes read so far followed by what is left in the pipe are the
      whole output, and the pipe still ends the way it did. */
  predicate Remains(pipe: seq<PipeEvent>, got: string, rest: seq<PipeEvent>)
  {
    got + Written(rest) == Written(pipe) && Breaks(rest) == Breaks(pipe)
  }

  /** One `read` keeps `Remains`: bytes move from the pipe to `got`, a
      retry moves nothing; an error or end of file leaves no more output. */
  lemma Advance(pipe: seq<PipeEvent>, got: string, rest: seq<PipeEvent>, want: nat)
    requires want > 0 && Remains(pipe, got, rest)
    ensures match ReadPipe(rest, want)
      case Bytes(data, next) => Remains(pipe, got + data, next)
      case Retry(next) => Remains(pipe, got, next)
      case Error => Written(rest) == [] && Breaks(rest)
      case EndOfFile => Written(rest) == [] && !Breaks(rest)
  {
    ReadPipeStep(rest, want);
    match ReadPipe(rest, want)
    case Bytes(data, next) =>
      assert (got + data) + Written(next) == got + (data + Written(next));
    case Retry(next) =>
    case Error =>
    case EndOfFile =>
  }

  /** An error before the buffer is full loses the read: None. */
  lemma BrokenEarly(pipe: seq<PipeEvent>, got: string, rest: seq<PipeEvent>, room: nat)
    requires Remains(pipe, got, rest) && Written(rest) == [] && Breaks(rest) && |got| < room
    ensures Collected(pipe, room).None?
  {
    assert got + [] == got;
  }

  /** Once the buffer is full, or the output ended cleanly, the bytes read
      are what the loop collects. */
  lemma CollectedAll(pipe: seq<PipeEvent>, got: string, rest: seq<PipeEvent>, room: nat)
    requires Remains(pipe, got, rest) && |got| <= room
    requires |got| == room || (Written(rest) == [] && !Breaks(rest))
    ensures Collected(pipe, room) == Some(got)
  {
    var w := Written(pipe);
    assert w == got + Written(rest);
    if |got| == room {
      if |w| == room {
        assert Written(rest) == [] && got + [] == got;
      } else {
        assert w[..room] == got;
      }
    } else {
      assert got + [] == got;
    }
  }

  /** What one `read` does to the buffer: `data` lands at `at`, nothing
      else changes. */
  method Place(buf: array<char>, at: nat, data: string)
    requires at + |data| <= buf.Length
    modifies buf
    ensures buf[..at] == old(buf[..at])
    ensures buf[at..at + |data|] == data
    ensures forall i :: at + |data| <= i < buf.Length ==> buf[i] == old(buf[i])
  {
    forall k | 0 <= k < |data| {
      buf[at + k] := data[k];
    }
  }

  /** `strcspn(buf, "\n")`: the length of the leading run of `s` that holds
      neither a newline nor a NUL. */
  function Span(s: string): (n: nat)
    ensures n <= |s|
    ensures forall k :: 0 <= k < n ==> s[k] != '\n' && s[k] != '\0'
    ensures n < |s| ==> s[n] == '\n' || s[n] == '\0'
  {
    if s == [] || s[0] == '\n' || s[0] == '\0' then 0 else 1 + Span(s[1..])
  }

  /** The terminator written after the output does not move the span. */
  lemma {:induction false} SpanTerminated(s: string)
    ensures Span(s + ['\0']) == Span(s)
  {
    if s != [] && s[0] != '\n' && s[0] != '\0' {
      assert (s + ['\0'])[1..] == s[1..] + ['\0'];
      SpanTerminated(s[1..]);
    }
  }

  /** The link target: the output before its first newline (a NUL in the
      output ends the C string there too). */
  function FirstLine(out: string): (r: string)
    ensures r <= out && '\n' !in r && '\0' !in r
    ensures |r| < |out| ==> out[|r|] == '\n' || out[|r|] == '\0'
  {
    out[..Span(out)]
  }

  /** A line followed by a newline yields that line, whatever follows. */
  lemma FirstLineOf(line: string, more: string)
    requires '\n' !in line && '\0' !in line
    ensures FirstLine(line + "\n" + more) == line
  {
    var out := line + "\n" + more;
    assert out[|line|] == '\n';
    assert forall k :: 0 <= k < |line| ==> out[k] == line[k];
    assert line == out[..|line|];
  }
}
