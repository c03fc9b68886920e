/** `nixfs_readlink` of nixfs/src/nixfs.c end to end: the front end, the
    child that runs `nix build`, the read loop, the newline cut and the
    mapping of failures to error numbers. Process creation and the build
    tool are an oracle. */
module NixReadlink {
  import opened Posix
  import opened Tokenizer
  import opened NixFs
  import opened NixBuild
  import opened ChildOutput

  /** How `waitpid` reports the child's end: a normal exit with its 8-bit
      exit code, or death by a signal. */
  datatype WaitStatus = Exited(code: nat) | Signaled(signal: nat)

  /** One run of the build command: its standard output as the parent's
      reads see it, and how it ends. */
  datatype ChildRun = ChildRun(output: seq<PipeEvent>, status: WaitStatus)

  /** The operating system as `nixfs_readlink` meets it: whether `pipe` and
      `fork` succeed, and what `nix` does with a given argument vector. */
  datatype Host = Host(pipeOk: bool, forkOk: bool, nix: seq<string> -> ChildRun)

  /** `WEXITSTATUS(wstatus)` as the code reads it: the exit code of a normal
      exit, and the zero bits it finds there when a signal killed the
      child. */
  function ExitStatusAsWritten(w: WaitStatus): nat
  {
    match w
    case Exited(c) => c
    case Signaled(_) => 0
  }

  /** The result the code derives from the wait status, as written. */
  function StatusResultAsWritten(w: WaitStatus): int
  {
    if ExitStatusAsWritten(w) != 0 then -ENOENT else 0
  }

  /** The result as intended: only a normal exit with code 0 is a finished
      build; anything else is `-ENOENT`. */
  function StatusResult(w: WaitStatus): (r: int)
    ensures r == 0 || r == -ENOENT
    ensures r == 0 <==> w.Exited? && w.code == 0
  {
    if w.Exited? && w.code == 0 then 0 else -ENOENT
  }

  /** As written, a build killed by a signal (say SIGKILL, 9) counts as a
      success; as intended it is `-ENOENT`. */
  lemma KilledBuildAsWritten()
    ensures StatusResultAsWritten(Signaled(9)) == 0
    ensures StatusResult(Signaled(9)) == -ENOENT
  {
  }

  /** The two mappings differ only on killed children. */
  lemma StatusResultAgrees(w: WaitStatus)
    ensures w.Exited? ==> StatusResult(w) == StatusResultAsWritten(w)
    ensures StatusResult(w) == 0 ==> StatusResultAsWritten(w) == 0
  {
  }

  /** What `readlink` ends with: an error number, or the link target. */
  datatype LinkOutcome = Refused(code: int) | Target(text: string)

  /** The outcome of reading the link at `path` into a `size`-byte buffer:
      an unknown namespace or a rejected spec is `-ENOENT`; a failed `pipe`
      or `fork`, or an output that breaks before filling the buffer, is
      `-EIO`; a failed build is `-ENOENT`; otherwise the target is the
      first line of the first `size - 1` output bytes. */
  function Readlinked(path: string, size: nat, base64: string -> string, host: Host): LinkOutcome
    requires Dereferenceable(Tokens(path)) && size >= 1
  {
    match LinkRequest(Tokens(path), base64)
    case None => Refused(-ENOENT)
    case Some(req) =>
      if !host.pipeOk || !host.forkOk then Refused(-EIO)
      else
        var run := host.nix(Argv(req));
        match Collected(run.output, size - 1)
        case None => Refused(-EIO)
        case Some(out) =>
          if StatusResult(run.status) != 0 then Refused(StatusResult(run.status))
          else Target(FirstLine(out))
  }

  /** The outcomes are the three results `readlink` returns, and a target
      always fits the buffer with its terminator. */
  lemma ReadlinkedResults(path: string, size: nat, base64: string -> string, host: Host)
    requires Dereferenceable(Tokens(path)) && size >= 1
    ensures var o := Readlinked(path, size, base64, host);
      (o.Refused? ==> o.code == -ENOENT || o.code == -EIO) &&
      (o.Target? ==> |o.text| < size && '\n' !in o.text && '\0' !in o.text)
  {
  }

  /** The errors in the order the code meets them: a bad path before any
      process is made, `-EIO` for the plumbing and the pipe before the exit
      status is looked at. */
  lemma ReadlinkedErrors(path: string, size: nat, base64: string -> string, host: Host)
    requires Dereferenceable(Tokens(path)) && size >= 1
    ensures LinkRequest(Tokens(path), base64).None? ==> Readlinked(path, size, base64, host) == Refused(-ENOENT)
    ensures LinkRequest(Tokens(path), base64).Some? && (!host.pipeOk || !host.forkOk) ==>
      Readlinked(path, size, base64, host) == Refused(-EIO)
    ensures Readlinked(path, size, base64, host).Target? ==>
      var run := host.nix(Argv(LinkRequest(Tokens(path), base64).value));
      host.pipeOk && host.forkOk && run.status == Exited(0) && !(Breaks(run.output) && |Written(run.output)| < size - 1)
  {
  }

  /** `nixfs_readlink(path, buf, size)`. The buffer receives at most
      `size - 1` output bytes and a NUL; on success it holds the target,
      NUL-terminated, and nothing past `size` bytes is ever touched. */
  method Readlink(path: string, buf: array<char>, size: nat, base64: string -> string, host: Host) returns (res: int)
    requires Dereferenceable(Tokens(path))
    requires 1 <= size <= buf.Length
    modifies buf
    ensures Readlinked(path, size, base64, host).Refused? ==> res == Readlinked(path, size, base64, host).code
    ensures Readlinked(path, size, base64, host).Target? ==>
      var text := Readlinked(path, size, base64, host).text;
      res == 0 && buf[..|text|] == text && buf[|text|] == '\0'
    ensures forall i :: size <= i < buf.Length ==> buf[i] == old(buf[i])
    ensures LinkRequest(Tokens(path), base64).None? ==> buf[..] == old(buf[..])
  {
    var rc, req := ParseLinkPath(path, base64);
    if rc != 0 {
      return rc;
    }
    if !host.pipeOk {
      return -EIO;
    }
    if !host.forkOk {
      return -EIO;
    }
    var args := BuildArgv(req);
    var run := host.nix(Arguments(args[..]));
    var ok, total := ReadAll(run.output, buf, size);
    if !ok {
      return -EIO;
    }
    ghost var out := buf[..total];
    buf[total] := '\0';
    assert buf[..total + 1] == out + ['\0'];
    var cut := Span(buf[..total + 1]);
    SpanTerminated(out);
    buf[cut] := '\0';
    assert buf[..cut] == out[..cut];
    var status := StatusResult(run.status);
    if status != 0 {
      return status;
    }
    return 0;
  }

  /** The request behind `/flake/str/<spec>`. */
  lemma FlakeStrRequest(spec: string, base64: string -> string)
    requires Component(spec) && '\0' !in spec
    ensures Dereferenceable(Tokens(Join(["flake", "str", spec])))
    ensures LinkRequest(Tokens(Join(["flake", "str", spec])), base64) == Some(BuildRequest(false, [], spec))
  {
    TokensOfJoin(["flake", "str", spec]);
    NulFreeSpec(spec);
    RequestOf("flake", "str", [], spec, base64, spec);
    assert ["flake", "str"] + [] + [spec] == ["flake", "str", spec];
  }

  /** One chunk holding a line and its newline, read into a buffer with
      room to spare, leaves that line as the target. */
  lemma OneLineOutput(line: string, room: nat)
    requires '\n' !in line && '\0' !in line && |line| < room
    ensures Collected([Chunk(line + "\n")], room).Some?
    ensures FirstLine(Collected([Chunk(line + "\n")], room).value) == line
  {
    var pipe := [Chunk(line + "\n")];
    assert pipe[1..] == [];
    assert Written(pipe) == line + "\n";
    assert !Breaks(pipe);
    FirstLineOf(line, "");
    assert line + "\n" + "" == line + "\n";
  }

  /** A flake build whose child prints a store path and a newline and exits
      with 0 (as `nix build --print-out-paths` does): the command line is
      the preamble and the spec, and the link points at the store path
      without the newline. */
  lemma FlakeBuildTarget(spec: string, line: string, size: nat, base64: string -> string, host: Host)
    requires Component(spec) && '\0' !in spec
    requires '\n' !in line && '\0' !in line && |line| < size - 1
    requires host.pipeOk && host.forkOk
    requires host.nix(Preamble + [spec]) == ChildRun([Chunk(line + "\n")], Exited(0))
    ensures Dereferenceable(Tokens(Join(["flake", "str", spec])))
    ensures Readlinked(Join(["flake", "str", spec]), size, base64, host) == Target(line)
  {
    FlakeStrRequest(spec, base64);
    assert Argv(BuildRequest(false, [], spec)) == Preamble + [spec];
    OneLineOutput(line, size - 1);
  }

  /** An expression build with one `#`-option: `--impure` follows the
      preamble, the option loses its `#`, and `--expr` precedes the
      expression. */
  lemma ExprBuildArgv(option: string, expr: string, base64: string -> string)
    requires Component("#" + option) && Component(expr) && '\0' !in expr
    ensures var ts := ["expr", "str", "#" + option, expr];
      Dereferenceable(Tokens(Join(ts))) &&
      LinkRequest(Tokens(Join(ts)), base64) == Some(BuildRequest(true, ["#" + option], expr)) &&
      Argv(BuildRequest(true, ["#" + option], expr)) == Preamble + ["--impure", option, "--expr", expr]
  {
    var ts := ["expr", "str", "#" + option, expr];
    TokensOfJoin(ts);
    NulFreeSpec(expr);
    RequestOf("expr", "str", ["#" + option], expr, base64, expr);
    assert ["expr", "str"] + ["#" + option] + [expr] == ts;
    assert ("#" + option)[1..] == option;
    assert StripAll(["#" + option]) == [option];
  }
}
