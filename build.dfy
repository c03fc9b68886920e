/** The build request behind a symlink path of nixfs/src/nixfs.c: which
    path components `nixfs_readlink` turns into the spec and the options,
    and the `nix build` command line `exec_nix_command` assembles from
    them. */
module NixBuild {
  import opened Posix
  import opened Tokenizer
  import opened NixFs
  import UrlDec

  /** What the child process is asked to build: expression or flake mode,
      the option tokens in path order, and the spec. */
  datatype BuildRequest = BuildRequest(isExpr: bool, options: seq<string>, spec: string)

  /** The in-place pass of `base64_decode` that maps the URL-safe alphabet
      of section 5 of RFC 4648 onto the standard one: `-` to `+`, `_` to
      `/`, every other character kept. */
  function StandardAlphabet(s: string): (r: string)
    ensures |r| == |s|
    ensures '-' !in r && '_' !in r
    ensures forall i :: 0 <= i < |s| && s[i] != '-' && s[i] != '_' ==> r[i] == s[i]
    ensures forall i :: 0 <= i < |s| ==>
      r[i] == (if s[i] == '-' then '+' else if s[i] == '_' then '/' else s[i])
  {
    if s == [] then []
    else [if s[0] == '-' then '+' else if s[0] == '_' then '/' else s[0]] + StandardAlphabet(s[1..])
  }

  /** Mapping the alphabet a second time changes nothing, so a token spelt
      with `+` and `/` decodes like its URL-safe spelling. */
  lemma {:induction false} StandardAlphabetIdempotent(s: string)
    ensures StandardAlphabet(StandardAlphabet(s)) == StandardAlphabet(s)
  {
    if s != [] {
      StandardAlphabetIdempotent(s[1..]);
      assert StandardAlphabet(s)[1..] == StandardAlphabet(s[1..]);
    }
  }

  /** The spec behind the last path component under encoding `enc`, or
      None when the decoder reports failure. `str` takes the component
      verbatim; `b64` hands it to the (abstract, never failing) Base64
      decoder after the alphabet pass; `urlenc` percent-decodes it. `strdup`
      keeps the text up to the first NUL. */
  function DecodeSpec(enc: string, token: string, base64: string -> string): Option<string>
  {
    if enc == "str" then Some(UpToNul(token))
    else if enc == "b64" then Some(UpToNul(base64(StandardAlphabet(token))))
    else match UrlDec.Decoded(token)
      case None => None
      case Some(d) => Some(UpToNul(d))
  }

  /** The option tokens: everything between the encoding and the last
      component. The child nulls the last slot and passes `tokens + 2`, so
      with only two tokens that is the array's own terminator: no options. */
  function Options(ts: seq<string>): (r: seq<string>)
    ensures |ts| >= 3 ==> |r| == |ts| - 3 && forall i :: 0 <= i < |r| ==> r[i] == ts[i + 2]
    ensures |ts| < 3 ==> r == []
  {
    if |ts| >= 3 then ts[2..|ts| - 1] else []
  }

  /** The front end of `nixfs_readlink` on the tokens of the path: None
      stands for `-ENOENT`. */
  function LinkRequest(ts: seq<string>, base64: string -> string): Option<BuildRequest>
    requires Dereferenceable(ts)
  {
    if ts[0] !in Roots || ts[1] !in Encodings then None
    else match DecodeSpec(ts[1], ts[|ts| - 1], base64)
      case None => None
      case Some(spec) => Some(BuildRequest(ts[0] == "expr", Options(ts), spec))
  }

  /** A request exists exactly when the root and the encoding are known and
      the decoder accepts the last component; only `urlenc` can reject. */
  lemma LinkRequestFails(ts: seq<string>, base64: string -> string)
    requires Dereferenceable(ts)
    ensures LinkRequest(ts, base64).None? <==>
      ts[0] !in Roots || ts[1] !in Encodings || (ts[1] == "urlenc" && UrlDec.Decoded(ts[|ts| - 1]).None?)
  {
  }

  /** A successful request is in expression mode exactly under `/expr`, and
      its spec is the last component: verbatim for `str`, decoded
      otherwise. */
  lemma LinkRequestParts(ts: seq<string>, base64: string -> string)
    requires Dereferenceable(ts) && LinkRequest(ts, base64).Some?
    ensures var req := LinkRequest(ts, base64).value;
      ts[0] in Roots && ts[1] in Encodings &&
      (req.isExpr <==> ts[0] == "expr") &&
      req.options == Options(ts) &&
      (ts[1] == "str" ==> req.spec == UpToNul(ts[|ts| - 1])) &&
      (ts[1] == "urlenc" ==> Some(req.spec) == DecodeSpec("urlenc", ts[|ts| - 1], base64))
  {
  }

  /** A path component contains no NUL, so `str` passes it on whole. */
  lemma NulFreeSpec(s: string)
    requires '\0' !in s
    ensures UpToNul(s) == s
  {
  }

  /** The request of `/<root>/<enc>/<options…>/<last>` once the spec is
      known. */
  lemma RequestOf(root: string, enc: string, options: seq<string>, last: string, base64: string -> string, spec: string)
    requires root in Roots && enc in Encodings && DecodeSpec(enc, last, base64) == Some(spec)
    ensures LinkRequest([root, enc] + options + [last], base64) == Some(BuildRequest(root == "expr", options, spec))
  {
    var ts := [root, enc] + options + [last];
    assert ts[0] == root && ts[1] == enc && ts[|ts| - 1] == last;
    assert Options(ts) == options;
  }

  /** A Base64 component whose decoding (after the alphabet pass) is `s`
      asks for the same build as `s` itself under `str`. */
  lemma Base64LikeStr(root: string, options: seq<string>, e: string, s: string, base64: string -> string)
    requires root in Roots && '\0' !in s && base64(StandardAlphabet(e)) == s
    ensures LinkRequest([root, "b64"] + options + [e], base64) ==
            LinkRequest([root, "str"] + options + [s], base64)
  {
    NulFreeSpec(s);
    RequestOf(root, "b64", options, e, base64, s);
    RequestOf(root, "str", options, s, base64, s);
  }

  /** A percent-encoded component asks for the same build as the text it
      encodes does under `str`. */
  lemma UrlencLikeStr(root: string, options: seq<string>, s: string, base64: string -> string)
    requires root in Roots && '\0' !in s
    ensures LinkRequest([root, "urlenc"] + options + [UrlDec.Encoded(s)], base64) ==
            LinkRequest([root, "str"] + options + [s], base64)
  {
    UrlDec.DecodeEncoded(s);
    NulFreeSpec(s);
    RequestOf(root, "urlenc", options, UrlDec.Encoded(s), base64, s);
    RequestOf(root, "str", options, s, base64, s);
  }

  /** The front end of `nixfs_readlink` as the code runs it: tokenize,
      check the root and the encoding, then take or decode the last token
      into a fresh `strlen + 1` buffer. */
  method ParseLinkPath(path: string, base64: string -> string) returns (rc: int, req: BuildRequest)
    requires Dereferenceable(Tokens(path))
    ensures rc == 0 || rc == -ENOENT
    ensures rc == 0 <==> LinkRequest(Tokens(path), base64).Some?
    ensures rc == 0 ==> req == LinkRequest(Tokens(path), base64).value
  {
    req := BuildRequest(false, [], "");
    var tokens := TokenizePath(path);
    var count := |tokens|;
    var isRoot := ValidatePath(Roots, tokens[0]);
    if !isRoot {
      return -ENOENT, req;
    }
    var isExpr := tokens[0] == "expr";
    var isEncoding := ValidatePath(Encodings, tokens[1]);
    if !isEncoding {
      return -ENOENT, req;
    }
    var spec: string;
    if tokens[1] == "str" {
      spec := UpToNul(tokens[count - 1]);
    } else if tokens[1] == "b64" {
      spec := UpToNul(base64(StandardAlphabet(tokens[count - 1])));
    } else {
      var encoded := tokens[count - 1];
      var decoded := new char[|encoded| + 1];
      var status, decodedLen := UrlDec.UrlDecode(encoded, decoded, 0);
      if status == -1 {
        return -ENOENT, req;
      }
      spec := UpToNul(decoded[..decodedLen]);
    }
    req := BuildRequest(isExpr, Options(tokens), spec);
    rc := 0;
  }

  /** The fixed start of every command line. */
  const Preamble: seq<string> := [
    "nix", "--extra-experimental-features", "nix-command",
    "--extra-experimental-features", "flakes",
    "build", "--no-link", "--print-out-paths"
  ]

  /** `FIXED_ARGS`: the preamble, plus `--impure` in expression mode. */
  function Fixed(isExpr: bool): (n: nat)
    ensures n == |Preamble| + (if isExpr then 1 else 0)
  {
    if isExpr then 9 else 8
  }

  /** One option as it reaches the command line: a single leading `#` is
      dropped (the pointer is advanced past it), nothing else changes. */
  function StripHash(t: string): (r: string)
    ensures t != [] && t[0] == '#' ==> "#" + r == t
    ensures (t == [] || t[0] != '#') ==> r == t
  {
    if t != [] && t[0] == '#' then t[1..] else t
  }

  function StripAll(ts: seq<string>): (r: seq<string>)
    ensures |r| == |ts| && forall i :: 0 <= i < |ts| ==> r[i] == StripHash(ts[i])
  {
    if ts == [] then [] else [StripHash(ts[0])] + StripAll(ts[1..])
  }

  /** The slots before the options: the preamble, then `--impure` in
      expression mode. */
  function Head(isExpr: bool): (h: seq<string>)
    ensures |h| == Fixed(isExpr) && h[..|Preamble|] == Preamble
  {
    Preamble + (if isExpr then ["--impure"] else [])
  }

  /** The command line the child executes, independent of how it is laid
      out in memory. */
  function Argv(req: BuildRequest): seq<string>
  {
    Head(req.isExpr) + StripAll(req.options) + (if req.isExpr then ["--expr", req.spec] else [req.spec])
  }

  /** Where everything sits on the command line: the preamble first, then
      `--impure` exactly in expression mode, the options in order with one
      `#` dropped, and the spec last, after `--expr` in expression mode. */
  lemma ArgvAt(req: BuildRequest, i: nat)
    requires i < |Argv(req)|
    ensures var f := Fixed(req.isExpr); var n := |req.options|;
      |Argv(req)| == f + n + (if req.isExpr then 2 else 1) &&
      Argv(req)[i] ==
        if i < |Preamble| then Preamble[i]
        else if i < f then "--impure"
        else if i < f + n then StripHash(req.options[i - f])
        else if req.isExpr && i == f + n then "--expr"
        else req.spec
  {
    var h := Head(req.isExpr);
    var o := StripAll(req.options);
    var t: seq<string> := if req.isExpr then ["--expr", req.spec] else [req.spec];
    assert Argv(req) == h + o + t;
    if i < |h| {
      assert Argv(req)[i] == h[i];
      if i < |Preamble| {
        assert h[i] == h[..|Preamble|][i];
      }
    } else if i < |h| + |o| {
      assert Argv(req)[i] == o[i - |h|];
    } else {
      assert Argv(req)[i] == t[i - |h| - |o|];
    }
  }

  /** The argument strings `execvp` reads from `args`: everything before the
      first NULL. */
  predicate Terminates(args: seq<Slot>, argv: seq<string>)
  {
    |argv| < |args| && args[|argv|] == Null &&
    forall i :: 0 <= i < |argv| ==> args[i] == Tok(argv[i])
  }

  /** The argument vector `execvp` reads from `args`: the strings before
      the first NULL. */
  function Arguments(slots: seq<Slot>): seq<string>
  {
    if slots == [] || slots[0] == Null then [] else [slots[0].s] + Arguments(slots[1..])
  }

  lemma {:induction false} ArgumentsOf(slots: seq<Slot>, argv: seq<string>)
    requires Terminates(slots, argv)
    ensures Arguments(slots) == argv
  {
    if argv != [] {
      assert Terminates(slots[1..], argv[1..]);
      ArgumentsOf(slots[1..], argv[1..]);
      assert argv == [argv[0]] + argv[1..];
    }
  }

  /** `exec_nix_command` with the slot array one longer than the code
      allocates, so that its three closing writes all fit: the array ends in
      the command line followed by NULL. */
  method BuildArgv(req: BuildRequest) returns (args: array<Slot>)
    ensures args.Length == Fixed(req.isExpr) + |req.options| + 3
    ensures Terminates(args[..], Argv(req)) && Arguments(args[..]) == Argv(req)
    ensures forall i :: |Argv(req)| <= i < args.Length ==> args[i] == Null
  {
    var count := |req.options|;
    var fixed := if req.isExpr then 9 else 8;
    args := new Slot[fixed + count + 3](_ => Null);
    WriteHead(args, req.isExpr);
    WriteOptions(args, fixed, req.options);
    args[fixed + count] := if req.isExpr then Tok("--expr") else Tok(req.spec);
    args[fixed + count + 1] := if req.isExpr then Tok(req.spec) else Null;
    args[fixed + count + 2] := Null;
    SlotsHoldArgv(req, args[..]);
    ArgumentsOf(args[..], Argv(req));
  }

  /** The fixed arguments, written slot by slot; the slots after them are
      left alone. */
  method WriteHead(args: array<Slot>, isExpr: bool)
    requires args.Length >= Fixed(isExpr)
    modifies args
    ensures forall k :: 0 <= k < Fixed(isExpr) ==> args[k] == Tok(Head(isExpr)[k])
    ensures forall k :: Fixed(isExpr) <= k < args.Length ==> args[k] == old(args[k])
  {
    args[0] := Tok("nix");
    args[1] := Tok("--extra-experimental-features");
    args[2] := Tok("nix-command");
    args[3] := Tok("--extra-experimental-features");
    args[4] := Tok("flakes");
    args[5] := Tok("build");
    args[6] := Tok("--no-link");
    args[7] := Tok("--print-out-paths");
    if isExpr {
      args[8] := Tok("--impure");
    }
  }

  /** The loop over the option tokens: slot `fixed + i` gets token `i`
      with one leading `#` dropped; the other slots are left alone. */
  method WriteOptions(args: array<Slot>, fixed: nat, options: seq<string>)
    requires fixed + |options| <= args.Length
    modifies args
    ensures forall k :: 0 <= k < |options| ==> args[fixed + k] == Tok(StripHash(options[k]))
    ensures forall k :: 0 <= k < args.Length && !(fixed <= k < fixed + |options|) ==> args[k] == old(args[k])
  {
    var i := 0;
    while i < |options|
      invariant 0 <= i <= |options|
      invariant forall k :: 0 <= k < i ==> args[fixed + k] == Tok(StripHash(options[k]))
      invariant forall k :: 0 <= k < args.Length && !(fixed <= k < fixed + i) ==> args[k] == old(args[k])
    {
      var token := options[i];
      if token != [] && token[0] == '#' {
        token := token[1..];
      }
      args[fixed + i] := Tok(token);
      i := i + 1;
    }
  }

  /** Slots laid out as `exec_nix_command` fills them hold the command
      line. */
  lemma SlotsHoldArgv(req: BuildRequest, slots: seq<Slot>)
    requires var f := Fixed(req.isExpr); var n := |req.options|;
      |slots| == f + n + 3 &&
      (forall k :: 0 <= k < f ==> slots[k] == Tok(Head(req.isExpr)[k])) &&
      (forall k :: 0 <= k < n ==> slots[f + k] == Tok(StripHash(req.options[k]))) &&
      slots[f + n] == (if req.isExpr then Tok("--expr") else Tok(req.spec)) &&
      slots[f + n + 1] == (if req.isExpr then Tok(req.spec) else Null) &&
      slots[f + n + 2] == Null
    ensures Terminates(slots, Argv(req))
    ensures forall i :: |Argv(req)| <= i < |slots| ==> slots[i] == Null
  {
    var f := Fixed(req.isExpr);
    var n := |req.options|;
    var h := Head(req.isExpr);
    var o := StripAll(req.options);
    var t: seq<string> := if req.isExpr then ["--expr", req.spec] else [req.spec];
    var a := Argv(req);
    assert a == h + o + t;
    forall k | 0 <= k < |a|
      ensures slots[k] == Tok(a[k])
    {
      if k < f {
        assert a[k] == h[k];
      } else if k < f + n {
        assert a[k] == o[k - f];
        assert slots[f + (k - f)] == Tok(StripHash(req.options[k - f]));
      } else {
        assert a[k] == t[k - f - n];
      }
    }
  }

  /** The slots `exec_nix_command` allocates, as written. */
  function AllocatedAsWritten(isExpr: bool, count: nat): nat
  {
    Fixed(isExpr) + count + 2
  }

  /** Every slot index `exec_nix_command` writes, in program order. */
  function WrittenSlots(isExpr: bool, count: nat): (w: seq<nat>)
    ensures |w| == Fixed(isExpr) + count + 3
    ensures forall k :: 0 <= k < |w| ==> w[k] == k
  {
    var f := Fixed(isExpr);
    seq(f, k requires 0 <= k < f => k) + seq(count, k requires 0 <= k < count => f + k)
      + [f + count, f + count + 1, f + count + 2]
  }

  /** As written, the last write lands one slot past the allocation, for
      every request; with no options in flake mode that is slot 10 of a
      10-slot array. */
  lemma ArgvOverflowAsWritten(isExpr: bool, count: nat)
    ensures var w := WrittenSlots(isExpr, count);
      w[|w| - 1] == AllocatedAsWritten(isExpr, count)
    ensures WrittenSlots(false, 0)[10] == 10 && AllocatedAsWritten(false, 0) == 10
  {
  }

  /** With one more slot, as BuildArgv allocates, every write fits. */
  lemma ArgvWritesFit(isExpr: bool, count: nat)
    ensures forall k :: 0 <= k < |WrittenSlots(isExpr, count)| ==>
      WrittenSlots(isExpr, count)[k] < Fixed(isExpr) + count + 3
  {
  }
}
