# nixfs in Dafny

A model of the path-resolution layer of nixfs, a FUSE filesystem that
turns paths such as `/flake/str/nixpkgs#hello` into symbolic links to the
Nix store path that `nix build` produces. The model covers three pieces:

- the current resolver (`nixfs/src/nixfs.c`) with its decoder
  (`nixfs/src/urldec.c`):
  - the nine-directory static table;
  - `tokenize_path` and `validate_path`;
  - `getattr`, `readdir`, `open` and `read`;
  - the whole of `readlink`, from the path front end through the
    `nix build` argument vector and the bounded read of the child's
    output to the mapping of failures onto error numbers;
- the earlier resolver (`src/src/nixfs.c`), with its six-node table and
  its fixed `strncpy` symlink;
- the hello-world filesystem (`src/src/main.c`).

Layout:

| file | module | covers |
|---|---|---|
| common.dfy | `Posix` | error numbers, `struct stat` fields, access modes, C-string reading |
| fstable.dfy | `FsTable` | the `fs_node` table, the exact-match search and the prefix-based child listing that both resolvers share |
| tokenizer.dfy | `Tokenizer` | `tokenize_path` |
| urldec.dfy | `UrlDec` | `hex_to_decimal`, `urldecode` |
| nixfs.dfy | `NixFs`, `NixFsListing` | the static table, `validate_path`, `getattr`, `readdir`, `open` and `read` of the current resolver, and its listings |
| build.dfy | `NixBuild` | the `readlink` front end (root, encoding, spec, options) and the argv assembly of `exec_nix_command` |
| pipe.dfy | `ChildOutput` | the read loop over the child's output and the newline cut |
| readlink.dfy | `NixReadlink` | `nixfs_readlink` end to end, against an oracle for the operating system and the build tool |
| legacy.dfy | `LegacyFs`, `LegacyListing` | the earlier resolver |
| hello.dfy | `HelloFs` | the hello-world filesystem |

How C-side effects are modelled:

- What the callbacks write through `stbuf` is returned as a `Stat` value.
- The `filler` callback is modelled as appending a name to a returned
  sequence.
- The caller's buffers for `readlink` and `read` are arrays that the
  methods modify.
- The array `exec_nix_command` fills is an array of slots.
- The base64 decoder is a function parameter.
- The subprocess is a `Host` value with four parts:
  - whether `pipe` succeeds;
  - whether `fork` succeeds;
  - the `read` results the parent sees, as chunks, `EAGAIN` and errors;
  - how the child ends.

Seven lemmas pin down the directory listings of both trees. Each one works
out what every node contributes, for any table whose paths are the tree's
paths. It then combines those contributions.

## Model

| member | source | states |
|---|---|---|
| Posix.AccessMode | nixfs/src/nixfs.c:184 | `flags & O_ACCMODE` is a value in 0..3 that agrees with `flags` modulo 4 |
| Posix.UpToNul | nixfs/src/nixfs.c:309 | what `strdup` keeps is a NUL-free prefix of the text, and when it stops early it stops at a NUL |
| FsTable.IndexOf | nixfs/src/nixfs.c:93-100 | the index found is the first node with exactly that path; there is none exactly when no node has the path |
| FsTable.Find | nixfs/src/nixfs.c:93-100 | the search loop stops at the first exact match, or reports none after the whole table |
| FsTable.ChildNameIff | nixfs/src/nixfs.c:165-172 | a name is listed for a node iff it holds no `/` and the node's path is the parent followed by `/name` (or by a non-empty `name` directly), in both directions |
| FsTable.NoSelfListing | nixfs/src/nixfs.c:167 | a directory never lists its own node |
| FsTable.ChildNamesSpec | nixfs/src/nixfs.c:165-174 | a name is in the listing iff some table node yields it |
| FsTable.ReadDir | nixfs/src/nixfs.c:149-176 | `-ENOENT` with nothing listed unless the first exact match is a directory; otherwise `.`, `..`, then every immediate child in table order |
| Tokenizer.TokensAreComponents | nixfs/src/nixfs.c:56-60 | no token is empty and none holds a `/` |
| Tokenizer.TokenCountBound | nixfs/src/nixfs.c:40-48 | there is at most one more token than `/` characters, so the tokens and the NULL fit the `count + 2` slots |
| Tokenizer.TokensSplit | nixfs/src/nixfs.c:56-60 | the tokens of `a/b` are the tokens of `a` followed by those of `b` |
| Tokenizer.TokensOfSegment | nixfs/src/nixfs.c:56-60 | a segment without `/` is one token, or none when it is empty |
| Tokenizer.TokensOfJoin | nixfs/src/nixfs.c:32-65 | tokenizing `/t0/t1/…` gives back exactly the components `t0, t1, …` |
| Tokenizer.CountSlashes | nixfs/src/nixfs.c:40-45 | the counting loop returns the number of `/` characters |
| Tokenizer.Emit | nixfs/src/nixfs.c:58 | a pending token goes into the next free slot, which lies inside the allocation, and the filled slots hold the tokens so far |
| Tokenizer.TokenizePath | nixfs/src/nixfs.c:32-65 | the `strtok` loop yields the tokens of the path in order, and every slot it writes lies inside the `count + 2` allocation |
| UrlDec.HexToDecimal | nixfs/src/urldec.c:6-15 | the value 0..15 of a hex digit in either case, and -1 exactly for every non-hex character |
| UrlDec.Decoded | nixfs/src/urldec.c:17-46 | a successful decoding is never longer than its input |
| UrlDec.DecodedPlain | nixfs/src/urldec.c:37-38 | a byte other than `%` and `+` is copied unchanged |
| UrlDec.DecodedPlus | nixfs/src/urldec.c:34-36 | `+` becomes a space |
| UrlDec.DecodedEscape | nixfs/src/urldec.c:22-30 | `%` and two hex digits become the byte `high * 16 + low` (the shift-and-or of the code), and three input bytes are consumed |
| UrlDec.DecodedBadEscape | nixfs/src/urldec.c:23-33 | a `%` with fewer than two bytes after it, or with a non-hex byte in either position, makes decoding fail |
| UrlDec.DecodedSpaces | nixfs/src/urldec.c:21-40 | `a+b%20c` decodes to `a b c` |
| UrlDec.DecodedFailures | nixfs/src/urldec.c:23-33 | `%`, `%2`, `%2g`, `%g2` and `ab%` all fail |
| UrlDec.DecodeEncoded | nixfs/src/urldec.c:17-46 | decoding inverts form encoding for every string |
| UrlDec.DecodeStep | nixfs/src/urldec.c:22-39 | one loop step consumes 1 or 3 bytes and emits one byte that starts the rest's decoding, or it fails exactly when the rest fails |
| UrlDec.UrlDecode | nixfs/src/urldec.c:17-46 | returns 0 iff the input decodes; then the output is the decoding, NUL-terminated inside the `strlen + 1` buffer, and `*outlen` is its length; on -1 `*outlen` is not written |
| NixFs.ValidatePath | nixfs/src/nixfs.c:76-85 | true iff the token is among the valid names |
| NixFs.Getattr | nixfs/src/nixfs.c:87-141 | an exact table match gives that node's attributes before any tokenizing; otherwise root and encoding must be known, and a `#`/`-` last component gives a bare directory and anything else a `0777` link; all other paths give `-ENOENT` with `stbuf` zeroed |
| NixFs.Readdir | nixfs/src/nixfs.c:143-177 | succeeds exactly on the table's paths and lists `.`, `..` and the immediate children |
| NixFs.Open | nixfs/src/nixfs.c:179-192 | 0 iff the path is `/flake/b64` or `/flake/str` and the mode is read-only; `-EACCES` iff one of those paths is opened in another mode; `-ENOENT` iff any other path |
| NixFs.Read | nixfs/src/nixfs.c:194-198 | always `-ENOENT` |
| NixFs.TablePathTokens | nixfs/src/nixfs.c:15-25 | every table path has at most two components, a root and then an encoding |
| NixFs.NotStatic | nixfs/src/nixfs.c:15-25 | a path of three or more components, or with an unknown root or encoding, is not in the table |
| NixFs.SpecPathIsLink | nixfs/src/nixfs.c:131-136 | `/<root>/<enc>/…/<spec>` with a non-option last component is a `0777` symlink of size 0 |
| NixFs.OptionPathIsDirectory | nixfs/src/nixfs.c:121-129 | a path whose last component starts with `#` or `-` is a directory with no permission bits, two links and size 0 |
| NixFs.UnknownNamespaceIsMissing | nixfs/src/nixfs.c:113-140 | an unknown root is `-ENOENT` at any depth, a single component such as `/bogus` included, and so is an unknown encoding under a root |
| NixFs.ReaddirMatchesGetattr | nixfs/src/nixfs.c:156-159 | what `readdir` accepts `getattr` reports as a `0755` directory, and the synthesized option directories are never in the table |
| NixFs.ListedNamesExist | nixfs/src/nixfs.c:165-172 | every listed name is a single component whose node is in the table |
| NixFs.OpenOnlyTableDirectories | nixfs/src/nixfs.c:183-189 | whatever `open` does not refuse as missing is a `0755` directory of the table |
| NixFsListing.ListingOfRoot | nixfs/src/nixfs.c:165-174 | `/` lists `flake`, `expr` |
| NixFsListing.ListingOfNamespaces | nixfs/src/nixfs.c:165-174 | `/flake` and `/expr` each list `b64`, `str`, `urlenc` |
| NixFsListing.ListingOfEncodingDir | nixfs/src/nixfs.c:165-174 | the six encoding directories list nothing beyond `.` and `..` |
| NixBuild.StandardAlphabet | nixfs/src/base64.c:10-15 | the alphabet pass turns each `-` into `+` and each `_` into `/`, keeps every other character in place and keeps the length, so no `-` or `_` is left |
| NixBuild.StandardAlphabetIdempotent | nixfs/src/base64.c:10-15 | a second alphabet pass changes nothing |
| NixBuild.Options | nixfs/src/nixfs.c:336-337 | the options are exactly `tokens[2 .. count-2]`, and there are none with fewer than three tokens |
| NixBuild.LinkRequestFails | nixfs/src/nixfs.c:262-307 | `readlink` refuses a path iff the root or encoding is unknown or the `urlenc` decoder fails |
| NixBuild.LinkRequestParts | nixfs/src/nixfs.c:267-311 | a request is in expression mode iff the root is `expr`; its options are the middle tokens and its spec the last token, verbatim for `str` and decoded for `urlenc` |
| NixBuild.RequestOf | nixfs/src/nixfs.c:262-311 | a path with a known root and encoding whose last token decodes to a spec asks for that spec with the middle tokens as options |
| NixBuild.Base64LikeStr | nixfs/src/nixfs.c:284-311 | a `b64` component that decodes to `s` asks for the same build as `s` under `str` |
| NixBuild.UrlencLikeStr | nixfs/src/nixfs.c:289-311 | a percent-encoded component asks for the same build as the text it encodes under `str` |
| NixBuild.ParseLinkPath | nixfs/src/nixfs.c:253-311 | returns 0 or `-ENOENT`, with 0 exactly when there is a request and the request returned is it |
| NixBuild.Fixed | nixfs/src/nixfs.c:206 | `FIXED_ARGS` is the preamble length, plus one in expression mode |
| NixBuild.StripHash | nixfs/src/nixfs.c:230 | one leading `#` is removed, and nothing else changes |
| NixBuild.StripAll | nixfs/src/nixfs.c:229-233 | each option is stripped in place, in order |
| NixBuild.Head | nixfs/src/nixfs.c:214-226 | the fixed arguments are `FIXED_ARGS` long and start with the preamble |
| NixBuild.ArgvAt | nixfs/src/nixfs.c:214-238 | the argument at each position: the preamble, then `--impure` exactly in expression mode, the options with `#` dropped, then the spec, preceded by `--expr` in expression mode |
| NixBuild.ArgumentsOf | nixfs/src/nixfs.c:240-245 | `execvp` sees exactly the strings before the first NULL |
| NixBuild.BuildArgv | nixfs/src/nixfs.c:200-238 | the filled slot array holds the command line followed by NULL, with every slot after it NULL, in an array of `FIXED_ARGS + count + 3` slots |
| NixBuild.WriteHead | nixfs/src/nixfs.c:214-226 | writes the fixed arguments and nothing else |
| NixBuild.WriteOptions | nixfs/src/nixfs.c:228-233 | slot `FIXED_ARGS + i` gets option `i` without its `#`, and no other slot changes |
| NixBuild.SlotsHoldArgv | nixfs/src/nixfs.c:235-238 | slots laid out this way hold the command line, NULL-terminated |
| NixBuild.WrittenSlots | nixfs/src/nixfs.c:214-238 | the slot indices written are 0 to `FIXED_ARGS + count + 2`, in order |
| NixBuild.ArgvOverflowAsWritten | nixfs/src/nixfs.c:207-238 | the last write lands at the allocation size, one slot past the end, for every request |
| NixBuild.ArgvWritesFit | nixfs/src/nixfs.c:236-238 | with one more slot, every write is in bounds |
| ChildOutput.ReadPipe | nixfs/src/nixfs.c:344 | one `read` returns between 1 and `want` bytes, and a retry consumes an event |
| ChildOutput.ReadPipeStep | nixfs/src/nixfs.c:343-359 | each read takes its bytes off the front of the output and a retry loses nothing; an error or end of file leaves nothing more |
| ChildOutput.Collected | nixfs/src/nixfs.c:341-359 | the loop fails iff the output breaks before `size - 1` bytes arrive; otherwise it keeps a prefix of the output of at most that many bytes, and the whole output when it is shorter |
| ChildOutput.Advance | nixfs/src/nixfs.c:343-357 | each read moves bytes from the pipe onto what was read, in order, and a retry moves nothing, so the bytes read followed by the pipe are always the whole output; an error or end of file leaves no more output |
| ChildOutput.CollectedAll | nixfs/src/nixfs.c:343-359 | a loop that stops with the buffer full, or at a clean end of file, has read exactly what is collected |
| ChildOutput.ReadAll | nixfs/src/nixfs.c:341-359 | never more than `size - 1` bytes are stored; success iff the output can be collected, with the buffer's front holding it; nothing after it is written |
| ChildOutput.Place | nixfs/src/nixfs.c:344 | one read's bytes land at `buf + total_read`, and nothing else changes |
| ChildOutput.Span | nixfs/src/nixfs.c:362 | `strcspn` is the length of the leading run free of newline and NUL |
| ChildOutput.SpanTerminated | nixfs/src/nixfs.c:361-362 | the NUL written after the output does not move the cut |
| ChildOutput.FirstLine | nixfs/src/nixfs.c:361-362 | the target is a prefix of the output free of newline and NUL, ending where the output has a newline or NUL |
| ChildOutput.FirstLineOf | nixfs/src/nixfs.c:362 | a line followed by a newline yields exactly that line |
| NixReadlink.StatusResult | nixfs/src/nixfs.c:366-373 | 0 iff the child exited normally with code 0, `-ENOENT` otherwise |
| NixReadlink.KilledBuildAsWritten | nixfs/src/nixfs.c:366-368 | as written, a child killed by SIGKILL counts as a finished build; as intended it gives `-ENOENT` |
| NixReadlink.StatusResultAgrees | nixfs/src/nixfs.c:366-377 | the written and intended mappings agree on every normal exit, and the intended one accepts no more |
| NixReadlink.ReadlinkedResults | nixfs/src/nixfs.c:250-383 | `readlink` returns only 0, `-ENOENT` or `-EIO`; a target fits the buffer with its NUL and holds no newline or NUL |
| NixReadlink.ReadlinkedErrors | nixfs/src/nixfs.c:262-353 | a bad path is `-ENOENT` before any process is made; a pipe or fork failure is `-EIO`; a target needs a clean exit and an output that did not break early |
| NixReadlink.Readlink | nixfs/src/nixfs.c:250-383 | returns the outcome's error, or 0 with the target NUL-terminated at the buffer's front; nothing at or past `size` is touched, and a refused path leaves the buffer alone |
| NixReadlink.FlakeStrRequest | nixfs/src/nixfs.c:281-283 | `/flake/str/<spec>` asks for a flake build of `<spec>` with no options |
| NixReadlink.OneLineOutput | nixfs/src/nixfs.c:341-362 | one chunk holding a line and its newline, with room to spare, leaves that line |
| NixReadlink.FlakeBuildTarget | nixfs/src/nixfs.c:250-377 | a flake build whose child prints a store path and a newline and exits 0 gives a link to that store path |
| NixReadlink.ExprBuildArgv | nixfs/src/nixfs.c:200-238 | `/expr/str/#<opt>/<expr>` runs the preamble, `--impure`, `<opt>`, `--expr`, `<expr>` |
| LegacyFs.TableWellFormed | src/include/nixfs.h:9-15 | every table path fits the record's `char[256]` |
| LegacyFs.Getattr | src/src/nixfs.c:21-34 | succeeds iff the path is in the table, with that node's mode and size and two links for a directory, else one; otherwise `-ENOENT` with `stbuf` zeroed |
| LegacyFs.StrIsRegularFile | src/src/nixfs.c:8-15 | `/flake/str` is a `0444` regular file of 1337 bytes with one link; every other node is a `0755` directory |
| LegacyFs.Readdir | src/src/nixfs.c:36-70 | fails with `-ENOENT` off the table and on the file `/flake/str`; otherwise lists `.`, `..` and the immediate children |
| LegacyFs.Open | src/src/nixfs.c:72-82 | the same rule as the later revision: 0 iff `/flake/b64` or `/flake/str` read-only; `-EACCES` iff one of them in another mode; `-ENOENT` iff any other path |
| LegacyFs.OpenOnlyTableNodes | src/src/nixfs.c:72-79 | whatever `open` does not refuse as missing is in the table |
| LegacyFs.Readlink | src/src/nixfs.c:84-93 | only `/abc` links: the buffer holds the first `min(10, size - 1)` characters of `/hello.txt` and NULs up to `size`, with the result 0; other paths give `-ENOENT` and an untouched buffer |
| LegacyFs.Strncpy | src/src/nixfs.c:87 | `n` bytes are written: the source's prefix, then NUL padding |
| LegacyFs.StrncpyTarget | src/src/nixfs.c:86-89 | the buffer reads as the target truncated to `size - 1` characters, and as the whole target once it fits |
| LegacyListing.ListingOfRoot | src/src/nixfs.c:58-65 | `/` lists `flake`, `cake` |
| LegacyListing.ListingOfFlake | src/src/nixfs.c:58-65 | `/flake` lists `b64`, `str` |
| LegacyListing.ListingOfCake | src/src/nixfs.c:58-65 | `/cake` lists `lie` |
| LegacyListing.ListingOfLeaf | src/src/nixfs.c:58-65 | `/cake/lie` and `/flake/b64` list nothing beyond `.` and `..` |
| HelloFs.Getattr | src/src/main.c:12-27 | `/` is a `0755` directory with two links; `/hello.txt` is a `0444` file with one link and 14 bytes; anything else is `-ENOENT` with `stbuf` zeroed |
| HelloFs.Readdir | src/src/main.c:29-40 | only `/` lists, and it lists exactly `.`, `..`, `hello.txt` |
| HelloFs.ListedNamesExist | src/src/main.c:29-40 | every listed name is the root itself or the file |
| HelloFs.Open | src/src/main.c:42-52 | any other path is `-ENOENT` whatever the flags; the file opens iff read-only, and is `-EACCES` otherwise |
| HelloFs.Served | src/src/main.c:61-70 | within the content, `min(size, len - offset)` bytes from `offset`; at or past the end (a negative offset included) nothing |
| HelloFs.ServedInTwo | src/src/main.c:54-73 | two consecutive reads serve what one read of the combined size serves |
| HelloFs.Read | src/src/main.c:54-73 | `-ENOENT` for other paths with nothing written; otherwise returns the count served, at most `size`, and copies exactly those bytes to the buffer's front without touching anything after them |

## Left out

- Process plumbing is not modelled. This covers `pipe`, `fork`, `dup2`, `execvp`, `waitpid` and the decoding of `WEXITSTATUS`. `Host` stands in for it: whether `pipe` and `fork` succeed, the sequence of `read` results, and the child's wait status.
- The leaked descriptor and the unreaped child on the read-error path are resource issues outside the model.
- Base64 decoding is OpenSSL code that is not part of this model. It is a function parameter applied after the alphabet pass, and it never fails, because `base64_decode` always returns 0 (nixfs/src/base64.c:28).
- A negative `BIO_read` result would write before `out` (nixfs/src/base64.c:23-24). The model cannot express that.
- The FUSE glue is not modelled: `fuse_main`, option parsing, and version and usage output.
- `log_debug` and the global debug switch are not modelled.
- Allocation failure is not modelled. `strdup` and `malloc` are treated as total, and `free_tokens` is bookkeeping outside the model.
- Concurrency is not modelled: FUSE's threaded dispatch and parallel builds.
- NixFs.Getattr, NixBuild.ParseLinkPath and NixReadlink.Readlink require one token, and two when the first is a root. The code dereferences `tokens[0]` and `tokens[1]` unchecked (nixfs/src/nixfs.c:113-114, 262, 269), so a shorter path crashes it rather than returning an error.
- NixReadlink.Readlink and LegacyFs.Readlink require `size >= 1`. With `size == 0` the unsigned `size - 1` wraps around, and the code writes far outside the buffer.
- NixReadlink.Readlink allocates one more argv slot than the code (see Findings), and maps a child killed by a signal to `-ENOENT`. It does not reproduce the out-of-bounds write or the success reported for a killed build.
- NixReadlink.Readlink: a path with exactly two tokens, such as `/flake/str`, is handled as the code handles it. The second token is the spec and there are no options.
- A Dafny `char` stands for one C byte. Paths, decoded bytes (`%XY` gives a value below 256), pipe output and the `size - 1` byte bound are all counted in `char`s, and multi-byte encodings play no part.
- Paths and specs are NUL-free C strings. A decoded spec is kept up to its first NUL, as `strdup` keeps it.
- Mode bits are abstract: a file type and a permission number, not the `S_IF*` encoding.
- Exit codes are plain numbers. `WEXITSTATUS` keeps 8 bits, and that truncation is not modelled.
- HelloFs.Read assumes `offset + size` does not wrap around 2^64.

## Findings

| source | as written | input that shows it | evidently intended | confidence | as-written member | corrected member |
|---|---|---|---|---|---|---|
| nixfs/src/nixfs.c:207 | `args` has `FIXED_ARGS + token_count + 2` slots, but line 238 writes slot `FIXED_ARGS + token_count + 2`, one past the end, for every request | `/flake/str/nixpkgs#hello`: 10 slots, and the last NULL is written to slot 10 | allocate `FIXED_ARGS + token_count + 3` slots | not executed; high | NixBuild.ArgvOverflowAsWritten | NixBuild.BuildArgv |
| nixfs/src/nixfs.c:368 | `WEXITSTATUS(wstatus)` is read without `WIFEXITED`, so a child killed by a signal reads as exit code 0 and the link is reported as resolved | a `nix build` killed by SIGKILL before it prints anything | only a normal exit with code 0 counts as success | not executed; medium | NixReadlink.KilledBuildAsWritten | NixReadlink.StatusResult |
