/** The namespace resolver of nixfs/src/nixfs.c: a nine-directory static
    tree, plus dynamic nodes under `/flake/<encoding>/…` and
    `/expr/<encoding>/…` whose kind is decided by their last path
    component. */
module NixFs {
  import opened Posix
  import opened FsTable
  import opened Tokenizer

  /** The fixed part of the tree, in table order. */
  const Table: seq<FsNode> := [
    FsNode("/", DirNode, 0),
    FsNode("/flake", DirNode, 0),
    FsNode("/flake/b64", DirNode, 0),
    FsNode("/flake/str", DirNode, 0),
    FsNode("/flake/urlenc", DirNode, 0),
    FsNode("/expr", DirNode, 0),
    FsNode("/expr/b64", DirNode, 0),
    FsNode("/expr/str", DirNode, 0),
    FsNode("/expr/urlenc", DirNode, 0)
  ]

  /** The namespace roots and the encodings, as the arrays handed to
      `validate_path`. */
  const Roots: seq<string> := ["flake", "expr"]
  const Encodings: seq<string> := ["str", "b64", "urlenc"]

  /** `validate_path`: a linear search of `valid` for `token`. */
  method ValidatePath(valid: seq<string>, token: string) returns (ok: bool)
    ensures ok <==> token in valid
  {
    ok := false;
    var i := 0;
    while i < |valid|
      invariant 0 <= i <= |valid|
      invariant !ok ==> token !in valid[..i]
      invariant ok ==> token in valid
    {
      if token == valid[i] {
        ok := true;
        break;
      }
      assert valid[..i + 1] == valid[..i] + [valid[i]];
      i := i + 1;
    }
    assert valid[..|valid|] == valid;
  }

  /** The token array can be read the way `getattr` and `readlink` read it:
      `tokens[0]` always, and `tokens[1]` once `tokens[0]` names a root
      (both are dereferenced without a check). */
  predicate Dereferenceable(ts: seq<string>)
  {
    |ts| >= 1 && (ts[0] in Roots ==> |ts| >= 2)
  }

  /** A path `getattr` can handle: a static node, or tokens it can read. */
  predicate GetattrDefined(path: string)
  {
    IndexOf(Table, path).Some? || Dereferenceable(Tokens(path))
  }

  /** A component that starts with `#` or `-` is taken for an option. */
  predicate IsOptionToken(t: string)
  {
    t != [] && (t[0] == '#' || t[0] == '-')
  }

  /** A dynamic option directory: bare `S_IFDIR`, no permission bits. */
  const OptionDirStat: Stat := Stat(Mode(Dir, 0), 2, 0)

  /** A dynamic spec: `S_IFLNK | 0777`, size unknown until resolved. */
  const SpecLinkStat: Stat := Stat(Mode(Lnk, PERM_777), 1, 0)

  /** The attributes `getattr` reports for `path`; None is `-ENOENT`. */
  function Attributes(path: string): Option<Stat>
    requires GetattrDefined(path)
  {
    match IndexOf(Table, path)
    case Some(i) => Some(NodeStat(Table[i]))
    case None =>
      var ts := Tokens(path);
      if ts[0] !in Roots || ts[1] !in Encodings then None
      else if IsOptionToken(ts[|ts| - 1]) then Some(OptionDirStat)
      else Some(SpecLinkStat)
  }

  /** `nixfs_getattr`: zero `stbuf`; an exact match in the table wins before
      any tokenizing; otherwise the first two components must be a root and
      an encoding, and the last component decides between an option
      directory and a spec symlink. Any other path is `-ENOENT` with
      `stbuf` left zeroed. */
  method Getattr(path: string) returns (res: int, st: Stat)
    requires GetattrDefined(path)
    ensures res == 0 <==> Attributes(path).Some?
    ensures res == 0 ==> st == Attributes(path).value
    ensures res != 0 ==> res == -ENOENT && st == ZeroStat
  {
    st := ZeroStat;
    var idx := Find(Table, path);
    if idx.Some? {
      return 0, NodeStat(Table[idx.value]);
    }
    var tokens := TokenizePath(path);
    var isRoot := ValidatePath(Roots, tokens[0]);
    if isRoot {
      var isEncoding := ValidatePath(Encodings, tokens[1]);
      if !isEncoding {
        return -ENOENT, st;
      }
      TokensAreComponents(path);
      var last := tokens[|tokens| - 1];
      if last[0] == '#' || last[0] == '-' {
        return 0, OptionDirStat;
      }
      return 0, SpecLinkStat;
    }
    return -ENOENT, st;
  }

  /** `nixfs_readdir`: only a static directory can be listed. */
  method Readdir(path: string) returns (res: int, names: seq<string>)
    ensures res == 0 <==> IndexOf(Table, path).Some?
    ensures res != 0 ==> res == -ENOENT && names == []
    ensures res == 0 ==> names == [".", ".."] + ChildNames(Table, path)
  {
    res, names := ReadDir(Table, path);
  }

  /** `nixfs_open`: only the `b64` and `str` directories under `flake` can
      be opened, and only read-only. */
  function Open(path: string, flags: int): (r: int)
    ensures r == 0 <==> (path == "/flake/b64" || path == "/flake/str") && AccessMode(flags) == O_RDONLY
    ensures r == -EACCES <==> (path == "/flake/b64" || path == "/flake/str") && AccessMode(flags) != O_RDONLY
    ensures r == -ENOENT <==> path != "/flake/b64" && path != "/flake/str"
  {
    if path == "/flake/b64" || path == "/flake/str" then
      if AccessMode(flags) != O_RDONLY then -EACCES else 0
    else -ENOENT
  }

  /** `nixfs_read`: dynamic content is never read as a byte stream. */
  function Read(path: string, size: nat, offset: int): (r: int)
    ensures r == -ENOENT
  {
    -ENOENT
  }

  /** Every table path has at most two components, the first a root and the
      second an encoding. */
  lemma TablePathTokens(k: nat)
    requires k < |Table|
    ensures var ts := Tokens(Table[k].path);
      |ts| <= 2 && (|ts| >= 1 ==> ts[0] in Roots) && (|ts| == 2 ==> ts[1] in Encodings)
  {
    if k == 0 {
      TokensOfJoin([]);
    } else if k == 1 {
      assert Table[1].path == "/" + "flake";
      OneToken("flake");
    } else if k == 5 {
      assert Table[5].path == "/" + "expr";
      OneToken("expr");
    } else if k == 2 {
      assert Table[2].path == "/" + "flake" + "/" + "b64";
      TwoTokens("flake", "b64");
    } else if k == 3 {
      assert Table[3].path == "/" + "flake" + "/" + "str";
      TwoTokens("flake", "str");
    } else if k == 4 {
      assert Table[4].path == "/" + "flake" + "/" + "urlenc";
      TwoTokens("flake", "urlenc");
    } else if k == 6 {
      assert Table[6].path == "/" + "expr" + "/" + "b64";
      TwoTokens("expr", "b64");
    } else if k == 7 {
      assert Table[7].path == "/" + "expr" + "/" + "str";
      TwoTokens("expr", "str");
    } else {
      assert Table[8].path == "/" + "expr" + "/" + "urlenc";
      TwoTokens("expr", "urlenc");
    }
  }

  lemma OneToken(a: string)
    requires Component(a)
    ensures Tokens("/" + a) == [a]
  {
    assert [a][1..] == [];
    assert Join([a]) == "/" + a;
    TokensOfJoin([a]);
  }

  lemma TwoTokens(a: string, b: string)
    requires Component(a) && Component(b)
    ensures Tokens("/" + a + "/" + b) == [a, b]
  {
    JoinTwo(a, b);
    TokensOfJoin([a, b]);
  }

  lemma JoinOne(a: string)
    ensures Join([a]) == "/" + a
  {
    assert [a][1..] == [];
  }

  lemma JoinTwo(a: string, b: string)
    ensures Join([a, b]) == "/" + a + "/" + b
  {
    assert [a, b][1..] == [b];
    JoinOne(b);
  }

  predicate Components(ts: seq<string>)
  {
    forall k :: 0 <= k < |ts| ==> Component(ts[k])
  }

  /** A canonical path of three or more components, or one that does not
      start with a root and an encoding, is not in the table. */
  lemma NotStatic(ts: seq<string>)
    requires Components(ts)
    requires |ts| >= 3 || (|ts| >= 1 && ts[0] !in Roots) || (|ts| >= 2 && ts[1] !in Encodings)
    ensures IndexOf(Table, Join(ts)) == None
  {
    TokensOfJoin(ts);
    if IndexOf(Table, Join(ts)).Some? {
      TablePathTokens(IndexOf(Table, Join(ts)).value);
    }
  }

  /** `/<root>/<encoding>/[<option>/…]<spec>` is a symbolic link whenever the
      last component is not option-like. */
  lemma SpecPathIsLink(root: string, enc: string, options: seq<string>, spec: string)
    requires root in Roots && enc in Encodings
    requires Components(options) && Component(spec) && !IsOptionToken(spec)
    ensures var p := Join([root, enc] + options + [spec]);
      GetattrDefined(p) && Attributes(p) == Some(SpecLinkStat)
  {
    var ts := [root, enc] + options + [spec];
    NotStatic(ts);
    TokensOfJoin(ts);
  }

  /** A path whose last component starts with `#` or `-` is an empty-mode
      directory of size zero. */
  lemma OptionPathIsDirectory(root: string, enc: string, options: seq<string>, last: string)
    requires root in Roots && enc in Encodings
    requires Components(options) && Component(last) && IsOptionToken(last)
    ensures var p := Join([root, enc] + options + [last]);
      GetattrDefined(p) && Attributes(p) == Some(OptionDirStat)
  {
    var ts := [root, enc] + options + [last];
    NotStatic(ts);
    TokensOfJoin(ts);
  }

  /** An unknown root or an unknown encoding is `-ENOENT`, however deep the
      path. */
  lemma UnknownNamespaceIsMissing(ts: seq<string>)
    requires Components(ts) && |ts| >= 1
    requires ts[0] !in Roots || (|ts| >= 2 && ts[1] !in Encodings)
    ensures GetattrDefined(Join(ts)) && Attributes(Join(ts)) == None
  {
    NotStatic(ts);
    TokensOfJoin(ts);
  }

  /** `readdir` succeeds exactly on the paths `getattr` finds in the table,
      which are all directories; the option directories `getattr`
      synthesizes cannot be listed. */
  lemma ReaddirMatchesGetattr(path: string)
    requires GetattrDefined(path)
    ensures IndexOf(Table, path).Some? ==> Attributes(path) == Some(Stat(DirNode, 2, 0))
    ensures Attributes(path) == Some(OptionDirStat) ==> IndexOf(Table, path).None?
  {
  }

  /** Every name `readdir` lists is a table node whose path is the directory
      followed by that name, so `getattr` reports it as a directory. */
  lemma ListedNamesExist(parent: string, c: string)
    requires c in ChildNames(Table, parent)
    ensures '/' !in c
    ensures exists k :: 0 <= k < |Table| && Table[k].path in {parent + "/" + c, parent + c}
  {
    ChildNamesSpec(Table, parent, c);
    var k :| 0 <= k < |Table| && ChildName(parent, Table[k].path) == Some(c);
    ChildNameIff(parent, Table[k].path, c);
  }

  /** Only two of the table's directories can be opened, and nothing outside
      the table can. */
  lemma OpenOnlyTableDirectories(path: string, flags: int)
    requires Open(path, flags) != -ENOENT
    ensures IndexOf(Table, path).Some? && Table[IndexOf(Table, path).value].mode == DirNode
  {
    assert Table[2].path == "/flake/b64" && Table[3].path == "/flake/str";
  }
}

/** The directory listings of the nixfs tree, worked out node by node over
    any table that has the nine paths of the tree in table order (the modes
    and sizes play no part in a listing). */
module NixFsListing {
  import opened FsTable
  import opened NixFs

  predicate TreePaths(t: seq<FsNode>)
  {
    |t| == 9 &&
    t[0].path == "/" && t[1].path == "/flake" && t[2].path == "/flake/b64" &&
    t[3].path == "/flake/str" && t[4].path == "/flake/urlenc" && t[5].path == "/expr" &&
    t[6].path == "/expr/b64" && t[7].path == "/expr/str" && t[8].path == "/expr/urlenc"
  }

  lemma TableHasTreePaths()
    ensures TreePaths(Table)
  {
  }

  /** What each node contributes to the listing of `/`. */
  lemma RootListed(t: seq<FsNode>, i: nat)
    requires TreePaths(t) && i < 9
    ensures Listed("/", t[i]) == if i == 1 then ["flake"] else if i == 5 then ["expr"] else []
  {
    var p := "/";
    if i == 0 {
      NoSelfListing(p);
    } else if i == 1 {
      assert t[1].path == p + "flake";
      ListedAs(p, t[1], "flake");
    } else if i == 5 {
      assert t[5].path == p + "expr";
      ListedAs(p, t[5], "expr");
    } else if i < 5 {
      Deeper(p, t[i].path, 4);
    } else {
      Deeper(p, t[i].path, 3);
    }
  }

  /** A nine-node table whose nodes contribute as the tree's do lists the
      two namespaces under `/`. */
  lemma RootListingFrom(t: seq<FsNode>)
    requires |t| == 9
    requires Listed("/", t[0]) == [] && Listed("/", t[1]) == ["flake"] && Listed("/", t[2]) == []
    requires Listed("/", t[3]) == [] && Listed("/", t[4]) == [] && Listed("/", t[5]) == ["expr"]
    requires Listed("/", t[6]) == [] && Listed("/", t[7]) == [] && Listed("/", t[8]) == []
    ensures ChildNames(t, "/") == ["flake", "expr"]
  {
    ChildNamesOfNine(t, "/", [], ["flake"], [], [], [], ["expr"], [], [], []);
    assert [] + ["flake"] + [] + [] + [] + ["expr"] + [] + [] + [] == ["flake", "expr"];
  }

  /** The root lists the two namespaces. */
  lemma ListingOfRoot()
    ensures ChildNames(Table, "/") == ["flake", "expr"]
  {
    var t := Table;
    TableHasTreePaths();
    RootListed(t, 0); RootListed(t, 1); RootListed(t, 2); RootListed(t, 3); RootListed(t, 4);
    RootListed(t, 5); RootListed(t, 6); RootListed(t, 7); RootListed(t, 8);
    RootListingFrom(t);
  }

  /** What the `k`-th encoding node under a namespace root contributes to
      its listing: its own name. */
  lemma EncodingUnderRoot(t: seq<FsNode>, p: string, first: nat, k: nat)
    requires TreePaths(t) && k < 3
    requires (p == "/flake" && first == 2) || (p == "/expr" && first == 6)
    ensures Listed(p, t[first + k]) == [["b64", "str", "urlenc"][k]]
  {
    var enc := ["b64", "str", "urlenc"][k];
    if p == "/flake" {
      assert t[first + k].path == "/flake" + "/" + enc;
    } else {
      assert t[first + k].path == "/expr" + "/" + enc;
    }
    ListedAs(p, t[first + k], enc);
  }

  /** No other node is listed under a namespace root. */
  lemma OthersNotListed(t: seq<FsNode>, p: string, first: nat, i: nat)
    requires TreePaths(t) && i < 9
    requires (p == "/flake" && first == 2) || (p == "/expr" && first == 6)
    requires i < first || first + 2 < i
    ensures Listed(p, t[i]) == []
  {
    if i == 0 {
      ShorterNode(p, t[0].path);
    } else if i == first - 1 {
      NoSelfListing(p);
    } else {
      Elsewhere(p, t[i].path, 1);
    }
  }

  /** A nine-node table whose nodes contribute as the tree's do lists the
      three encodings under `/flake`. */
  lemma FlakeListingFrom(t: seq<FsNode>)
    requires |t| == 9
    requires Listed("/flake", t[0]) == [] && Listed("/flake", t[1]) == [] && Listed("/flake", t[2]) == ["b64"]
    requires Listed("/flake", t[3]) == ["str"] && Listed("/flake", t[4]) == ["urlenc"] && Listed("/flake", t[5]) == []
    requires Listed("/flake", t[6]) == [] && Listed("/flake", t[7]) == [] && Listed("/flake", t[8]) == []
    ensures ChildNames(t, "/flake") == ["b64", "str", "urlenc"]
  {
    ChildNamesOfNine(t, "/flake", [], [], ["b64"], ["str"], ["urlenc"], [], [], [], []);
    assert [] + [] + ["b64"] + ["str"] + ["urlenc"] + [] + [] + [] + [] == ["b64", "str", "urlenc"];
  }

  /** The same for `/expr`, whose encodings are the last three nodes. */
  lemma ExprListingFrom(t: seq<FsNode>)
    requires |t| == 9
    requires Listed("/expr", t[0]) == [] && Listed("/expr", t[1]) == [] && Listed("/expr", t[2]) == []
    requires Listed("/expr", t[3]) == [] && Listed("/expr", t[4]) == [] && Listed("/expr", t[5]) == []
    requires Listed("/expr", t[6]) == ["b64"] && Listed("/expr", t[7]) == ["str"] && Listed("/expr", t[8]) == ["urlenc"]
    ensures ChildNames(t, "/expr") == ["b64", "str", "urlenc"]
  {
    ChildNamesOfNine(t, "/expr", [], [], [], [], [], [], ["b64"], ["str"], ["urlenc"]);
    assert [] + [] + [] + [] + [] + [] + ["b64"] + ["str"] + ["urlenc"] == ["b64", "str", "urlenc"];
  }

  /** `/flake` and `/expr` each list the three encodings. */
  lemma ListingOfNamespaces()
    ensures ChildNames(Table, "/flake") == ["b64", "str", "urlenc"]
    ensures ChildNames(Table, "/expr") == ["b64", "str", "urlenc"]
  {
    var t := Table;
    TableHasTreePaths();
    EncodingUnderRoot(t, "/flake", 2, 0); EncodingUnderRoot(t, "/flake", 2, 1);
    EncodingUnderRoot(t, "/flake", 2, 2);
    OthersNotListed(t, "/flake", 2, 0); OthersNotListed(t, "/flake", 2, 1);
    OthersNotListed(t, "/flake", 2, 5); OthersNotListed(t, "/flake", 2, 6);
    OthersNotListed(t, "/flake", 2, 7); OthersNotListed(t, "/flake", 2, 8);
    FlakeListingFrom(t);
    EncodingUnderRoot(t, "/expr", 6, 0); EncodingUnderRoot(t, "/expr", 6, 1);
    EncodingUnderRoot(t, "/expr", 6, 2);
    OthersNotListed(t, "/expr", 6, 0); OthersNotListed(t, "/expr", 6, 1);
    OthersNotListed(t, "/expr", 6, 2); OthersNotListed(t, "/expr", 6, 3);
    OthersNotListed(t, "/expr", 6, 4); OthersNotListed(t, "/expr", 6, 5);
    ExprListingFrom(t);
  }

  predicate EncodingDir(p: string)
  {
    p in {"/flake/b64", "/flake/str", "/flake/urlenc", "/expr/b64", "/expr/str", "/expr/urlenc"}
  }

  /** What each node contributes to the listing of an encoding directory:
      nothing. */
  lemma EncodingListed(t: seq<FsNode>, p: string, i: nat)
    requires TreePaths(t) && EncodingDir(p) && i < 9
    ensures Listed(p, t[i]) == []
  {
    if t[i].path == p {
      NoSelfListing(p);
    } else if |t[i].path| < |p| {
      ShorterNode(p, t[i].path);
    } else if p[1] != t[i].path[1] {
      Elsewhere(p, t[i].path, 1);
    } else {
      Elsewhere(p, t[i].path, if p[1] == 'f' then 7 else 6);
    }
  }

  /** A nine-node table none of whose nodes is listed under `p` lists
      nothing there. */
  lemma EmptyListingFrom(t: seq<FsNode>, p: string)
    requires |t| == 9
    requires forall i :: 0 <= i < 9 ==> Listed(p, t[i]) == []
    ensures ChildNames(t, p) == []
  {
    ChildNamesOfNine(t, p, [], [], [], [], [], [], [], [], []);
  }

  /** The encoding directories list nothing beyond `.` and `..`: the specs
      under them are not enumerable. */
  lemma ListingOfEncodingDir(p: string)
    requires EncodingDir(p)
    ensures ChildNames(Table, p) == []
  {
    var t := Table;
    TableHasTreePaths();
    forall i | 0 <= i < 9
      ensures Listed(p, t[i]) == []
    {
      EncodingListed(t, p, i);
    }
    EmptyListingFrom(t, p);
  }
}
