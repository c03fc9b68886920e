/** The earlier resolver of src/src/nixfs.c: a six-node table that also
    holds a regular file, exact-match `getattr`, prefix-derived `readdir`,
    the same `open` rule as the later revision, and a fixed symlink. */
module LegacyFs {
  import opened Posix
  import opened FsTable
  import NixFs

  /** The table, in source order. */
  const Table: seq<FsNode> := [
    FsNode("/", DirNode, 0),
    FsNode("/flake", DirNode, 0),
    FsNode("/cake", DirNode, 0),
    FsNode("/cake/lie", DirNode, 0),
    FsNode("/flake/b64", DirNode, 0),
    FsNode("/flake/str", Mode(Reg, PERM_444), 1337)
  ]

  /** Every path fits the record's `char[256]`. */
  lemma TableWellFormed()
    ensures WellFormed(Table)
  {
  }

  /** `nixfs_getattr`: zero `stbuf`, then copy the mode and size of the
      first exact match, with two links for a directory and one otherwise.
      There are no dynamic paths. */
  method Getattr(path: string) returns (res: int, st: Stat)
    ensures res == 0 <==> IndexOf(Table, path).Some?
    ensures res == 0 ==> st == NodeStat(Table[IndexOf(Table, path).value])
    ensures res != 0 ==> res == -ENOENT && st == ZeroStat
  {
    st := ZeroStat;
    var idx := Find(Table, path);
    if idx.None? {
      return -ENOENT, st;
    }
    return 0, NodeStat(Table[idx.value]);
  }

  /** `/flake/str` is a read-only regular file of 1337 bytes, the one node
      that is not a directory. */
  lemma StrIsRegularFile()
    ensures IndexOf(Table, "/flake/str") == Some(5)
    ensures NodeStat(Table[5]) == Stat(Mode(Reg, PERM_444), 1, 1337)
    ensures forall i :: 0 <= i < |Table| && i != 5 ==> NodeStat(Table[i]) == Stat(DirNode, 2, 0)
  {
  }

  /** `nixfs_readdir`: the path must be a directory of the table. */
  method Readdir(path: string) returns (res: int, names: seq<string>)
    ensures res == 0 <==> IndexOf(Table, path).Some? && path != "/flake/str"
    ensures res != 0 ==> res == -ENOENT && names == []
    ensures res == 0 ==> names == [".", ".."] + ChildNames(Table, path)
  {
    res, names := ReadDir(Table, path);
  }

  /** `nixfs_open`: only `/flake/b64` and `/flake/str`, and only read-only.
      The rule did not change between the revisions, although here
      `/flake/str` is a file and there a directory, so it is the later
      revision's rule. */
  function Open(path: string, flags: int): (r: int)
    ensures r == 0 <==> (path == "/flake/b64" || path == "/flake/str") && AccessMode(flags) == O_RDONLY
    ensures r == -EACCES <==> (path == "/flake/b64" || path == "/flake/str") && AccessMode(flags) != O_RDONLY
    ensures r == -ENOENT <==> path != "/flake/b64" && path != "/flake/str"
  {
    NixFs.Open(path, flags)
  }

  /** Whatever `open` accepts is in the table. */
  lemma OpenOnlyTableNodes(path: string, flags: int)
    requires Open(path, flags) != -ENOENT
    ensures IndexOf(Table, path).Some?
  {
    assert Table[4].path == "/flake/b64" && Table[5].path == "/flake/str";
  }

  /** The fixed link target. */
  const HelloPath: string := "/hello.txt"

  /** `nixfs_readlink`: only `/abc` is a link. `strncpy` copies at most
      `size - 1` characters of `/hello.txt` and pads with NULs up to
      `size - 1`; the last byte is then set to NUL. */
  method Readlink(path: string, buf: array<char>, size: nat) returns (res: int)
    requires 1 <= size <= buf.Length
    modifies buf
    ensures path != "/abc" ==> res == -ENOENT && buf[..] == old(buf[..])
    ensures path == "/abc" ==>
      var n := if size - 1 < |HelloPath| then size - 1 else |HelloPath|;
      res == 0 && buf[..n] == HelloPath[..n] && (forall i :: n <= i < size ==> buf[i] == '\0')
    ensures forall i :: size <= i < buf.Length ==> buf[i] == old(buf[i])
  {
    if path != "/abc" {
      return -ENOENT;
    }
    Strncpy(buf, HelloPath, size - 1);
    buf[size - 1] := '\0';
    return 0;
  }

  /** `strncpy(dst, src, n)` for a NUL-free `src`: `n` bytes are written,
      the prefix of `src` and then NULs. */
  method Strncpy(dst: array<char>, src: string, n: nat)
    requires n <= dst.Length && '\0' !in src
    modifies dst
    ensures forall i :: 0 <= i < n ==> dst[i] == if i < |src| then src[i] else '\0'
    ensures forall i :: n <= i < dst.Length ==> dst[i] == old(dst[i])
  {
    forall i | 0 <= i < n {
      dst[i] := if i < |src| then src[i] else '\0';
    }
  }

  /** What a C reader sees in a buffer filled as `Readlink` fills it: the
      copied prefix of a NUL-free target, so the whole target once the
      buffer has room for it and its terminator. */
  lemma StrncpyTarget(src: string, size: nat, b: seq<char>)
    requires '\0' !in src && 1 <= size <= |b|
    requires var n := if size - 1 < |src| then size - 1 else |src|;
      b[..n] == src[..n] && (forall i :: n <= i < size ==> b[i] == '\0')
    ensures UpToNul(b) == src[..if size - 1 < |src| then size - 1 else |src|]
    ensures size > |src| ==> UpToNul(b) == src
  {
    var n := if size - 1 < |src| then size - 1 else |src|;
    assert b[n] == '\0';
    forall i | 0 <= i < n
      ensures b[i] != '\0'
    {
      assert b[i] == b[..n][i] == src[i];
    }
    NulFreePrefix(b, n);
  }

  /** A buffer whose first NUL is at `n` reads as its first `n` bytes. */
  lemma {:induction false} NulFreePrefix(b: seq<char>, n: nat)
    requires n < |b| && b[n] == '\0'
    requires forall i :: 0 <= i < n ==> b[i] != '\0'
    ensures UpToNul(b) == b[..n]
  {
    if n > 0 {
      NulFreePrefix(b[1..], n - 1);
      assert b[..n] == [b[0]] + b[1..][..n - 1];
    }
  }
}

/** The directory listings of the earlier tree, worked out node by node over
    any table with the six paths of the tree in table order. */
module LegacyListing {
  import opened FsTable
  import opened LegacyFs

  predicate TreePaths(t: seq<FsNode>)
  {
    |t| == 6 &&
    t[0].path == "/" && t[1].path == "/flake" && t[2].path == "/cake" &&
    t[3].path == "/cake/lie" && t[4].path == "/flake/b64" && t[5].path == "/flake/str"
  }

  lemma TableHasTreePaths()
    ensures TreePaths(Table)
  {
  }

  /** What each node contributes to the listing of `/`. */
  lemma RootListed(t: seq<FsNode>, i: nat)
    requires TreePaths(t) && i < 6
    ensures Listed("/", t[i]) == if i == 1 then ["flake"] else if i == 2 then ["cake"] else []
  {
    var p := "/";
    if i == 0 {
      NoSelfListing(p);
    } else if i == 1 {
      assert t[1].path == p + "flake";
      ListedAs(p, t[1], "flake");
    } else if i == 2 {
      assert t[2].path == p + "cake";
      ListedAs(p, t[2], "cake");
    } else if i == 3 {
      Deeper(p, t[i].path, 3);
    } else {
      Deeper(p, t[i].path, 4);
    }
  }

  lemma RootListingFrom(t: seq<FsNode>)
    requires |t| == 6
    requires Listed("/", t[0]) == [] && Listed("/", t[1]) == ["flake"] && Listed("/", t[2]) == ["cake"]
    requires Listed("/", t[3]) == [] && Listed("/", t[4]) == [] && Listed("/", t[5]) == []
    ensures ChildNames(t, "/") == ["flake", "cake"]
  {
    ChildNamesOfSix(t, "/", [], ["flake"], ["cake"], [], [], []);
    assert [] + ["flake"] + ["cake"] + [] + [] + [] == ["flake", "cake"];
  }

  /** `/` lists `flake` and `cake`. */
  lemma ListingOfRoot()
    ensures ChildNames(Table, "/") == ["flake", "cake"]
  {
    var t := Table;
    TableHasTreePaths();
    RootListed(t, 0); RootListed(t, 1); RootListed(t, 2);
    RootListed(t, 3); RootListed(t, 4); RootListed(t, 5);
    RootListingFrom(t);
  }

  /** What each node contributes to the listing of `/flake`. */
  lemma FlakeListed(t: seq<FsNode>, i: nat)
    requires TreePaths(t) && i < 6
    ensures Listed("/flake", t[i]) == if i == 4 then ["b64"] else if i == 5 then ["str"] else []
  {
    var p := "/flake";
    if i == 0 {
      ShorterNode(p, t[0].path);
    } else if i == 1 {
      NoSelfListing(p);
    } else if i < 4 {
      Elsewhere(p, t[i].path, 1);
    } else if i == 4 {
      assert t[4].path == p + "/" + "b64";
      ListedAs(p, t[4], "b64");
    } else {
      assert t[5].path == p + "/" + "str";
      ListedAs(p, t[5], "str");
    }
  }

  lemma FlakeListingFrom(t: seq<FsNode>)
    requires |t| == 6
    requires Listed("/flake", t[0]) == [] && Listed("/flake", t[1]) == [] && Listed("/flake", t[2]) == []
    requires Listed("/flake", t[3]) == [] && Listed("/flake", t[4]) == ["b64"] && Listed("/flake", t[5]) == ["str"]
    ensures ChildNames(t, "/flake") == ["b64", "str"]
  {
    ChildNamesOfSix(t, "/flake", [], [], [], [], ["b64"], ["str"]);
    assert [] + [] + [] + [] + ["b64"] + ["str"] == ["b64", "str"];
  }

  /** `/flake` lists `b64` and the file `str`. */
  lemma ListingOfFlake()
    ensures ChildNames(Table, "/flake") == ["b64", "str"]
  {
    var t := Table;
    TableHasTreePaths();
    FlakeListed(t, 0); FlakeListed(t, 1); FlakeListed(t, 2);
    FlakeListed(t, 3); FlakeListed(t, 4); FlakeListed(t, 5);
    FlakeListingFrom(t);
  }

  /** What each node contributes to the listing of `/cake`. */
  lemma CakeListed(t: seq<FsNode>, i: nat)
    requires TreePaths(t) && i < 6
    ensures Listed("/cake", t[i]) == if i == 3 then ["lie"] else []
  {
    var p := "/cake";
    if i == 0 {
      ShorterNode(p, t[0].path);
    } else if i == 2 {
      NoSelfListing(p);
    } else if i == 3 {
      assert t[3].path == p + "/" + "lie";
      ListedAs(p, t[3], "lie");
    } else {
      Elsewhere(p, t[i].path, 1);
    }
  }

  lemma CakeListingFrom(t: seq<FsNode>)
    requires |t| == 6
    requires Listed("/cake", t[0]) == [] && Listed("/cake", t[1]) == [] && Listed("/cake", t[2]) == []
    requires Listed("/cake", t[3]) == ["lie"] && Listed("/cake", t[4]) == [] && Listed("/cake", t[5]) == []
    ensures ChildNames(t, "/cake") == ["lie"]
  {
    ChildNamesOfSix(t, "/cake", [], [], [], ["lie"], [], []);
    assert [] + [] + [] + ["lie"] + [] + [] == ["lie"];
  }

  /** `/cake` lists `lie`. */
  lemma ListingOfCake()
    ensures ChildNames(Table, "/cake") == ["lie"]
  {
    var t := Table;
    TableHasTreePaths();
    CakeListed(t, 0); CakeListed(t, 1); CakeListed(t, 2);
    CakeListed(t, 3); CakeListed(t, 4); CakeListed(t, 5);
    CakeListingFrom(t);
  }

  predicate Leaf(p: string)
  {
    p == "/cake/lie" || p == "/flake/b64"
  }

  /** No node is listed under a leaf directory. */
  lemma LeafListed(t: seq<FsNode>, p: string, i: nat)
    requires TreePaths(t) && Leaf(p) && i < 6
    ensures Listed(p, t[i]) == []
  {
    if t[i].path == p {
      NoSelfListing(p);
    } else if |t[i].path| < |p| {
      ShorterNode(p, t[i].path);
    } else if p[1] != t[i].path[1] {
      Elsewhere(p, t[i].path, 1);
    } else {
      Elsewhere(p, t[i].path, 7);
    }
  }

  lemma EmptyListingFrom(t: seq<FsNode>, p: string)
    requires |t| == 6
    requires forall i :: 0 <= i < 6 ==> Listed(p, t[i]) == []
    ensures ChildNames(t, p) == []
  {
    ChildNamesOfSix(t, p, [], [], [], [], [], []);
  }

  /** `/cake/lie` and `/flake/b64` list nothing beyond `.` and `..`. */
  lemma ListingOfLeaf(p: string)
    requires Leaf(p)
    ensures ChildNames(Table, p) == []
  {
    var t := Table;
    TableHasTreePaths();
    forall i | 0 <= i < 6
      ensures Listed(p, t[i]) == []
    {
      LeafListed(t, p, i);
    }
    EmptyListingFrom(t, p);
  }
}
