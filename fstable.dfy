/** The fixed part of a filesystem tree: a table of `fs_node` records, the
    exact-match lookup both revisions run before anything else, and the
    directory listing derived from path prefixes. Both revisions of the
    filesystem use these with their own table. */
module FsTable {
  import opened Posix

  /** `fs_node.path` is a `char[MAX_PATH_LENGTH]`, so at most 255 characters. */
  const MAX_PATH_LENGTH: nat := 256

  datatype FsNode = FsNode(path: string, mode: Mode, size: int)

  /** `S_IFDIR | 0755`, the mode of every static directory in both tables. */
  const DirNode: Mode := Mode(Dir, PERM_755)

  predicate WellFormed(table: seq<FsNode>)
  {
    forall i :: 0 <= i < |table| ==> |table[i].path| < MAX_PATH_LENGTH
  }

  /** The index of the first node whose path is exactly `path`. */
  function IndexOf(table: seq<FsNode>, path: string): (r: Option<nat>)
    ensures r.Some? ==> r.value < |table| && table[r.value].path == path
    ensures r.Some? ==> forall j :: 0 <= j < r.value ==> table[j].path != path
    ensures r.None? <==> forall j :: 0 <= j < |table| ==> table[j].path != path
  {
    if table == [] then None
    else if table[0].path == path then Some(0)
    else match IndexOf(table[1..], path)
      case None => None
      case Some(k) => Some(k + 1)
  }

  /** The attributes `getattr` reports for a table node: the node's mode and
      size, two links for a directory and one for anything else. */
  function NodeStat(n: FsNode): Stat
  {
    Stat(n.mode, if n.mode.kind == Dir then 2 else 1, n.size)
  }

  /** The search loop that opens every `getattr` and `readdir`: walk the
      table in order and stop at the first exact match. */
  method Find(table: seq<FsNode>, path: string) returns (idx: Option<nat>)
    ensures idx == IndexOf(table, path)
  {
    var i := 0;
    while i < |table|
      invariant 0 <= i <= |table|
      invariant forall j :: 0 <= j < i ==> table[j].path != path
    {
      if table[i].path == path {
        return Some(i);
      }
      i := i + 1;
    }
    return None;
  }

  /** The name `readdir` hands to `filler` for node path `node` under
      directory `parent`, if any: `node` must start with `parent` as a plain
      string prefix, the remainder must be non-empty and hold no `/` after its
      first character, and one leading `/` of the remainder is dropped. */
  function ChildName(parent: string, node: string): Option<string>
  {
    if |parent| <= |node| && node[..|parent|] == parent then
      var rest := node[|parent|..];
      if rest != [] && '/' !in rest[1..] then
        Some(if rest[0] == '/' then rest[1..] else rest)
      else None
    else None
  }

  /** A name listed under `parent` is a single path component, and the node
      it came from is `parent` followed by that name, with or without a
      separating `/` (without one only for a non-empty name). Both directions. */
  lemma ChildNameIff(parent: string, node: string, c: string)
    ensures ChildName(parent, node) == Some(c) <==>
      '/' !in c && (node == parent + "/" + c || (c != "" && node == parent + c))
  {
    if ChildName(parent, node) == Some(c) {
      var rest := node[|parent|..];
      assert node == parent + rest;
      if rest[0] == '/' {
        assert rest == "/" + c;
      } else {
        assert rest == [rest[0]] + rest[1..];
      }
    }
    if '/' !in c && node == parent + "/" + c {
      assert node[..|parent|] == parent;
      assert node[|parent|..] == "/" + c;
    }
    if '/' !in c && c != "" && node == parent + c {
      assert node[..|parent|] == parent;
      assert node[|parent|..] == c;
      assert c[1..] <= c[1..] && forall k :: 1 <= k < |c| ==> c[k] != '/';
    }
  }

  /** A directory never lists itself. */
  lemma NoSelfListing(parent: string)
    ensures ChildName(parent, parent) == None
  {
    assert parent[|parent|..] == [];
  }

  function Listed(parent: string, n: FsNode): seq<string>
  {
    match ChildName(parent, n.path)
    case Some(c) => [c]
    case None => []
  }

  /** The names `readdir` passes to `filler` after `.` and `..`, in table
      order. */
  function ChildNames(table: seq<FsNode>, parent: string): seq<string>
  {
    if table == [] then []
    else ChildNames(table[..|table| - 1], parent) + Listed(parent, table[|table| - 1])
  }

  /** Exactly the immediate children are listed: a name is in the listing iff
      some node of the table yields it. */
  lemma {:induction false} ChildNamesSpec(table: seq<FsNode>, parent: string, c: string)
    ensures c in ChildNames(table, parent) <==>
      exists k :: 0 <= k < |table| && ChildName(parent, table[k].path) == Some(c)
  {
    if table != [] {
      var init := table[..|table| - 1];
      ChildNamesSpec(init, parent, c);
      if c in ChildNames(init, parent) {
        var k :| 0 <= k < |init| && ChildName(parent, init[k].path) == Some(c);
        assert table[k] == init[k];
      }
      if exists k :: 0 <= k < |table| && ChildName(parent, table[k].path) == Some(c) {
        var k :| 0 <= k < |table| && ChildName(parent, table[k].path) == Some(c);
        if k < |init| {
          assert init[k] == table[k];
        }
      }
    }
  }

  /** Listing one more node of the table appends what that node contributes. */
  lemma ChildNamesStep(t: seq<FsNode>, p: string, k: nat, before: seq<string>, l: seq<string>)
    requires k < |t| && ChildNames(t[..k], p) == before && Listed(p, t[k]) == l
    ensures ChildNames(t[..k + 1], p) == before + l
  {
    assert t[..k + 1][..k] == t[..k];
  }

  /** The listing of a six-node table, from what each node contributes. */
  lemma ChildNamesOfSix(t: seq<FsNode>, p: string,
                        l0: seq<string>, l1: seq<string>, l2: seq<string>,
                        l3: seq<string>, l4: seq<string>, l5: seq<string>)
    requires |t| == 6
    requires Listed(p, t[0]) == l0 && Listed(p, t[1]) == l1 && Listed(p, t[2]) == l2
    requires Listed(p, t[3]) == l3 && Listed(p, t[4]) == l4 && Listed(p, t[5]) == l5
    ensures ChildNames(t, p) == l0 + l1 + l2 + l3 + l4 + l5
  {
    assert t[..0] == [];
    ChildNamesStep(t, p, 0, [], l0);
    assert [] + l0 == l0;
    ChildNamesStep(t, p, 1, l0, l1);
    ChildNamesStep(t, p, 2, l0 + l1, l2);
    ChildNamesStep(t, p, 3, l0 + l1 + l2, l3);
    ChildNamesStep(t, p, 4, l0 + l1 + l2 + l3, l4);
    ChildNamesStep(t, p, 5, l0 + l1 + l2 + l3 + l4, l5);
    assert t[..6] == t;
  }

  /** The listing of a nine-node table, from what each node contributes. */
  lemma ChildNamesOfNine(t: seq<FsNode>, p: string,
                         l0: seq<string>, l1: seq<string>, l2: seq<string>,
                         l3: seq<string>, l4: seq<string>, l5: seq<string>,
                         l6: seq<string>, l7: seq<string>, l8: seq<string>)
    requires |t| == 9
    requires Listed(p, t[0]) == l0 && Listed(p, t[1]) == l1 && Listed(p, t[2]) == l2
    requires Listed(p, t[3]) == l3 && Listed(p, t[4]) == l4 && Listed(p, t[5]) == l5
    requires Listed(p, t[6]) == l6 && Listed(p, t[7]) == l7 && Listed(p, t[8]) == l8
    ensures ChildNames(t, p) == l0 + l1 + l2 + l3 + l4 + l5 + l6 + l7 + l8
  {
    ChildNamesOfSix(t[..6], p, l0, l1, l2, l3, l4, l5);
    ChildNamesStep(t, p, 6, l0 + l1 + l2 + l3 + l4 + l5, l6);
    ChildNamesStep(t, p, 7, l0 + l1 + l2 + l3 + l4 + l5 + l6, l7);
    ChildNamesStep(t, p, 8, l0 + l1 + l2 + l3 + l4 + l5 + l6 + l7, l8);
    assert t[..9] == t;
  }

  /** A node whose path is `parent` followed by the single component `c`
      (after a `/`, or directly when `c` is non-empty) is listed as `c`. */
  lemma ListedAs(parent: string, n: FsNode, c: string)
    requires '/' !in c
    requires n.path == parent + "/" + c || (c != "" && n.path == parent + c)
    ensures Listed(parent, n) == [c]
  {
    ChildNameIff(parent, n.path, c);
  }

  /** A node whose path differs from `parent` within `parent`'s length is
      not listed. */
  lemma Elsewhere(parent: string, node: string, k: nat)
    requires k < |parent| && k < |node| && parent[k] != node[k]
    ensures ChildName(parent, node) == None
  {
    if |parent| <= |node| {
      assert node[..|parent|][k] == node[k];
    }
  }

  /** A node path shorter than `parent` is not listed. */
  lemma ShorterNode(parent: string, node: string)
    requires |node| < |parent|
    ensures ChildName(parent, node) == None
  {
  }

  /** A node two or more levels below `parent` is not listed: the remainder
      holds a `/` at offset `k` past its first character. */
  lemma Deeper(parent: string, node: string, k: nat)
    requires |parent| + 1 + k < |node| && node[..|parent|] == parent && node[|parent| + 1 + k] == '/'
    ensures ChildName(parent, node) == None
  {
    assert node[|parent|..][1..][k] == '/';
  }

  /** `readdir` over a table: find the parent by exact match (the first one),
      refuse anything that is missing or is not a directory, then report `.`,
      `..` and every immediate child, in table order, through `filler`
      (modelled as appending to `names`). */
  method ReadDir(table: seq<FsNode>, path: string) returns (res: int, names: seq<string>)
    ensures res == 0 <==> IndexOf(table, path).Some? && table[IndexOf(table, path).value].mode.kind == Dir
    ensures res != 0 ==> res == -ENOENT && names == []
    ensures res == 0 ==> names == [".", ".."] + ChildNames(table, path)
  {
    var parent := Find(table, path);
    if parent.None? || table[parent.value].mode.kind != Dir {
      return -ENOENT, [];
    }
    names := [".", ".."];
    var i := 0;
    while i < |table|
      invariant 0 <= i <= |table|
      invariant names == [".", ".."] + ChildNames(table[..i], path)
    {
      assert table[..i + 1][..i] == table[..i];
      var child := ChildName(path, table[i].path);
      if child.Some? {
        names := names + [child.value];
      }
      i := i + 1;
    }
    assert table[..|table|] == table;
    res := 0;
  }
}
