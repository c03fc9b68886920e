/** The hello-world filesystem of src/src/main.c: a root directory holding
    one read-only file, `/hello.txt`, whose content is fixed. */
module HelloFs {
  import opened Posix

  const HelloStr: string := "Hello, World!\n"
  const HelloPath: string := "/hello.txt"

  /** `simple_getattr`: zero `stbuf`; the root is a 0755 directory with two
      links and size 0, the file a 0444 regular file with one link and the
      length of its content; anything else is `-ENOENT`. */
  method Getattr(path: string) returns (res: int, st: Stat)
    ensures res == 0 <==> path == "/" || path == HelloPath
    ensures path == "/" ==> st == Stat(Mode(Dir, PERM_755), 2, 0)
    ensures path == HelloPath ==> st == Stat(Mode(Reg, PERM_444), 1, |HelloStr|) && st.size == 14
    ensures res != 0 ==> res == -ENOENT && st == ZeroStat
  {
    st := ZeroStat;
    if path == "/" {
      st := st.(mode := Mode(Dir, PERM_755), nlink := 2);
    } else if path == HelloPath {
      st := st.(mode := Mode(Reg, PERM_444), nlink := 1, size := |HelloStr|);
    } else {
      return -ENOENT, st;
    }
    return 0, st;
  }

  /** `simple_readdir`: only the root can be listed, and it holds `.`,
      `..` and the file's name. */
  function Readdir(path: string): (r: (int, seq<string>))
    ensures r.0 == 0 <==> path == "/"
    ensures r.0 != 0 ==> r.0 == -ENOENT && r.1 == []
    ensures r.0 == 0 ==> r.1 == [".", "..", "hello.txt"]
  {
    if path != "/" then (-ENOENT, [])
    else (0, [".", "..", HelloPath[1..]])
  }

  /** Every entry the root lists is something `getattr` knows: the root
      itself for `.` and `..`, and `/hello.txt` for the file. */
  lemma ListedNamesExist(name: string)
    requires name in Readdir("/").1
    ensures name == "." || name == ".." || "/" + name == HelloPath
  {
  }

  /** `simple_open`: the path is checked before the access mode, so a
      missing file is `-ENOENT` whatever the flags. */
  function Open(path: string, flags: int): (r: int)
    ensures path != HelloPath ==> r == -ENOENT
    ensures path == HelloPath ==> (r == 0 <==> AccessMode(flags) == O_RDONLY)
    ensures path == HelloPath && r != 0 ==> r == -EACCES
  {
    if path != HelloPath then -ENOENT
    else if AccessMode(flags) != O_RDONLY then -EACCES
    else 0
  }

  /** The bytes `simple_read` serves from `content` for a read of `size`
      bytes at `offset`. A negative offset is compared as an unsigned
      number, so it counts as past the end, like any offset at or beyond the
      length. */
  function Served(content: string, size: nat, offset: int): (r: string)
    ensures 0 <= offset < |content| ==>
      |r| == (if size < |content| - offset then size else |content| - offset) &&
      r == content[offset..offset + |r|]
    ensures (offset < 0 || offset >= |content|) ==> r == []
  {
    if offset < 0 || offset >= |content| then []
    else if offset + size > |content| then content[offset..]
    else content[offset..offset + size]
  }

  /** Two reads in a row, the second starting where the first stopped,
      serve what one read of the combined size serves. */
  lemma ServedInTwo(content: string, a: nat, b: nat, offset: nat)
    ensures Served(content, a, offset) + Served(content, b, offset + |Served(content, a, offset)|)
         == Served(content, a + b, offset)
  {
    var first := Served(content, a, offset);
    if offset < |content| {
      var end := offset + |first|;
      if end < |content| {
        var second := Served(content, b, end);
        var whole := Served(content, a + b, offset);
        assert first == content[offset..end];
        assert second == content[end..end + |second|];
        assert |whole| == |first| + |second|;
        assert whole == content[offset..end + |second|];
        assert content[offset..end] + content[end..end + |second|] == content[offset..end + |second|];
      } else {
        assert first + [] == first;
      }
    }
  }

  /** `simple_read`: `-ENOENT` for any other path; 0 at or past the end;
      otherwise the size is cut to what is left and that many bytes are
      copied to the front of `buf`, which is touched nowhere else. */
  method Read(path: string, buf: array<char>, size: nat, offset: int) returns (r: int)
    requires size <= buf.Length
    modifies buf
    ensures path != HelloPath ==> r == -ENOENT && buf[..] == old(buf[..])
    ensures path == HelloPath ==> r == |Served(HelloStr, size, offset)| && r <= size
    ensures path == HelloPath ==> buf[..r] == Served(HelloStr, size, offset)
    ensures r >= 0 ==> forall i :: r <= i < buf.Length ==> buf[i] == old(buf[i])
  {
    if path != HelloPath {
      return -ENOENT;
    }
    var len := |HelloStr|;
    if offset < 0 || offset >= len {
      return 0;
    }
    var n := size;
    if offset + n > len {
      n := len - offset;
    }
    forall i | 0 <= i < n {
      buf[i] := HelloStr[offset + i];
    }
    return n;
  }
}
