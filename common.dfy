/** Vocabulary shared by the three filesystems: POSIX error numbers, the
    `struct stat` fields the callbacks fill in, and access-mode decoding. */
module Posix {

  datatype Option<+T> = None | Some(value: T)

  /** Error numbers as Linux defines them; callbacks return their negation. */
  const ENOENT: int := 2
  const EIO: int := 5
  const EAGAIN: int := 11
  const EACCES: int := 13

  /** `O_RDONLY`; `O_ACCMODE` is 3, so `flags & O_ACCMODE` is `flags % 4`
      (Dafny's `%` is Euclidean, which agrees with masking the low two bits
      of a two's-complement `int`, negative flags included). */
  const O_RDONLY: int := 0

  function AccessMode(flags: int): (m: int)
    ensures 0 <= m < 4
    ensures (flags - m) % 4 == 0
  {
    flags % 4
  }

  /** The file-type bits of `st_mode`, kept abstract. `NoType` is the zero
      mode left by `memset`. */
  datatype FileType = NoType | Dir | Reg | Lnk

  /** Permission bits, written in decimal: 0755, 0444 and 0777. */
  const PERM_755: nat := 493
  const PERM_444: nat := 292
  const PERM_777: nat := 511

  datatype Mode = Mode(kind: FileType, perm: nat)

  /** The three fields of `struct stat` the callbacks write. */
  datatype Stat = Stat(mode: Mode, nlink: nat, size: int)

  /** What `memset(stbuf, 0, sizeof(struct stat))` leaves behind. */
  const ZeroStat: Stat := Stat(Mode(NoType, 0), 0, 0)

  /** The NUL-terminated string a C reader sees in `s`: everything before the
      first NUL byte. */
  function UpToNul(s: string): (r: string)
    ensures '\0' !in r
    ensures r <= s
    ensures |r| < |s| ==> s[|r|] == '\0'
  {
    if s == [] || s[0] == '\0' then [] else [s[0]] + UpToNul(s[1..])
  }
}
