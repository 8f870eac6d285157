// A directory entry as stored in a directory's data: a 16-bit inode number
// (0 marks a free entry) followed by DIRSIZ name bytes, 16 bytes in all.
module Dirent {
  import opened Param
  import opened Bytes

  const DIRENT_SIZE: nat := 2 + DIRSIZ

  datatype Dirent = Dirent(inum: u16, name: seq<byte>)

  predicate WellFormed(d: Dirent) { |d.name| == DIRSIZ }

  function Encode(d: Dirent): (s: seq<byte>)
    requires WellFormed(d)
    ensures |s| == DIRENT_SIZE
  {
    Le16(d.inum) + d.name
  }

  /** The entry stored at byte `off` of `s`. */
  function Decode(s: seq<byte>, off: nat): (d: Dirent)
    requires off + DIRENT_SIZE <= |s|
    ensures WellFormed(d)
  {
    Dirent(Get16(s, off), s[off + 2..off + DIRENT_SIZE])
  }

  lemma DecodeEncode(d: Dirent, s: seq<byte>, off: nat)
    requires WellFormed(d) && off + DIRENT_SIZE <= |s| && s[off..off + DIRENT_SIZE] == Encode(d)
    ensures Decode(s, off) == d
  {
    assert s[off..off + 2] == Encode(d)[..2] == Le16(d.inum);
    Get16Le16(d.inum, s, off);
    assert s[off + 2..off + DIRENT_SIZE] == Encode(d)[2..] == d.name;
  }
}
