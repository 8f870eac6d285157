// The Unix Fifth Edition on-disk inode (kernel/ufs.h): its mode bits, its
// C layout (32 bytes, no padding), its little-endian byte image inside a
// 512-byte sector, and the sector/slot arithmetic U_IPB and U_IBLOCK.
module Ufs {
  import opened Param
  import opened Bytes

  // i_mode bits, as values of the 16-bit pattern
  const IALLOC: nat := 0x8000   // 0100000: inode is in use
  const IFMT: nat := 0x6000     // 060000: type field
  const IFDIR: nat := 0x4000    // 040000: directory
  const IFCHR: nat := 0x2000    // 020000: character special
  const IFBLK: nat := 0x6000    // 060000: block special
  const ILARG: nat := 0x1000    // 010000: large addressing algorithm

  const U_BSIZE: nat := 512
  const U_NADDR: nat := 8

  /** (mode & IALLOC) == IALLOC: the top bit of the pattern. */
  predicate IsAllocated(mode: u16) { mode >= IALLOC }

  /** (mode & IFDIR) == IFDIR: bit 14. */
  predicate PassesDirTest(mode: u16) { (mode / IFDIR) % 2 == 1 }

  /** mode & IFMT, shifted down: 0 plain, 1 character, 2 directory, 3 block. */
  function TypeField(mode: u16): nat { (mode / IFCHR) % 4 }

  /** (mode & ILARG) == ILARG: bit 12. */
  predicate IsLarge(mode: u16) { (mode / ILARG) % 2 == 1 }

  /** The mode ialloc writes for a new inode of the given type: type | IALLOC.
      The allocated bit is set and every other bit is the type's. */
  function AllocMode(t: u16): (m: u16)
    ensures IsAllocated(m)
    ensures m % IALLOC == t % IALLOC
  {
    if t >= IALLOC then t else t + IALLOC
  }

  /** Setting IALLOC leaves the directory and large-file bits alone. */
  lemma AllocModeKeepsTypeBits(t: u16)
    ensures PassesDirTest(AllocMode(t)) == PassesDirTest(t)
    ensures IsLarge(AllocMode(t)) == IsLarge(t)
    ensures TypeField(AllocMode(t)) == TypeField(t)
  {
  }

  /** Both "directory" and "block special" type fields pass the directory test
      (IFBLK contains the IFDIR bit); plain files and character devices do not. */
  lemma DirTestByTypeField(mode: u16)
    ensures PassesDirTest(mode) <==> TypeField(mode) >= 2
  {
  }

  // ----- struct unix_dinode: C layout -----

  /** One member of a C struct: its size and alignment in bytes. */
  datatype Member = Member(size: nat, align: nat)

  /** The members of a struct in declaration order. */
  datatype Layout = End | Field(m: Member, rest: Layout)

  const UDinodeLayoutDecl: Layout :=
    Field(Member(2, 2),        // i_mode
    Field(Member(1, 1),        // i_nlink
    Field(Member(1, 1),        // i_uid
    Field(Member(1, 1),        // i_gid
    Field(Member(1, 1),        // i_size0
    Field(Member(2, 2),        // i_size1
    Field(Member(16, 2),       // i_addr[8]
    Field(Member(1, 1),        // i_flag
    Field(Member(1, 1),        // i_count
    Field(Member(2, 2),        // i_dev
    Field(Member(2, 2),        // i_number
    Field(Member(2, 2), End))))))))))))  // i_lastr

  predicate HasAlignments(l: Layout) {
    l.End? || (l.m.align > 0 && HasAlignments(l.rest))
  }

  /** The first multiple of `a` at or above `x`. */
  function AlignUp(x: nat, a: nat): nat
    requires a > 0
  {
    if x % a == 0 then x else x + a - x % a
  }

  /** Offset of the k-th member when the struct is laid out from `at`. */
  function OffsetOf(l: Layout, at: nat, k: nat): nat
    requires HasAlignments(l)
  {
    if l.End? then at
    else if k == 0 then AlignUp(at, l.m.align)
    else OffsetOf(l.rest, AlignUp(at, l.m.align) + l.m.size, k - 1)
  }

  /** The offset just past the last member. */
  function EndOf(l: Layout, at: nat): nat
    requires HasAlignments(l)
  {
    if l.End? then at else EndOf(l.rest, AlignUp(at, l.m.align) + l.m.size)
  }

  function SumSizes(l: Layout): nat {
    if l.End? then 0 else l.m.size + SumSizes(l.rest)
  }

  /** Every member sits right after the previous one. */
  predicate NoPadding(l: Layout, at: nat)
    requires HasAlignments(l)
  {
    l.End? || (at % l.m.align == 0 && NoPadding(l.rest, at + l.m.size))
  }

  /** Without padding a struct is exactly as long as its members together. */
  lemma {:induction false} NoPaddingEnd(l: Layout, at: nat)
    requires HasAlignments(l) && NoPadding(l, at)
    ensures EndOf(l, at) == at + SumSizes(l)
  {
    if l.Field? {
      NoPaddingEnd(l.rest, at + l.m.size);
    }
  }

  /** sizeof(struct unix_dinode): the end rounded to the largest alignment (2). */
  function UDinodeSize(): nat
    requires HasAlignments(UDinodeLayoutDecl)
  {
    AlignUp(EndOf(UDinodeLayoutDecl, 0), 2)
  }

  /** The member offsets of unix_dinode: i_addr at 8, i_flag at 24, i_lastr at 30. */
  lemma UDinodeOffsets()
    ensures HasAlignments(UDinodeLayoutDecl)
    ensures var l := UDinodeLayoutDecl;
      OffsetOf(l, 0, 0) == 0 && OffsetOf(l, 0, 1) == 2 && OffsetOf(l, 0, 2) == 3
      && OffsetOf(l, 0, 3) == 4 && OffsetOf(l, 0, 4) == 5 && OffsetOf(l, 0, 5) == 6
      && OffsetOf(l, 0, 6) == 8 && OffsetOf(l, 0, 7) == 24 && OffsetOf(l, 0, 8) == 25
      && OffsetOf(l, 0, 9) == 26 && OffsetOf(l, 0, 10) == 28 && OffsetOf(l, 0, 11) == 30
  {
  }

  lemma UDinodeNoPadding()
    ensures HasAlignments(UDinodeLayoutDecl)
    ensures NoPadding(UDinodeLayoutDecl, 0)
  {
    var l := UDinodeLayoutDecl;
    assert NoPadding(l.rest.rest.rest.rest.rest.rest.rest.rest.rest, 26);
    assert NoPadding(l.rest.rest.rest.rest.rest.rest, 8);
    assert NoPadding(l.rest.rest.rest, 4);
  }

  lemma UDinodeSumSizes()
    ensures SumSizes(UDinodeLayoutDecl) == 32
  {
    var l := UDinodeLayoutDecl;
    assert SumSizes(l.rest.rest.rest.rest.rest.rest.rest.rest.rest) == 6;
    assert SumSizes(l.rest.rest.rest.rest.rest.rest) == 24;
    assert SumSizes(l.rest.rest.rest) == 28;
  }

  /** unix_dinode packs into 32 bytes with no padding, so U_IPB = 512/32 = 16. */
  lemma UDinodeLayout()
    ensures HasAlignments(UDinodeLayoutDecl)
    ensures NoPadding(UDinodeLayoutDecl, 0) && SumSizes(UDinodeLayoutDecl) == 32
    ensures UDinodeSize() == 32 && U_BSIZE / UDinodeSize() == 16
  {
    UDinodeNoPadding();
    UDinodeSumSizes();
    NoPaddingEnd(UDinodeLayoutDecl, 0);
  }

  // ----- struct unix_dinode: values and byte image -----

  datatype UDinode = UDinode(
    mode: u16, nlink: byte, uid: byte, gid: byte,
    size0: byte, size1: u16, addr: seq<u16>,
    flag: byte, count: byte, dev: u16, number: u16, lastr: u16)

  predicate WellFormed(d: UDinode) { |d.addr| == U_NADDR }

  function Lo(x: u16): byte { x % 256 }
  function Hi(x: u16): byte { x / 256 }

  /** Byte `i` of a unix_dinode's image: each member little-endian at the
      offset UDinodeLayout gives it. */
  function ByteAt(d: UDinode, i: nat): byte
    requires WellFormed(d) && i < 32
  {
    if i == 0 then Lo(d.mode) else if i == 1 then Hi(d.mode)
    else if i == 2 then d.nlink else if i == 3 then d.uid
    else if i == 4 then d.gid else if i == 5 then d.size0
    else if i == 6 then Lo(d.size1) else if i == 7 then Hi(d.size1)
    else if i < 24 then (if i % 2 == 0 then Lo(d.addr[(i - 8) / 2]) else Hi(d.addr[(i - 8) / 2]))
    else if i == 24 then d.flag else if i == 25 then d.count
    else if i == 26 then Lo(d.dev) else if i == 27 then Hi(d.dev)
    else if i == 28 then Lo(d.number) else if i == 29 then Hi(d.number)
    else if i == 30 then Lo(d.lastr) else Hi(d.lastr)
  }

  /** The 32 bytes a unix_dinode occupies. */
  function Encode(d: UDinode): (s: seq<byte>)
    requires WellFormed(d)
    ensures |s| == 32
  {
    seq(32, i requires 0 <= i < 32 => ByteAt(d, i))
  }

  /** Reads the unix_dinode at byte `off` of a sector. */
  function Decode(s: seq<byte>, off: nat): (d: UDinode)
    requires off + 32 <= |s|
    ensures WellFormed(d)
  {
    UDinode(Get16(s, off), s[off + 2], s[off + 3], s[off + 4], s[off + 5],
      Get16(s, off + 6), seq(U_NADDR, k requires 0 <= k < U_NADDR => Get16(s, off + 8 + 2 * k)),
      s[off + 24], s[off + 25], Get16(s, off + 26), Get16(s, off + 28), Get16(s, off + 30))
  }

  /** Reading back a dinode stored at a slot yields the dinode. */
  lemma DecodeEncode(d: UDinode, s: seq<byte>, off: nat)
    requires WellFormed(d) && off + 32 <= |s| && s[off..off + 32] == Encode(d)
    ensures Decode(s, off) == d
  {
    hide Get16, ByteAt, Lo, Hi;
    forall i | 0 <= i < 32
      ensures s[off + i] == ByteAt(d, i)
    {
      assert s[off + i] == s[off..off + 32][i];
    }
    ByteAtFields(d);
    Get16Of(s, off, d.mode);
    Get16Of(s, off + 6, d.size1);
    Get16Of(s, off + 26, d.dev);
    Get16Of(s, off + 28, d.number);
    Get16Of(s, off + 30, d.lastr);
    var a := Decode(s, off).addr;
    forall k | 0 <= k < U_NADDR
      ensures a[k] == d.addr[k]
    {
      AddrBytes(d, k);
      Get16Of(s, off + 8 + 2 * k, d.addr[k]);
    }
  }

  /** The two bytes of a little-endian u16 read back as it. */
  lemma Get16Of(s: seq<byte>, o: nat, x: u16)
    requires o + 2 <= |s| && s[o] == Lo(x) && s[o + 1] == Hi(x)
    ensures Get16(s, o) == x
  {
  }

  /** Where the members other than the addresses sit in the image. */
  lemma ByteAtFields(d: UDinode)
    requires WellFormed(d)
    ensures ByteAt(d, 0) == Lo(d.mode) && ByteAt(d, 1) == Hi(d.mode)
    ensures ByteAt(d, 2) == d.nlink && ByteAt(d, 3) == d.uid && ByteAt(d, 4) == d.gid && ByteAt(d, 5) == d.size0
    ensures ByteAt(d, 6) == Lo(d.size1) && ByteAt(d, 7) == Hi(d.size1)
    ensures ByteAt(d, 24) == d.flag && ByteAt(d, 25) == d.count
    ensures ByteAt(d, 26) == Lo(d.dev) && ByteAt(d, 27) == Hi(d.dev)
    ensures ByteAt(d, 28) == Lo(d.number) && ByteAt(d, 29) == Hi(d.number)
    ensures ByteAt(d, 30) == Lo(d.lastr) && ByteAt(d, 31) == Hi(d.lastr)
  {
  }

  /** Address k occupies bytes 8 + 2k and 9 + 2k of the image. */
  lemma AddrBytes(d: UDinode, k: nat)
    requires WellFormed(d) && k < U_NADDR
    ensures ByteAt(d, 8 + 2 * k) == Lo(d.addr[k]) && ByteAt(d, 8 + 2 * k + 1) == Hi(d.addr[k])
  {
  }

  // ----- locating inode i on disk -----

  /** U_IBLOCK(i): sector holding inode i, computed on a C uint (i-1 wraps at 0). */
  function UIBlock(inum: uint32): nat {
    SubU(inum, 1) / 16 + 2
  }

  /** The index of inode i within its sector: (i-1) % U_IPB. */
  function USlot(inum: uint32): (k: nat)
    ensures k < 16
  {
    SubU(inum, 1) % 16
  }

  /** Numbering starts at 1: inodes 1..16 fill sector 2, and the pair
      (sector, slot) identifies the inode number. */
  lemma UInodeLocation(inum: uint32)
    requires inum >= 1
    ensures inum <= 16 <==> UIBlock(inum) == 2
    ensures inum == (UIBlock(inum) - 2) * 16 + USlot(inum) + 1
    ensures USlot(inum) * 32 + 32 <= U_BSIZE
  {
  }

  /** Distinct inode numbers occupy distinct 32-byte slots. */
  lemma UInodeSlotsDistinct(i: uint32, j: uint32)
    requires 1 <= i && 1 <= j && i != j
    ensures UIBlock(i) != UIBlock(j) || USlot(i) != USlot(j)
  {
    UInodeLocation(i);
    UInodeLocation(j);
  }
}
