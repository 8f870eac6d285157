// The in-memory inode of kernel/file.h and its translation to and from the
// on-disk inode (kernel/fs.c iupdate and ilock): the xv6 dinode of devices
// 0 and 1, and the Unix Fifth Edition unix_dinode of devices 2 and 3, whose
// narrower fields (a 24-bit size in two parts, 16-bit block addresses, one
// byte for nlink, uid and gid) bound what survives a round trip.
module FsInode {
  import opened Param
  import opened Wrappers
  import opened Bytes
  import opened Ufs
  import opened FsBitmap

  /** ip->addrs[NDIRECT+1]: NDIRECT direct blocks and the indirect block. */
  type Addrs = s: seq<uint32> | |s| == NDIRECT + 1 witness NoAddrs()

  /** An address array with no block. */
  function NoAddrs(): (s: seq<uint32>)
    ensures |s| == NDIRECT + 1 && forall i :: 0 <= i < |s| ==> s[i] == 0
  {
    seq(NDIRECT + 1, _ => 0)
  }

  /** struct inode, one icache slot. The `short` fields type, major, minor
      and nlink are held as their 16-bit patterns: the code only compares
      them with small constants and tests their bits. */
  datatype Inode = Inode(dev: uint32, inum: uint32, ref: int, valid: bool,
    itype: u16, major: u16, minor: u16, nlink: u16, size: uint32, addrs: Addrs)

  /** struct dinode of an xv6-format device, field for field. */
  datatype XDinode = XDinode(itype: u16, major: u16, minor: u16, nlink: u16, size: uint32, addrs: Addrs)

  const XFree: XDinode := XDinode(0, 0, 0, 0, 0, NoAddrs())

  /** What the file system keeps on its devices: the blocks, and the xv6
      dinodes of devices 0 and 1 by (device, inode number). */
  datatype Storage = Storage(disk: Disk, xinodes: map<(nat, nat), XDinode>)

  /** The xv6 dinode of (dev, inum); one never written is free (type 0). */
  function XInode(st: Storage, dev: nat, inum: nat): XDinode {
    if (dev, inum) in st.xinodes then st.xinodes[(dev, inum)] else XFree
  }

  // ----- Unix V5 translation -----

  /** The byte offset of inode inum inside its sector U_IBLOCK(inum). */
  function USlotOff(inum: uint32): (off: nat)
    ensures off + 32 <= U_BSIZE == BSIZE
  {
    USlot(inum) * 32
  }

  /** The unix_dinode of inode inum of a Unix V5 device. */
  function UInode(d: Disk, dev: nat, inum: uint32): (u: UDinode)
    ensures Ufs.WellFormed(u)
  {
    Ufs.Decode(Blk(d, dev, UIBlock(inum)), USlotOff(inum))
  }

  /** d with the unix_dinode of inum replaced by u (bwrite of its sector). */
  function PutUInode(d: Disk, dev: nat, inum: uint32, u: UDinode): Disk
    requires Ufs.WellFormed(u)
  {
    d[(dev, UIBlock(inum)) := Splice(Blk(d, dev, UIBlock(inum)), USlotOff(inum), Ufs.Encode(u))]
  }

  /** iupdate's copy into a unix_dinode: each field narrowed to its on-disk
      width, size split into size0 (bits 23..16) and size1 (bits 15..0),
      the first 8 addresses cut to 16 bits; the other fields stay. */
  function UnixOf(u: UDinode, ip: Inode): (r: UDinode)
    requires Ufs.WellFormed(u)
    ensures Ufs.WellFormed(r)
  {
    u.(mode := ip.itype, uid := ip.major % 256, gid := ip.minor % 256, nlink := ip.nlink % 256,
       size0 := (ip.size / 0x1_0000) % 256, size1 := ip.size % 0x1_0000,
       addr := seq(U_NADDR, i requires 0 <= i < U_NADDR => ip.addrs[i] % 0x1_0000))
  }

  /** ilock's copy out of a unix_dinode: size = size0<<16 | size1 (the two
      parts do not overlap, so | adds), 8 addresses and zeros after them. */
  function FromUnix(ip: Inode, u: UDinode): Inode
    requires Ufs.WellFormed(u)
  {
    ip.(itype := u.mode, major := u.uid, minor := u.gid, nlink := u.nlink,
        size := u.size0 * 0x1_0000 + u.size1,
        addrs := seq(NDIRECT + 1, i requires 0 <= i < NDIRECT + 1 => if i < U_NADDR then u.addr[i] else 0))
  }

  /** What survives iupdate followed by ilock on a Unix V5 device. */
  function Narrowed(ip: Inode): Inode {
    ip.(major := ip.major % 256, minor := ip.minor % 256, nlink := ip.nlink % 256,
        size := ip.size % 0x100_0000,
        addrs := seq(NDIRECT + 1, i requires 0 <= i < NDIRECT + 1 => if i < U_NADDR then ip.addrs[i] % 0x1_0000 else 0))
  }

  /** An inode whose fields fit the unix_dinode's widths. */
  predicate Fits(ip: Inode) {
    ip.major < 256 && ip.minor < 256 && ip.nlink < 256 && ip.size < 0x100_0000
    && (forall i :: 0 <= i < U_NADDR ==> ip.addrs[i] < 0x1_0000)
    && (forall i :: U_NADDR <= i < NDIRECT + 1 ==> ip.addrs[i] == 0)
  }

  /** (size >> 16) & 0xff and size & 0xffff put back together are size's
      low 24 bits. */
  lemma SizeSplit(s: nat)
    ensures ((s / 0x1_0000) % 256) * 0x1_0000 + s % 0x1_0000 == s % 0x100_0000
  {
    var q := s / 0x1_0000;
    DivMod(s, 0x1_0000, q, s % 0x1_0000);
    DivMod(q, 256, q / 256, q % 256);
    DivMod(s, 0x100_0000, q / 256, (q % 256) * 0x1_0000 + s % 0x1_0000);
  }

  /** In memory, to disk and back: exactly the narrowed fields. */
  lemma UnixRoundTrip(u: UDinode, ip: Inode)
    requires Ufs.WellFormed(u)
    ensures FromUnix(ip, UnixOf(u, ip)) == Narrowed(ip)
  {
    SizeSplit(ip.size);
  }

  /** Narrowing changes nothing exactly when the fields fit. */
  lemma NarrowedFits(ip: Inode)
    ensures Narrowed(ip) == ip <==> Fits(ip)
  {
    if Narrowed(ip) == ip {
      forall i | 0 <= i < NDIRECT + 1
        ensures i < U_NADDR ==> ip.addrs[i] < 0x1_0000
        ensures i >= U_NADDR ==> ip.addrs[i] == 0
      {
        assert Narrowed(ip).addrs[i] == ip.addrs[i];
      }
    }
    if Fits(ip) {
      assert Narrowed(ip).addrs == ip.addrs;
    }
  }

  /** On disk, to memory and back: the unix_dinode is unchanged. */
  lemma UnixBack(u: UDinode, ip: Inode)
    requires Ufs.WellFormed(u)
    ensures UnixOf(u, FromUnix(ip, u)) == u
  {
    DivMod(u.size0 * 0x1_0000 + u.size1, 0x1_0000, u.size0, u.size1);
    assert UnixOf(u, FromUnix(ip, u)).addr == u.addr;
  }

  // ----- iupdate and ilock -----

  /** iupdate(ip): write the inode's on-disk fields to its dinode; a device
      above 3 has no dinode and nothing is written. */
  function Iupdate(st: Storage, ip: Inode): Storage {
    if ip.dev < 2 then
      st.(xinodes := st.xinodes[(ip.dev, ip.inum) := XDinode(ip.itype, ip.major, ip.minor, ip.nlink, ip.size, ip.addrs)])
    else if ip.dev < 4 then
      st.(disk := PutUInode(st.disk, ip.dev, ip.inum, UnixOf(UInode(st.disk, ip.dev, ip.inum), ip)))
    else st
  }

  /** ilock(ip): an inode without a reference panics; one not yet valid
      is read from its dinode (the Unix V5 format on every device from 2
      on) and becomes valid, and a dinode of type 0 panics. */
  function Ilock(st: Storage, ip: Inode): (Outcome, Inode) {
    if ip.ref < 1 then (Panic("ilock"), ip)
    else if ip.valid then (Done, ip)
    else
      var ip1 :=
        if ip.dev < 2 then
          var x := XInode(st, ip.dev, ip.inum);
          ip.(itype := x.itype, major := x.major, minor := x.minor, nlink := x.nlink, size := x.size, addrs := x.addrs)
        else FromUnix(ip, UInode(st.disk, ip.dev, ip.inum));
      var ip2 := ip1.(valid := true);
      if ip2.itype == 0 then (Panic("ilock: no type"), ip2) else (Done, ip2)
  }

  /** Reading back a unix_dinode just written to its slot. */
  lemma PutGetUInode(d: Disk, dev: nat, inum: uint32, u: UDinode)
    requires Ufs.WellFormed(u)
    ensures UInode(PutUInode(d, dev, inum, u), dev, inum) == u
  {
    var s := Splice(Blk(d, dev, UIBlock(inum)), USlotOff(inum), Ufs.Encode(u));
    assert Blk(PutUInode(d, dev, inum, u), dev, UIBlock(inum)) == s;
    Ufs.DecodeEncode(u, s, USlotOff(inum));
  }

  /** iupdate then ilock of the same inode, no longer valid, reads back its
      fields: all of them on an xv6 device, the narrowed ones on a Unix V5
      device (all of them again when they fit). A device above 3 reads a
      unix_dinode iupdate never wrote. */
  lemma IupdateIlock(st: Storage, ip: Inode)
    requires ip.ref >= 1 && ip.dev < 4
    ensures var (o, ip1) := Ilock(Iupdate(st, ip), ip.(valid := false));
      var want := if ip.dev < 2 then ip else Narrowed(ip);
      ip1 == want.(valid := true) && (o == Done <==> want.itype != 0)
  {
    if ip.dev >= 2 {
      var u := UnixOf(UInode(st.disk, ip.dev, ip.inum), ip);
      PutGetUInode(st.disk, ip.dev, ip.inum, u);
      UnixRoundTrip(UInode(st.disk, ip.dev, ip.inum), ip);
    }
  }

  /** The low and high bytes of a 16-bit value read from s are its bytes. */
  lemma LoHiGet16(s: seq<byte>, o: nat)
    requires o + 2 <= |s|
    ensures Lo(Get16(s, o)) == s[o] && Hi(Get16(s, o)) == s[o + 1]
  {
    DivMod(Get16(s, o), 256, s[o + 1], s[o]);
  }

  /** Byte i of the dinode decoded at `off` is byte off + i of s. */
  lemma ByteAtDecode(s: seq<byte>, off: nat, i: nat)
    requires off + 32 <= |s| && i < 32
    ensures ByteAt(Ufs.Decode(s, off), i) == s[off + i]
  {
    var u := Ufs.Decode(s, off);
    if i < 2 {
      LoHiGet16(s, off);
    } else if 6 <= i < 8 {
      LoHiGet16(s, off + 6);
    } else if 8 <= i < 24 {
      var k := (i - 8) / 2;
      assert u.addr[k] == Get16(s, off + 8 + 2 * k);
      LoHiGet16(s, off + 8 + 2 * k);
    } else if 26 <= i < 28 {
      LoHiGet16(s, off + 26);
    } else if 28 <= i < 30 {
      LoHiGet16(s, off + 28);
    } else if 30 <= i {
      LoHiGet16(s, off + 30);
    }
  }

  /** Encoding the dinode decoded from a slot gives the slot's bytes. */
  lemma EncodeDecode(s: seq<byte>, off: nat)
    requires off + 32 <= |s|
    ensures Ufs.Encode(Ufs.Decode(s, off)) == s[off..off + 32]
  {
    forall i | 0 <= i < 32
      ensures Ufs.Encode(Ufs.Decode(s, off))[i] == s[off + i]
    {
      ByteAtDecode(s, off, i);
    }
  }

  /** ilock then iupdate writes back what ilock read: every block and every
      xv6 dinode reads as before. */
  lemma IlockIupdate(st: Storage, ip: Inode)
    requires !ip.valid && ip.dev < 4 && Ilock(st, ip).0 == Done
    ensures var st1 := Iupdate(st, Ilock(st, ip).1);
      (forall e: nat, b: nat :: Blk(st1.disk, e, b) == Blk(st.disk, e, b))
      && (forall e: nat, i: nat :: XInode(st1, e, i) == XInode(st, e, i))
  {
    var ip1 := Ilock(st, ip).1;
    if ip.dev >= 2 {
      var blk := Blk(st.disk, ip.dev, UIBlock(ip.inum));
      var u := UInode(st.disk, ip.dev, ip.inum);
      UnixBack(u, ip);
      EncodeDecode(blk, USlotOff(ip.inum));
      assert Splice(blk, USlotOff(ip.inum), Ufs.Encode(u)) == blk;
    }
  }
}
