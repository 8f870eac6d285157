// The file system's state as kernel/fs.c keeps it: the devices' blocks
// and dinodes, the superblock, and the inode cache icache.inode[NINODE],
// with the loops of balloc, iget, itrunc, iput, bmap, readi, writei,
// dirlookup and dirlink. A cache slot stands for the `struct inode *` the
// source passes around. Each method is proved against the function of
// FsBitmap, FsCache, FsBmap, FsIo or FsDir that says what it computes.
module FsState {
  import opened Param
  import opened Wrappers
  import opened Bytes
  import Ufs
  import Dirent
  import opened FsBitmap
  import opened FsInode
  import opened FsBmap
  import opened FsIo
  import opened FsCache
  import opened FsDir
  import opened FsPath
  import opened CStrings

  /** An unused cache slot, as the cache starts out. */
  function EmptySlot(): Inode {
    Inode(0, 0, 0, false, 0, 0, 0, 0, 0, NoAddrs())
  }

  /** Bit bi of the bitmap block that starts at block base is block
      base + bi's bit. */
  lemma BitPlace(base: nat, q: nat, bi: nat, sb: Superblock)
    requires base == BPB * q && bi < BPB
    ensures BBlock(base + bi, sb) == BBlock(base, sb) && BitByte(base + bi) == bi / 8 && (base + bi) % 8 == bi % 8
  {
    DivMod(base, BPB, q, 0);
    DivMod(base + bi, BPB, q, bi);
    DivMod(base + bi, 8, 512 * q + bi / 8, bi % 8);
  }

  /** Bit bi of the bitmap block read for base is block base + bi's bit,
      and setting it marks that block. */
  lemma BitAt(d: Disk, sb: Superblock, dev: nat, base: nat, q: nat, bi: nat)
    requires base == BPB * q && bi < BPB
    ensures var blk := Blk(d, dev, BBlock(base, sb));
      && Used(d, sb, dev, base + bi) == TestBit(blk[bi / 8], bi % 8)
      && Mark(d, sb, dev, base + bi, true) == d[(dev, BBlock(base, sb)) := blk[bi / 8 := SetBit(blk[bi / 8], bi % 8)]]
  {
    BitPlace(base, q, bi, sb);
  }

  /** The bit bfree tests, bi % 8 with bi = b % BPB, is b's bit. */
  lemma BitOfBlock(b: nat)
    ensures (b % BPB) % 8 == b % 8
  {
    var r := b % BPB;
    DivMod(b, 8, 512 * (b / BPB) + r / 8, r % 8);
  }

  class FileSystem {
    /** The devices' blocks and the xv6 dinodes. */
    var st: Storage
    const sb: Superblock
    /** u_sb, the Unix V5 superblock with its free-inode list. */
    const usb: UnixSuper
    /** icache.inode */
    const icache: array<Inode>

    constructor (st0: Storage, sb0: Superblock, usb0: UnixSuper)
      ensures st == st0 && sb == sb0 && usb == usb0 && fresh(icache) && icache.Length == NINODE
      ensures forall i :: 0 <= i < NINODE ==> icache[i] == EmptySlot()
    {
      st, sb, usb := st0, sb0, usb0;
      icache := new Inode[NINODE](_ => EmptySlot());
    }

    // ----- blocks -----

    /** balloc(dev): scans the bitmap one bitmap block at a time for the
        first clear bit below sb.size, sets it and zeroes that block. */
    method Balloc(dev: nat) returns (o: Outcome, b: uint32)
      modifies this
      ensures (o, b, st.disk) == FsBitmap.Balloc(old(st.disk), sb, dev)
      ensures st.xinodes == old(st.xinodes)
    {
      hide Used, Mark, TestBit, SetBit;
      var d := st.disk;
      var base: nat := 0;
      ghost var q: nat := 0;
      while base < sb.size
        invariant base == BPB * q && st == old(st)
        invariant forall z: nat :: z < base && z < sb.size ==> Used(d, sb, dev, z)
      {
        var bb := BBlock(base, sb);
        var blk := Blk(d, dev, bb);
        var bi: nat := 0;
        while bi < BPB && base + bi < sb.size
          invariant bi <= BPB && st == old(st)
          invariant forall z: nat :: z < base + bi && z < sb.size ==> Used(d, sb, dev, z)
        {
          BitAt(d, sb, dev, base, q, bi);
          if !TestBit(blk[bi / 8], bi % 8) {
            var x := base + bi;
            st := st.(disk := d[(dev, bb) := blk[bi / 8 := SetBit(blk[bi / 8], bi % 8)]]);
            st := st.(disk := st.disk[(dev, x) := Zeros(BSIZE)]);
            FirstFreeFrom(d, sb, dev, 0, x);
            return Done, x;
          }
          bi := bi + 1;
        }
        base, q := base + BPB, q + 1;
      }
      FirstFreeFrom(d, sb, dev, 0, sb.size);
      return Panic("balloc: out of blocks"), 0;
    }

    /** bfree(dev, b): clears b's bit, which must be set. */
    method Bfree(dev: nat, b: nat) returns (o: Outcome)
      modifies this
      ensures (o, st.disk) == FsBitmap.Bfree(old(st.disk), sb, dev, b)
      ensures st.xinodes == old(st.xinodes)
    {
      var bb := BBlock(b, sb);
      var blk := Blk(st.disk, dev, bb);
      var bi := b % BPB;
      BitOfBlock(b);
      if !TestBit(blk[bi / 8], bi % 8) {
        return Panic("freeing free block");
      }
      st := st.(disk := st.disk[(dev, bb) := blk[bi / 8 := ClearBit(blk[bi / 8], bi % 8)]]);
      return Done;
    }

    // ----- the inode cache -----

    /** iget(dev, inum): one pass over the cache returns the live slot for
        (dev, inum), remembering the first slot with no reference, which is
        recycled when there is none. */
    method Iget(dev: uint32, inum: uint32) returns (o: Outcome, k: nat)
      modifies icache
      ensures (o, k, icache[..]) == FsCache.Iget(old(icache[..]), dev, inum)
    {
      ghost var c := icache[..];
      var empty: Option<nat> := None;
      var i := 0;
      while i < icache.Length
        invariant i <= icache.Length && icache[..] == c
        invariant FindLive(c, dev, inum, 0) == FindLive(c, dev, inum, i)
        invariant empty.None? ==> FindEmpty(c, 0) == FindEmpty(c, i)
        invariant empty.Some? ==> FindEmpty(c, 0) == empty && empty.value < i
      {
        if icache[i].ref > 0 && icache[i].dev == dev && icache[i].inum == inum {
          icache[i] := icache[i].(ref := icache[i].ref + 1);
          return Done, i;
        }
        if empty.None? && icache[i].ref == 0 {
          empty := Some(i);
        }
        i := i + 1;
      }
      if empty.None? {
        return Panic("iget: no inodes"), 0;
      }
      k := empty.value;
      icache[k] := icache[k].(dev := dev, inum := inum, ref := 1, valid := false);
      o := Done;
    }

    /** ialloc(dev, type): on an xv6 device the first inode number from 1
        whose dinode has type 0, on a Unix V5 device the first free-list
        entry without IALLOC; that dinode is written with the new type and
        igot. With none, or on another device, it panics. */
    method Ialloc(dev: uint32, t: u16) returns (o: Outcome, k: nat)
      requires usb.ninode <= |usb.inode|
      modifies this, icache
      ensures (o, k, st, icache[..]) == FsCache.Ialloc(old(st), sb, usb, old(icache[..]), dev, t)
    {
      if dev < 2 {
        var inum: nat := 1;
        while inum < sb.ninodes
          invariant 1 <= inum && st == old(st) && icache[..] == old(icache[..])
          invariant FreeX(st, sb, dev, 1) == FreeX(st, sb, dev, inum)
          decreases sb.ninodes - inum
        {
          if XInode(st, dev, inum).itype == 0 {
            st := st.(xinodes := st.xinodes[(dev as nat, inum) := XFree.(itype := t)]);
            o, k := Iget(dev, inum);
            return;
          }
          inum := inum + 1;
        }
      } else if dev < 4 {
        var i: nat := 0;
        while i < usb.ninode
          invariant st == old(st) && icache[..] == old(icache[..])
          invariant FreeU(st.disk, usb, dev, 0) == FreeU(st.disk, usb, dev, i)
          decreases usb.ninode - i
        {
          var inum := usb.inode[i];
          if !Ufs.IsAllocated(UInode(st.disk, dev, inum).mode) {
            st := st.(disk := PutUInode(st.disk, dev, inum, NewUDinode(t)));
            o, k := Iget(dev, inum);
            return;
          }
          i := i + 1;
        }
      }
      return Panic("ialloc: no inodes"), 0;
    }

    /** idup(ip) */
    method Idup(k: nat)
      requires k < icache.Length
      modifies icache
      ensures icache[..] == FsCache.Idup(old(icache[..]), k)
    {
      icache[k] := icache[k].(ref := icache[k].ref + 1);
    }

    /** itrunc's first loop: bfree each non-zero direct address and
        clear it. */
    method FreeDirectBlocks(dev: nat, addrs0: Addrs) returns (o: Outcome, addrs: Addrs)
      modifies this
      ensures (o, st.disk, addrs) == FreeDirect(old(st.disk), sb, dev, addrs0, 0)
      ensures st.xinodes == old(st.xinodes)
    {
      hide FsBitmap.Bfree;
      addrs := addrs0;
      var i := 0;
      while i < NDIRECT
        invariant i <= NDIRECT && st.xinodes == old(st.xinodes)
        invariant FreeDirect(old(st.disk), sb, dev, addrs0, 0) == FreeDirect(st.disk, sb, dev, addrs, i)
      {
        if addrs[i] != 0 {
          o := Bfree(dev, addrs[i]);
          if o.Panic? {
            return;
          }
          addrs := addrs[i := 0];
        }
        i := i + 1;
      }
      o := Done;
    }

    /** itrunc's second loop: bfree each non-zero entry of the indirect
        block as read before the loop. */
    method FreeIndirectBlocks(dev: nat, blk: Block) returns (o: Outcome)
      modifies this
      ensures (o, st.disk) == FreeIndirect(old(st.disk), sb, dev, blk, 0)
      ensures st.xinodes == old(st.xinodes)
    {
      hide FsBitmap.Bfree, IndEntry;
      var j := 0;
      while j < NINDIRECT
        invariant j <= NINDIRECT && st.xinodes == old(st.xinodes)
        invariant FreeIndirect(old(st.disk), sb, dev, blk, 0) == FreeIndirect(st.disk, sb, dev, blk, j)
      {
        if IndEntry(blk, j) != 0 {
          o := Bfree(dev, IndEntry(blk, j));
          if o.Panic? {
            return;
          }
        }
        j := j + 1;
      }
      o := Done;
    }

    /** itrunc(ip): frees the direct blocks, then the blocks the indirect
        block names and the indirect block itself, clearing the addresses;
        size 0 and iupdate. */
    method Itrunc(k: nat) returns (o: Outcome)
      requires k < icache.Length
      modifies this, icache
      ensures (o, st, icache[k]) == FsBmap.Itrunc(old(st), sb, old(icache[k]))
      ensures forall j :: 0 <= j < icache.Length && j != k ==> icache[j] == old(icache[j])
    {
      var ip := icache[k];
      var addrs;
      o, addrs := FreeDirectBlocks(ip.dev, ip.addrs);
      if o.Done? && addrs[NDIRECT] != 0 {
        var ind := addrs[NDIRECT];
        o := FreeIndirectBlocks(ip.dev, Blk(st.disk, ip.dev, ind));
        if o.Done? {
          o := Bfree(ip.dev, ind);
          if o.Done? {
            addrs := addrs[NDIRECT := 0];
          }
        }
      }
      if o.Panic? {
        icache[k] := ip.(addrs := addrs);
        return;
      }
      var ip1 := ip.(addrs := addrs, size := 0);
      icache[k] := ip1;
      st := Iupdate(st, ip1);
    }

    /** iput(ip): the last reference to a valid inode with no links
        truncates it, zeroes its type, writes it back and marks the copy
        not valid; then the reference is dropped. */
    method Iput(k: nat) returns (o: Outcome)
      requires k < icache.Length
      modifies this, icache
      ensures (o, st, icache[..]) == FsCache.Iput(old(st), sb, old(icache[..]), k)
    {
      hide FsBmap.Itrunc, Iupdate;
      ghost var c := icache[..];
      var ip := icache[k];
      if ip.valid && ip.nlink == 0 && ip.ref == 1 {
        o := Itrunc(k);
        assert icache[..] == c[k := icache[k]];
        if o.Panic? {
          return;
        }
        var ip2 := icache[k].(itype := 0);
        st := Iupdate(st, ip2);
        icache[k] := ip2.(valid := false);
        icache[k] := icache[k].(ref := icache[k].ref - 1);
        assert icache[..] == c[k := ip2.(valid := false, ref := ip2.ref - 1)];
      } else {
        icache[k] := icache[k].(ref := icache[k].ref - 1);
        assert icache[..] == c[k := ip.(ref := ip.ref - 1)];
      }
      o := Done;
    }

    // ----- block map and file data -----

    /** bmap(ip, bn): a direct block, or an entry of the indirect block,
        each allocated with balloc when 0; the indirect block itself is
        allocated first when 0, and a new entry is written back into it. */
    method Bmap(k: nat, bn: nat) returns (o: Outcome, a: uint32)
      requires k < icache.Length
      modifies this, icache
      ensures (o, a, st.disk, icache[k]) == FsBmap.Bmap(old(st.disk), sb, old(icache[k]), bn)
      ensures st.xinodes == old(st.xinodes)
      ensures forall j :: 0 <= j < icache.Length && j != k ==> icache[j] == old(icache[j])
    {
      hide FsBitmap.Balloc, IndEntry, SetInd;
      var ip := icache[k];
      if bn < NDIRECT {
        a := ip.addrs[bn];
        if a == 0 {
          o, a := Balloc(ip.dev);
          if o.Panic? {
            return o, 0;
          }
          icache[k] := ip.(addrs := ip.addrs[bn := a]);
        }
        return Done, a;
      }
      if bn >= MAXFILE {
        return Panic("bmap: out of range"), 0;
      }
      var ind := ip.addrs[NDIRECT];
      if ind == 0 {
        o, ind := Balloc(ip.dev);
        if o.Panic? {
          return o, 0;
        }
        ip := ip.(addrs := ip.addrs[NDIRECT := ind]);
        icache[k] := ip;
      }
      var j := bn - NDIRECT;
      a := IndEntry(Blk(st.disk, ip.dev, ind), j);
      if a == 0 {
        o, a := Balloc(ip.dev);
        if o.Panic? {
          return o, 0;
        }
        st := st.(disk := st.disk[(ip.dev, ind) := SetInd(Blk(st.disk, ip.dev, ind), j, a)]);
      }
      o := Done;
    }

    /** readi(ip, dst, off, n): the checks on the offset and the count,
        then a loop that copies one chunk per block bmap gives. */
    method Readi(k: nat, off: uint32, n: uint32) returns (o: Outcome, cnt: Count, data: seq<byte>)
      requires k < icache.Length
      modifies this, icache
      ensures (o, cnt, data, st.disk, icache[k]) == FsIo.Readi(old(st.disk), sb, old(icache[k]), off, n)
      ensures st.xinodes == old(st.xinodes)
      ensures forall j :: 0 <= j < icache.Length && j != k ==> icache[j] == old(icache[j])
    {
      hide ReadLoop, FsBmap.Bmap;
      var ip := icache[k];
      data := [];
      if ip.itype == T_DEV {
        return Done, Device, data;
      }
      if off > ip.size || off + n >= UINT_MOD {
        return Done, Failed, data;
      }
      var n1: nat := if off + n > ip.size then ip.size - off else n;
      if Ufs.IsLarge(ip.itype) {
        return Done, LargeFile, data;
      }
      o, data := ReadChunks(k, off, n1);
      cnt := if o.Panic? then Failed else Bytes(n1);
    }

    /** readi's loop: n bytes from off, one chunk per block. */
    method ReadChunks(k: nat, off: nat, n: nat) returns (o: Outcome, data: seq<byte>)
      requires k < icache.Length
      modifies this, icache
      ensures (o, data, st.disk, icache[k]) == ReadLoop(old(st.disk), sb, old(icache[k]), off, n)
      ensures st.xinodes == old(st.xinodes)
      ensures forall j :: 0 <= j < icache.Length && j != k ==> icache[j] == old(icache[j])
    {
      hide ReadLoop, FsBmap.Bmap;
      ghost var (d0, ip0) := (st.disk, icache[k]);
      data := [];
      var cur: nat := off;
      var left: nat := n;
      assert data + ReadLoop(st.disk, sb, icache[k], cur, left).1 == ReadLoop(d0, sb, ip0, off, n).1;
      while left > 0
        invariant st.xinodes == old(st.xinodes) && icache[k].dev == ip0.dev
        invariant forall j :: 0 <= j < icache.Length && j != k ==> icache[j] == old(icache[j])
        invariant ReadLoop(d0, sb, ip0, off, n)
          == (var r := ReadLoop(st.disk, sb, icache[k], cur, left); (r.0, data + r.1, r.2, r.3))
      {
        ghost var (d, ipc) := (st.disk, icache[k]);
        var a;
        o, a := Bmap(k, cur / BSIZE);
        if o.Panic? {
          ReadLoopFails(d, sb, ipc, cur, left);
          assert data + [] == data;
          return;
        }
        ReadLoopStep(d, sb, ipc, cur, left);
        BmapInode(d, sb, ipc, cur / BSIZE);
        var m := Chunk(cur, left);
        var chunk := Blk(st.disk, icache[k].dev, a)[cur % BSIZE .. cur % BSIZE + m];
        ghost var rest := ReadLoop(st.disk, sb, icache[k], cur + m, left - m).1;
        assert data + (chunk + rest) == (data + chunk) + rest;
        data := data + chunk;
        cur, left := cur + m, left - m;
      }
      ReadLoopZero(st.disk, sb, icache[k], cur);
      assert data + [] == data;
      o := Done;
    }

    /** writei(ip, src, off, n): the checks on the offset and the end, the
        chunk loop, and a size that grows written back with iupdate. */
    method Writei(k: nat, src: seq<byte>, off: uint32) returns (o: Outcome, cnt: Count)
      requires k < icache.Length && |src| < UINT_MOD
      modifies this, icache
      ensures (o, cnt, st, icache[k]) == FsIo.Writei(old(st), sb, old(icache[k]), src, off)
      ensures forall j :: 0 <= j < icache.Length && j != k ==> icache[j] == old(icache[j])
    {
      hide WriteLoop, Iupdate;
      var ip := icache[k];
      var n := |src|;
      if ip.itype == T_DEV {
        return Done, Device;
      }
      if off > ip.size || off + n >= UINT_MOD || off + n > MAXFILE * BSIZE {
        return Done, Failed;
      }
      o := WriteChunks(k, src, off);
      if o.Panic? {
        return o, Failed;
      }
      if n > 0 && off + n > icache[k].size {
        var ip2 := icache[k].(size := off + n);
        icache[k] := ip2;
        st := Iupdate(st, ip2);
      }
      cnt := Bytes(n);
    }

    /** writei's loop: src at off, one chunk per block, each block written
        back. */
    method WriteChunks(k: nat, src: seq<byte>, off: nat) returns (o: Outcome)
      requires k < icache.Length
      modifies this, icache
      ensures (o, st.disk, icache[k]) == WriteLoop(old(st.disk), sb, old(icache[k]), src, off)
      ensures st.xinodes == old(st.xinodes)
      ensures forall j :: 0 <= j < icache.Length && j != k ==> icache[j] == old(icache[j])
    {
      hide WriteLoop, FsBmap.Bmap;
      ghost var (d0, ip0) := (st.disk, icache[k]);
      var tot: nat := 0;
      var cur: nat := off;
      while tot < |src|
        invariant tot <= |src| && cur == off + tot
        invariant st.xinodes == old(st.xinodes) && icache[k].dev == ip0.dev
        invariant forall j :: 0 <= j < icache.Length && j != k ==> icache[j] == old(icache[j])
        invariant WriteLoop(d0, sb, ip0, src, off) == WriteLoop(st.disk, sb, icache[k], src[tot..], cur)
      {
        ghost var (d, ipc) := (st.disk, icache[k]);
        var a;
        o, a := Bmap(k, cur / BSIZE);
        if o.Panic? {
          WriteLoopFails(d, sb, ipc, src[tot..], cur);
          return;
        }
        WriteLoopStep(d, sb, ipc, src[tot..], cur);
        BmapInode(d, sb, ipc, cur / BSIZE);
        var m := Chunk(cur, |src| - tot);
        var dev := icache[k].dev;
        assert src[tot..][..m] == src[tot..tot + m] && src[tot..][m..] == src[tot + m..];
        st := st.(disk := st.disk[(dev, a) := Splice(Blk(st.disk, dev, a), cur % BSIZE, src[tot..tot + m])]);
        tot, cur := tot + m, cur + m;
      }
      assert src[tot..] == [];
      WriteLoopZero(st.disk, sb, icache[k], cur);
      o := Done;
    }

    // ----- directories -----

    /** The loop of dirlookup and of dirlink's search for a free entry:
        readi one entry at a time while off < dp->size; a short read
        panics with msg. */
    method ScanDir(kd: nat, want: Option<seq<byte>>, msg: string) returns (o: Outcome, r: Lookup)
      requires kd < icache.Length
      modifies this, icache
      ensures (o, r, st.disk, icache[kd]) == Scan(old(st.disk), sb, old(icache[kd]), want, msg, 0)
      ensures st.xinodes == old(st.xinodes)
      ensures forall j :: 0 <= j < icache.Length && j != kd ==> icache[j] == old(icache[j])
    {
      hide Scan, FsIo.Readi;
      ghost var (d0, dp0) := (st.disk, icache[kd]);
      var off: nat := 0;
      while off < icache[kd].size
        invariant off < UINT_MOD
        invariant st.xinodes == old(st.xinodes)
        invariant forall j :: 0 <= j < icache.Length && j != kd ==> icache[j] == old(icache[j])
        invariant Scan(d0, sb, dp0, want, msg, 0) == Scan(st.disk, sb, icache[kd], want, msg, off)
        decreases UINT_MOD - off
      {
        ghost var (d, dp) := (st.disk, icache[kd]);
        ScanUnfold(d, sb, dp, want, msg, off);
        ReadiBytes(d, sb, dp, off, DS);
        var cnt, data;
        o, cnt, data := Readi(kd, off, DS);
        if o.Panic? {
          return o, Absent(off);
        }
        if cnt == LargeFile {
          return Done, LargeDir;
        }
        if cnt != Bytes(DS) {
          return Panic(msg), Absent(off);
        }
        var de := Dirent.Decode(data, 0);
        if Wanted(de, want) {
          return Done, Found(de.inum, off);
        }
        off := off + DS;
      }
      ScanEnd(st.disk, sb, icache[kd], want, msg, off);
      o, r := Done, Absent(off);
    }

    /** dirlookup(dp, name): a file that is not a directory panics; the
        entry found is igot. */
    method Dirlookup(kd: nat, name: seq<byte>) returns (o: Outcome, r: Lookup, k: nat)
      requires kd < icache.Length
      modifies this, icache
      ensures (o, r, k, st, icache[..]) == FsDir.Dirlookup(old(st), sb, old(icache[..]), kd, name)
    {
      hide Scan, FsCache.Iget;
      ghost var c := icache[..];
      if !IsDir(icache[kd]) {
        return Panic("dirlookup not DIR"), Absent(0), 0;
      }
      ghost var dp := icache[kd];
      o, r := ScanDir(kd, Some(name), "dirlookup read");
      assert icache[..] == c[kd := icache[kd]];
      if o.Panic? || !r.Found? {
        return o, r, 0;
      }
      ScanInode(old(st.disk), sb, dp, Some(name), "dirlookup read", 0);
      o, k := Iget(icache[kd].dev, r.inum);
    }

    /** dirlink(dp, name, inum): a name already present is iput and
        refused; otherwise the new entry goes into the first free entry, or
        at the end. */
    method Dirlink(kd: nat, name: seq<byte>, inum: uint32) returns (o: Outcome, res: LinkResult)
      requires kd < icache.Length
      modifies this, icache
      ensures (o, res, st, icache[..]) == FsDir.Dirlink(old(st), sb, old(icache[..]), kd, name, inum)
    {
      hide FsDir.Dirlookup, Scan, FsCache.Iput, FsIo.Writei;
      DirlookupShape(st, sb, icache[..], kd, name);
      var r, k;
      o, r, k := Dirlookup(kd, name);
      if o.Panic? {
        return o, Linked;
      }
      if r.Found? {
        o := Iput(k);
        return o, NameExists;
      }
      if r == LargeDir {
        return Done, NotModelled;
      }
      ghost var (st1, c1) := (st, icache[..]);
      o, r := ScanDir(kd, None, "dirlink read");
      assert icache[..] == c1[kd := icache[kd]];
      if o.Panic? {
        return o, Linked;
      }
      if r == LargeDir {
        return Done, NotModelled;
      }
      var cnt;
      ghost var c2 := icache[..];
      o, cnt := Writei(kd, Dirent.Encode(NewEntry(name, inum)), SlotOff(r));
      assert icache[..] == c2[kd := icache[kd]] == c1[kd := icache[kd]];
      if o.Done? && cnt != Bytes(DS) {
        o := Panic("dirlink");
      }
      res := Linked;
    }

    // ----- path names -----

    /** namex(path, nameiparent, name) with the calling process's cwd in
        slot cwd: the start (iget of the root for '/', of inode 1 of device
        2 for '%', else idup of the cwd), then one element per round of the
        loop, each ilocked directory looked up and iput. */
    method Namex(cwd: nat, path: seq<byte>, parent: bool, name: seq<byte>) returns (o: Outcome, w: Walked, nm: seq<byte>)
      requires cwd < icache.Length
      modifies this, icache
      ensures (o, w, nm, st, icache[..]) == FsPath.Namex(old(st), sb, old(icache[..]), cwd, path, parent, name)
    {
      hide Walk, FsCache.Iget, FsCache.Iput, FsDir.Dirlookup, FsInode.Ilock;
      var k: nat;
      if At(path, 0) == SLASH {
        o, k := Iget(ROOTDEV, ROOTINO);
      } else if At(path, 0) == PERCENT {
        o, k := Iget(2, 1);
      } else {
        Idup(cwd);
        o, k := Done, cwd;
      }
      nm := name;
      if o.Panic? {
        return o, Null, nm;
      }
      IgetMeaning(old(icache[..]), ROOTDEV, ROOTINO);
      IgetMeaning(old(icache[..]), 2, 1);
      var p := path;
      var next := SkipElemLoops(p);
      while next.Some?
        invariant k < icache.Length && next == SkipElem(p)
        invariant FsPath.Namex(old(st), sb, old(icache[..]), cwd, path, parent, name)
          == Walk(st, sb, icache[..], k, p, parent, nm)
        decreases |p|
      {
        var (rest, elem) := next.value;
        WalkSome(st, sb, icache[..], k, p, parent, nm);
        nm := elem;
        ghost var c := icache[..];
        var (o1, ip) := FsInode.Ilock(st, icache[k]);
        o := o1;
        icache[k] := ip;
        assert icache[..] == c[k := ip];
        if o.Panic? {
          return o, Null, nm;
        }
        if !IsDir(ip) {
          o := Iput(k);
          return o, Null, nm;
        }
        if parent && At(rest, 0) == 0 {
          return Done, Slot(k), nm;
        }
        ghost var (st1, c1) := (st, icache[..]);
        DirlookupShape(st1, sb, c1, k, elem);
        var l, k2;
        o, l, k2 := Dirlookup(k, elem);
        if o.Panic? {
          return o, Null, nm;
        }
        if l.LargeDir? {
          return Done, LargePath, nm;
        }
        o := Iput(k);
        assert Next(st1, sb, c1, k, elem) == (o, if o.Panic? || l.Absent? then Null else Slot(k2), st, icache[..]);
        if o.Panic? || l.Absent? {
          return o, Null, nm;
        }
        k, p := k2, rest;
        next := SkipElemLoops(p);
      }
      WalkNone(st, sb, icache[..], k, p, parent, nm);
      if parent {
        o := Iput(k);
        return o, Null, nm;
      }
      return Done, Slot(k), nm;
    }
  }
}
