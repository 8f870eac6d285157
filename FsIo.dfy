// Reading and writing the data of an inode (kernel/fs.c readi, writei):
// bounded by the file size, copied in chunks that never cross a block
// boundary, each block found (and allocated when missing) by bmap.
module FsIo {
  import opened Param
  import opened Wrappers
  import opened Bytes
  import opened Ufs
  import opened FsBitmap
  import opened FsInode
  import opened FsBmap

  /** What readi and writei return: -1, a byte count, or a call through
      the device switch, which is not part of this model; readi's large-file
      path is not part of it either. */
  datatype Count = Failed | Bytes(n: nat) | Device | LargeFile

  /** One chunk: up to the end of off's block, at most n bytes. */
  function Chunk(off: nat, n: nat): (m: nat)
    ensures n > 0 ==> 0 < m
    ensures m <= n && off % BSIZE + m <= BSIZE
  {
    if n < BSIZE - off % BSIZE then n else BSIZE - off % BSIZE
  }

  /** readi's loop over the n bytes at off: each chunk copied out of the
      block bmap gives for off / BSIZE. */
  function ReadLoop(d: Disk, sb: Superblock, ip: Inode, off: nat, n: nat): (Outcome, seq<byte>, Disk, Inode)
    decreases n
  {
    if n == 0 then (Done, [], d, ip)
    else
      var (o, a, d1, ip1) := Bmap(d, sb, ip, off / BSIZE);
      if o.Panic? then (o, [], d1, ip1)
      else
        var m := Chunk(off, n);
        var chunk := Blk(d1, ip.dev, a)[off % BSIZE .. off % BSIZE + m];
        var (o2, rest, d2, ip2) := ReadLoop(d1, sb, ip1, off + m, n - m);
        (o2, chunk + rest, d2, ip2)
  }

  /** readi(ip, dst, off, n): a device goes through the device switch; an
      offset past the end or a wrapping off + n fails; otherwise n is
      clamped to the end of the file and the bytes are read. */
  function Readi(d: Disk, sb: Superblock, ip: Inode, off: uint32, n: uint32): (Outcome, Count, seq<byte>, Disk, Inode) {
    if ip.itype == T_DEV then (Done, Device, [], d, ip)
    else if off > ip.size || off + n >= UINT_MOD then (Done, Failed, [], d, ip)
    else
      var n1 := if off + n > ip.size then ip.size - off else n;
      if IsLarge(ip.itype) then (Done, LargeFile, [], d, ip)
      else
        var (o, data, d1, ip1) := ReadLoop(d, sb, ip, off, n1);
        (o, if o.Panic? then Failed else Bytes(n1), data, d1, ip1)
  }

  /** Every block of the bytes [off, off + n) is mapped. */
  ghost predicate Mapped(d: Disk, ip: Inode, off: nat, n: nat) {
    forall k: nat :: off <= k < off + n ==> Addr(d, ip, k / BSIZE) != 0
  }

  /** Byte p of the chunk at off lies in off's block at off % BSIZE + p. */
  lemma ChunkPos(off: nat, p: nat)
    requires off % BSIZE + p < BSIZE
    ensures (off + p) / BSIZE == off / BSIZE && (off + p) % BSIZE == off % BSIZE + p
  {
    DivMod(off, BSIZE, off / BSIZE, off % BSIZE);
    DivMod(off + p, BSIZE, off / BSIZE, off % BSIZE + p);
  }

  /** One step of the read loop, when bmap succeeds. */
  lemma ReadLoopStep(d: Disk, sb: Superblock, ip: Inode, off: nat, n: nat)
    requires n > 0 && Bmap(d, sb, ip, off / BSIZE).0 == Done
    ensures var (_, a, d1, ip1) := Bmap(d, sb, ip, off / BSIZE);
      var m := Chunk(off, n);
      var (o2, rest, d2, ip2) := ReadLoop(d1, sb, ip1, off + m, n - m);
      ReadLoop(d, sb, ip, off, n) == (o2, Blk(d1, ip.dev, a)[off % BSIZE .. off % BSIZE + m] + rest, d2, ip2)
  {
  }

  /** The read loop over no bytes reads nothing and changes nothing. */
  lemma ReadLoopZero(d: Disk, sb: Superblock, ip: Inode, off: nat)
    ensures ReadLoop(d, sb, ip, off, 0) == (Done, [], d, ip)
  {
  }

  /** The read loop stops at the first bmap that fails. */
  lemma ReadLoopFails(d: Disk, sb: Superblock, ip: Inode, off: nat, n: nat)
    requires n > 0 && Bmap(d, sb, ip, off / BSIZE).0.Panic?
    ensures var (o, _, d1, ip1) := Bmap(d, sb, ip, off / BSIZE);
      ReadLoop(d, sb, ip, off, n) == (o, [], d1, ip1)
  {
  }

  /** readi's loop changes no field of the inode but its addresses. */
  lemma {:induction false} ReadLoopInode(d: Disk, sb: Superblock, ip: Inode, off: nat, n: nat)
    ensures var ip1 := ReadLoop(d, sb, ip, off, n).3;
      ip1 == ip.(addrs := ip1.addrs)
    decreases n
  {
    if n > 0 {
      BmapInode(d, sb, ip, off / BSIZE);
      var (o, _, d1, ip1) := Bmap(d, sb, ip, off / BSIZE);
      if o == Done {
        ReadLoopInode(d1, sb, ip1, off + Chunk(off, n), n - Chunk(off, n));
      }
    }
  }

  /** Byte p of block bn of the file is byte p of the block mapped there. */
  lemma FileByteAt(d: Disk, ip: Inode, off: nat, p: nat)
    requires off % BSIZE + p < BSIZE && Addr(d, ip, off / BSIZE) != 0
    ensures FileByte(d, ip, off + p) == Blk(d, ip.dev, Addr(d, ip, off / BSIZE))[off % BSIZE + p]
  {
    ChunkPos(off, p);
  }

  /** The read loop, when it succeeds on a sound map within MAXFILE blocks,
      returns the file's bytes and keeps the map sound and the file's
      bytes. */
  lemma {:induction false} ReadLoopMeaning(d: Disk, sb: Superblock, ip: Inode, off: nat, n: nat,
                                           data: seq<byte>, d2: Disk, ip2: Inode)
    requires MapOk(d, sb, ip) && off + n <= MAXFILE * BSIZE
    requires ReadLoop(d, sb, ip, off, n) == (Done, data, d2, ip2)
    ensures |data| == n && forall i :: 0 <= i < n ==> data[i] == FileByte(d, ip, off + i)
    ensures MapOk(d2, sb, ip2) && ip2 == ip.(addrs := ip2.addrs)
    ensures forall k: nat :: FileByte(d2, ip2, k) == FileByte(d, ip, k)
    decreases n
  {
    hide Bmap, ReadLoop, MapOk, FileByte;
    if n == 0 {
      ReadLoopZero(d, sb, ip, off);
    } else {
      var bn := off / BSIZE;
      BmapKeeps(d, sb, ip, bn);
      var (o, a, d1, ip1) := Bmap(d, sb, ip, bn);
      if o.Panic? {
        ReadLoopFails(d, sb, ip, off, n);
      } else {
        var m := Chunk(off, n);
        var chunk := Blk(d1, ip.dev, a)[off % BSIZE .. off % BSIZE + m];
        ReadLoopStep(d, sb, ip, off, n);
        var (o2, rest, d3, ip3) := ReadLoop(d1, sb, ip1, off + m, n - m);
        ReadLoopMeaning(d1, sb, ip1, off + m, n - m, rest, d3, ip3);
        forall i | 0 <= i < m
          ensures data[i] == FileByte(d, ip, off + i)
        {
          FileByteAt(d1, ip1, off, i);
        }
        forall i | m <= i < n
          ensures data[i] == FileByte(d, ip, off + i)
        {
          assert rest[i - m] == FileByte(d1, ip1, off + m + (i - m));
        }
      }
    }
  }

  /** The read loop over mapped blocks succeeds and changes nothing. */
  lemma {:induction false} ReadLoopMapped(d: Disk, sb: Superblock, ip: Inode, off: nat, n: nat)
    requires Mapped(d, ip, off, n)
    ensures var r := ReadLoop(d, sb, ip, off, n);
      r.0 == Done && r.2 == d && r.3 == ip
    decreases n
  {
    hide Bmap, ReadLoop;
    if n == 0 {
      ReadLoopZero(d, sb, ip, off);
    } else {
      var bn := off / BSIZE;
      assert Addr(d, ip, (off + 0) / BSIZE) != 0;
      BmapMapped(d, sb, ip, bn);
      var m := Chunk(off, n);
      ReadLoopStep(d, sb, ip, off, n);
      assert Mapped(d, ip, off + m, n - m);
      ReadLoopMapped(d, sb, ip, off + m, n - m);
    }
  }

  /** writei's loop over the bytes of src written at off: each chunk copied
      into the block bmap gives for off / BSIZE, which is written back. */
  function WriteLoop(d: Disk, sb: Superblock, ip: Inode, src: seq<byte>, off: nat): (Outcome, Disk, Inode)
    decreases |src|
  {
    if |src| == 0 then (Done, d, ip)
    else
      var (o, a, d1, ip1) := Bmap(d, sb, ip, off / BSIZE);
      if o.Panic? then (o, d1, ip1)
      else
        var m := Chunk(off, |src|);
        var blk := Splice(Blk(d1, ip.dev, a), off % BSIZE, src[..m]);
        WriteLoop(d1[(ip.dev, a) := blk], sb, ip1, src[m..], off + m)
  }

  /** The bytes k and off lie in the same block exactly when k is within
      that block's span around off. */
  lemma SameBlock(off: nat, k: nat, w: nat)
    requires off % BSIZE + w <= BSIZE
    ensures (off <= k < off + w) == (k / BSIZE == off / BSIZE && off % BSIZE <= k % BSIZE < off % BSIZE + w)
    ensures k / BSIZE == off / BSIZE ==> k - off == k % BSIZE - off % BSIZE
  {
    DivMod(off, BSIZE, off / BSIZE, off % BSIZE);
    DivMod(k, BSIZE, k / BSIZE, k % BSIZE);
    if off <= k < off + w {
      DivMod(k, BSIZE, off / BSIZE, off % BSIZE + (k - off));
    }
  }

  /** One byte after a chunk write: inside the chunk it is the chunk's,
      elsewhere it is what it was. */
  lemma ChunkWriteByte(d: Disk, ip: Inode, off: nat, w: seq<byte>, k: nat)
    requires Addr(d, ip, off / BSIZE) != 0 && off % BSIZE + |w| <= BSIZE
    requires forall b: nat :: b != off / BSIZE && Addr(d, ip, b) != 0 ==> Addr(d, ip, b) != Addr(d, ip, off / BSIZE)
    requires var a := Addr(d, ip, off / BSIZE);
      forall b: nat :: Addr(d[(ip.dev, a) := Splice(Blk(d, ip.dev, a), off % BSIZE, w)], ip, b) == Addr(d, ip, b)
    ensures var a := Addr(d, ip, off / BSIZE);
      FileByte(d[(ip.dev, a) := Splice(Blk(d, ip.dev, a), off % BSIZE, w)], ip, k)
        == if off <= k < off + |w| then w[k - off] else FileByte(d, ip, k)
  {
    var bn, a := off / BSIZE, Addr(d, ip, off / BSIZE);
    var blk: Block := Splice(Blk(d, ip.dev, a), off % BSIZE, w);
    var d1 := d[(ip.dev, a) := blk];
    SameBlock(off, k, |w|);
    var b := k / BSIZE;
    assert Addr(d1, ip, b) == Addr(d, ip, b);
    if b == bn {
      assert blk[off % BSIZE .. off % BSIZE + |w|] == w;
      assert off <= k < off + |w| ==> blk[k % BSIZE] == w[k % BSIZE - off % BSIZE];
    }
  }

  /** Writing w into the mapped block of off, at off % BSIZE, changes the
      file's bytes [off, off + |w|) to w and no other byte, no address,
      and keeps the map sound. */
  lemma ChunkWrite(d: Disk, sb: Superblock, ip: Inode, off: nat, w: seq<byte>)
    requires MapOk(d, sb, ip) && off / BSIZE < MAXFILE && Addr(d, ip, off / BSIZE) != 0
    requires off % BSIZE + |w| <= BSIZE
    ensures var a := Addr(d, ip, off / BSIZE);
      var d1 := d[(ip.dev, a) := Splice(Blk(d, ip.dev, a), off % BSIZE, w)];
      MapOk(d1, sb, ip) && (forall bn: nat :: Addr(d1, ip, bn) == Addr(d, ip, bn))
      && forall k: nat :: FileByte(d1, ip, k) == if off <= k < off + |w| then w[k - off] else FileByte(d, ip, k)
  {
    var bn, a := off / BSIZE, Addr(d, ip, off / BSIZE);
    var blk: Block := Splice(Blk(d, ip.dev, a), off % BSIZE, w);
    var d1 := d[(ip.dev, a) := blk];
    DataWriteUsed(d, d1, sb, ip.dev, a);
    forall b: nat
      ensures Addr(d1, ip, b) == Addr(d, ip, b)
    {
    }
    hide Addr, FileByte, Used;
    forall b: nat | b != bn && Addr(d, ip, b) != 0
      ensures Addr(d, ip, b) != a
    {
      if b < bn {
        assert Addr(d, ip, b) != Addr(d, ip, bn);
      }
    }
    forall k: nat
      ensures FileByte(d1, ip, k) == if off <= k < off + |w| then w[k - off] else FileByte(d, ip, k)
    {
      ChunkWriteByte(d, ip, off, w, k);
    }
    assert MapOk(d1, sb, ip);
  }

  /** One step of the write loop, when bmap succeeds. */
  lemma WriteLoopStep(d: Disk, sb: Superblock, ip: Inode, src: seq<byte>, off: nat)
    requires |src| > 0 && Bmap(d, sb, ip, off / BSIZE).0 == Done
    ensures var (_, a, d1, ip1) := Bmap(d, sb, ip, off / BSIZE);
      var m := Chunk(off, |src|);
      WriteLoop(d, sb, ip, src, off)
        == WriteLoop(d1[(ip.dev, a) := Splice(Blk(d1, ip.dev, a), off % BSIZE, src[..m])], sb, ip1, src[m..], off + m)
  {
  }

  /** The write loop stops at the first bmap that fails. */
  lemma WriteLoopFails(d: Disk, sb: Superblock, ip: Inode, src: seq<byte>, off: nat)
    requires |src| > 0 && Bmap(d, sb, ip, off / BSIZE).0.Panic?
    ensures var (o, _, d1, ip1) := Bmap(d, sb, ip, off / BSIZE);
      WriteLoop(d, sb, ip, src, off) == (o, d1, ip1)
  {
  }

  lemma WriteLoopZero(d: Disk, sb: Superblock, ip: Inode, off: nat)
    ensures WriteLoop(d, sb, ip, [], off) == (Done, d, ip)
  {
  }

  /** The write loop, when it succeeds on a sound map within MAXFILE
      blocks, leaves src at [off, off + |src|) of the file and every other
      byte as it was, maps every block it wrote, moves no block already
      mapped and keeps the map sound. */
  lemma {:induction false} WriteLoopMeaning(d: Disk, sb: Superblock, ip: Inode, src: seq<byte>, off: nat,
                                            d2: Disk, ip2: Inode)
    requires MapOk(d, sb, ip) && off + |src| <= MAXFILE * BSIZE
    requires WriteLoop(d, sb, ip, src, off) == (Done, d2, ip2)
    ensures MapOk(d2, sb, ip2) && ip2 == ip.(addrs := ip2.addrs)
    ensures forall k: nat :: FileByte(d2, ip2, k) == if off <= k < off + |src| then src[k - off] else FileByte(d, ip, k)
    ensures Mapped(d2, ip2, off, |src|)
    ensures forall bn: nat :: Addr(d, ip, bn) != 0 ==> Addr(d2, ip2, bn) == Addr(d, ip, bn)
    decreases |src|
  {
    hide Bmap, WriteLoop, MapOk, FileByte, Addr;
    if |src| == 0 {
      WriteLoopZero(d, sb, ip, off);
    } else {
      var bn := off / BSIZE;
      BmapKeeps(d, sb, ip, bn);
      if Addr(d, ip, bn) != 0 {
        BmapMapped(d, sb, ip, bn);
      }
      var (o, a, d1, ip1) := Bmap(d, sb, ip, bn);
      if o.Panic? {
        WriteLoopFails(d, sb, ip, src, off);
      } else {
        var m := Chunk(off, |src|);
        var w := src[..m];
        var dw := d1[(ip.dev, a) := Splice(Blk(d1, ip.dev, a), off % BSIZE, w)];
        ChunkWrite(d1, sb, ip1, off, w);
        WriteLoopStep(d, sb, ip, src, off);
        WriteLoopMeaning(dw, sb, ip1, src[m..], off + m, d2, ip2);
        forall k: nat
          ensures FileByte(d2, ip2, k) == if off <= k < off + |src| then src[k - off] else FileByte(d, ip, k)
        {
          if off <= k < off + m {
            assert FileByte(dw, ip1, k) == w[k - off];
          } else if off + m <= k < off + |src| {
            assert src[m..][k - (off + m)] == src[k - off];
          }
        }
        forall k: nat | off <= k < off + |src|
          ensures Addr(d2, ip2, k / BSIZE) != 0
        {
          if k < off + m {
            SameBlock(off, k, m);
            assert Addr(dw, ip1, bn) == a;
          } else {
            assert Mapped(d2, ip2, off + m, |src| - m);
          }
        }
      }
    }
  }

  /** writei(ip, src, off, n): a device goes through the device switch; an
      offset past the end, a wrapping off + n or an end past MAXFILE blocks
      fails; otherwise the bytes are written, and a write that grows the
      file sets the size to off + n and writes the inode back (iupdate). */
  function Writei(st: Storage, sb: Superblock, ip: Inode, src: seq<byte>, off: uint32): (Outcome, Count, Storage, Inode)
    requires |src| < UINT_MOD
  {
    var n := |src|;
    if ip.itype == T_DEV then (Done, Device, st, ip)
    else if off > ip.size || off + n >= UINT_MOD then (Done, Failed, st, ip)
    else if off + n > MAXFILE * BSIZE then (Done, Failed, st, ip)
    else
      var (o, d1, ip1) := WriteLoop(st.disk, sb, ip, src, off);
      if o.Panic? then (o, Failed, st.(disk := d1), ip1)
      else if n > 0 && off + n > ip1.size then
        var ip2 := ip1.(size := off + n);
        (Done, Bytes(n), Iupdate(st.(disk := d1), ip2), ip2)
      else (Done, Bytes(n), st.(disk := d1), ip1)
  }

  /** The map and the file's bytes depend on the inode's device, number
      and addresses only. */
  lemma SameMap(d: Disk, sb: Superblock, ip: Inode, ip1: Inode)
    requires ip1.dev == ip.dev && ip1.inum == ip.inum && ip1.addrs == ip.addrs
    ensures MapOk(d, sb, ip1) == MapOk(d, sb, ip)
    ensures forall bn: nat :: Addr(d, ip1, bn) == Addr(d, ip, bn)
    ensures forall k: nat :: FileByte(d, ip1, k) == FileByte(d, ip, k)
  {
    assert forall bn: nat :: Addr(d, ip1, bn) == Addr(d, ip, bn);
    assert forall x: nat :: Owned(d, sb, ip1, x) == Owned(d, sb, ip, x);
  }

  /** iupdate keeps a sound map sound and the file's bytes: it writes only
      the inode's own sector, which the map never names. */
  lemma IupdateKeepsFile(st: Storage, sb: Superblock, ip: Inode)
    requires MapOk(st.disk, sb, ip)
    ensures var d1 := Iupdate(st, ip).disk;
      MapOk(d1, sb, ip) && (forall bn: nat :: Addr(d1, ip, bn) == Addr(st.disk, ip, bn))
      && (forall k: nat :: FileByte(d1, ip, k) == FileByte(st.disk, ip, k))
  {
    var d, d1 := st.disk, Iupdate(st, ip).disk;
    IupdateFrame(st, sb, ip);
    if 2 <= ip.dev < 4 {
      FrameMap(d, d1, ip, UIBlock(ip.inum), UIBlock(ip.inum));
      hide Addr, FileByte, Used;
      assert MapOk(d1, sb, ip);
    }
  }

  /** writei on a sound map: a device goes through the device switch, the
      bounds checks fail with nothing changed, and a write that succeeds
      leaves src at [off, off + n) of the file and every other byte as it
      was, grows the size to off + n when it ends past it, maps every block
      it wrote and keeps the map sound. */
  lemma WriteiMeaning(st: Storage, sb: Superblock, ip: Inode, src: seq<byte>, off: uint32)
    requires |src| < UINT_MOD && MapOk(st.disk, sb, ip)
    ensures var (o, c, st1, ip1) := Writei(st, sb, ip, src, off);
      var n := |src|;
      (ip.itype == T_DEV ==> o == Done && c == Device && st1 == st && ip1 == ip)
      && (ip.itype != T_DEV && (off > ip.size || off + n >= UINT_MOD || off + n > MAXFILE * BSIZE) ==>
            o == Done && c == Failed && st1 == st && ip1 == ip)
      && (o == Done && c.Bytes? ==>
            c.n == n && MapOk(st1.disk, sb, ip1)
            && ip1 == ip.(addrs := ip1.addrs, size := ip1.size)
            && ip1.size == (if off + n > ip.size then off + n else ip.size)
            && (forall k: nat :: FileByte(st1.disk, ip1, k) == if off <= k < off + n then src[k - off] else FileByte(st.disk, ip, k))
            && Mapped(st1.disk, ip1, off, n))
  {
    hide WriteLoop, MapOk, FileByte, Addr, Iupdate;
    var n := |src|;
    if ip.itype != T_DEV && off <= ip.size && off + n < UINT_MOD && off + n <= MAXFILE * BSIZE {
      var (o, d1, ip1) := WriteLoop(st.disk, sb, ip, src, off);
      if o == Done {
        WriteLoopMeaning(st.disk, sb, ip, src, off, d1, ip1);
        if n > 0 && off + n > ip1.size {
          var ip2 := ip1.(size := off + n);
          SameMap(d1, sb, ip1, ip2);
          IupdateKeepsFile(st.(disk := d1), sb, ip2);
        }
      }
    }
  }

  /** readi on a sound map of a file within MAXFILE blocks: a device goes
      through the device switch, the bounds checks fail with nothing
      changed, the count is n clamped to the end of the file, and the bytes
      are the file's; over mapped blocks the read succeeds and changes
      nothing. */
  lemma ReadiMeaning(d: Disk, sb: Superblock, ip: Inode, off: uint32, n: uint32)
    requires MapOk(d, sb, ip) && ip.size <= MAXFILE * BSIZE
    ensures var (o, c, data, d1, ip1) := Readi(d, sb, ip, off, n);
      var n1 := if off + n > ip.size then ip.size - off else n;
      (ip.itype == T_DEV ==> o == Done && c == Device && d1 == d && ip1 == ip)
      && (ip.itype != T_DEV && (off > ip.size || off + n >= UINT_MOD) ==>
            o == Done && c == Failed && data == [] && d1 == d && ip1 == ip)
      && (ip.itype != T_DEV && off <= ip.size && off + n < UINT_MOD && IsLarge(ip.itype) ==>
            o == Done && c == LargeFile && d1 == d && ip1 == ip)
      && (o == Done && c.Bytes? ==>
            c.n == n1 && |data| == n1 && (forall i :: 0 <= i < n1 ==> data[i] == FileByte(d, ip, off + i))
            && MapOk(d1, sb, ip1) && ip1 == ip.(addrs := ip1.addrs)
            && (forall k: nat :: FileByte(d1, ip1, k) == FileByte(d, ip, k)))
      && (ip.itype != T_DEV && off <= ip.size && off + n < UINT_MOD && !IsLarge(ip.itype) && Mapped(d, ip, off, n1) ==>
            o == Done && c == Bytes(n1) && d1 == d && ip1 == ip)
  {
    hide ReadLoop, MapOk, FileByte, Addr, Mapped;
    if ip.itype != T_DEV && off <= ip.size && off + n < UINT_MOD && !IsLarge(ip.itype) {
      var n1 := if off + n > ip.size then ip.size - off else n;
      var (o, data, d1, ip1) := ReadLoop(d, sb, ip, off, n1);
      if o == Done {
        ReadLoopMeaning(d, sb, ip, off, n1, data, d1, ip1);
      }
      if Mapped(d, ip, off, n1) {
        ReadLoopMapped(d, sb, ip, off, n1);
      }
    }
  }

  /** A write followed by a read of the same range returns the bytes
      written, and the read changes nothing. */
  lemma WriteThenRead(st: Storage, sb: Superblock, ip: Inode, src: seq<byte>, off: uint32,
                      st1: Storage, ip1: Inode)
    requires |src| < UINT_MOD && MapOk(st.disk, sb, ip) && !IsLarge(ip.itype)
    requires Writei(st, sb, ip, src, off) == (Done, Bytes(|src|), st1, ip1)
    ensures Readi(st1.disk, sb, ip1, off, |src|) == (Done, Bytes(|src|), src, st1.disk, ip1)
  {
    WriteiMeaning(st, sb, ip, src, off);
    var n := |src|;
    assert off + n <= ip1.size && off + n <= MAXFILE * BSIZE;
    var (o, data, d2, ip2) := ReadLoop(st1.disk, sb, ip1, off, n);
    ReadLoopMapped(st1.disk, sb, ip1, off, n);
    ReadLoopMeaning(st1.disk, sb, ip1, off, n, data, d2, ip2);
    assert data == src;
  }
}
