// The block map of an inode (kernel/fs.c bmap and itrunc): NDIRECT direct
// addresses in ip->addrs and one indirect block of NINDIRECT uint
// addresses, allocated on first use; and the bytes of a file as that map
// and the disk give them.
module FsBmap {
  import opened Param
  import opened Wrappers
  import opened Bytes
  import opened Ufs
  import opened FsBitmap
  import opened FsInode

  /** a[j] of an indirect block: the little-endian uint at byte 4j. */
  function IndEntry(blk: Block, j: nat): uint32
    requires j < NINDIRECT
  {
    Get32(blk, 4 * j)
  }

  /** The indirect block with a[j] = x. */
  function SetInd(blk: Block, j: nat, x: uint32): Block
    requires j < NINDIRECT
  {
    Splice(blk, 4 * j, Le32(x))
  }

  /** Storing a[j] changes a[j] and no other entry. */
  lemma IndEntrySet(blk: Block, j: nat, x: uint32, i: nat)
    requires j < NINDIRECT && i < NINDIRECT
    ensures IndEntry(SetInd(blk, j, x), i) == if i == j then x else IndEntry(blk, i)
  {
    var r := SetInd(blk, j, x);
    if i == j {
      Get32Le32(x, r, 4 * j);
    } else {
      assert r[4 * i] == blk[4 * i] && r[4 * i + 1] == blk[4 * i + 1];
      assert r[4 * i + 2] == blk[4 * i + 2] && r[4 * i + 3] == blk[4 * i + 3];
    }
  }

  /** bmap(ip, bn): the block holding block bn of the file, allocated
      (balloc) when the entry is 0; the indirect block is allocated the same
      way. A block number past NDIRECT + NINDIRECT panics. */
  function Bmap(d: Disk, sb: Superblock, ip: Inode, bn: nat): (Outcome, uint32, Disk, Inode) {
    if bn < NDIRECT then Direct(d, sb, ip, bn)
    else if bn < MAXFILE then
      var (o, d1, ip1) := IndBlock(d, sb, ip);
      if o.Panic? then (o, 0, d1, ip1) else Entry(d1, sb, ip1, bn - NDIRECT)
    else (Panic("bmap: out of range"), 0, d, ip)
  }

  /** The direct case of bmap: addrs[bn], allocated when 0. */
  function Direct(d: Disk, sb: Superblock, ip: Inode, bn: nat): (Outcome, uint32, Disk, Inode)
    requires bn < NDIRECT
  {
    if ip.addrs[bn] != 0 then (Done, ip.addrs[bn], d, ip)
    else
      var (o, x, d1) := Balloc(d, sb, ip.dev);
      if o.Panic? then (o, 0, d1, ip) else (Done, x, d1, ip.(addrs := ip.addrs[bn := x]))
  }

  /** The indirect block addrs[NDIRECT], allocated when 0. */
  function IndBlock(d: Disk, sb: Superblock, ip: Inode): (Outcome, Disk, Inode) {
    if ip.addrs[NDIRECT] != 0 then (Done, d, ip)
    else
      var (o, x, d1) := Balloc(d, sb, ip.dev);
      (o, d1, if o.Panic? then ip else ip.(addrs := ip.addrs[NDIRECT := x]))
  }

  /** Entry j of the indirect block addrs[NDIRECT], allocated when 0 and
      written back into the indirect block. */
  function Entry(d: Disk, sb: Superblock, ip: Inode, j: nat): (Outcome, uint32, Disk, Inode)
    requires j < NINDIRECT
  {
    var ind := ip.addrs[NDIRECT];
    var a := IndEntry(Blk(d, ip.dev, ind), j);
    if a != 0 then (Done, a, d, ip)
    else
      var (o, x, d1) := Balloc(d, sb, ip.dev);
      if o.Panic? then (o, 0, d1, ip)
      else (Done, x, d1[(ip.dev, ind) := SetInd(Blk(d1, ip.dev, ind), j, x)], ip)
  }

  /** The block bmap would return for file block bn without allocating,
      0 when there is none. */
  function Addr(d: Disk, ip: Inode, bn: nat): uint32 {
    if bn < NDIRECT then ip.addrs[bn]
    else if bn < MAXFILE then
      if ip.addrs[NDIRECT] == 0 then 0 else IndEntry(Blk(d, ip.dev, ip.addrs[NDIRECT]), bn - NDIRECT)
    else 0
  }

  /** A mapped block is returned as it is, with nothing allocated. */
  lemma BmapMapped(d: Disk, sb: Superblock, ip: Inode, bn: nat)
    requires Addr(d, ip, bn) != 0
    ensures Bmap(d, sb, ip, bn) == (Done, Addr(d, ip, bn), d, ip)
  {
  }

  /** What bmap returns is the block the map now holds for bn (on a disk
      whose block 0 is in use, so that no indirect block is block 0). */
  lemma BmapAddr(d: Disk, sb: Superblock, ip: Inode, bn: nat)
    requires Reserved(d, sb, ip.dev)
    ensures var (o, a, d1, ip1) := Bmap(d, sb, ip, bn);
      (bn >= MAXFILE ==> o == Panic("bmap: out of range") && d1 == d && ip1 == ip)
      && (o == Done ==> Addr(d1, ip1, bn) == a)
  {
    hide Balloc, Entry;
    if NDIRECT <= bn < MAXFILE {
      var (o, d1, ip1) := IndBlock(d, sb, ip);
      BallocReserved(d, sb, ip.dev);
      if o == Done {
        EntryAddr(d1, sb, ip1, bn - NDIRECT);
      }
    }
  }

  lemma EntryAddr(d: Disk, sb: Superblock, ip: Inode, j: nat)
    requires j < NINDIRECT
    ensures var (o, a, d1, ip1) := Entry(d, sb, ip, j);
      ip1 == ip && (o == Done && ip.addrs[NDIRECT] != 0 ==> Addr(d1, ip1, NDIRECT + j) == a)
      && (o == Done && Reserved(d, sb, ip.dev) ==> a != 0)
  {
    var ind := ip.addrs[NDIRECT];
    var (o, x, d1) := Balloc(d, sb, ip.dev);
    IndEntrySet(Blk(d1, ip.dev, ind), j, x, j);
    if Reserved(d, sb, ip.dev) {
      BallocReserved(d, sb, ip.dev);
    }
  }

  /** bmap allocates only for an entry that is 0: once it returned a
      non-zero block, asking again returns the same block and changes
      nothing. Under Reserved the block is never 0. */
  lemma BmapAgain(d: Disk, sb: Superblock, ip: Inode, bn: nat)
    requires Reserved(d, sb, ip.dev)
    ensures var (o, a, d1, ip1) := Bmap(d, sb, ip, bn);
      o == Done ==> a != 0 && Bmap(d1, sb, ip1, bn) == (Done, a, d1, ip1)
  {
    hide Balloc, Entry;
    var (o, a, d1, ip1) := Bmap(d, sb, ip, bn);
    BmapAddr(d, sb, ip, bn);
    BallocReserved(d, sb, ip.dev);
    if o == Done && NDIRECT <= bn {
      var (o0, d0, ip0) := IndBlock(d, sb, ip);
      EntryAddr(d0, sb, ip0, bn - NDIRECT);
    }
    if o == Done && a != 0 {
      BmapMapped(d1, sb, ip1, bn);
    }
  }

  // ----- the file's data and the map invariant -----

  /** Byte k of the file as its map and the disk give it, 0 in a block that
      is not mapped. */
  function FileByte(d: Disk, ip: Inode, k: nat): byte {
    var a := Addr(d, ip, k / BSIZE);
    if a == 0 then 0 else Blk(d, ip.dev, a)[k % BSIZE]
  }

  /** Block x may belong to ip's file: in use, below sb.size, neither the
      boot block nor a bitmap block, nor the sector holding ip's own Unix V5
      dinode. */
  ghost predicate Owned(d: Disk, sb: Superblock, ip: Inode, x: nat) {
    x < sb.size && Used(d, sb, ip.dev, x) && !Meta(sb, x)
    && !(2 <= ip.dev < 4 && x == UIBlock(ip.inum))
  }

  /** ip's Unix V5 dinode sector is no bitmap block and is in use, so that
      balloc never hands it out. */
  ghost predicate SectorKept(d: Disk, sb: Superblock, ip: Inode) {
    2 <= ip.dev < 4 ==>
      !Meta(sb, UIBlock(ip.inum)) && (UIBlock(ip.inum) < sb.size ==> Used(d, sb, ip.dev, UIBlock(ip.inum)))
  }

  /** The map of ip is sound: every block it names is owned, the data
      blocks are distinct from each other and from the indirect block. */
  ghost predicate MapOk(d: Disk, sb: Superblock, ip: Inode) {
    Reserved(d, sb, ip.dev) && SectorKept(d, sb, ip)
    && (ip.addrs[NDIRECT] != 0 ==> Owned(d, sb, ip, ip.addrs[NDIRECT]))
    && (forall bn: nat :: bn < MAXFILE && Addr(d, ip, bn) != 0 ==>
          Owned(d, sb, ip, Addr(d, ip, bn)) && Addr(d, ip, bn) != ip.addrs[NDIRECT])
    && (forall bn: nat, bn2: nat :: bn < bn2 < MAXFILE && Addr(d, ip, bn) != 0 ==>
          Addr(d, ip, bn) != Addr(d, ip, bn2))
  }

  /** A block the file may take: owned, and named nowhere in its map. */
  ghost predicate Fresh(d: Disk, sb: Superblock, ip: Inode, x: nat) {
    x != 0 && Owned(d, sb, ip, x) && x != ip.addrs[NDIRECT]
    && (forall bn: nat :: bn < MAXFILE ==> Addr(d, ip, bn) != x)
    && Blk(d, ip.dev, x) == Zeros(BSIZE)
  }

  /** What a balloc under Reserved does, in the terms the map needs. */
  lemma BallocFacts(d: Disk, sb: Superblock, dev: nat)
    requires Reserved(d, sb, dev)
    ensures var (o, x, d1) := Balloc(d, sb, dev);
      o == Done ==>
        x != 0 && x < sb.size && !Meta(sb, x) && Meta(sb, BBlock(x, sb))
        && !Used(d, sb, dev, x) && Reserved(d1, sb, dev)
        && Blk(d1, dev, x) == Zeros(BSIZE)
        && (forall y: nat :: y < sb.size ==> Used(d1, sb, dev, y) == (y == x || Used(d, sb, dev, y)))
        && (forall b: nat :: b != x && b != BBlock(x, sb) ==> Blk(d1, dev, b) == Blk(d, dev, b))
  {
    hide Balloc, Used, Blk, Mark, FirstFree;
    BallocMeaning(d, sb, dev);
    BallocReserved(d, sb, dev);
    var (o, x, _) := Balloc(d, sb, dev);
    if o == Done {
      assert x / BPB <= sb.size / BPB;
    }
  }

  /** A disk that differs from d only in blocks z1 and z2, which the map
      does not name, gives the same map and the same file bytes. */
  lemma FrameMap(d: Disk, d1: Disk, ip: Inode, z1: nat, z2: nat)
    requires forall b: nat :: b != z1 && b != z2 ==> Blk(d1, ip.dev, b) == Blk(d, ip.dev, b)
    requires ip.addrs[NDIRECT] != 0 ==> ip.addrs[NDIRECT] != z1 && ip.addrs[NDIRECT] != z2
    requires forall bn: nat :: bn < MAXFILE && Addr(d, ip, bn) != 0 ==> Addr(d, ip, bn) != z1 && Addr(d, ip, bn) != z2
    ensures forall bn: nat :: Addr(d1, ip, bn) == Addr(d, ip, bn)
    ensures forall k: nat :: FileByte(d1, ip, k) == FileByte(d, ip, k)
  {
    forall bn: nat
      ensures Addr(d1, ip, bn) == Addr(d, ip, bn)
    {
    }
    forall k: nat
      ensures FileByte(d1, ip, k) == FileByte(d, ip, k)
    {
      assert Addr(d1, ip, k / BSIZE) == Addr(d, ip, k / BSIZE);
    }
  }

  /** balloc under a sound map changes neither the map nor the file's bytes,
      and hands out a fresh zeroed block. */
  lemma AllocKeeps(d: Disk, sb: Superblock, ip: Inode)
    requires MapOk(d, sb, ip)
    ensures var (o, x, d1) := Balloc(d, sb, ip.dev);
      o == Done ==>
        MapOk(d1, sb, ip) && Fresh(d1, sb, ip, x)
        && (forall bn: nat :: Addr(d1, ip, bn) == Addr(d, ip, bn))
        && (forall k: nat :: FileByte(d1, ip, k) == FileByte(d, ip, k))
  {
    hide Balloc, Used, Reserved;
    var (o, x, d1) := Balloc(d, sb, ip.dev);
    if o == Done {
      BallocFacts(d, sb, ip.dev);
      FrameMap(d, d1, ip, x, BBlock(x, sb));
      hide Addr, FileByte;
      assert Owned(d1, sb, ip, x) by {
        assert !(2 <= ip.dev < 4 && x == UIBlock(ip.inum));
      }
    }
  }

  /** The bitmap block of a block below sb.size is a metadata block. */
  lemma BBlockMeta(sb: Superblock, y: nat)
    requires y < sb.size
    ensures Meta(sb, BBlock(y, sb))
  {
    assert y / BPB <= sb.size / BPB;
  }

  /** Installing a fresh block as direct entry bn keeps the map sound and
      the file's bytes: the block is zeroed, as the hole it fills read. */
  lemma SetDirectKeeps(d: Disk, sb: Superblock, ip: Inode, bn: nat, x: uint32)
    requires MapOk(d, sb, ip) && bn < NDIRECT && ip.addrs[bn] == 0 && Fresh(d, sb, ip, x)
    ensures var ip1 := ip.(addrs := ip.addrs[bn := x]);
      MapOk(d, sb, ip1) && Addr(d, ip1, bn) == x
      && (forall b: nat :: b != bn ==> Addr(d, ip1, b) == Addr(d, ip, b))
      && (forall k: nat :: FileByte(d, ip1, k) == FileByte(d, ip, k))
  {
    var ip1 := ip.(addrs := ip.addrs[bn := x]);
    forall b: nat
      ensures Addr(d, ip1, b) == if b == bn then x else Addr(d, ip, b)
    {
    }
    forall k: nat
      ensures FileByte(d, ip1, k) == FileByte(d, ip, k)
    {
      assert Addr(d, ip1, k / BSIZE) == if k / BSIZE == bn then x else Addr(d, ip, k / BSIZE);
    }
  }

  /** An indirect block of zeros maps nothing. */
  lemma IndZeros(j: nat)
    requires j < NINDIRECT
    ensures IndEntry(Zeros(BSIZE), j) == 0
  {
    var z := Zeros(BSIZE);
    assert z[4 * j] == 0 && z[4 * j + 1] == 0 && z[4 * j + 2] == 0 && z[4 * j + 3] == 0;
  }

  /** Installing a fresh zeroed block as the indirect block changes no
      address and keeps the map sound. */
  lemma SetIndBlockKeeps(d: Disk, sb: Superblock, ip: Inode, x: uint32)
    requires MapOk(d, sb, ip) && ip.addrs[NDIRECT] == 0 && Fresh(d, sb, ip, x)
    ensures var ip1 := ip.(addrs := ip.addrs[NDIRECT := x]);
      MapOk(d, sb, ip1)
      && (forall b: nat :: Addr(d, ip1, b) == Addr(d, ip, b))
      && (forall k: nat :: FileByte(d, ip1, k) == FileByte(d, ip, k))
  {
    var ip1 := ip.(addrs := ip.addrs[NDIRECT := x]);
    forall b: nat
      ensures Addr(d, ip1, b) == Addr(d, ip, b)
    {
      if NDIRECT <= b < MAXFILE {
        IndZeros(b - NDIRECT);
      }
    }
    forall k: nat
      ensures FileByte(d, ip1, k) == FileByte(d, ip, k)
    {
      assert Addr(d, ip1, k / BSIZE) == Addr(d, ip, k / BSIZE);
    }
  }

  /** A write to a block that is no metadata block changes no block's bit
      below sb.size. */
  lemma DataWriteUsed(d: Disk, d1: Disk, sb: Superblock, dev: nat, z: nat)
    requires !Meta(sb, z)
    requires forall b: nat :: b != z ==> Blk(d1, dev, b) == Blk(d, dev, b)
    ensures forall y: nat :: y < sb.size ==> Used(d1, sb, dev, y) == Used(d, sb, dev, y)
    ensures Reserved(d, sb, dev) ==> Reserved(d1, sb, dev)
  {
    forall y: nat | y < sb.size
      ensures Used(d1, sb, dev, y) == Used(d, sb, dev, y)
    {
      BBlockMeta(sb, y);
    }
  }

  /** Writing x into entry j of the indirect block maps block NDIRECT + j
      to x and changes no other address; a zeroed x keeps the file's bytes. */
  lemma SetEntryAddr(d: Disk, ip: Inode, j: nat, x: uint32)
    requires j < NINDIRECT && ip.addrs[NDIRECT] != 0 && Addr(d, ip, NDIRECT + j) == 0
    requires x != ip.addrs[NDIRECT] && Blk(d, ip.dev, x) == Zeros(BSIZE)
    requires forall bn: nat :: bn < MAXFILE && Addr(d, ip, bn) != 0 ==> Addr(d, ip, bn) != ip.addrs[NDIRECT]
    ensures var ind := ip.addrs[NDIRECT];
      var d1 := d[(ip.dev, ind) := SetInd(Blk(d, ip.dev, ind), j, x)];
      (forall b: nat :: Addr(d1, ip, b) == if b == NDIRECT + j then x else Addr(d, ip, b))
      && (forall k: nat :: FileByte(d1, ip, k) == FileByte(d, ip, k))
  {
    var ind := ip.addrs[NDIRECT];
    var d1 := d[(ip.dev, ind) := SetInd(Blk(d, ip.dev, ind), j, x)];
    forall b: nat
      ensures Addr(d1, ip, b) == if b == NDIRECT + j then x else Addr(d, ip, b)
    {
      if NDIRECT <= b < MAXFILE {
        IndEntrySet(Blk(d, ip.dev, ind), j, x, b - NDIRECT);
      }
    }
    forall k: nat
      ensures FileByte(d1, ip, k) == FileByte(d, ip, k)
    {
      var b := k / BSIZE;
      assert Addr(d1, ip, b) == if b == NDIRECT + j then x else Addr(d, ip, b);
    }
  }

  /** Writing a fresh block into entry j of the indirect block maps block
      NDIRECT + j to it, changes no other address, and keeps the map sound
      and the file's bytes. */
  lemma SetEntryKeeps(d: Disk, sb: Superblock, ip: Inode, j: nat, x: uint32)
    requires MapOk(d, sb, ip) && j < NINDIRECT && ip.addrs[NDIRECT] != 0
    requires Addr(d, ip, NDIRECT + j) == 0 && Fresh(d, sb, ip, x)
    ensures var ind := ip.addrs[NDIRECT];
      var d1 := d[(ip.dev, ind) := SetInd(Blk(d, ip.dev, ind), j, x)];
      MapOk(d1, sb, ip) && Addr(d1, ip, NDIRECT + j) == x
      && (forall b: nat :: b != NDIRECT + j ==> Addr(d1, ip, b) == Addr(d, ip, b))
      && (forall k: nat :: FileByte(d1, ip, k) == FileByte(d, ip, k))
  {
    hide Addr, FileByte, Used;
    var ind := ip.addrs[NDIRECT];
    var d1 := d[(ip.dev, ind) := SetInd(Blk(d, ip.dev, ind), j, x)];
    SetEntryAddr(d, ip, j, x);
    DataWriteUsed(d, d1, sb, ip.dev, ind);
    assert Owned(d1, sb, ip, ind);
    forall bn: nat | bn < MAXFILE && Addr(d1, ip, bn) != 0
      ensures Owned(d1, sb, ip, Addr(d1, ip, bn))
    {
    }
  }

  /** The direct case of bmap keeps the map sound and the file's bytes. */
  lemma DirectKeeps(d: Disk, sb: Superblock, ip: Inode, bn: nat)
    requires MapOk(d, sb, ip) && bn < NDIRECT
    ensures var (o, a, d1, ip1) := Direct(d, sb, ip, bn);
      o == Done ==>
        MapOk(d1, sb, ip1) && a != 0 && Addr(d1, ip1, bn) == a
        && ip1 == ip.(addrs := ip1.addrs)
        && (forall b: nat :: b != bn ==> Addr(d1, ip1, b) == Addr(d, ip, b))
        && (forall k: nat :: FileByte(d1, ip1, k) == FileByte(d, ip, k))
  {
    hide Balloc, Used, MapOk, FileByte;
    if ip.addrs[bn] == 0 {
      AllocKeeps(d, sb, ip);
      var (o, x, d1) := Balloc(d, sb, ip.dev);
      if o == Done {
        SetDirectKeeps(d1, sb, ip, bn, x);
      }
    }
  }

  /** Getting the indirect block keeps the map sound, every address and
      the file's bytes, and leaves a non-zero indirect block. */
  lemma IndBlockKeeps(d: Disk, sb: Superblock, ip: Inode)
    requires MapOk(d, sb, ip)
    ensures var (o, d1, ip1) := IndBlock(d, sb, ip);
      o == Done ==>
        MapOk(d1, sb, ip1) && ip1.addrs[NDIRECT] != 0
        && ip1 == ip.(addrs := ip1.addrs)
        && (forall b: nat :: Addr(d1, ip1, b) == Addr(d, ip, b))
        && (forall k: nat :: FileByte(d1, ip1, k) == FileByte(d, ip, k))
  {
    hide Balloc, Used, MapOk, FileByte;
    if ip.addrs[NDIRECT] == 0 {
      AllocKeeps(d, sb, ip);
      var (o, x, d1) := Balloc(d, sb, ip.dev);
      if o == Done {
        SetIndBlockKeeps(d1, sb, ip, x);
      }
    }
  }

  /** Getting entry j of the indirect block keeps the map sound and the
      file's bytes. */
  lemma EntryKeeps(d: Disk, sb: Superblock, ip: Inode, j: nat)
    requires MapOk(d, sb, ip) && j < NINDIRECT && ip.addrs[NDIRECT] != 0
    ensures var (o, a, d1, ip1) := Entry(d, sb, ip, j);
      o == Done ==>
        MapOk(d1, sb, ip1) && a != 0 && Addr(d1, ip1, NDIRECT + j) == a && ip1 == ip
        && (forall b: nat :: b != NDIRECT + j ==> Addr(d1, ip1, b) == Addr(d, ip, b))
        && (forall k: nat :: FileByte(d1, ip1, k) == FileByte(d, ip, k))
  {
    hide Balloc, Used, MapOk, FileByte;
    var ind := ip.addrs[NDIRECT];
    if IndEntry(Blk(d, ip.dev, ind), j) == 0 {
      AllocKeeps(d, sb, ip);
      var (o, x, d1) := Balloc(d, sb, ip.dev);
      if o == Done {
        SetEntryKeeps(d1, sb, ip, j, x);
      }
    }
  }

  /** bmap changes no field of the inode but its addresses. */
  lemma BmapInode(d: Disk, sb: Superblock, ip: Inode, bn: nat)
    ensures var ip1 := Bmap(d, sb, ip, bn).3;
      ip1 == ip.(addrs := ip1.addrs)
  {
    hide Direct, IndBlock, Entry;
    if bn < NDIRECT {
      DirectInode(d, sb, ip, bn);
    } else if bn < MAXFILE {
      IndBlockInode(d, sb, ip);
      var (o, d1, ip1) := IndBlock(d, sb, ip);
      if o == Done {
        EntryInode(d1, sb, ip1, bn - NDIRECT);
      }
    }
  }

  lemma DirectInode(d: Disk, sb: Superblock, ip: Inode, bn: nat)
    requires bn < NDIRECT
    ensures var ip1 := Direct(d, sb, ip, bn).3;
      ip1 == ip.(addrs := ip1.addrs)
  {
    hide Balloc;
  }

  lemma IndBlockInode(d: Disk, sb: Superblock, ip: Inode)
    ensures var ip1 := IndBlock(d, sb, ip).2;
      ip1 == ip.(addrs := ip1.addrs)
  {
    hide Balloc;
  }

  lemma EntryInode(d: Disk, sb: Superblock, ip: Inode, j: nat)
    requires j < NINDIRECT
    ensures Entry(d, sb, ip, j).3 == ip
  {
    hide Balloc, SetInd;
  }

  /** bmap keeps the map sound: the block it returns is non-zero and now
      mapped at bn, no other address changes, no other field of the inode
      changes, and the file reads the same bytes as before. */
  lemma BmapKeeps(d: Disk, sb: Superblock, ip: Inode, bn: nat)
    requires MapOk(d, sb, ip)
    ensures var (o, a, d1, ip1) := Bmap(d, sb, ip, bn);
      o == Done ==>
        MapOk(d1, sb, ip1) && a != 0 && Addr(d1, ip1, bn) == a
        && ip1 == ip.(addrs := ip1.addrs)
        && (forall b: nat :: b != bn ==> Addr(d1, ip1, b) == Addr(d, ip, b))
        && (forall k: nat :: FileByte(d1, ip1, k) == FileByte(d, ip, k))
  {
    hide Direct, IndBlock, Entry, MapOk, Addr, FileByte;
    if bn < NDIRECT {
      DirectKeeps(d, sb, ip, bn);
    } else if bn < MAXFILE {
      IndBlockKeeps(d, sb, ip);
      var (o, d1, ip1) := IndBlock(d, sb, ip);
      if o == Done {
        EntryKeeps(d1, sb, ip1, bn - NDIRECT);
      }
    }
  }

  // ----- itrunc -----

  /** itrunc's first loop from entry i on: bfree every non-zero direct
      address and clear it. */
  function FreeDirect(d: Disk, sb: Superblock, dev: nat, addrs: Addrs, i: nat): (Outcome, Disk, Addrs)
    requires i <= NDIRECT
    decreases NDIRECT - i
  {
    if i == NDIRECT then (Done, d, addrs)
    else if addrs[i] == 0 then FreeDirect(d, sb, dev, addrs, i + 1)
    else
      var (o, d1) := Bfree(d, sb, dev, addrs[i]);
      if o.Panic? then (o, d1, addrs) else FreeDirect(d1, sb, dev, addrs[i := 0], i + 1)
  }

  /** itrunc's second loop from entry j on, over the indirect block as it
      was read before the loop: bfree every non-zero entry. */
  function FreeIndirect(d: Disk, sb: Superblock, dev: nat, blk: Block, j: nat): (Outcome, Disk)
    requires j <= NINDIRECT
    decreases NINDIRECT - j
  {
    if j == NINDIRECT then (Done, d)
    else if IndEntry(blk, j) == 0 then FreeIndirect(d, sb, dev, blk, j + 1)
    else
      var (o, d1) := Bfree(d, sb, dev, IndEntry(blk, j));
      if o.Panic? then (o, d1) else FreeIndirect(d1, sb, dev, blk, j + 1)
  }

  /** itrunc(ip): frees every direct block, every block the indirect block
      names and the indirect block itself, clears the addresses, sets the
      size to 0 and writes the inode back (iupdate). */
  function Itrunc(st: Storage, sb: Superblock, ip: Inode): (Outcome, Storage, Inode) {
    var (o, d1, addrs1) := FreeDirect(st.disk, sb, ip.dev, ip.addrs, 0);
    if o.Panic? then (o, st.(disk := d1), ip.(addrs := addrs1))
    else if addrs1[NDIRECT] == 0 then ItruncEnd(st.(disk := d1), ip.(addrs := addrs1))
    else
      var ind := addrs1[NDIRECT];
      var (o2, d2) := FreeIndirect(d1, sb, ip.dev, Blk(d1, ip.dev, ind), 0);
      if o2.Panic? then (o2, st.(disk := d2), ip.(addrs := addrs1))
      else
        var (o3, d3) := Bfree(d2, sb, ip.dev, ind);
        if o3.Panic? then (o3, st.(disk := d3), ip.(addrs := addrs1))
        else ItruncEnd(st.(disk := d3), ip.(addrs := addrs1[NDIRECT := 0]))
  }

  /** The end of itrunc: size 0 and iupdate. */
  function ItruncEnd(st: Storage, ip: Inode): (Outcome, Storage, Inode) {
    var ip1 := ip.(size := 0);
    (Done, Iupdate(st, ip1), ip1)
  }

  /** A bfree of an owned data block keeps the bits of the other blocks
      and every block but the bitmap blocks. */
  lemma BfreeData(d: Disk, sb: Superblock, dev: nat, a: nat)
    requires a < sb.size && Used(d, sb, dev, a)
    ensures var (o, d1) := Bfree(d, sb, dev, a);
      o == Done && !Used(d1, sb, dev, a)
      && (forall y: nat :: y != a ==> Used(d1, sb, dev, y) == Used(d, sb, dev, y))
      && (forall b: nat :: !Meta(sb, b) ==> Blk(d1, dev, b) == Blk(d, dev, b))
  {
    BfreeMeaning(d, sb, dev, a);
    BBlockMeta(sb, a);
  }

  /** The first loop of itrunc, on distinct blocks in use, frees each of
      them, clears the entries from i on, keeps every other block's bit and
      writes no block but bitmap blocks. */
  lemma {:induction false} FreeDirectMeaning(d: Disk, sb: Superblock, dev: nat, addrs: Addrs, i: nat)
    requires i <= NDIRECT
    requires forall k :: i <= k < NDIRECT && addrs[k] != 0 ==> addrs[k] < sb.size && Used(d, sb, dev, addrs[k])
    requires forall k, k2 :: i <= k < k2 < NDIRECT && addrs[k] != 0 ==> addrs[k] != addrs[k2]
    ensures var (o, d1, addrs1) := FreeDirect(d, sb, dev, addrs, i);
      o == Done
      && (forall k :: 0 <= k < NDIRECT + 1 ==> addrs1[k] == if i <= k < NDIRECT then 0 else addrs[k])
      && (forall k :: i <= k < NDIRECT && addrs[k] != 0 ==> !Used(d1, sb, dev, addrs[k]))
      && (forall y: nat :: (forall k :: i <= k < NDIRECT && addrs[k] != 0 ==> addrs[k] != y) ==>
            Used(d1, sb, dev, y) == Used(d, sb, dev, y))
      && (forall b: nat :: !Meta(sb, b) ==> Blk(d1, dev, b) == Blk(d, dev, b))
    decreases NDIRECT - i
  {
    hide Used, Blk, Bfree;
    if i < NDIRECT {
      if addrs[i] == 0 {
        FreeDirectMeaning(d, sb, dev, addrs, i + 1);
      } else {
        var a := addrs[i];
        BfreeData(d, sb, dev, a);
        var d1 := Bfree(d, sb, dev, a).1;
        var addrs1 := addrs[i := 0];
        FreeDirectMeaning(d1, sb, dev, addrs1, i + 1);
        var r := FreeDirect(d1, sb, dev, addrs1, i + 1);
        assert FreeDirect(d, sb, dev, addrs, i) == r;
        forall k | 0 <= k < NDIRECT + 1
          ensures r.2[k] == if i <= k < NDIRECT then 0 else addrs[k]
        {
        }
        forall k | i <= k < NDIRECT && addrs[k] != 0
          ensures !Used(r.1, sb, dev, addrs[k])
        {
          if k == i {
            assert forall k2 :: i + 1 <= k2 < NDIRECT && addrs1[k2] != 0 ==> addrs1[k2] != a;
          } else {
            assert addrs1[k] == addrs[k];
          }
        }
        forall y: nat | forall k :: i <= k < NDIRECT && addrs[k] != 0 ==> addrs[k] != y
          ensures Used(r.1, sb, dev, y) == Used(d, sb, dev, y)
        {
          assert forall k :: i + 1 <= k < NDIRECT && addrs1[k] != 0 ==> addrs1[k] != y;
        }
      }
    }
  }

  /** The second loop of itrunc, on distinct blocks in use, frees each
      block the indirect block names from entry j on, keeps every other
      block's bit and writes no block but bitmap blocks. */
  lemma {:induction false} FreeIndirectMeaning(d: Disk, sb: Superblock, dev: nat, blk: Block, j: nat)
    requires j <= NINDIRECT
    requires forall k :: j <= k < NINDIRECT && IndEntry(blk, k) != 0 ==>
      IndEntry(blk, k) < sb.size && Used(d, sb, dev, IndEntry(blk, k))
    requires forall k, k2 :: j <= k < k2 < NINDIRECT && IndEntry(blk, k) != 0 ==> IndEntry(blk, k) != IndEntry(blk, k2)
    ensures var (o, d1) := FreeIndirect(d, sb, dev, blk, j);
      o == Done
      && (forall k :: j <= k < NINDIRECT && IndEntry(blk, k) != 0 ==> !Used(d1, sb, dev, IndEntry(blk, k)))
      && (forall y: nat :: (forall k :: j <= k < NINDIRECT && IndEntry(blk, k) != 0 ==> IndEntry(blk, k) != y) ==>
            Used(d1, sb, dev, y) == Used(d, sb, dev, y))
      && (forall b: nat :: !Meta(sb, b) ==> Blk(d1, dev, b) == Blk(d, dev, b))
    decreases NINDIRECT - j
  {
    hide Used, Blk, Bfree, IndEntry;
    if j < NINDIRECT {
      if IndEntry(blk, j) == 0 {
        FreeIndirectMeaning(d, sb, dev, blk, j + 1);
      } else {
        var a := IndEntry(blk, j);
        BfreeData(d, sb, dev, a);
        var d1 := Bfree(d, sb, dev, a).1;
        FreeIndirectMeaning(d1, sb, dev, blk, j + 1);
        var r := FreeIndirect(d1, sb, dev, blk, j + 1);
        assert FreeIndirect(d, sb, dev, blk, j) == r;
        forall k | j <= k < NINDIRECT && IndEntry(blk, k) != 0
          ensures !Used(r.1, sb, dev, IndEntry(blk, k))
        {
        }
      }
    }
  }

  /** Block y is one the map of ip names: a data block or the indirect block. */
  ghost predicate Names(d: Disk, ip: Inode, y: nat) {
    y != 0 && (y == ip.addrs[NDIRECT] as nat || exists bn: nat :: bn < MAXFILE && Addr(d, ip, bn) as nat == y)
  }

  /** The first loop of itrunc on a sound map frees the direct blocks. */
  lemma ItruncDirect(d: Disk, sb: Superblock, ip: Inode)
    requires MapOk(d, sb, ip)
    ensures var (o, d1, addrs1) := FreeDirect(d, sb, ip.dev, ip.addrs, 0);
      o == Done
      && (forall k :: 0 <= k < NDIRECT + 1 ==> addrs1[k] == if k < NDIRECT then 0 else ip.addrs[k])
      && (forall bn: nat :: bn < NDIRECT && Addr(d, ip, bn) != 0 ==> !Used(d1, sb, ip.dev, Addr(d, ip, bn)))
      && (forall y: nat :: (forall bn: nat :: bn < NDIRECT && Addr(d, ip, bn) != 0 ==> Addr(d, ip, bn) != y) ==>
            Used(d1, sb, ip.dev, y) == Used(d, sb, ip.dev, y))
      && (forall b: nat :: !Meta(sb, b) ==> Blk(d1, ip.dev, b) == Blk(d, ip.dev, b))
  {
    var dev := ip.dev;
    forall k | 0 <= k < NDIRECT && ip.addrs[k] != 0
      ensures ip.addrs[k] < sb.size && Used(d, sb, dev, ip.addrs[k])
    {
      assert Addr(d, ip, k) == ip.addrs[k];
    }
    forall k, k2 | 0 <= k < k2 < NDIRECT && ip.addrs[k] != 0
      ensures ip.addrs[k] != ip.addrs[k2]
    {
      assert Addr(d, ip, k) == ip.addrs[k] && Addr(d, ip, k2) == ip.addrs[k2];
    }
    FreeDirectMeaning(d, sb, dev, ip.addrs, 0);
    var d1 := FreeDirect(d, sb, dev, ip.addrs, 0).1;
    hide Used, FreeDirect;
    forall y: nat | forall bn: nat :: bn < NDIRECT && Addr(d, ip, bn) != 0 ==> Addr(d, ip, bn) != y
      ensures Used(d1, sb, dev, y) == Used(d, sb, dev, y)
    {
      forall k | 0 <= k < NDIRECT && ip.addrs[k] != 0
        ensures ip.addrs[k] != y
      {
        assert Addr(d, ip, k) == ip.addrs[k];
      }
    }
  }

  /** The second loop of itrunc, after the first, frees the blocks the
      indirect block names. */
  lemma ItruncIndirect(d: Disk, d1: Disk, sb: Superblock, ip: Inode)
    requires MapOk(d, sb, ip) && ip.addrs[NDIRECT] != 0
    requires forall y: nat :: (forall bn: nat :: bn < NDIRECT && Addr(d, ip, bn) != 0 ==> Addr(d, ip, bn) != y) ==>
      Used(d1, sb, ip.dev, y) == Used(d, sb, ip.dev, y)
    requires forall b: nat :: !Meta(sb, b) ==> Blk(d1, ip.dev, b) == Blk(d, ip.dev, b)
    ensures var (o, d2) := FreeIndirect(d1, sb, ip.dev, Blk(d1, ip.dev, ip.addrs[NDIRECT]), 0);
      o == Done
      && (forall bn: nat :: NDIRECT <= bn < MAXFILE && Addr(d, ip, bn) != 0 ==> !Used(d2, sb, ip.dev, Addr(d, ip, bn)))
      && (forall y: nat :: (forall bn: nat :: NDIRECT <= bn < MAXFILE && Addr(d, ip, bn) != 0 ==> Addr(d, ip, bn) != y) ==>
            Used(d2, sb, ip.dev, y) == Used(d1, sb, ip.dev, y))
      && (forall b: nat :: !Meta(sb, b) ==> Blk(d2, ip.dev, b) == Blk(d, ip.dev, b))
  {
    var dev, ind := ip.dev, ip.addrs[NDIRECT];
    var blk := Blk(d1, dev, ind);
    assert blk == Blk(d, dev, ind);
    assert forall k :: 0 <= k < NINDIRECT ==> IndEntry(blk, k) == Addr(d, ip, NDIRECT + k);
    hide Addr, Blk, FreeIndirect, IndEntry;
    forall k | 0 <= k < NINDIRECT && IndEntry(blk, k) != 0
      ensures IndEntry(blk, k) < sb.size && Used(d1, sb, dev, IndEntry(blk, k))
    {
      var e := Addr(d, ip, NDIRECT + k);
      forall bn: nat | bn < NDIRECT && Addr(d, ip, bn) != 0
        ensures Addr(d, ip, bn) != e
      {
      }
    }
    forall k, k2 | 0 <= k < k2 < NINDIRECT && IndEntry(blk, k) != 0
      ensures IndEntry(blk, k) != IndEntry(blk, k2)
    {
      assert Addr(d, ip, NDIRECT + k) != Addr(d, ip, NDIRECT + k2);
    }
    FreeIndirectMeaning(d1, sb, dev, blk, 0);
    var d2 := FreeIndirect(d1, sb, dev, blk, 0).1;
    forall y: nat | forall bn: nat :: NDIRECT <= bn < MAXFILE && Addr(d, ip, bn) != 0 ==> Addr(d, ip, bn) != y
      ensures Used(d2, sb, dev, y) == Used(d1, sb, dev, y)
    {
      forall k | 0 <= k < NINDIRECT && IndEntry(blk, k) != 0
        ensures IndEntry(blk, k) != y
      {
        assert Addr(d, ip, NDIRECT + k) != y;
      }
    }
    forall bn: nat | NDIRECT <= bn < MAXFILE && Addr(d, ip, bn) != 0
      ensures !Used(d2, sb, dev, Addr(d, ip, bn))
    {
      assert IndEntry(blk, bn - NDIRECT) == Addr(d, ip, bn);
    }
  }

  /** iupdate writes no block but the inode's own Unix V5 sector, and so
      moves no bit when that sector is no bitmap block. */
  lemma IupdateFrame(st: Storage, sb: Superblock, ip: Inode)
    requires 2 <= ip.dev < 4 ==> !Meta(sb, UIBlock(ip.inum))
    ensures forall b: nat :: !(2 <= ip.dev < 4 && b == UIBlock(ip.inum)) ==>
      Blk(Iupdate(st, ip).disk, ip.dev, b) == Blk(st.disk, ip.dev, b)
    ensures forall y: nat :: y < sb.size ==> Used(Iupdate(st, ip).disk, sb, ip.dev, y) == Used(st.disk, sb, ip.dev, y)
  {
    if 2 <= ip.dev < 4 {
      DataWriteUsed(st.disk, Iupdate(st, ip).disk, sb, ip.dev, UIBlock(ip.inum));
    }
  }

  /** The bits after both loops of itrunc and the bfree of the indirect
      block: the blocks the map names are free, every other bit stays. */
  lemma ItruncBits(d: Disk, d1: Disk, d2: Disk, d3: Disk, sb: Superblock, ip: Inode)
    requires MapOk(d, sb, ip)
    requires forall bn: nat :: bn < NDIRECT && Addr(d, ip, bn) != 0 ==> !Used(d1, sb, ip.dev, Addr(d, ip, bn))
    requires forall y: nat :: (forall bn: nat :: bn < NDIRECT && Addr(d, ip, bn) != 0 ==> Addr(d, ip, bn) != y) ==>
      Used(d1, sb, ip.dev, y) == Used(d, sb, ip.dev, y)
    requires forall bn: nat :: NDIRECT <= bn < MAXFILE && Addr(d, ip, bn) != 0 ==> !Used(d2, sb, ip.dev, Addr(d, ip, bn))
    requires forall y: nat :: (forall bn: nat :: NDIRECT <= bn < MAXFILE && Addr(d, ip, bn) != 0 ==> Addr(d, ip, bn) != y) ==>
      Used(d2, sb, ip.dev, y) == Used(d1, sb, ip.dev, y)
    requires ip.addrs[NDIRECT] != 0 ==> !Used(d3, sb, ip.dev, ip.addrs[NDIRECT])
    requires forall y: nat :: ip.addrs[NDIRECT] == 0 || y != ip.addrs[NDIRECT] ==>
      Used(d3, sb, ip.dev, y) == Used(d2, sb, ip.dev, y)
    ensures forall y: nat :: y < sb.size ==> Used(d3, sb, ip.dev, y) == (Used(d, sb, ip.dev, y) && !Names(d, ip, y))
  {
    hide Used, Addr;
    var ind := ip.addrs[NDIRECT];
    forall y: nat | y < sb.size
      ensures Used(d3, sb, ip.dev, y) == (Used(d, sb, ip.dev, y) && !Names(d, ip, y))
    {
      if Names(d, ip, y) {
        if y != ind {
          var bn: nat :| bn < MAXFILE && Addr(d, ip, bn) as nat == y;
          if bn < NDIRECT {
            assert Addr(d, ip, bn) != 0;
            forall bn2: nat | NDIRECT <= bn2 < MAXFILE && Addr(d, ip, bn2) != 0
              ensures Addr(d, ip, bn2) != y
            {
            }
          }
        }
      } else {
        forall bn: nat | bn < MAXFILE && Addr(d, ip, bn) != 0
          ensures Addr(d, ip, bn) != y
        {
        }
      }
    }
  }

  /** itrunc on a sound map never panics: it frees exactly the blocks the
      map names and leaves every other bit, clears every address and the
      size, and writes no block of the device but bitmap blocks and the
      inode's own Unix V5 sector. */
  lemma ItruncMeaning(st: Storage, sb: Superblock, ip: Inode)
    requires MapOk(st.disk, sb, ip)
    ensures var (o, st1, ip1) := Itrunc(st, sb, ip);
      o == Done && ip1 == ip.(addrs := NoAddrs(), size := 0)
      && (forall y: nat :: y < sb.size ==>
            Used(st1.disk, sb, ip.dev, y) == (Used(st.disk, sb, ip.dev, y) && !Names(st.disk, ip, y)))
      && (forall b: nat :: !Meta(sb, b) && !(2 <= ip.dev < 4 && b == UIBlock(ip.inum)) ==>
            Blk(st1.disk, ip.dev, b) == Blk(st.disk, ip.dev, b))
  {
    var d, dev, ind := st.disk, ip.dev, ip.addrs[NDIRECT];
    ItruncDirect(d, sb, ip);
    var (o1, d1, addrs1) := FreeDirect(d, sb, dev, ip.addrs, 0);
    hide FreeDirect, FreeIndirect, Bfree, MapOk;
    var d3, addrs3;
    if ind == 0 {
      d3, addrs3 := d1, addrs1;
      ItruncBits(d, d1, d1, d1, sb, ip);
    } else {
      ItruncIndirect(d, d1, sb, ip);
      var (o2, d2) := FreeIndirect(d1, sb, dev, Blk(d1, dev, ind), 0);
      assert Used(d2, sb, dev, ind) by {
        assert Used(d, sb, dev, ind);
        assert forall bn: nat :: bn < MAXFILE && Addr(d, ip, bn) != 0 ==> Addr(d, ip, bn) != ind;
      }
      BfreeData(d2, sb, dev, ind);
      d3, addrs3 := Bfree(d2, sb, dev, ind).1, addrs1[NDIRECT := 0];
      ItruncBits(d, d1, d2, d3, sb, ip);
    }
    assert addrs3 == NoAddrs();
    assert Itrunc(st, sb, ip) == ItruncEnd(st.(disk := d3), ip.(addrs := addrs3));
    IupdateFrame(st.(disk := d3), sb, ip.(addrs := addrs3, size := 0));
  }
}
