// Directories (kernel/fs.c namecmp, dirlookup, dirlink): a directory's data
// is a sequence of 16-byte entries read and written with readi and writei.
module FsDir {
  import opened Param
  import opened Wrappers
  import opened Bytes
  import opened CStrings
  import opened Ufs
  import Dirent
  import opened FsBitmap
  import opened FsInode
  import opened FsBmap
  import opened FsIo
  import opened FsCache

  const DS: nat := Dirent.DIRENT_SIZE

  /** namecmp(s, t) == 0: the two names agree up to DIRSIZ bytes. */
  function Namecmp(s: seq<byte>, t: seq<byte>): (eq: bool)
    ensures eq <==> CStr(Take(s, DIRSIZ)) == CStr(Take(t, DIRSIZ))
  {
    StrnEqualMeaning(s, t, DIRSIZ);
    StrnEqual(s, t, DIRSIZ)
  }

  /** strncpy(dst, s, n): the C string in s, cut to n bytes, padded with NULs
      to exactly n bytes. */
  function Strncpy(s: seq<byte>, n: nat): (r: seq<byte>)
    ensures |r| == n
  {
    var c := Take(CStr(s), n);
    c + Zeros(n - |c|)
  }

  /** The kernel's directory test: type T_DIR, or the Unix V5 directory bit. */
  predicate IsDir(ip: Inode) {
    ip.itype == T_DIR || PassesDirTest(ip.itype)
  }

  // ----- the directory as the file's bytes -----

  function FileBytes(d: Disk, ip: Inode, off: nat, n: nat): (s: seq<byte>)
    ensures |s| == n
  {
    seq<byte>(n, i requires 0 <= i < n => FileByte(d, ip, off + i))
  }

  /** The entry stored at byte off of the directory's data. */
  function EntryAt(d: Disk, ip: Inode, off: nat): Dirent.Dirent {
    Dirent.Decode(FileBytes(d, ip, off, DS), 0)
  }

  /** What a scan looks for: the entry for a name (a used entry whose name
      matches), or a free entry (inode number 0). */
  predicate Wanted(de: Dirent.Dirent, want: Option<seq<byte>>) {
    match want
    case None => de.inum == 0
    case Some(name) => de.inum != 0 && Namecmp(name, de.name)
  }

  /** Where a scan stopped: at the first wanted entry (its inode number and
      offset), at the end offset, or at a directory whose reads take the
      large-file path, which is not part of this model. */
  datatype Lookup = Found(inum: u16, off: nat) | Absent(end: nat) | LargeDir

  /** The loop of dirlookup (want = the name) and of dirlink's search for a
      free entry (want = None): readi one entry at a time from off; a read
      that does not return a whole entry panics with msg. */
  function Scan(d: Disk, sb: Superblock, dp: Inode, want: Option<seq<byte>>, msg: string, off: nat)
    : (r: (Outcome, Lookup, Disk, Inode))
    ensures off < UINT_MOD && r.1.Absent? ==> r.1.end < UINT_MOD
    ensures r.1.Found? ==> r.1.off < UINT_MOD
    decreases UINT_MOD - off
  {
    if off >= dp.size then (Done, Absent(off), d, dp)
    else
      var (o, cnt, data, d1, dp1) := Readi(d, sb, dp, off, DS);
      if o.Panic? then (o, Absent(off), d1, dp1)
      else if cnt == LargeFile then (Done, LargeDir, d1, dp1)
      else if cnt != Bytes(DS) then (Panic(msg), Absent(off), d1, dp1)
      else
        ReadiBytes(d, sb, dp, off, DS);
        var de := Dirent.Decode(data, 0);
        if Wanted(de, want) then (Done, Found(de.inum, off), d1, dp1)
        else Scan(d1, sb, dp1, want, msg, off + DS)
  }

  /** A whole read returns as many bytes as it counts and did not wrap. */
  lemma ReadiBytes(d: Disk, sb: Superblock, ip: Inode, off: uint32, n: uint32)
    ensures var (o, c, data, _, _) := Readi(d, sb, ip, off, n);
      o == Done && c.Bytes? ==> |data| == c.n && off + n < UINT_MOD
  {
    if ip.itype != T_DEV && off <= ip.size && off + n < UINT_MOD && !IsLarge(ip.itype) {
      var n1 := if off + n > ip.size then ip.size - off else n;
      ReadLoopLength(d, sb, ip, off, n1);
    }
  }

  lemma {:induction false} ReadLoopLength(d: Disk, sb: Superblock, ip: Inode, off: nat, n: nat)
    ensures var (o, data, _, _) := ReadLoop(d, sb, ip, off, n);
      o == Done ==> |data| == n
    decreases n
  {
    hide Bmap, ReadLoop;
    if n == 0 {
      ReadLoopZero(d, sb, ip, off);
    } else if Bmap(d, sb, ip, off / BSIZE).0.Panic? {
      ReadLoopFails(d, sb, ip, off, n);
    } else {
      var (_, _, d1, ip1) := Bmap(d, sb, ip, off / BSIZE);
      ReadLoopStep(d, sb, ip, off, n);
      ReadLoopLength(d1, sb, ip1, off + Chunk(off, n), n - Chunk(off, n));
    }
  }

  /** One step of a scan. */
  lemma ScanUnfold(d: Disk, sb: Superblock, dp: Inode, want: Option<seq<byte>>, msg: string, off: nat)
    requires off < dp.size
    ensures var (o, cnt, data, d1, dp1) := Readi(d, sb, dp, off, DS);
      Scan(d, sb, dp, want, msg, off) ==
        if o.Panic? then (o, Absent(off), d1, dp1)
        else if cnt == LargeFile then (Done, LargeDir, d1, dp1)
        else if cnt != Bytes(DS) || |data| != DS then (Panic(msg), Absent(off), d1, dp1)
        else if Wanted(Dirent.Decode(data, 0), want) then (Done, Found(Dirent.Decode(data, 0).inum, off), d1, dp1)
        else Scan(d1, sb, dp1, want, msg, off + DS)
  {
    ReadiBytes(d, sb, dp, off, DS);
  }

  /** A scan from the end of the directory finds nothing. */
  lemma ScanEnd(d: Disk, sb: Superblock, dp: Inode, want: Option<seq<byte>>, msg: string, off: nat)
    ensures off >= dp.size ==> Scan(d, sb, dp, want, msg, off) == (Done, Absent(off), d, dp)
  {
  }

  /** readi of the entry at off < size on a sound map: when it ends without
      panic it takes the large-file path exactly on a large file, and
      otherwise reads the whole entry, which lies inside the file, and
      keeps the map and the bytes; over mapped blocks of a plain file with
      the entry inside it, it reads it and changes nothing. */
  lemma ReadEntry(d: Disk, sb: Superblock, dp: Inode, off: nat)
    requires MapOk(d, sb, dp) && dp.size <= MAXFILE * BSIZE && off < dp.size
    ensures var (o, cnt, data, d1, dp1) := Readi(d, sb, dp, off, DS);
      (o == Done ==> (cnt == LargeFile <==> IsLarge(dp.itype) && dp.itype != T_DEV))
      && (o == Done && cnt == LargeFile ==> d1 == d && dp1 == dp)
      && (o == Done && cnt == Bytes(DS) ==>
            off + DS <= dp.size && data == FileBytes(d, dp, off, DS) && Dirent.Decode(data, 0) == EntryAt(d, dp, off)
            && MapOk(d1, sb, dp1) && dp1 == dp.(addrs := dp1.addrs)
            && forall k: nat :: FileByte(d1, dp1, k) == FileByte(d, dp, k))
      && (dp.itype != T_DEV && !IsLarge(dp.itype) && off + DS <= dp.size && Mapped(d, dp, off, DS) ==>
            o == Done && cnt == Bytes(DS) && d1 == d && dp1 == dp)
  {
    hide ReadLoop, MapOk, FileByte;
    ReadiMeaning(d, sb, dp, off, DS);
    ReadiBytes(d, sb, dp, off, DS);
  }

  /** Whole entries from 0: the entry after one that starts inside a file
      of whole entries lies inside it too. */
  lemma NextEntry(off: nat, size: nat)
    requires off % DS == 0 && size % DS == 0 && off < size
    ensures off + DS <= size
  {
    DivMod(off, DS, off / DS, 0);
    DivMod(size, DS, size / DS, 0);
    assert off / DS < size / DS;
  }

  /** Equal file bytes give equal entries. */
  lemma EntrySame(d: Disk, ip: Inode, d1: Disk, ip1: Inode)
    requires forall k: nat :: FileByte(d1, ip1, k) == FileByte(d, ip, k)
    ensures forall j: nat :: EntryAt(d1, ip1, j) == EntryAt(d, ip, j)
  {
    forall j: nat
      ensures EntryAt(d1, ip1, j) == EntryAt(d, ip, j)
    {
      assert FileBytes(d1, ip1, j, DS) == FileBytes(d, ip, j, DS);
    }
  }

  /** A scan on a sound map within MAXFILE blocks that ends without panic
      stops at the first wanted entry from off on, or reaches the end of a
      directory of whole entries none of which is wanted, or (exactly when a
      read is due on a large directory) at the large-file path; it keeps
      the map sound and the directory's bytes. */
  lemma {:induction false} ScanMeaning(d: Disk, sb: Superblock, dp: Inode, want: Option<seq<byte>>, msg: string,
                                       off: nat, r: Lookup, d2: Disk, dp2: Inode)
    requires MapOk(d, sb, dp) && dp.size <= MAXFILE * BSIZE && off % DS == 0
    requires Scan(d, sb, dp, want, msg, off) == (Done, r, d2, dp2)
    ensures MapOk(d2, sb, dp2) && dp2 == dp.(addrs := dp2.addrs)
    ensures forall k: nat :: FileByte(d2, dp2, k) == FileByte(d, dp, k)
    ensures r == LargeDir <==> IsLarge(dp.itype) && off < dp.size
    ensures r.Found? ==>
      off <= r.off && r.off % DS == 0 && r.off + DS <= dp.size
      && Wanted(EntryAt(d, dp, r.off), want) && r.inum == EntryAt(d, dp, r.off).inum
      && forall j: nat :: off <= j < r.off && j % DS == 0 ==> !Wanted(EntryAt(d, dp, j), want)
    ensures r.Absent? ==>
      r.end == (if off < dp.size then dp.size else off) && r.end % DS == 0
      && forall j: nat :: off <= j < dp.size && j % DS == 0 ==> !Wanted(EntryAt(d, dp, j), want)
    decreases UINT_MOD - off
  {
    hide Readi, Scan, MapOk, FileByte, EntryAt, Wanted, Dirent.Decode, FileBytes;
    ScanEnd(d, sb, dp, want, msg, off);
    if off < dp.size {
      ReadEntry(d, sb, dp, off);
      ScanUnfold(d, sb, dp, want, msg, off);
      var (o, cnt, data, d1, dp1) := Readi(d, sb, dp, off, DS);
      if cnt == Bytes(DS) && !Wanted(EntryAt(d, dp, off), want) {
        ScanMeaning(d1, sb, dp1, want, msg, off + DS, r, d2, dp2);
        EntrySame(d, dp, d1, dp1);
        assert dp1.size == dp.size && off + DS <= dp.size;
      }
    }
  }

  /** Over a directory of whole entries whose blocks are all mapped, a
      scan of a small file ends without panic and changes nothing. */
  lemma {:induction false} ScanMapped(d: Disk, sb: Superblock, dp: Inode, want: Option<seq<byte>>, msg: string, off: nat)
    requires MapOk(d, sb, dp) && dp.size <= MAXFILE * BSIZE && off % DS == 0 && dp.size % DS == 0
    requires dp.itype != T_DEV && !IsLarge(dp.itype)
    requires off <= dp.size ==> Mapped(d, dp, off, dp.size - off)
    ensures var (o, _, d2, dp2) := Scan(d, sb, dp, want, msg, off);
      o == Done && d2 == d && dp2 == dp
    decreases UINT_MOD - off
  {
    hide Readi, Scan, MapOk, FileByte;
    ScanEnd(d, sb, dp, want, msg, off);
    if off < dp.size {
      ReadEntry(d, sb, dp, off);
      ScanUnfold(d, sb, dp, want, msg, off);
      NextEntry(off, dp.size);
      assert Mapped(d, dp, off, DS);
      ScanMapped(d, sb, dp, want, msg, off + DS);
    }
  }

  /** dirlookup(dp, name): a directory is scanned for the name; an entry
      found is igot (its dinode is not read). */
  function Dirlookup(st: Storage, sb: Superblock, c: seq<Inode>, kd: nat, name: seq<byte>)
    : (Outcome, Lookup, nat, Storage, seq<Inode>)
    requires kd < |c|
  {
    var dp := c[kd];
    if !IsDir(dp) then (Panic("dirlookup not DIR"), Absent(0), 0, st, c)
    else
      var (o, r, d1, dp1) := Scan(st.disk, sb, dp, Some(name), "dirlookup read", 0);
      var st1, c1 := st.(disk := d1), c[kd := dp1];
      if o.Panic? || !r.Found? then (o, r, 0, st1, c1)
      else
        var (o2, k, c2) := Iget(c1, dp.dev, r.inum);
        (o2, r, k, st1, c2)
  }

  /** dirlookup on a sound directory: a file that is not a directory
      panics; otherwise, when it ends without panic, the entry it finds is
      the first used entry whose name matches, and the slot it returns holds
      that inode of the directory's device with a reference; with no such
      entry it finds nothing. The directory's bytes are kept. */
  lemma DirlookupMeaning(st: Storage, sb: Superblock, c: seq<Inode>, kd: nat, name: seq<byte>,
                         r: Lookup, k: nat, st1: Storage, c1: seq<Inode>)
    requires kd < |c| && MapOk(st.disk, sb, c[kd]) && c[kd].size <= MAXFILE * BSIZE
    requires Dirlookup(st, sb, c, kd, name) == (Done, r, k, st1, c1)
    ensures IsDir(c[kd]) && kd < |c1|
    ensures r == LargeDir <==> IsLarge(c[kd].itype) && 0 < c[kd].size
    ensures r.Found? ==>
      r.off % DS == 0 && r.off + DS <= c[kd].size
      && EntryAt(st.disk, c[kd], r.off).inum == r.inum != 0
      && Namecmp(name, EntryAt(st.disk, c[kd], r.off).name)
      && (forall j: nat :: j < r.off && j % DS == 0 ==> !Wanted(EntryAt(st.disk, c[kd], j), Some(name)))
      && k < |c1| && c1[k].dev == c[kd].dev && c1[k].inum == r.inum && c1[k].ref >= 1
    ensures r.Absent? ==> forall j: nat :: j < c[kd].size && j % DS == 0 ==> !Wanted(EntryAt(st.disk, c[kd], j), Some(name))
  {
    var dp := c[kd];
    var (o, r0, d1, dp1) := Scan(st.disk, sb, dp, Some(name), "dirlookup read", 0);
    hide Scan, MapOk, FileByte;
    if IsDir(dp) && o == Done {
      ScanMeaning(st.disk, sb, dp, Some(name), "dirlookup read", 0, r0, d1, dp1);
      if r0.Found? {
        IgetMeaning(c[kd := dp1], dp.dev, r0.inum);
      }
    }
  }

  /** dirlookup changes no slot but the directory's and the one it igets,
      which is a slot of the cache. */
  lemma DirlookupShape(st: Storage, sb: Superblock, c: seq<Inode>, kd: nat, name: seq<byte>)
    requires kd < |c|
    ensures var (o, r, k, st1, c1) := Dirlookup(st, sb, c, kd, name);
      var s := Scan(st.disk, sb, c[kd], Some(name), "dirlookup read", 0);
      |c1| == |c| && (o == Done && r.Found? ==> k < |c1|)
      && (o == Done && !r.Found? ==> IsDir(c[kd]) && s.0 == Done && r == s.1 && st1 == st.(disk := s.2) && c1 == c[kd := s.3])
  {
    var dp := c[kd];
    if IsDir(dp) {
      var (o, r, d1, dp1) := Scan(st.disk, sb, dp, Some(name), "dirlookup read", 0);
      if o == Done && r.Found? {
        IgetMeaning(c[kd := dp1], dp.dev, r.inum);
      }
    }
  }

  /** A scan, and the read under it, change no field of the directory's
      inode but its addresses. */
  lemma {:induction false} ScanInode(d: Disk, sb: Superblock, dp: Inode, want: Option<seq<byte>>, msg: string, off: nat)
    ensures var dp1 := Scan(d, sb, dp, want, msg, off).3;
      dp1 == dp.(addrs := dp1.addrs)
    decreases UINT_MOD - off
  {
    hide Scan, ReadLoop;
    if off >= dp.size {
      ScanEnd(d, sb, dp, want, msg, off);
    } else {
      ScanUnfold(d, sb, dp, want, msg, off);
      var (o, cnt, data, d1, dp1) := Readi(d, sb, dp, off, DS);
      ReadLoopInode(d, sb, dp, off, if off + DS > dp.size then dp.size - off else DS);
      if o == Done && cnt == Bytes(DS) && |data| == DS && !Wanted(Dirent.Decode(data, 0), want) {
        ScanInode(d1, sb, dp1, want, msg, off + DS);
      }
    }
  }

  /** dirlookup on a directory whose reference is held, unless it panics,
      takes one reference when it finds the entry (on the slot it returns,
      which is the directory's own for an entry naming the directory) and
      none otherwise. */
  lemma DirlookupRefs(st: Storage, sb: Superblock, c: seq<Inode>, kd: nat, name: seq<byte>,
                       r: Lookup, k: nat, st1: Storage, c1: seq<Inode>)
    requires kd < |c| && c[kd].ref >= 1 && Dirlookup(st, sb, c, kd, name) == (Done, r, k, st1, c1)
    ensures |c1| == |c| && c1[kd].dev == c[kd].dev && c1[kd].inum == c[kd].inum
    ensures c1[kd].ref == c[kd].ref + (if r.Found? && k == kd then 1 else 0)
    ensures Refs(c1) == Refs(c) + (if r.Found? then 1 else 0)
    ensures r.Found? ==> k < |c1| && c1[k].ref >= 1
  {
    hide Scan, Iget, Refs;
    var dp := c[kd];
    ScanInode(st.disk, sb, dp, Some(name), "dirlookup read", 0);
    var (o, r0, d1, dp1) := Scan(st.disk, sb, dp, Some(name), "dirlookup read", 0);
    var c0 := c[kd := dp1];
    RefsUpdate(c, kd, dp1);
    if r.Found? {
      IgetMeaning(c0, dp.dev, r0.inum);
      IgetRefs(c0, dp.dev, r0.inum, k, c1);
      if k == kd {
        assert LiveAt(c0, kd, dp.dev, r0.inum);
      } else {
        assert c1[kd] == dp1;
      }
    }
  }

  // ----- dirlink -----

  /** What dirlink returns: 0, -1 for a name already present, or a
      directory read through the large-file path, which is not part of this
      model. */
  datatype LinkResult = Linked | NameExists | NotModelled

  /** The offset dirlink writes at: the free entry found, or the end. */
  function SlotOff(r: Lookup): nat {
    match r
    case Found(_, off) => off
    case Absent(end) => end
    case LargeDir => 0
  }

  /** The entry dirlink writes: strncpy of the name into DIRSIZ bytes and
      the inode number cut to the 16 bits of the entry. */
  function NewEntry(name: seq<byte>, inum: uint32): (de: Dirent.Dirent)
    ensures Dirent.WellFormed(de)
  {
    Dirent.Dirent(inum % 0x1_0000, Strncpy(name, DIRSIZ))
  }

  /** dirlink(dp, name, inum): a name already present is iput and refused;
      otherwise the entry is written over the first free entry, or after
      the last one. */
  function Dirlink(st: Storage, sb: Superblock, c: seq<Inode>, kd: nat, name: seq<byte>, inum: uint32)
    : (Outcome, LinkResult, Storage, seq<Inode>)
    requires kd < |c|
  {
    var (o, r, k, st1, c1) := Dirlookup(st, sb, c, kd, name);
    DirlookupShape(st, sb, c, kd, name);
    if o.Panic? then (o, Linked, st1, c1)
    else if r.Found? then
      var (o2, st2, c2) := Iput(st1, sb, c1, k);
      (o2, NameExists, st2, c2)
    else if r == LargeDir then (Done, NotModelled, st1, c1)
    else DirAppend(st1, sb, c1, kd, name, inum)
  }

  /** The rest of dirlink once the name is known to be absent: find the
      slot, write the entry there. */
  function DirAppend(st: Storage, sb: Superblock, c: seq<Inode>, kd: nat, name: seq<byte>, inum: uint32)
    : (Outcome, LinkResult, Storage, seq<Inode>)
    requires kd < |c|
  {
    var (o, r, d1, dp1) := Scan(st.disk, sb, c[kd], None, "dirlink read", 0);
    var st1 := st.(disk := d1);
    if o.Panic? then (o, Linked, st1, c[kd := dp1])
    else if r == LargeDir then (Done, NotModelled, st1, c[kd := dp1])
    else
      var (o2, cnt, st2, dp2) := Writei(st1, sb, dp1, Dirent.Encode(NewEntry(name, inum)), SlotOff(r));
      var c2 := c[kd := dp2];
      if o2.Panic? then (o2, Linked, st2, c2)
      else if cnt != Bytes(DS) then (Panic("dirlink"), Linked, st2, c2)
      else (Done, Linked, st2, c2)
  }

  /** The bytes written at off, read back as an entry, are that entry. */
  lemma EntryWritten(d: Disk, ip: Inode, off: nat, de: Dirent.Dirent)
    requires Dirent.WellFormed(de)
    requires forall k: nat :: off <= k < off + DS ==> FileByte(d, ip, k) == Dirent.Encode(de)[k - off]
    ensures EntryAt(d, ip, off) == de
  {
    var s := FileBytes(d, ip, off, DS);
    assert s == Dirent.Encode(de);
    Dirent.DecodeEncode(de, s, 0);
  }

  /** An entry below off lies below it as a whole. */
  lemma EntryBelow(j: nat, off: nat)
    requires j % DS == 0 && off % DS == 0 && j < off
    ensures j + DS <= off
  {
    NextEntry(j, off);
  }

  /** The second half of dirlink on a sound directory: when it ends without
      panic it writes the new entry at the first free entry or, with none,
      at the end of the directory; every other byte of the directory is
      kept, the size grows to cover the entry, the map stays sound and no
      other slot changes. */
  lemma DirAppendMeaning(st: Storage, sb: Superblock, c: seq<Inode>, kd: nat, name: seq<byte>, inum: uint32,
                         st2: Storage, c2: seq<Inode>)
    requires kd < |c| && MapOk(st.disk, sb, c[kd]) && c[kd].size <= MAXFILE * BSIZE
    requires DirAppend(st, sb, c, kd, name, inum) == (Done, Linked, st2, c2)
    ensures var dp, off := c[kd], SlotOff(Scan(st.disk, sb, c[kd], None, "dirlink read", 0).1);
      |c2| == |c| && (forall j :: 0 <= j < |c| && j != kd ==> c2[j] == c[j])
      && off % DS == 0 && off <= dp.size
      && (off < dp.size ==> EntryAt(st.disk, dp, off).inum == 0)
      && (forall j: nat :: j < off && j % DS == 0 ==> EntryAt(st.disk, dp, j).inum != 0)
      && c2[kd] == dp.(addrs := c2[kd].addrs, size := c2[kd].size)
      && c2[kd].size == (if off + DS > dp.size then off + DS else dp.size)
      && c2[kd].size <= MAXFILE * BSIZE
      && MapOk(st2.disk, sb, c2[kd])
      && EntryAt(st2.disk, c2[kd], off) == NewEntry(name, inum)
      && (forall k: nat :: !(off <= k < off + DS) ==> FileByte(st2.disk, c2[kd], k) == FileByte(st.disk, dp, k))
  {
    hide Scan, Writei, MapOk, FileByte, EntryAt;
    var dp := c[kd];
    var (o, r, d1, dp1) := Scan(st.disk, sb, dp, None, "dirlink read", 0);
    var src := Dirent.Encode(NewEntry(name, inum));
    var off := SlotOff(r);
    var st1 := st.(disk := d1);
    ScanMeaning(st.disk, sb, dp, None, "dirlink read", 0, r, d1, dp1);
    WriteiMeaning(st1, sb, dp1, src, off);
    var (o2, cnt, st2', dp2) := Writei(st1, sb, dp1, src, off);
    assert st2' == st2 && c2 == c[kd := dp2];
    forall j: nat | j < off && j % DS == 0
      ensures EntryAt(st.disk, dp, j).inum != 0
    {
      assert !Wanted(EntryAt(st.disk, dp, j), None);
    }
    EntryWritten(st2.disk, dp2, off, NewEntry(name, inum));
  }

  // ----- names -----

  /** Cutting a string and then reading its C string is reading the C
      string and then cutting it. */
  lemma {:induction false} CStrTake(s: seq<byte>, n: nat)
    ensures CStr(Take(s, n)) == Take(CStr(s), n)
    decreases n
  {
    if n == 0 {
      assert Take(s, n) == [];
    } else {
      CStrTakeStep(s, n);
      if At(s, 0) != 0 {
        CStrTake(s[1..], n - 1);
        assert CStr(s) == [s[0]] + CStr(s[1..]);
      }
    }
  }

  /** A string without NUL followed by NULs reads back as itself. */
  lemma {:induction false} CStrPad(c: seq<byte>, k: nat)
    requires NoNul(c)
    ensures CStr(c + Zeros(k)) == c
  {
    if c == [] {
      assert c + Zeros(k) == Zeros(k);
    } else {
      assert (c + Zeros(k))[1..] == c[1..] + Zeros(k);
      CStrPad(c[1..], k);
    }
  }

  /** The name strncpy stores in an entry compares equal to the name it
      copied. */
  lemma StrncpyName(name: seq<byte>)
    ensures Namecmp(name, Strncpy(name, DIRSIZ))
  {
    var c := Take(CStr(name), DIRSIZ);
    assert NoNul(c);
    CStrPad(c, DIRSIZ - |c|);
    CStrTake(name, DIRSIZ);
    assert Take(Strncpy(name, DIRSIZ), DIRSIZ) == Strncpy(name, DIRSIZ);
  }

  // ----- dirlink as a whole -----

  /** dirlink on a sound directory within MAXFILE blocks, when it ends
      without panic: a refused name was present in the directory; a
      linked name was in none of its entries, and the new entry (the name
      and the inode number) now sits at the first free entry or at the old
      end, every other byte kept. */
  lemma DirlinkMeaning(st: Storage, sb: Superblock, c: seq<Inode>, kd: nat, name: seq<byte>, inum: uint32,
                       res: LinkResult, st2: Storage, c2: seq<Inode>)
    requires kd < |c| && MapOk(st.disk, sb, c[kd]) && c[kd].size <= MAXFILE * BSIZE
    requires Dirlink(st, sb, c, kd, name, inum) == (Done, res, st2, c2)
    ensures IsDir(c[kd])
    ensures res == NameExists ==>
      exists j: nat :: j < c[kd].size && j % DS == 0 && Wanted(EntryAt(st.disk, c[kd], j), Some(name))
    ensures res == Linked ==>
      (forall j: nat :: j < c[kd].size && j % DS == 0 ==> !Wanted(EntryAt(st.disk, c[kd], j), Some(name)))
      && kd < |c2| && MapOk(st2.disk, sb, c2[kd]) && c2[kd].size <= MAXFILE * BSIZE
      && c2[kd] == c[kd].(addrs := c2[kd].addrs, size := c2[kd].size)
      && exists off: nat ::
           off % DS == 0 && off <= c[kd].size && off + DS <= c2[kd].size
           && (off < c[kd].size ==> EntryAt(st.disk, c[kd], off).inum == 0)
           && (forall j: nat :: j < off && j % DS == 0 ==> EntryAt(st.disk, c[kd], j).inum != 0)
           && EntryAt(st2.disk, c2[kd], off) == NewEntry(name, inum)
           && (forall k: nat :: !(off <= k < off + DS) ==> FileByte(st2.disk, c2[kd], k) == FileByte(st.disk, c[kd], k))
  {
    hide Dirlookup, DirAppend, Iput, MapOk, FileByte, EntryAt, Scan;
    var dp := c[kd];
    DirlookupShape(st, sb, c, kd, name);
    var (o, r, k, st1, c1) := Dirlookup(st, sb, c, kd, name);
    DirlookupMeaning(st, sb, c, kd, name, r, k, st1, c1);
    if r.Absent? {
      var (_, _, d1, dp1) := Scan(st.disk, sb, dp, Some(name), "dirlookup read", 0);
      ScanMeaning(st.disk, sb, dp, Some(name), "dirlookup read", 0, r, d1, dp1);
      assert DirAppend(st1, sb, c1, kd, name, inum) == (Done, res, st2, c2);
      DirAppendLinks(st1, sb, c1, kd, name, inum);
      if res == Linked {
        DirLinked(st, sb, c, kd, name, inum, d1, dp1, st1, c1, st2, c2);
      }
    } else if r.Found? {
      assert Wanted(EntryAt(st.disk, c[kd], r.off), Some(name));
    }
  }

  /** The second half of dirlink never reports the name present. */
  lemma DirAppendLinks(st: Storage, sb: Superblock, c: seq<Inode>, kd: nat, name: seq<byte>, inum: uint32)
    requires kd < |c|
    ensures DirAppend(st, sb, c, kd, name, inum).1 != NameExists
  {
  }

  /** The linking half of DirlinkMeaning, after a lookup that found the
      name absent and kept the directory's bytes. */
  lemma DirLinked(st: Storage, sb: Superblock, c: seq<Inode>, kd: nat, name: seq<byte>, inum: uint32,
                  d1: Disk, dp1: Inode, st1: Storage, c1: seq<Inode>, st2: Storage, c2: seq<Inode>)
    requires kd < |c| && MapOk(st.disk, sb, c[kd]) && c[kd].size <= MAXFILE * BSIZE
    requires st1 == st.(disk := d1) && c1 == c[kd := dp1]
    requires MapOk(d1, sb, dp1) && dp1 == c[kd].(addrs := dp1.addrs)
    requires forall k: nat :: FileByte(d1, dp1, k) == FileByte(st.disk, c[kd], k)
    requires DirAppend(st1, sb, c1, kd, name, inum) == (Done, Linked, st2, c2)
    ensures kd < |c2| && MapOk(st2.disk, sb, c2[kd]) && c2[kd].size <= MAXFILE * BSIZE
      && c2[kd] == c[kd].(addrs := c2[kd].addrs, size := c2[kd].size)
      && exists off: nat ::
           off % DS == 0 && off <= c[kd].size && off + DS <= c2[kd].size
           && (off < c[kd].size ==> EntryAt(st.disk, c[kd], off).inum == 0)
           && (forall j: nat :: j < off && j % DS == 0 ==> EntryAt(st.disk, c[kd], j).inum != 0)
           && EntryAt(st2.disk, c2[kd], off) == NewEntry(name, inum)
           && (forall k: nat :: !(off <= k < off + DS) ==> FileByte(st2.disk, c2[kd], k) == FileByte(st.disk, c[kd], k))
  {
    hide DirAppend, MapOk, FileByte, EntryAt, Scan;
    var dp := c[kd];
    DirAppendMeaning(st1, sb, c1, kd, name, inum, st2, c2);
    EntrySame(st.disk, dp, d1, dp1);
    var off := SlotOff(Scan(d1, sb, dp1, None, "dirlink read", 0).1);
    assert off + DS <= c2[kd].size;
  }

  /** An entry that ends before the bytes a write changed reads the same. */
  lemma EntryKept(d: Disk, ip: Inode, d1: Disk, ip1: Inode, off: nat, j: nat)
    requires forall k: nat :: !(off <= k < off + DS) ==> FileByte(d1, ip1, k) == FileByte(d, ip, k)
    requires j + DS <= off
    ensures EntryAt(d1, ip1, j) == EntryAt(d, ip, j)
  {
    assert FileBytes(d1, ip1, j, DS) == FileBytes(d, ip, j, DS);
  }

  /** After dirlink links a name to a non-zero inode number in a plain
      sound directory, dirlookup of that name finds that inode number, at
      the entry dirlink wrote, and returns a slot for it on the directory's
      device. */
  lemma DirlinkThenLookup(st: Storage, sb: Superblock, c: seq<Inode>, kd: nat, name: seq<byte>, inum: uint32,
                          st2: Storage, c2: seq<Inode>, r: Lookup, k: nat, st3: Storage, c3: seq<Inode>)
    requires kd < |c| && MapOk(st.disk, sb, c[kd]) && c[kd].size <= MAXFILE * BSIZE && !IsLarge(c[kd].itype)
    requires inum % 0x1_0000 != 0
    requires Dirlink(st, sb, c, kd, name, inum) == (Done, Linked, st2, c2)
    requires kd < |c2| && Dirlookup(st2, sb, c2, kd, name) == (Done, r, k, st3, c3)
    ensures r.Found? && r.inum == inum % 0x1_0000
    ensures k < |c3| && c3[k].dev == c[kd].dev && c3[k].inum == inum % 0x1_0000
  {
    hide Dirlink, Dirlookup, MapOk, FileByte, EntryAt, Scan, Iget;
    DirlinkMeaning(st, sb, c, kd, name, inum, Linked, st2, c2);
    var dp, dp2 := c[kd], c2[kd];
    var off: nat :| off % DS == 0 && off <= dp.size && off + DS <= dp2.size
           && EntryAt(st2.disk, dp2, off) == NewEntry(name, inum)
           && (forall k: nat :: !(off <= k < off + DS) ==> FileByte(st2.disk, dp2, k) == FileByte(st.disk, dp, k));
    DirlookupMeaning(st2, sb, c2, kd, name, r, k, st3, c3);
    StrncpyName(name);
    FirstMatch(st.disk, dp, st2.disk, dp2, name, off, r);
  }

  /** A lookup that can only stop at a wanted entry, and at the first one,
      stops at the one entry written in a directory that had none. */
  lemma FirstMatch(d: Disk, dp: Inode, d2: Disk, dp2: Inode, name: seq<byte>, off: nat, r: Lookup)
    requires off % DS == 0 && off <= dp.size && off + DS <= dp2.size
    requires Wanted(EntryAt(d2, dp2, off), Some(name))
    requires forall k: nat :: !(off <= k < off + DS) ==> FileByte(d2, dp2, k) == FileByte(d, dp, k)
    requires forall j: nat :: j < dp.size && j % DS == 0 ==> !Wanted(EntryAt(d, dp, j), Some(name))
    requires r.Found? ==>
      r.off % DS == 0 && Wanted(EntryAt(d2, dp2, r.off), Some(name))
      && forall j: nat :: j < r.off && j % DS == 0 ==> !Wanted(EntryAt(d2, dp2, j), Some(name))
    requires r.Absent? ==> forall j: nat :: j < dp2.size && j % DS == 0 ==> !Wanted(EntryAt(d2, dp2, j), Some(name))
    requires r != LargeDir
    ensures r.Found? && r.off == off
  {
    hide EntryAt, Wanted, FileByte;
    if r.Found? && r.off < off {
      EntryBelow(r.off, off);
      EntryKept(d, dp, d2, dp2, off, r.off);
      assert false;
    }
  }
}
