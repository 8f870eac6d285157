// The in-memory inode cache of kernel/fs.c (icache.inode[NINODE]) and the
// operations on its slots: iget, idup, iput; and ialloc, which finds a free
// dinode on disk, claims it and returns its cache slot.
module FsCache {
  import opened Param
  import opened Wrappers
  import opened Bytes
  import opened Ufs
  import opened FsBitmap
  import opened FsInode
  import opened FsBmap

  /** Slot i holds a live inode (a reference is held) for (dev, inum). */
  predicate LiveAt(c: seq<Inode>, i: nat, dev: nat, inum: nat)
    requires i < |c|
  {
    c[i].ref > 0 && c[i].dev as nat == dev && c[i].inum as nat == inum
  }

  /** The first slot from i on that is live for (dev, inum). */
  function FindLive(c: seq<Inode>, dev: nat, inum: nat, i: nat): (r: Option<nat>)
    decreases |c| - i
  {
    if i >= |c| then None
    else if LiveAt(c, i, dev, inum) then Some(i)
    else FindLive(c, dev, inum, i + 1)
  }

  /** The first slot from i on with no reference. */
  function FindEmpty(c: seq<Inode>, i: nat): (r: Option<nat>)
    decreases |c| - i
  {
    if i >= |c| then None
    else if c[i].ref == 0 then Some(i)
    else FindEmpty(c, i + 1)
  }

  lemma {:induction false} FindLiveMeaning(c: seq<Inode>, dev: nat, inum: nat, i: nat)
    ensures var r := FindLive(c, dev, inum, i);
      (r.Some? ==>
        i <= r.value < |c| && LiveAt(c, r.value, dev, inum)
        && forall j :: i <= j < r.value ==> !LiveAt(c, j, dev, inum))
      && (r.None? ==> forall j :: i <= j < |c| ==> !LiveAt(c, j, dev, inum))
    decreases |c| - i
  {
    if i < |c| && !LiveAt(c, i, dev, inum) {
      FindLiveMeaning(c, dev, inum, i + 1);
    }
  }

  lemma {:induction false} FindEmptyMeaning(c: seq<Inode>, i: nat)
    ensures var r := FindEmpty(c, i);
      (r.Some? ==> i <= r.value < |c| && c[r.value].ref == 0 && forall j :: i <= j < r.value ==> c[j].ref != 0)
      && (r.None? ==> forall j :: i <= j < |c| ==> c[j].ref != 0)
    decreases |c| - i
  {
    if i < |c| && c[i].ref != 0 {
      FindEmptyMeaning(c, i + 1);
    }
  }

  /** iget(dev, inum): the slot already live for (dev, inum) gets one more
      reference; otherwise the first slot with no reference is recycled
      for (dev, inum) with one reference and no valid copy; with none the
      kernel panics. */
  function Iget(c: seq<Inode>, dev: uint32, inum: uint32): (Outcome, nat, seq<Inode>) {
    match FindLive(c, dev, inum, 0)
    case Some(k) =>
      FindLiveMeaning(c, dev, inum, 0);
      (Done, k, c[k := c[k].(ref := c[k].ref + 1)])
    case None =>
      FindEmptyMeaning(c, 0);
      match FindEmpty(c, 0)
      case None => (Panic("iget: no inodes"), 0, c)
      case Some(k) => (Done, k, c[k := c[k].(dev := dev, inum := inum, ref := 1, valid := false)])
  }

  /** At most one live slot per (dev, inum). */
  ghost predicate Unique(c: seq<Inode>) {
    forall i, j :: 0 <= i < j < |c| && c[i].ref > 0 && c[j].ref > 0 ==>
      c[i].dev != c[j].dev || c[i].inum != c[j].inum
  }

  /** iget returns the live slot of (dev, inum) with one more reference,
      else recycles the first slot with no reference, else panics and
      changes nothing; no other slot changes. */
  lemma IgetMeaning(c: seq<Inode>, dev: uint32, inum: uint32)
    ensures var (o, k, c1) := Iget(c, dev, inum);
      var hit := exists j :: 0 <= j < |c| && LiveAt(c, j, dev, inum);
      (o == Done ==>
        k < |c| && |c1| == |c| && (forall j :: 0 <= j < |c| && j != k ==> c1[j] == c[j])
        && c1[k].dev == dev && c1[k].inum == inum && c1[k].ref >= 1
        && (hit ==> LiveAt(c, k, dev, inum) && c1[k] == c[k].(ref := c[k].ref + 1))
        && (!hit ==> c[k].ref == 0 && (forall j :: 0 <= j < k ==> c[j].ref != 0)
                     && c1[k] == c[k].(dev := dev, inum := inum, ref := 1, valid := false)))
      && (o.Panic? <==> !hit && forall j :: 0 <= j < |c| ==> c[j].ref != 0)
      && (o.Panic? ==> o == Panic("iget: no inodes") && c1 == c)
  {
    FindLiveMeaning(c, dev, inum, 0);
    FindEmptyMeaning(c, 0);
  }

  /** iget keeps at most one live slot per (dev, inum). */
  lemma IgetUnique(c: seq<Inode>, dev: uint32, inum: uint32)
    requires Unique(c)
    ensures Unique(Iget(c, dev, inum).2)
  {
    IgetMeaning(c, dev, inum);
    var (o, k, c1) := Iget(c, dev, inum);
    if o == Done {
      forall i, j | 0 <= i < j < |c1| && c1[i].ref > 0 && c1[j].ref > 0
        ensures c1[i].dev != c1[j].dev || c1[i].inum != c1[j].inum
      {
        if i == k && !LiveAt(c, k, dev, inum) {
          assert !LiveAt(c, j, dev, inum);
        } else if j == k && !LiveAt(c, k, dev, inum) {
          assert !LiveAt(c, i, dev, inum);
        }
      }
    }
  }

  /** idup(ip): one more reference. */
  function Idup(c: seq<Inode>, k: nat): (c1: seq<Inode>)
    requires k < |c|
  {
    c[k := c[k].(ref := c[k].ref + 1)]
  }

  /** idup on a live slot keeps at most one live slot per (dev, inum), and
      an iput of a slot that keeps a reference undoes it. */
  lemma IdupUnique(st: Storage, sb: Superblock, c: seq<Inode>, k: nat)
    requires k < |c| && Unique(c) && c[k].ref > 0
    ensures Unique(Idup(c, k))
    ensures Iput(st, sb, Idup(c, k), k) == (Done, st, c)
  {
    assert Idup(c, k)[k := c[k]] == c;
  }

  /** iput(ip): drops a reference; the last reference to a valid inode with
      no links first truncates it, sets its type to 0, writes it back and
      marks the copy not valid. */
  function Iput(st: Storage, sb: Superblock, c: seq<Inode>, k: nat): (Outcome, Storage, seq<Inode>)
    requires k < |c|
  {
    var ip := c[k];
    if ip.valid && ip.nlink == 0 && ip.ref == 1 then
      var (o, st1, ip1) := Itrunc(st, sb, ip);
      if o.Panic? then (o, st1, c[k := ip1])
      else
        var ip2 := ip1.(itype := 0);
        (Done, Iupdate(st1, ip2), c[k := ip2.(valid := false, ref := ip2.ref - 1)])
    else (Done, st, c[k := ip.(ref := ip.ref - 1)])
  }

  /** iput changes no other slot and, unless it panics, drops one
      reference; unless
      it holds the last reference to a valid inode with no links, it
      changes nothing else, on disk or in the slot. */
  lemma IputSlots(st: Storage, sb: Superblock, c: seq<Inode>, k: nat)
    requires k < |c|
    ensures var (o, st1, c1) := Iput(st, sb, c, k);
      var ip := c[k];
      |c1| == |c| && (forall j :: 0 <= j < |c| && j != k ==> c1[j] == c[j])
      && c1[k].dev == ip.dev && c1[k].inum == ip.inum && (o == Done ==> c1[k].ref == ip.ref - 1)
      && (!(ip.valid && ip.nlink == 0 && ip.ref == 1) ==> o == Done && st1 == st && c1[k] == ip.(ref := ip.ref - 1))
  {
    hide Itrunc, Iupdate;
    var ip := c[k];
    if ip.valid && ip.nlink == 0 && ip.ref == 1 {
      ItruncSlot(st, sb, ip);
    }
  }

  /** itrunc changes no field of the inode but its addresses and size. */
  lemma ItruncSlot(st: Storage, sb: Superblock, ip: Inode)
    ensures var ip1 := Itrunc(st, sb, ip).2;
      ip1 == ip.(addrs := ip1.addrs, size := ip1.size)
  {
    hide FreeDirect, FreeIndirect, Bfree, Iupdate;
  }

  /** The last reference to a valid inode with no links, on a sound map:
      iput succeeds, frees exactly the blocks the map named, clears the
      addresses, the size and the type, writes that free dinode to disk
      and leaves the copy not valid. */
  lemma IputFrees(st: Storage, sb: Superblock, c: seq<Inode>, k: nat)
    requires k < |c| && c[k].valid && c[k].nlink == 0 && c[k].ref == 1 && MapOk(st.disk, sb, c[k])
    ensures var (o, st1, c1) := Iput(st, sb, c, k);
      var ip := c[k];
      o == Done && !c1[k].valid && c1[k].itype == 0 && c1[k].size == 0 && c1[k].addrs == NoAddrs()
      && (forall y: nat :: y < sb.size ==>
            Used(st1.disk, sb, ip.dev, y) == (Used(st.disk, sb, ip.dev, y) && !Names(st.disk, ip, y)))
      && (ip.dev < 2 ==> XInode(st1, ip.dev, ip.inum).itype == 0)
      && (2 <= ip.dev < 4 ==> UInode(st1.disk, ip.dev, ip.inum).mode == 0)
  {
    var ip := c[k];
    ItruncMeaning(st, sb, ip);
    var (o, st1, ip1) := Itrunc(st, sb, ip);
    var ip2 := ip1.(itype := 0);
    IupdateFrame(st1, sb, ip2);
    var st2 := Iupdate(st1, ip2);
    assert Iput(st, sb, c, k) == (Done, st2, c[k := ip2.(valid := false, ref := ip2.ref - 1)]);
    if 2 <= ip.dev < 4 {
      var u := UnixOf(UInode(st1.disk, ip.dev, ip.inum), ip2);
      PutGetUInode(st1.disk, ip.dev, ip.inum, u);
    }
  }

  /** iput keeps at most one live slot per (dev, inum). */
  lemma IputUnique(st: Storage, sb: Superblock, c: seq<Inode>, k: nat)
    requires k < |c| && Unique(c)
    ensures Unique(Iput(st, sb, c, k).2)
  {
    IputSlots(st, sb, c, k);
  }

  // ----- references -----

  /** The references held on the cache's slots, summed. */
  function Refs(c: seq<Inode>): int {
    if c == [] then 0 else c[0].ref + Refs(c[1..])
  }

  lemma {:induction false} RefsUpdate(c: seq<Inode>, k: nat, x: Inode)
    requires k < |c|
    ensures Refs(c[k := x]) == Refs(c) - c[k].ref + x.ref
  {
    if k == 0 {
      assert c[k := x][1..] == c[1..];
    } else {
      assert c[k := x][1..] == c[1..][k - 1 := x];
      RefsUpdate(c[1..], k - 1, x);
    }
  }

  /** iget, unless it panics, takes one reference. */
  lemma IgetRefs(c: seq<Inode>, dev: uint32, inum: uint32, k: nat, c1: seq<Inode>)
    requires Iget(c, dev, inum) == (Done, k, c1)
    ensures Refs(c1) == Refs(c) + 1
  {
    hide Refs, FindLive, FindEmpty;
    IgetMeaning(c, dev, inum);
    RefsUpdate(c, k, c1[k]);
    assert c1 == c[k := c1[k]];
  }

  /** idup takes one more reference. */
  lemma IdupRefs(c: seq<Inode>, k: nat)
    requires k < |c|
    ensures Refs(Idup(c, k)) == Refs(c) + 1
  {
    RefsUpdate(c, k, c[k].(ref := c[k].ref + 1));
  }

  /** iput, unless it panics, drops one reference. */
  lemma IputRefs(st: Storage, sb: Superblock, c: seq<Inode>, k: nat, st1: Storage, c1: seq<Inode>)
    requires k < |c| && Iput(st, sb, c, k) == (Done, st1, c1)
    ensures Refs(c1) == Refs(c) - 1
  {
    hide Refs, Itrunc, Iupdate;
    IputSlots(st, sb, c, k);
    RefsUpdate(c, k, c1[k]);
    assert c1 == c[k := c1[k]];
  }

  // ----- ialloc -----

  /** The free list of a Unix V5 superblock: s_ninode entries of s_inode
      are valid. */
  datatype UnixSuper = UnixSuper(ninode: nat, inode: seq<u16>)

  /** The first inode number from inum on, below sb.ninodes, whose xv6
      dinode has type 0. */
  function FreeX(st: Storage, sb: Superblock, dev: nat, inum: nat): (r: Option<nat>)
    decreases sb.ninodes - inum
  {
    if inum >= sb.ninodes then None
    else if XInode(st, dev, inum).itype == 0 then Some(inum)
    else FreeX(st, sb, dev, inum + 1)
  }

  lemma {:induction false} FreeXMeaning(st: Storage, sb: Superblock, dev: nat, inum: nat)
    ensures var r := FreeX(st, sb, dev, inum);
      (r.Some? ==>
        inum <= r.value < sb.ninodes && XInode(st, dev, r.value).itype == 0
        && forall j: nat :: inum <= j < r.value ==> XInode(st, dev, j).itype != 0)
      && (r.None? ==> forall j: nat :: inum <= j < sb.ninodes ==> XInode(st, dev, j).itype != 0)
    decreases sb.ninodes - inum
  {
    if inum < sb.ninodes && XInode(st, dev, inum).itype != 0 {
      FreeXMeaning(st, sb, dev, inum + 1);
    }
  }

  /** The first position from i on, below s_ninode, of the free list whose
      unix_dinode does not have IALLOC set. */
  function FreeU(d: Disk, usb: UnixSuper, dev: nat, i: nat): (r: Option<nat>)
    requires usb.ninode <= |usb.inode|
    decreases usb.ninode - i
  {
    if i >= usb.ninode then None
    else if !IsAllocated(UInode(d, dev, usb.inode[i]).mode) then Some(i)
    else FreeU(d, usb, dev, i + 1)
  }

  lemma {:induction false} FreeUMeaning(d: Disk, usb: UnixSuper, dev: nat, i: nat)
    requires usb.ninode <= |usb.inode|
    ensures var r := FreeU(d, usb, dev, i);
      (r.Some? ==>
        i <= r.value < usb.ninode && !IsAllocated(UInode(d, dev, usb.inode[r.value]).mode)
        && forall j :: i <= j < r.value ==> IsAllocated(UInode(d, dev, usb.inode[j]).mode))
      && (r.None? ==> forall j :: i <= j < usb.ninode ==> IsAllocated(UInode(d, dev, usb.inode[j]).mode))
    decreases usb.ninode - i
  {
    hide UInode;
    if i < usb.ninode && IsAllocated(UInode(d, dev, usb.inode[i]).mode) {
      FreeUMeaning(d, usb, dev, i + 1);
    }
  }

  /** The unix_dinode ialloc writes: all zeros but the mode, type | IALLOC. */
  function NewUDinode(t: u16): (u: UDinode)
    ensures Ufs.WellFormed(u)
  {
    UDinode(AllocMode(t), 0, 0, 0, 0, 0, seq(U_NADDR, _ => 0), 0, 0, 0, 0, 0)
  }

  /** ialloc(dev, type): claim the first free dinode (on an xv6 device the
      lowest inode number from 1 on with type 0; on a Unix V5 device the
      first free-list entry without IALLOC), write it zeroed with the new
      type, and iget it; with none free, or on any other device, panic. */
  function Ialloc(st: Storage, sb: Superblock, usb: UnixSuper, c: seq<Inode>, dev: uint32, t: u16)
    : (Outcome, nat, Storage, seq<Inode>)
    requires usb.ninode <= |usb.inode|
  {
    var none := (Panic("ialloc: no inodes"), 0, st, c);
    if dev < 2 then
      FreeXMeaning(st, sb, dev, 1);
      match FreeX(st, sb, dev, 1)
      case None => none
      case Some(inum) =>
        var st1 := st.(xinodes := st.xinodes[(dev as nat, inum) := XFree.(itype := t)]);
        var (o, k, c1) := Iget(c, dev, inum);
        (o, k, st1, c1)
    else if dev < 4 then
      FreeUMeaning(st.disk, usb, dev, 0);
      match FreeU(st.disk, usb, dev, 0)
      case None => none
      case Some(i) =>
        var inum := usb.inode[i];
        var st1 := st.(disk := PutUInode(st.disk, dev, inum, NewUDinode(t)));
        var (o, k, c1) := Iget(c, dev, inum);
        (o, k, st1, c1)
    else none
  }

  /** On an xv6 device ialloc claims the lowest free inode number from 1
      on, gives its dinode the new type and nothing else, leaves the disk
      and every other dinode alone and igets it; with no free inode it
      panics and changes nothing. */
  lemma IallocX(st: Storage, sb: Superblock, usb: UnixSuper, c: seq<Inode>, dev: uint32, t: u16)
    requires usb.ninode <= |usb.inode| && dev < 2
    ensures var (o, k, st1, c1) := Ialloc(st, sb, usb, c, dev, t);
      ((forall j: nat :: 1 <= j < sb.ninodes ==> XInode(st, dev, j).itype != 0) ==>
        o == Panic("ialloc: no inodes") && st1 == st && c1 == c)
      && (o == Done ==>
        k < |c1| &&
        var inum := c1[k].inum as nat;
        (o, k, c1) == Iget(c, dev, inum as uint32)
        && 1 <= inum < sb.ninodes && XInode(st, dev, inum).itype == 0
        && (forall j: nat :: 1 <= j < inum ==> XInode(st, dev, j).itype != 0)
        && XInode(st1, dev, inum) == XFree.(itype := t)
        && st1.disk == st.disk
        && (forall e: nat, j: nat :: (e, j) != (dev as nat, inum) ==> XInode(st1, e, j) == XInode(st, e, j)))
  {
    FreeXMeaning(st, sb, dev, 1);
    match FreeX(st, sb, dev, 1)
    case None =>
    case Some(inum) =>
      IgetMeaning(c, dev, inum as uint32);
  }

  /** On a Unix V5 device ialloc claims the first free-list entry whose
      dinode lacks IALLOC, writes that dinode zeroed with mode type|IALLOC,
      writes no other sector and igets it; with no such entry it panics and
      changes nothing. */
  lemma IallocU(st: Storage, sb: Superblock, usb: UnixSuper, c: seq<Inode>, dev: uint32, t: u16)
    requires usb.ninode <= |usb.inode| && 2 <= dev < 4
    ensures var (o, k, st1, c1) := Ialloc(st, sb, usb, c, dev, t);
      var d := st.disk;
      ((forall j :: 0 <= j < usb.ninode ==> IsAllocated(UInode(d, dev, usb.inode[j]).mode)) ==>
        o == Panic("ialloc: no inodes") && st1 == st && c1 == c)
      && (o == Done ==>
        k < |c1| &&
        var inum := c1[k].inum;
        (o, k, c1) == Iget(c, dev, inum)
        && (exists i :: 0 <= i < usb.ninode && usb.inode[i] as nat == inum as nat
              && !IsAllocated(UInode(d, dev, inum).mode)
              && forall j :: 0 <= j < i ==> IsAllocated(UInode(d, dev, usb.inode[j]).mode))
        && UInode(st1.disk, dev, inum) == NewUDinode(t) && IsAllocated(UInode(st1.disk, dev, inum).mode)
        && st1.xinodes == st.xinodes
        && (forall e: nat, b: nat :: (e, b) != (dev as nat, UIBlock(inum)) ==> Blk(st1.disk, e, b) == Blk(d, e, b)))
  {
    hide UInode, PutUInode, Iget, FreeU;
    FreeUMeaning(st.disk, usb, dev, 0);
    match FreeU(st.disk, usb, dev, 0)
    case None =>
    case Some(i) =>
      var inum := usb.inode[i];
      IgetMeaning(c, dev, inum);
      PutGetUInode(st.disk, dev, inum, NewUDinode(t));
      PutUInodeFrame(st.disk, dev, inum, NewUDinode(t));
  }

  /** Writing one unix_dinode writes only its sector. */
  lemma PutUInodeFrame(d: Disk, dev: nat, inum: uint32, u: UDinode)
    requires Ufs.WellFormed(u)
    ensures forall e: nat, b: nat :: (e, b) != (dev, UIBlock(inum)) ==> Blk(PutUInode(d, dev, inum, u), e, b) == Blk(d, e, b)
  {
  }

  /** ialloc on any device above 3 panics and changes nothing. */
  lemma IallocOther(st: Storage, sb: Superblock, usb: UnixSuper, c: seq<Inode>, dev: uint32, t: u16)
    requires usb.ninode <= |usb.inode| && dev >= 4
    ensures Ialloc(st, sb, usb, c, dev, t) == (Panic("ialloc: no inodes"), 0, st, c)
  {
  }

  /** The inode ialloc returns, when its slot is newly recycled, reads back
      under ilock as a fresh inode: the new type (type|IALLOC on a Unix V5
      device), no links, size 0 and no blocks. */
  lemma IallocIlock(st: Storage, sb: Superblock, usb: UnixSuper, c: seq<Inode>, dev: uint32, t: u16,
                    k: nat, st1: Storage, c1: seq<Inode>)
    requires usb.ninode <= |usb.inode| && dev < 4 && t != 0
    requires Ialloc(st, sb, usb, c, dev, t) == (Done, k, st1, c1)
    requires k < |c1| && !c1[k].valid
    ensures Ilock(st1, c1[k]) ==
      (Done, c1[k].(valid := true, itype := if dev < 2 then t else AllocMode(t),
                    major := 0, minor := 0, nlink := 0, size := 0, addrs := NoAddrs()))
  {
    hide Ialloc, Iget, UInode, PutUInode, Ilock;
    IgetMeaning(c, dev, c1[k].inum);
    if dev < 2 {
      IallocX(st, sb, usb, c, dev, t);
      IlockFreshX(st1, c1[k], t);
    } else {
      IallocU(st, sb, usb, c, dev, t);
      IlockFreshU(st1, c1[k], t);
    }
  }

  lemma IlockFreshX(st: Storage, ip: Inode, t: u16)
    requires ip.dev < 2 && ip.ref >= 1 && !ip.valid && t != 0
    requires XInode(st, ip.dev, ip.inum) == XFree.(itype := t)
    ensures Ilock(st, ip) ==
      (Done, ip.(valid := true, itype := t, major := 0, minor := 0, nlink := 0, size := 0, addrs := NoAddrs()))
  {
  }

  lemma IlockFreshU(st: Storage, ip: Inode, t: u16)
    requires 2 <= ip.dev < 4 && ip.ref >= 1 && !ip.valid
    requires UInode(st.disk, ip.dev, ip.inum) == NewUDinode(t)
    ensures Ilock(st, ip) ==
      (Done, ip.(valid := true, itype := AllocMode(t), major := 0, minor := 0, nlink := 0, size := 0, addrs := NoAddrs()))
  {
    hide UInode;
    assert FromUnix(ip, NewUDinode(t)).addrs == NoAddrs();
  }
}
