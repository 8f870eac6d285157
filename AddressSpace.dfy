// The user half of an address space as vm.c grows, shrinks, copies and
// frees it, stated as functions on the allocator and memory state: each
// loop of vm.c is a recursive function over the address it has reached,
// and each iteration a function of its own.
module AddressSpace {
  import opened Param
  import opened Wrappers
  import opened Kalloc
  import opened PageTable

  // ----- deallocuvm -----

  /** The counter deallocuvm consults for entry e: getpgrefc(P2V(e)), which
      is the frame number of e. */
  function FrameNo(e: uint32): (k: nat)
    ensures k == e / PGSIZE
  {
    RefIndex(P2V(e))
  }

  /** Page `w` is one of those a loop from the aligned `lo` while below `hi`
      visits. */
  predicate InRange(lo: uint32, hi: uint32, w: uint32) {
    lo <= w && PgRoundDown(w) < hi
  }

  /** The page after `a` in deallocuvm's loop: the next page, or, when the
      directory entry of `a` is absent, the first page of the next directory
      entry's span (PGADDR(PDX(a)+1, 0, 0) - PGSIZE, then += PGSIZE). */
  function DeallocNext(s: Phys, pgdir: nat, a: uint32): (b: uint32)
    ensures a < KERNBASE ==> a < b
  {
    if Walk(s, pgdir, a, false).0.None? then AddU(SubU(((Pdx(a) + 1) * 0x40_0000) % UINT_MOD, PGSIZE), PGSIZE)
    else AddU(a, PGSIZE)
  }

  /** One iteration of deallocuvm at a page whose table exists: for a present
      entry, drop one reference if the counter is positive, and when the
      counter is (then) zero free the frame, count it out of allocpages
      unless the counter was already zero, and clear the entry. */
  function DeallocOne(s: Phys, pgdir: nat, a: uint32): (Outcome, Phys) {
    var (p, _) := Walk(s, pgdir, a, false);
    if p.None? then (Done, s)
    else
      var e := Load(s, p.value);
      if !Present(e) then (Done, s)
      else
        var (o1, c1) := RefOf(s, P2V(e));
        if o1.Panic? then (o1, s)
        else
          var s1 := if c1 != 0 then AddRef(s, P2V(e), UINT_MOD - 1) else s;
          var c2 := RefOf(s1, P2V(e)).1;
          if c2 != 0 then (Done, s1)
          else if PteAddr(e) == 0 then (Panic("kfree"), s1)
          else
            var (o3, s2) := FreePage(s1, P2V(PteAddr(e)));
            if o3.Panic? then (o3, s2)
            else
              var s3 := if c1 != 0 then s2.(allocpages := SubU(s2.allocpages, 1)) else s2;
              (Done, Store(s3, p.value, 0))
  }

  /** deallocuvm's loop from the aligned page `a` while below oldsz. */
  function DeallocLoop(s: Phys, pgdir: nat, a: uint32, oldsz: uint32): (Outcome, Phys)
    requires oldsz <= KERNBASE
    decreases oldsz - a
  {
    if a >= oldsz then (Done, s)
    else
      var (o, s1) := DeallocOne(s, pgdir, a);
      if o.Panic? then (o, s1)
      else DeallocLoop(s1, pgdir, DeallocNext(s, pgdir, a), oldsz)
  }

  /** deallocuvm(pgdir, oldsz, newsz), with its return value. */
  function Deallocuvm(s: Phys, pgdir: nat, oldsz: uint32, newsz: uint32): (Outcome, uint32, Phys)
    requires oldsz <= KERNBASE
  {
    if newsz >= oldsz then (Done, oldsz, s)
    else
      var (o, s1) := DeallocLoop(s, pgdir, PgRoundUp(newsz), oldsz);
      (o, newsz, s1)
  }

  /** No two mapped pages of the range share a frame. */
  ghost predicate UniqueFrames(s: Phys, pgdir: nat, lo: uint32, hi: uint32) {
    forall u: uint32, v: uint32 ::
      InRange(lo, hi, u) && InRange(lo, hi, v) && u / PGSIZE != v / PGSIZE
      && Mapping(s, pgdir, u).Some? && Mapping(s, pgdir, v).Some?
      ==> FrameNo(Mapping(s, pgdir, u).value) != FrameNo(Mapping(s, pgdir, v).value)
  }

  /** The counter after deallocuvm dropped one reference: one less, but
      never below zero. */
  function Dropped(c: byte): byte {
    if c == 0 then 0 else c - 1
  }

  /** The entry slot of `a`, when a's directory entry is present. */
  function SlotOf(s: Phys, pgdir: nat, a: uint32): Slot {
    Slot(TableAt(s, pgdir, Pdx(a)), Ptx(a))
  }

  /** One iteration of deallocuvm, spelled out: nothing happens to an
      unmapped page; a mapped page's counter drops (not below zero), and
      when it was at most 1 the frame goes on the free list and the entry
      is cleared. */
  lemma DeallocOneForm(s: Phys, pgdir: nat, a: uint32)
    requires DeallocOne(s, pgdir, a).0 == Done
    ensures var s1 := DeallocOne(s, pgdir, a).1;
      var m := Mapping(s, pgdir, a);
      (m.None? ==> s1 == s)
      && (m.Some? ==>
            s.useLock
            && (forall k :: Refc(s1, k) == if k == FrameNo(m.value) then Dropped(Refc(s, k)) else Refc(s, k))
            && s1.freelist == (if Refc(s, FrameNo(m.value)) <= 1 then [P2V(PteAddr(m.value))] + s.freelist else s.freelist)
            && s1.tables == (if Refc(s, FrameNo(m.value)) <= 1 then Store(s, SlotOf(s, pgdir, a), 0).tables else s.tables))
  {
    var p := Walk(s, pgdir, a, false).0;
    var m := Mapping(s, pgdir, a);
    var s1 := DeallocOne(s, pgdir, a).1;
    if p.None? || !Present(Load(s, p.value)) {
      return;
    }
    var e := Load(s, p.value);
    assert p.value == SlotOf(s, pgdir, a) && m == Some(e);
    var c1 := Refc(s, FrameNo(e));
    var r1 := if c1 != 0 then AddRef(s, P2V(e), UINT_MOD - 1) else s;
    assert Refc(r1, FrameNo(e)) == Dropped(c1);
    forall k | k != FrameNo(e)
      ensures Refc(r1, k) == Refc(s, k)
    {
      RefcountArithmetic(s, P2V(e), UINT_MOD - 1, k);
    }
    assert r1.freelist == s.freelist && r1.tables == s.tables;
    if c1 <= 1 {
      var r2 := FreePage(r1, P2V(PteAddr(e))).1;
      var r3 := if c1 != 0 then r2.(allocpages := SubU(r2.allocpages, 1)) else r2;
      assert s1 == Store(r3, p.value, 0);
      assert r3.refc == r1.refc && r3.tables == s.tables;
    } else {
      assert s1 == r1;
    }
  }

  /** What one iteration does: the page of `a`, if mapped, loses one
      reference and is unmapped (its frame freed) exactly when its counter
      was at most 1; no other page and no other counter changes, pages only
      join the free list, and the directory itself is untouched. */
  lemma DeallocOneEffect(s: Phys, pgdir: nat, a: uint32, w: uint32)
    requires DirOk(Table(s, pgdir), pgdir, [])
    requires DeallocOne(s, pgdir, a).0 == Done
    ensures var s1 := DeallocOne(s, pgdir, a).1;
      var m := Mapping(s, pgdir, a);
      Table(s1, pgdir) == Table(s, pgdir)
      && (forall x :: x in s.freelist ==> x in s1.freelist)
      && Mapping(s1, pgdir, w) ==
           (if w / PGSIZE == a / PGSIZE && m.Some? && Refc(s, FrameNo(m.value)) <= 1 then None else Mapping(s, pgdir, w))
      && (m.Some? && Refc(s, FrameNo(m.value)) <= 1 ==> P2V(PteAddr(m.value)) in s1.freelist)
  {
    DeallocOneForm(s, pgdir, a);
    var m := Mapping(s, pgdir, a);
    if m.Some? && Refc(s, FrameNo(m.value)) <= 1 {
      var s1 := DeallocOne(s, pgdir, a).1;
      StoreMapping(s, pgdir, a, 0, w);
      assert Table(s1, pgdir) == Table(Store(s, SlotOf(s, pgdir, a), 0), pgdir);
      assert Mapping(s1, pgdir, w) == Mapping(Store(s, SlotOf(s, pgdir, a), 0), pgdir, w);
    }
  }

  /** An aligned address at or below w is at or below w's page. */
  lemma AlignedBelow(a: uint32, w: uint32)
    requires a % PGSIZE == 0 && a <= w
    ensures a <= PgRoundDown(w)
  {
    assert a == a / PGSIZE * PGSIZE;
    assert a / PGSIZE <= w / PGSIZE;
  }

  /** Where deallocuvm goes after `a`: an aligned address past it, with
      every page in between either a's own or unmapped (the whole span of
      an absent directory entry). */
  lemma DeallocNextFacts(s: Phys, pgdir: nat, a: uint32, u: uint32)
    requires a % PGSIZE == 0 && a < KERNBASE
    ensures var b := DeallocNext(s, pgdir, a);
      b % PGSIZE == 0 && a + PGSIZE <= b
      && (a <= u < b ==> u / PGSIZE == a / PGSIZE || Mapping(s, pgdir, u).None?)
      && (Mapping(s, pgdir, a).Some? ==> b == a + PGSIZE)
  {
    var absent := !Present(Entry(s, pgdir, Pdx(a)));
    DeallocNextIs(s, pgdir, a);
    if absent {
      NextDirArith(a, u);
      if a <= u < (Pdx(a) + 1) * 0x40_0000 {
        assert Pdx(u) == Pdx(a);
        assert Mapping(s, pgdir, u).None?;
      }
    } else {
      NextPageArith(a, u);
    }
  }

  /** The two places deallocuvm moves to after `a`: the next page, or the
      next 4 MiB boundary when the directory entry of `a` is absent. */
  lemma DeallocNextIs(s: Phys, pgdir: nat, a: uint32)
    requires a < KERNBASE
    ensures DeallocNext(s, pgdir, a) ==
      if !Present(Entry(s, pgdir, Pdx(a))) then (Pdx(a) + 1) * 0x40_0000 else a + PGSIZE
  {
    var e := (Pdx(a) + 1) * 0x40_0000;
    assert 0x40_0000 <= e <= KERNBASE;
  }

  lemma NextDirArith(a: uint32, u: uint32)
    requires a % PGSIZE == 0 && a < KERNBASE
    ensures var e := (Pdx(a) + 1) * 0x40_0000;
      e % PGSIZE == 0 && a + PGSIZE <= e && (a <= u < e ==> Pdx(u) == Pdx(a))
  {
    var d := Pdx(a);
    var e := (d + 1) * 0x40_0000;
    DivMod(e, PGSIZE, (d + 1) * 1024, 0);
    DivMod(a, 0x40_0000, d, a - 0x40_0000 * d);
    DivMod(a, PGSIZE, a / PGSIZE, 0);
    DivMod(a - 0x40_0000 * d, PGSIZE, a / PGSIZE - 1024 * d, 0);
    if a <= u < e {
      DivMod(u, 0x40_0000, d, u - 0x40_0000 * d);
    }
  }

  lemma NextPageArith(a: uint32, u: uint32)
    requires a % PGSIZE == 0 && a < KERNBASE
    ensures (a + PGSIZE) % PGSIZE == 0
    ensures a <= u < a + PGSIZE ==> u / PGSIZE == a / PGSIZE
  {
    DivMod(a, PGSIZE, a / PGSIZE, 0);
    DivMod(a + PGSIZE, PGSIZE, a / PGSIZE + 1, 0);
    if a <= u < a + PGSIZE {
      DivMod(u, PGSIZE, a / PGSIZE, u - a);
    }
  }

  /** No mapped page of the range uses frame k. */
  ghost predicate Unused(s: Phys, pgdir: nat, lo: uint32, hi: uint32, k: nat) {
    forall u: uint32 :: InRange(lo, hi, u) && Mapping(s, pgdir, u).Some? ==> FrameNo(Mapping(s, pgdir, u).value) != k
  }

  /** After one iteration the pages the loop has still to visit map what
      they mapped before. */
  lemma DeallocRestSame(s: Phys, pgdir: nat, a: uint32, oldsz: uint32)
    requires oldsz <= KERNBASE && a % PGSIZE == 0 && a < oldsz
    requires DirOk(Table(s, pgdir), pgdir, []) && DeallocOne(s, pgdir, a).0 == Done
    ensures var s1, b := DeallocOne(s, pgdir, a).1, DeallocNext(s, pgdir, a);
      DirOk(Table(s1, pgdir), pgdir, [])
      && forall u: uint32 :: InRange(b, oldsz, u) ==>
           InRange(a, oldsz, u) && u / PGSIZE != a / PGSIZE && Mapping(s1, pgdir, u) == Mapping(s, pgdir, u)
  {
    var s1, b := DeallocOne(s, pgdir, a).1, DeallocNext(s, pgdir, a);
    DeallocOneEffect(s, pgdir, a, a);
    forall u: uint32 | InRange(b, oldsz, u)
      ensures InRange(a, oldsz, u) && u / PGSIZE != a / PGSIZE && Mapping(s1, pgdir, u) == Mapping(s, pgdir, u)
    {
      DeallocNextFacts(s, pgdir, a, u);
      DeallocOneEffect(s, pgdir, a, u);
    }
  }

  /** deallocuvm's loop leaves the directory alone, only adds to the free
      list, and leaves alone every counter that no page of the range uses. */
  lemma {:induction false} DeallocLoopFrame(s: Phys, pgdir: nat, a: uint32, oldsz: uint32, k: nat)
    requires oldsz <= KERNBASE && a % PGSIZE == 0
    requires DirOk(Table(s, pgdir), pgdir, []) && DeallocLoop(s, pgdir, a, oldsz).0 == Done
    ensures var s1 := DeallocLoop(s, pgdir, a, oldsz).1;
      Table(s1, pgdir) == Table(s, pgdir)
      && (forall x :: x in s.freelist ==> x in s1.freelist)
      && (Unused(s, pgdir, a, oldsz, k) ==> Refc(s1, k) == Refc(s, k))
    decreases oldsz - a
  {
    if a < oldsz {
      var s1, b := DeallocOne(s, pgdir, a).1, DeallocNext(s, pgdir, a);
      DeallocNextFacts(s, pgdir, a, a);
      DeallocOneForm(s, pgdir, a);
      DeallocOneEffect(s, pgdir, a, a);
      DeallocRestSame(s, pgdir, a, oldsz);
      assert InRange(a, oldsz, a);
      DeallocLoopFrame(s1, pgdir, b, oldsz, k);
    }
  }

  /** After one iteration the pages still to visit keep unshared frames,
      none of them the frame of a's page. */
  lemma DeallocRestUnique(s: Phys, pgdir: nat, a: uint32, oldsz: uint32)
    requires oldsz <= KERNBASE && a % PGSIZE == 0 && a < oldsz
    requires DirOk(Table(s, pgdir), pgdir, []) && UniqueFrames(s, pgdir, a, oldsz)
    requires DeallocOne(s, pgdir, a).0 == Done
    ensures var s1, b := DeallocOne(s, pgdir, a).1, DeallocNext(s, pgdir, a);
      UniqueFrames(s1, pgdir, b, oldsz)
      && (Mapping(s, pgdir, a).Some? ==> Unused(s1, pgdir, b, oldsz, FrameNo(Mapping(s, pgdir, a).value)))
  {
    DeallocRestSame(s, pgdir, a, oldsz);
    assert InRange(a, oldsz, a);
  }

  /** deallocuvm's loop, read per page: a mapped page of the range is
      unmapped, and its frame freed, exactly when its counter was at most 1;
      every other page maps what it did. This holds when no two pages of the
      range share a frame (with sharing, the counter a page sees has already
      been dropped by the others). */
  lemma {:induction false} DeallocLoopMapping(s: Phys, pgdir: nat, a: uint32, oldsz: uint32, w: uint32)
    requires oldsz <= KERNBASE && a % PGSIZE == 0
    requires DirOk(Table(s, pgdir), pgdir, []) && UniqueFrames(s, pgdir, a, oldsz)
    requires DeallocLoop(s, pgdir, a, oldsz).0 == Done
    ensures var s1 := DeallocLoop(s, pgdir, a, oldsz).1;
      var m := Mapping(s, pgdir, w);
      Mapping(s1, pgdir, w) == (if InRange(a, oldsz, w) && m.Some? && Refc(s, FrameNo(m.value)) <= 1 then None else m)
      && (InRange(a, oldsz, w) && m.Some? && Refc(s, FrameNo(m.value)) <= 1 ==> P2V(PteAddr(m.value)) in s1.freelist)
    decreases oldsz - a
  {
    if a >= oldsz {
      if a <= w {
        AlignedBelow(a, w);
      }
      return;
    }
    var s1, b := DeallocOne(s, pgdir, a).1, DeallocNext(s, pgdir, a);
    DeallocNextFacts(s, pgdir, a, w);
    DeallocOneEffect(s, pgdir, a, w);
    DeallocRestSame(s, pgdir, a, oldsz);
    DeallocRestUnique(s, pgdir, a, oldsz);
    DeallocLoopMapping(s1, pgdir, b, oldsz, w);
    DeallocLoopFrame(s1, pgdir, b, oldsz, 0);
    var m, ma := Mapping(s, pgdir, w), Mapping(s, pgdir, a);
    if w >= b && InRange(b, oldsz, w) && m.Some? && ma.Some? {
      assert InRange(a, oldsz, a);
      DeallocOneForm(s, pgdir, a);
      assert FrameNo(m.value) != FrameNo(ma.value);
    }
    if a <= w < b && m.Some? {
      SamePage(a, w);
    }
  }

  /** deallocuvm's loop drops exactly one reference, never below zero, of
      each mapped page of the range, when no two of them share a frame. */
  lemma {:induction false} DeallocLoopRefc(s: Phys, pgdir: nat, a: uint32, oldsz: uint32, w: uint32)
    requires oldsz <= KERNBASE && a % PGSIZE == 0
    requires DirOk(Table(s, pgdir), pgdir, []) && UniqueFrames(s, pgdir, a, oldsz)
    requires DeallocLoop(s, pgdir, a, oldsz).0 == Done
    requires InRange(a, oldsz, w) && Mapping(s, pgdir, w).Some?
    ensures Refc(DeallocLoop(s, pgdir, a, oldsz).1, FrameNo(Mapping(s, pgdir, w).value))
      == Dropped(Refc(s, FrameNo(Mapping(s, pgdir, w).value)))
    decreases oldsz - a
  {
    hide DeallocOne, DeallocNext;
    var s1, b := DeallocOne(s, pgdir, a).1, DeallocNext(s, pgdir, a);
    var m, ma := Mapping(s, pgdir, w), Mapping(s, pgdir, a);
    var k := FrameNo(m.value);
    DeallocNextFacts(s, pgdir, a, w);
    DeallocOneForm(s, pgdir, a);
    DeallocRestSame(s, pgdir, a, oldsz);
    DeallocRestUnique(s, pgdir, a, oldsz);
    if w < b {
      SamePage(a, w);
      DeallocLoopFrame(s1, pgdir, b, oldsz, k);
    } else {
      assert InRange(a, oldsz, a);
      if ma.Some? {
        assert k != FrameNo(ma.value);
      }
      DeallocLoopRefc(s1, pgdir, b, oldsz, w);
    }
  }

  /** deallocuvm(pgdir, oldsz, newsz): it returns oldsz and changes nothing
      when newsz >= oldsz; otherwise it returns newsz, and every mapped page
      from PGROUNDUP(newsz) below oldsz loses one reference and is unmapped,
      its frame freed, exactly when its counter was at most 1, while all
      other pages keep their mapping (frames unshared within the range). */
  lemma DeallocuvmMeaning(s: Phys, pgdir: nat, oldsz: uint32, newsz: uint32, w: uint32)
    requires oldsz <= KERNBASE && DirOk(Table(s, pgdir), pgdir, [])
    requires UniqueFrames(s, pgdir, PgRoundUp(newsz), oldsz)
    requires Deallocuvm(s, pgdir, oldsz, newsz).0 == Done
    ensures var (_, r, s1) := Deallocuvm(s, pgdir, oldsz, newsz);
      var m, hit := Mapping(s, pgdir, w), newsz < oldsz && InRange(PgRoundUp(newsz), oldsz, w);
      r == (if newsz >= oldsz then oldsz else newsz)
      && (newsz >= oldsz ==> s1 == s)
      && Mapping(s1, pgdir, w) == (if hit && m.Some? && Refc(s, FrameNo(m.value)) <= 1 then None else m)
      && (hit && m.Some? ==> Refc(s1, FrameNo(m.value)) == Dropped(Refc(s, FrameNo(m.value))))
      && (hit && m.Some? && Refc(s, FrameNo(m.value)) <= 1 ==> P2V(PteAddr(m.value)) in s1.freelist)
  {
    if newsz < oldsz {
      DeallocLoopMapping(s, pgdir, PgRoundUp(newsz), oldsz, w);
      if InRange(PgRoundUp(newsz), oldsz, w) && Mapping(s, pgdir, w).Some? {
        DeallocLoopRefc(s, pgdir, PgRoundUp(newsz), oldsz, w);
      }
    }
  }

  // ----- allocuvm -----

  /** The kernel address of a free page translates to a page-aligned
      physical address. */
  lemma FreeFrameAligned(s: Phys, v: uint32)
    requires Valid(s) && v in s.freelist
    ensures v % PGSIZE == 0 && V2P(v) % PGSIZE == 0 && P2V(V2P(v)) == v
  {
    assert Freeable(s.kend, v);
    P2VV2P(v);
  }

  /** kalloc keeps the free pages valid and hands out one of them. */
  lemma AllocPageValid(s: Phys)
    requires Valid(s)
    ensures Valid(AllocPage(s).1) && Shrinks(s, AllocPage(s).1)
    ensures AllocPage(s).0 != 0 ==> AllocPage(s).0 in s.freelist
  {
    if s.freelist != [] {
      assert s.freelist[0] in s.freelist;
      assert forall x :: x in s.freelist[1..] ==> x in s.freelist;
    }
  }

  const UserPerm: nat := PTE_W + PTE_U

  /** How an iteration of allocuvm's loop ended: it mapped its page, kalloc
      failed, or mappages failed for the frame `mem`. */
  datatype Grow = Grown | NoFrame | NoTable(mem: uint32)

  /** One iteration of allocuvm's loop at page `a`: take a frame (counting it
      in allocpages before the check), zero it, map it with W|U at `a` and
      take a reference to it. */
  function AllocOne(s: Phys, pgdir: nat, a: uint32): (r: (Outcome, Grow, Phys))
    requires Valid(s)
    ensures r.0 == Done && r.1.Grown? ==> Valid(r.2)
  {
    var (mem, s1) := AllocPage(s);
    var s2 := s1.(allocpages := AddU(s1.allocpages, 1));
    if mem == 0 then (Done, NoFrame, s2)
    else
      AllocPageValid(s);
      FreeFrameAligned(s, mem);
      var s3 := s2.(pages := s2.pages[mem := Fill(0)]);
      var m := Mappages(s3, pgdir, a, PGSIZE, V2P(mem), UserPerm);
      MapLoopShrinks(s3, pgdir, PgRoundDown(a), V2P(mem), UserPerm, MapCount(a, PGSIZE));
      if m.0.Panic? then (m.0, Grown, m.2)
      else if m.1 < 0 then (Done, NoTable(mem), m.2)
      else (Done, Grown, AddRef(m.2, mem, 1))
  }

  /** allocuvm's loop from the page `a` while below newsz, up to the first
      iteration that fails. */
  function AllocLoop(s: Phys, pgdir: nat, a: uint32, newsz: uint32): (Outcome, Grow, Phys)
    requires Valid(s) && newsz < KERNBASE
    decreases newsz - a
  {
    if a >= newsz then (Done, Grown, s)
    else
      var r := AllocOne(s, pgdir, a);
      if r.0.Panic? || !r.1.Grown? then r
      else AllocLoop(r.2, pgdir, a + PGSIZE, newsz)
  }

  /** allocuvm(pgdir, oldsz, newsz): 0 when newsz reaches KERNBASE, oldsz
      when shrinking; otherwise the loop, and on a failed iteration
      deallocuvm(newsz, oldsz) (and kfree of the frame mappages could not
      map) before returning 0. */
  function Allocuvm(s: Phys, pgdir: nat, oldsz: uint32, newsz: uint32): (Outcome, uint32, Phys)
    requires Valid(s)
  {
    if newsz >= KERNBASE then (Done, 0, s)
    else if newsz < oldsz then (Done, oldsz, s)
    else
      var (o, g, s1) := AllocLoop(s, pgdir, PgRoundUp(oldsz), newsz);
      if o.Panic? then (o, 0, s1)
      else if g.Grown? then (Done, newsz, s1)
      else
        var d := Deallocuvm(s1, pgdir, newsz, oldsz);
        if d.0.Panic? || g.NoFrame? then (d.0, 0, d.2)
        else
          var f := FreePage(d.2, g.mem);
          (f.0, 0, f.1)
  }

  /** Distinct free pages have distinct counters. */
  lemma RefIndexDistinct(s: Phys, x: uint32, y: uint32)
    requires Valid(s) && x in s.freelist && y in s.freelist && x != y
    ensures RefIndex(x) != RefIndex(y)
  {
    FreeFrameAligned(s, x);
    FreeFrameAligned(s, y);
    assert V2P(x) != V2P(y);
    assert V2P(x) == V2P(x) / PGSIZE * PGSIZE && V2P(y) == V2P(y) / PGSIZE * PGSIZE;
  }

  /** The counter of an entry naming a free page's frame is that page's. */
  lemma FrameNoOfPage(v: uint32, e: uint32)
    requires v % PGSIZE == 0 && PteAddr(e) == V2P(v)
    ensures FrameNo(e) == RefIndex(v) && P2V(PteAddr(e)) == v
  {
    P2VV2P(v);
    assert e == PteAddr(e) + e % PGSIZE;
  }

  /** kalloc keeps the separation facts and hands out a page no longer free. */
  lemma AllocPageSep(s: Phys, pgdir: nat)
    requires Sep(s, pgdir)
    ensures Sep(AllocPage(s).1, pgdir)
    ensures AllocPage(s).0 != 0 ==> AllocPage(s).0 !in AllocPage(s).1.freelist
  {
    AllocPageValid(s);
    if s.freelist != [] {
      KfreeListTail(s.freelist);
    }
  }

  /** The state after allocuvm's kalloc, allocpages++ and memset of the head
      of the free list. */
  function Claimed(s: Phys): Phys
    requires s.freelist != []
  {
    s.(freelist := s.freelist[1..], allocpages := AddU(s.allocpages, 1), pages := s.pages[s.freelist[0] := Fill(0)])
  }

  /** A completed iteration of allocuvm's loop, spelled out. */
  lemma AllocOneForm(s: Phys, pgdir: nat, a: uint32, s1: Phys)
    requires Valid(s) && AllocOne(s, pgdir, a) == (Done, Grown, s1)
    ensures s.freelist != [] && s.freelist[0] in s.freelist && V2P(s.freelist[0]) % PGSIZE == 0
    ensures var mem := s.freelist[0];
      var m := Mappages(Claimed(s), pgdir, a, PGSIZE, V2P(mem), UserPerm);
      m.0 == Done && m.1 == 0 && s1 == AddRef(m.2, mem, 1)
  {
    AllocPageValid(s);
    FreeFrameAligned(s, s.freelist[0]);
  }

  /** One completed iteration at page `a` took the free page `mem` and
      mapped the page of `a`, which was unmapped, with W|U|P to its frame;
      no other page changed. */
  ghost predicate Grew(s: Phys, s1: Phys, pgdir: nat, a: uint32, mem: uint32, w: uint32) {
    mem % PGSIZE == 0 && mem in s.freelist
    && Sep(s1, pgdir) && Shrinks(s, s1) && mem !in s1.freelist && s1.useLock == s.useLock
    && Mapping(s1, pgdir, w) == (if w / PGSIZE == a / PGSIZE then Some(MakePte(V2P(mem), UserPerm)) else Mapping(s, pgdir, w))
    && (w / PGSIZE == a / PGSIZE ==> Mapping(s, pgdir, w).None?)
  }

  /** One completed iteration of allocuvm's loop maps the page of `a` to
      the frame of the page that was the head of the free list. */
  lemma AllocOneMapping(s: Phys, pgdir: nat, a: uint32, w: uint32, s1: Phys)
    requires Sep(s, pgdir) && a % PGSIZE == 0
    requires AllocOne(s, pgdir, a) == (Done, Grown, s1)
    ensures s.freelist != [] && Grew(s, s1, pgdir, a, s.freelist[0], w)
  {
    AllocOneForm(s, pgdir, a, s1);
    var mem := s.freelist[0];
    AllocPageSep(s, pgdir);
    FreeFrameAligned(s, mem);
    var s3 := Claimed(s);
    assert Sep(s3, pgdir);
    assert PgRoundDown(a) == a && MapCount(a, PGSIZE) == 0;
    var m := Mappages(s3, pgdir, a, PGSIZE, V2P(mem), UserPerm);
    MappagesMeaning(s3, pgdir, a, PGSIZE, V2P(mem), UserPerm, w);
    MapLoopShrinks(s3, pgdir, a, V2P(mem), UserPerm, 0);
    assert s1.tables == m.2.tables && s1.freelist == m.2.freelist;
    MappingTables(s1, m.2, pgdir, w);
    assert Sep(s1, pgdir);
    DeltaZero(a, w);
    FrameZero(V2P(mem));
    assert Mapping(s3, pgdir, w) == Mapping(s, pgdir, w) by {
      MappingTables(s3, s, pgdir, w);
    }
  }

  /** The page `mem` now holds zeros and its counter gained one (once the
      counters are on); no other page's bytes and no other counter moved. */
  ghost predicate Zeroed(s: Phys, s1: Phys, mem: uint32) {
    mem in s1.pages && s1.pages[mem] == Fill(0)
    && (forall x :: x != mem && x in s.pages ==> x in s1.pages && s1.pages[x] == s.pages[x])
    && (forall k :: Refc(s1, k) == if s.useLock && k == RefIndex(mem) then (Refc(s, k) + 1) % 256 else Refc(s, k))
  }

  /** One completed iteration of allocuvm's loop zeroes the new frame and
      adds one to its counter, and touches no other page's bytes and no
      other counter. */
  lemma AllocOneBytes(s: Phys, pgdir: nat, a: uint32, s1: Phys)
    requires Sep(s, pgdir) && a % PGSIZE == 0
    requires AllocOne(s, pgdir, a) == (Done, Grown, s1)
    ensures s.freelist != [] && Zeroed(s, s1, s.freelist[0])
  {
    hide AllocOne;
    AllocOneForm(s, pgdir, a, s1);
    AllocPageSep(s, pgdir);
    var s3 := Claimed(s);
    assert Sep(s3, pgdir) && PgRoundDown(a) == a;
    MapLoopKeeps(s3, pgdir, a, V2P(s.freelist[0]), UserPerm, MapCount(a, PGSIZE));
    ClaimedBytes(s, Mappages(s3, pgdir, a, PGSIZE, V2P(s.freelist[0]), UserPerm).2);
  }

  /** Taking a reference to the claimed page after mapping it: the page
      holds zeros, and only its counter moves. */
  lemma ClaimedBytes(s: Phys, s4: Phys)
    requires s.freelist != [] && SameOutside(Claimed(s), s4)
    ensures Zeroed(s, AddRef(s4, s.freelist[0], 1), s.freelist[0])
  {
    var mem := s.freelist[0];
    forall k
      ensures Refc(AddRef(s4, mem, 1), k) == if s.useLock && k == RefIndex(mem) then (Refc(s, k) + 1) % 256 else Refc(s, k)
    {
      if k != RefIndex(mem) {
        RefcountArithmetic(s4, mem, 1, k);
      }
    }
  }

  /** A loop that starts at or past its end does nothing. */
  lemma AllocLoopEnd(s: Phys, pgdir: nat, a: uint32, newsz: uint32)
    requires Valid(s) && a >= newsz && newsz < KERNBASE
    ensures AllocLoop(s, pgdir, a, newsz) == (Done, Grown, s)
  {
  }

  lemma PageAfter(a: uint32)
    requires a % PGSIZE == 0
    ensures (a + PGSIZE) % PGSIZE == 0
  {
  }

  /** A loop that finished completed its first iteration and then the rest. */
  lemma AllocLoopStep(s: Phys, pgdir: nat, a: uint32, newsz: uint32, s2: Phys) returns (s1: Phys)
    requires Valid(s) && a % PGSIZE == 0 && a < newsz < KERNBASE
    requires AllocLoop(s, pgdir, a, newsz) == (Done, Grown, s2)
    ensures AllocOne(s, pgdir, a) == (Done, Grown, s1)
    ensures Valid(s1) && AllocLoop(s1, pgdir, a + PGSIZE, newsz) == (Done, Grown, s2)
  {
    s1 := AllocOne(s, pgdir, a).2;
  }

  /** s1 took pages only from the free list of s, and every page that was
      not free holds what it held. */
  ghost predicate Kept(s: Phys, s1: Phys) {
    Shrinks(s, s1)
    && forall x :: x !in s.freelist && x in s.pages ==> x in s1.pages && s1.pages[x] == s.pages[x]
  }

  lemma KeptTrans(s: Phys, s5: Phys, s1: Phys)
    requires Kept(s, s5) && Kept(s5, s1)
    ensures Kept(s, s1)
  {
  }

  /** One completed iteration is one Step. */
  lemma AllocOneClaims(s: Phys, pgdir: nat, a: uint32, s1: Phys)
    requires Sep(s, pgdir) && a % PGSIZE == 0
    requires AllocOne(s, pgdir, a) == (Done, Grown, s1)
    ensures Step(s, s1, pgdir)
  {
    AllocOneMapping(s, pgdir, a, a, s1);
    AllocOneBytes(s, pgdir, a, s1);
  }

  /** One completed iteration at page `a`, apart from the page tables: it
      took the head `mem` of the free list, zeroed it and took a reference
      to it, and kept the separation facts and every page that was not free. */
  ghost predicate Step(s: Phys, s5: Phys, pgdir: nat) {
    s.freelist != [] && s.freelist[0] % PGSIZE == 0 && s.freelist[0] !in s5.freelist
    && Sep(s5, pgdir) && Kept(s, s5) && s5.useLock == s.useLock && Zeroed(s, s5, s.freelist[0])
  }

  /** One completed iteration at page `a`, seen from the page of `w`: if it
      is the page of `a`, it was unmapped and now maps W|U|P the frame of the
      head of the free list; otherwise its mapping is unchanged. */
  ghost predicate MapStep(s: Phys, s5: Phys, pgdir: nat, a: uint32, w: uint32) {
    s.freelist != [] && s.freelist[0] % PGSIZE == 0
    && Mapping(s5, pgdir, w) == (if w / PGSIZE == a / PGSIZE then Some(MakePte(V2P(s.freelist[0]), UserPerm)) else Mapping(s, pgdir, w))
    && (w / PGSIZE == a / PGSIZE ==> Mapping(s, pgdir, w).None?)
  }

  /** A trace whose consecutive states are one Step apart. */
  ghost predicate Steps(t: seq<Phys>, pgdir: nat, a: uint32, newsz: uint32)
    requires newsz < KERNBASE
    decreases newsz - a
  {
    |t| >= 1 &&
    if a >= newsz then |t| == 1
    else |t| >= 2 && Step(t[0], t[1], pgdir) && Steps(t[1..], pgdir, a + PGSIZE, newsz)
  }

  /** A trace whose consecutive states are one MapStep apart for `w`. */
  ghost predicate MapSteps(t: seq<Phys>, pgdir: nat, a: uint32, newsz: uint32, w: uint32)
    requires newsz < KERNBASE
    decreases newsz - a
  {
    |t| >= 1 &&
    if a >= newsz then |t| == 1
    else |t| >= 2 && MapStep(t[0], t[1], pgdir, a, w) && MapSteps(t[1..], pgdir, a + PGSIZE, newsz, w)
  }

  /** `t` lists the states of allocuvm's loop from page `a` while below
      newsz, every iteration completing. */
  ghost predicate IsTrace(t: seq<Phys>, pgdir: nat, a: uint32, newsz: uint32)
    requires newsz < KERNBASE
    decreases newsz - a
  {
    |t| >= 1 && Valid(t[0]) &&
    if a >= newsz then |t| == 1
    else |t| >= 2 && AllocOne(t[0], pgdir, a) == (Done, Grown, t[1]) && IsTrace(t[1..], pgdir, a + PGSIZE, newsz)
  }

  /** A loop that finished went through a trace. */
  lemma {:induction false} AllocLoopTrace(s: Phys, pgdir: nat, a: uint32, newsz: uint32, s2: Phys) returns (t: seq<Phys>)
    requires Valid(s) && a % PGSIZE == 0 && newsz < KERNBASE
    requires AllocLoop(s, pgdir, a, newsz) == (Done, Grown, s2)
    ensures IsTrace(t, pgdir, a, newsz) && t[0] == s && Last(t) == s2
    decreases newsz - a
  {
    hide AllocOne;
    if a >= newsz {
      AllocLoopEnd(s, pgdir, a, newsz);
      t := [s];
    } else {
      var s1 := AllocLoopStep(s, pgdir, a, newsz, s2);
      PageAfter(a);
      var rest := AllocLoopTrace(s1, pgdir, a + PGSIZE, newsz, s2);
      t := [s] + rest;
      TraceCons(s, rest, pgdir, a, newsz);
    }
  }

  /** A completed iteration in front of a trace is a trace. */
  lemma TraceCons(s: Phys, rest: seq<Phys>, pgdir: nat, a: uint32, newsz: uint32)
    requires Valid(s) && a < newsz < KERNBASE
    requires IsTrace(rest, pgdir, a + PGSIZE, newsz) && AllocOne(s, pgdir, a) == (Done, Grown, rest[0])
    ensures IsTrace([s] + rest, pgdir, a, newsz) && Last([s] + rest) == Last(rest)
  {
    hide AllocOne;
    var t := [s] + rest;
    assert t[0] == s && t[1] == rest[0] && t[1..] == rest;
    LastOfCons(s, rest);
  }

  function Last<T>(l: seq<T>): T
    requires |l| >= 1
  {
    l[|l| - 1]
  }

  lemma LastOfCons<T>(x: T, l: seq<T>)
    requires |l| >= 1
    ensures Last([x] + l) == Last(l)
  {
  }

  /** Along a trace from a separated state, consecutive states are one Step apart. */
  lemma {:induction false} TraceSteps(t: seq<Phys>, pgdir: nat, a: uint32, newsz: uint32)
    requires newsz < KERNBASE && a % PGSIZE == 0 && IsTrace(t, pgdir, a, newsz) && Sep(t[0], pgdir)
    ensures Steps(t, pgdir, a, newsz)
    decreases newsz - a
  {
    hide AllocOne;
    if a < newsz {
      AllocOneClaims(t[0], pgdir, a, AllocOne(t[0], pgdir, a).2);
      PageAfter(a);
      TraceSteps(t[1..], pgdir, a + PGSIZE, newsz);
    }
  }

  /** Along a trace from a separated state, consecutive states are one
      MapStep apart for every page. */
  lemma {:induction false} TraceMapSteps(t: seq<Phys>, pgdir: nat, a: uint32, newsz: uint32, w: uint32)
    requires newsz < KERNBASE && a % PGSIZE == 0 && IsTrace(t, pgdir, a, newsz) && Steps(t, pgdir, a, newsz)
    requires Sep(t[0], pgdir)
    ensures MapSteps(t, pgdir, a, newsz, w)
    decreases newsz - a
  {
    hide AllocOne;
    if a < newsz {
      AllocOneMapping(t[0], pgdir, a, w, t[1]);
      PageAfter(a);
      TraceMapSteps(t[1..], pgdir, a + PGSIZE, newsz, w);
    }
  }

  /** Along a trace the separation facts hold, pages are taken only from the
      free list and every other page keeps its bytes. */
  lemma {:induction false} StepsSep(t: seq<Phys>, pgdir: nat, a: uint32, newsz: uint32)
    requires newsz < KERNBASE && Steps(t, pgdir, a, newsz) && Sep(t[0], pgdir)
    ensures Sep(t[|t| - 1], pgdir) && Kept(t[0], t[|t| - 1]) && t[|t| - 1].useLock == t[0].useLock
    decreases newsz - a
  {
    if a < newsz {
      StepsSep(t[1..], pgdir, a + PGSIZE, newsz);
      KeptTrans(t[0], t[1], t[|t| - 1]);
    }
  }

  /** Along a trace every counter no free page uses keeps its value. */
  lemma {:induction false} StepsRefc(t: seq<Phys>, pgdir: nat, a: uint32, newsz: uint32, k: nat)
    requires newsz < KERNBASE && Steps(t, pgdir, a, newsz)
    requires forall y :: y in t[0].freelist ==> RefIndex(y) != k
    ensures Refc(t[|t| - 1], k) == Refc(t[0], k)
    decreases newsz - a
  {
    if a < newsz {
      var mem := t[0].freelist[0];
      assert k != RefIndex(mem);
      StepsRefc(t[1..], pgdir, a + PGSIZE, newsz, k);
    }
  }

  /** Read per page, a finished loop over [lo, hi): every page of the range
      was unmapped and now maps, present, writable and user-accessible, the
      frame of a page that was free and is no longer; every other page maps
      what it did. */
  ghost predicate GrewRange(s: Phys, s1: Phys, pgdir: nat, lo: uint32, hi: uint32, w: uint32) {
    var m := Mapping(s1, pgdir, w);
    (!InRange(lo, hi, w) ==> m == Mapping(s, pgdir, w))
    && (InRange(lo, hi, w) ==>
          Mapping(s, pgdir, w).None? && m.Some? && Writable(m.value) && User(m.value)
          && P2V(PteAddr(m.value)) in s.freelist && P2V(PteAddr(m.value)) !in s1.freelist
          && FrameNo(m.value) == RefIndex(P2V(PteAddr(m.value))))
  }

  lemma GrewRangeEmpty(s: Phys, pgdir: nat, a: uint32, newsz: uint32, w: uint32)
    requires a % PGSIZE == 0 && a >= newsz
    ensures GrewRange(s, s, pgdir, a, newsz, w)
  {
    if a <= w {
      AlignedBelow(a, w);
    }
  }

  lemma GrewRangeStep(s: Phys, s5: Phys, s1: Phys, pgdir: nat, a: uint32, newsz: uint32, w: uint32)
    requires a % PGSIZE == 0 && a < newsz < KERNBASE
    requires Step(s, s5, pgdir) && MapStep(s, s5, pgdir, a, w)
    requires Kept(s5, s1) && GrewRange(s5, s1, pgdir, a + PGSIZE, newsz, w)
    ensures GrewRange(s, s1, pgdir, a, newsz, w)
  {
    var mem := s.freelist[0];
    if a <= w < a + PGSIZE {
      FrameNoOfPage(mem, MakePte(V2P(mem), UserPerm));
      assert w / PGSIZE == a / PGSIZE;
    } else if a + PGSIZE <= w {
      AlignedBelow(a + PGSIZE, w);
      assert w / PGSIZE != a / PGSIZE;
    } else {
      assert w / PGSIZE != a / PGSIZE;
    }
  }

  /** Along a trace over [a, newsz), GrewRange holds page by page. */
  lemma {:induction false} StepsMapping(t: seq<Phys>, pgdir: nat, a: uint32, newsz: uint32, w: uint32)
    requires a % PGSIZE == 0 && newsz < KERNBASE && Steps(t, pgdir, a, newsz) && Sep(t[0], pgdir)
    requires MapSteps(t, pgdir, a, newsz, w)
    ensures GrewRange(t[0], t[|t| - 1], pgdir, a, newsz, w)
    decreases newsz - a
  {
    if a >= newsz {
      GrewRangeEmpty(t[0], pgdir, a, newsz, w);
    } else {
      PageAfter(a);
      StepsMapping(t[1..], pgdir, a + PGSIZE, newsz, w);
      StepsSep(t[1..], pgdir, a + PGSIZE, newsz);
      GrewRangeStep(t[0], t[1], t[|t| - 1], pgdir, a, newsz, w);
    }
  }

  /** The frame the page of `w` maps holds zeros and its counter gained one
      (once the counters are on). */
  ghost predicate FrameFilled(s: Phys, s1: Phys, pgdir: nat, w: uint32) {
    var m := Mapping(s1, pgdir, w);
    m.Some? && P2V(PteAddr(m.value)) in s1.pages && s1.pages[P2V(PteAddr(m.value))] == Fill(0)
    && Refc(s1, FrameNo(m.value)) == if s.useLock then (Refc(s, FrameNo(m.value)) + 1) % 256 else Refc(s, FrameNo(m.value))
  }

  /** Along a trace over [a, newsz), FrameFilled holds for every page of the range. */
  lemma {:induction false} StepsFrames(t: seq<Phys>, pgdir: nat, a: uint32, newsz: uint32, w: uint32)
    requires a % PGSIZE == 0 && newsz < KERNBASE && Steps(t, pgdir, a, newsz) && Sep(t[0], pgdir)
    requires MapSteps(t, pgdir, a, newsz, w) && InRange(a, newsz, w)
    ensures FrameFilled(t[0], t[|t| - 1], pgdir, w)
    decreases newsz - a
  {
    var s, s5, s1 := t[0], t[1], t[|t| - 1];
    var mem := s.freelist[0];
    PageAfter(a);
    StepsMapping(t[1..], pgdir, a + PGSIZE, newsz, w);
    StepsSep(t[1..], pgdir, a + PGSIZE, newsz);
    if w < a + PGSIZE {
      forall y | y in s5.freelist
        ensures RefIndex(y) != RefIndex(mem)
      {
        RefIndexDistinct(s, y, mem);
      }
      StepsRefc(t[1..], pgdir, a + PGSIZE, newsz, RefIndex(mem));
      FrameFilledHere(s, s5, s1, pgdir, a, newsz, w);
    } else {
      StepsFrames(t[1..], pgdir, a + PGSIZE, newsz, w);
      FrameFilledLater(s, s5, s1, pgdir, a, newsz, w);
    }
  }

  /** The page mapped by this iteration: its frame was zeroed here and the
      rest of the loop leaves it alone. */
  lemma FrameFilledHere(s: Phys, s5: Phys, s1: Phys, pgdir: nat, a: uint32, newsz: uint32, w: uint32)
    requires a % PGSIZE == 0 && a <= w < a + PGSIZE && a < newsz < KERNBASE
    requires Step(s, s5, pgdir) && MapStep(s, s5, pgdir, a, w)
    requires Kept(s5, s1) && GrewRange(s5, s1, pgdir, a + PGSIZE, newsz, w)
    requires Refc(s1, RefIndex(s.freelist[0])) == Refc(s5, RefIndex(s.freelist[0]))
    ensures FrameFilled(s, s1, pgdir, w)
  {
    var mem := s.freelist[0];
    FrameNoOfPage(mem, MakePte(V2P(mem), UserPerm));
    assert w / PGSIZE == a / PGSIZE;
    assert Mapping(s5, pgdir, w) == Some(MakePte(V2P(mem), UserPerm));
  }

  /** A page mapped by a later iteration: this iteration did not touch its
      frame's counter. */
  lemma FrameFilledLater(s: Phys, s5: Phys, s1: Phys, pgdir: nat, a: uint32, newsz: uint32, w: uint32)
    requires Valid(s) && a % PGSIZE == 0 && a < newsz < KERNBASE && InRange(a + PGSIZE, newsz, w)
    requires Step(s, s5, pgdir) && MapStep(s, s5, pgdir, a, w) && GrewRange(s5, s1, pgdir, a + PGSIZE, newsz, w) && FrameFilled(s5, s1, pgdir, w)
    ensures FrameFilled(s, s1, pgdir, w)
  {
    var f := P2V(PteAddr(Mapping(s1, pgdir, w).value));
    RefIndexDistinct(s, f, s.freelist[0]);
  }
  /** A loop over [a, newsz) that completed every iteration: the separation
      facts hold, only free pages were taken, and page by page GrewRange and,
      inside the range, FrameFilled hold. */
  lemma AllocLoopMeaning(s: Phys, pgdir: nat, a: uint32, newsz: uint32, w: uint32)
    requires Sep(s, pgdir) && a % PGSIZE == 0 && newsz < KERNBASE
    requires AllocLoop(s, pgdir, a, newsz) == (Done, Grown, AllocLoop(s, pgdir, a, newsz).2)
    ensures var s1 := AllocLoop(s, pgdir, a, newsz).2;
      Sep(s1, pgdir) && Kept(s, s1) && GrewRange(s, s1, pgdir, a, newsz, w)
      && (InRange(a, newsz, w) ==> FrameFilled(s, s1, pgdir, w))
  {
    var t := AllocLoopTrace(s, pgdir, a, newsz, AllocLoop(s, pgdir, a, newsz).2);
    TraceSteps(t, pgdir, a, newsz);
    TraceMapSteps(t, pgdir, a, newsz, w);
    StepsSep(t, pgdir, a, newsz);
    StepsMapping(t, pgdir, a, newsz, w);
    if InRange(a, newsz, w) {
      StepsFrames(t, pgdir, a, newsz, w);
    }
  }

  /** allocuvm(pgdir, oldsz, newsz): 0 and no change when newsz reaches
      KERNBASE; oldsz and no change when shrinking; otherwise newsz or 0, and
      when it returns newsz every page from PGROUNDUP(oldsz) below newsz was
      unmapped and now maps W|U|P a zeroed frame taken from the free list,
      whose counter gained one, while every other page keeps its mapping and
      every page that was not free keeps its bytes. */
  lemma AllocuvmMeaning(s: Phys, pgdir: nat, oldsz: uint32, newsz: uint32, w: uint32)
    requires Sep(s, pgdir) && Allocuvm(s, pgdir, oldsz, newsz).0 == Done
    ensures var (_, r, s1) := Allocuvm(s, pgdir, oldsz, newsz);
      (newsz >= KERNBASE ==> r == 0 && s1 == s)
      && (newsz < KERNBASE && newsz < oldsz ==> r == oldsz && s1 == s)
      && (oldsz <= newsz < KERNBASE ==> r == newsz || r == 0)
      && (oldsz <= newsz < KERNBASE && r == newsz ==>
            Sep(s1, pgdir) && Kept(s, s1) && GrewRange(s, s1, pgdir, PgRoundUp(oldsz), newsz, w)
            && (InRange(PgRoundUp(oldsz), newsz, w) ==> FrameFilled(s, s1, pgdir, w)))
  {
    if oldsz <= newsz < KERNBASE {
      var a := PgRoundUp(oldsz);
      if a >= newsz {
        AllocLoopEnd(s, pgdir, a, newsz);
      }
      if AllocLoop(s, pgdir, a, newsz).1.Grown? {
        AllocLoopMeaning(s, pgdir, a, newsz, w);
      }
    }
  }
}
