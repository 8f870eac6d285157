// Whole address spaces (kernel/vm.c): setupkvm builds a directory holding
// the kernel's mappings from the kmap table, and freevm tears an address
// space down, user pages first, then the page tables, then the directory.
module KernelSpace {
  import opened Param
  import opened Wrappers
  import opened Kalloc
  import opened PageTable
  import opened AddressSpace

  // ----- freevm -----

  /** kfree of each page of `l` in order, up to the first panic. */
  function FreeEach(s: Phys, l: seq<uint32>): (Outcome, Phys)
    decreases |l|
  {
    if l == [] then (Done, s)
    else
      var (o, s1) := FreePage(s, l[0]);
      if o.Panic? then (o, s1) else FreeEach(s1, l[1..])
  }

  /** The page tables directory entries i.. name, in index order. */
  function PresentTables(s: Phys, pgdir: nat, i: nat): seq<uint32>
    decreases NPDENTRIES - i
  {
    if i >= NPDENTRIES then []
    else (if Present(Entry(s, pgdir, i)) then [TableAt(s, pgdir, i)] else []) + PresentTables(s, pgdir, i + 1)
  }

  /** freevm's loop over the directory from entry i: kfree the table of
      every present entry. */
  function FreeTables(s: Phys, pgdir: nat, i: nat): (Outcome, Phys)
    decreases NPDENTRIES - i
  {
    if i >= NPDENTRIES then (Done, s)
    else if Present(Entry(s, pgdir, i)) then
      var (o, s1) := FreePage(s, TableAt(s, pgdir, i));
      if o.Panic? then (o, s1) else FreeTables(s1, pgdir, i + 1)
    else FreeTables(s, pgdir, i + 1)
  }

  /** freevm(pgdir) */
  function Freevm(s: Phys, pgdir: uint32): (Outcome, Phys) {
    if pgdir == 0 then (Panic("freevm: no pgdir"), s)
    else
      var (o, _, s1) := Deallocuvm(s, pgdir, KERNBASE, 0);
      if o.Panic? then (o, s1)
      else
        var (o2, s2) := FreeTables(s1, pgdir, 0);
        if o2.Panic? then (o2, s2)
        else FreePage(s2, pgdir)
  }

  /** PresentTables lists exactly the tables of the present entries i.. */
  lemma {:induction false} PresentTablesMembers(s: Phys, pgdir: nat, i: nat, v: uint32)
    ensures v in PresentTables(s, pgdir, i) <==>
      exists j :: i <= j < NPDENTRIES && Present(Entry(s, pgdir, j)) && TableAt(s, pgdir, j) == v
    decreases NPDENTRIES - i
  {
    if i < NPDENTRIES {
      PresentTablesMembers(s, pgdir, i + 1, v);
      if v in PresentTables(s, pgdir, i + 1) {
        var j :| i + 1 <= j < NPDENTRIES && Present(Entry(s, pgdir, j)) && TableAt(s, pgdir, j) == v;
        assert i <= j;
      }
    }
  }

  /** The loop frees the tables in directory order: kfree never touches a
      directory, so the entries it reads are those it started with. */
  lemma {:induction false} FreeTablesEach(s: Phys, pgdir: nat, i: nat)
    ensures FreeTables(s, pgdir, i) == FreeEach(s, PresentTables(s, pgdir, i))
    decreases NPDENTRIES - i
  {
    if i < NPDENTRIES {
      var rest := PresentTables(s, pgdir, i + 1);
      if Present(Entry(s, pgdir, i)) {
        var v := TableAt(s, pgdir, i);
        var s1 := FreePage(s, v).1;
        assert s1.tables == s.tables;
        assert PresentTables(s, pgdir, i) == [v] + rest;
        assert ([v] + rest)[1..] == rest;
        TablesSame(s, s1, pgdir, i + 1);
        FreeTablesEach(s1, pgdir, i + 1);
      } else {
        assert PresentTables(s, pgdir, i) == rest;
        FreeTablesEach(s, pgdir, i + 1);
      }
    }
  }

  /** The tables listed depend on the directory alone. */
  lemma {:induction false} TablesSame(s: Phys, s1: Phys, pgdir: nat, i: nat)
    requires s1.tables == s.tables
    ensures PresentTables(s1, pgdir, i) == PresentTables(s, pgdir, i)
    decreases NPDENTRIES - i
  {
    if i < NPDENTRIES {
      TablesSame(s, s1, pgdir, i + 1);
    }
  }

  /** kfree of a list completes exactly when every page passes kfree's
      checks, and then has pushed the pages in order (the last one freed
      heads the list) and filled each with junk. */
  lemma {:induction false} FreeEachState(s: Phys, l: seq<uint32>)
    ensures FreeEach(s, l).0 == Done <==> forall v :: v in l ==> Freeable(s.kend, v)
    ensures FreeEach(s, l).0 == Done ==>
      FreeEach(s, l).1 == s.(freelist := Reverse(l) + s.freelist, pages := FillAll(s.pages, l, s.freelist))
    decreases |l|
  {
    if l != [] {
      var s1 := FreePage(s, l[0]).1;
      assert forall v :: v in l <==> v == l[0] || v in l[1..];
      if Freeable(s.kend, l[0]) {
        FreeEachState(s1, l[1..]);
        assert s1.kend == s.kend;
        assert Reverse(l) == Reverse(l[1..]) + [l[0]];
        assert Reverse(l[1..]) + s1.freelist == Reverse(l) + s.freelist;
      }
    }
  }

  /** freevm(pgdir): panics for a null directory; otherwise, once
      deallocuvm(pgdir, KERNBASE, 0) has released the user pages, it
      completes exactly when every table of a present directory entry and
      the directory itself pass kfree's checks, and then the free list is
      the directory, then those tables (the last entry's first), then what
      was free before; counters and page tables are left as deallocuvm
      left them. */
  lemma FreevmMeaning(s: Phys, pgdir: uint32)
    ensures var (o, s1) := Freevm(s, pgdir);
      (pgdir == 0 ==> o.Panic? && s1 == s)
      && (pgdir != 0 && Deallocuvm(s, pgdir, KERNBASE, 0).0 == Done ==>
            var sd := Deallocuvm(s, pgdir, KERNBASE, 0).2;
            var l := PresentTables(sd, pgdir, 0);
            (o == Done <==> (forall v :: v in l ==> Freeable(sd.kend, v)) && Freeable(sd.kend, pgdir))
            && (o == Done ==>
                  s1.freelist == [pgdir] + Reverse(l) + sd.freelist
                  && s1.tables == sd.tables && s1.refc == sd.refc && s1.allocpages == sd.allocpages))
  {
    hide FillAll, FreeEach, Deallocuvm;
    if pgdir != 0 && Deallocuvm(s, pgdir, KERNBASE, 0).0 == Done {
      var sd := Deallocuvm(s, pgdir, KERNBASE, 0).2;
      var l := PresentTables(sd, pgdir, 0);
      FreeTablesEach(sd, pgdir, 0);
      FreeEachState(sd, l);
    }
  }

  // ----- setupkvm -----

  /** One row of the kmap table: virtual start, physical range, permission. */
  datatype Region = Region(virt: uint32, pstart: uint32, pend: uint32, perm: nat)

  /** The kmap table; `data` is the linker symbol for the start of the
      kernel's data segment. */
  function Kmap(data: uint32): (regs: seq<Region>)
    requires data % PGSIZE == 0
    ensures RegionsOk(regs)
  {
    assert V2P(data) % PGSIZE == 0;
    [Region(KERNBASE, 0, EXTMEM, PTE_W),            // I/O space
     Region(KERNLINK, V2P(KERNLINK), V2P(data), 0),  // kernel text and rodata
     Region(data, V2P(data), PHYSTOP, PTE_W),        // kernel data and memory
     Region(DEVSPACE, DEVSPACE, 0, PTE_W)]           // more devices
  }

  /** What mappages demands of a row. */
  predicate RegionOk(r: Region) { r.pstart % PGSIZE == 0 && r.perm < PGSIZE }

  predicate RegionsOk(regs: seq<Region>) {
    forall k :: 0 <= k < |regs| ==> RegionOk(regs[k])
  }

  /** The mappages call setupkvm makes for a row. */
  function MapRegion(s: Phys, pgdir: nat, r: Region): (Outcome, int, Phys)
    requires RegionOk(r)
  {
    Mappages(s, pgdir, r.virt, SubU(r.pend, r.pstart), r.pstart, r.perm)
  }

  /** setupkvm's loop over the rows, up to the first mappages that fails. */
  function KmapLoop(s: Phys, pgdir: nat, regs: seq<Region>): (Outcome, int, Phys)
    requires RegionsOk(regs)
    decreases |regs|
  {
    if regs == [] then (Done, 0, s)
    else
      assert RegionOk(regs[0]);
      var m := MapRegion(s, pgdir, regs[0]);
      if m.0.Panic? || m.1 < 0 then m else KmapLoop(m.2, pgdir, regs[1..])
  }

  /** setupkvm(): 0 when kalloc fails or a mapping cannot get a table (the
      partial directory is freed then). */
  function Setupkvm(s: Phys, data: uint32): (Outcome, uint32, Phys)
    requires data % PGSIZE == 0
  {
    var (pgdir, s1) := AllocPage(s);
    if pgdir == 0 then (Done, 0, s1)
    else KvmBuild(s1.(pages := s1.pages[pgdir := Fill(0)], tables := s1.tables[pgdir := map[]]), pgdir, data)
  }

  /** The part of setupkvm after the zeroed directory was allocated. */
  function KvmBuild(s: Phys, pgdir: uint32, data: uint32): (Outcome, uint32, Phys)
    requires data % PGSIZE == 0
  {
    if P2V(PHYSTOP) > DEVSPACE then (Panic("PHYSTOP too high"), 0, s)
    else
      var m := KmapLoop(s, pgdir, Kmap(data));
      if m.0.Panic? then (m.0, 0, m.2)
      else if m.1 < 0 then Discard(m.2, pgdir)
      else (Done, pgdir, m.2)
  }

  /** freevm of a partial directory; setupkvm then returns 0. */
  function Discard(s: Phys, pgdir: uint32): (r: (Outcome, uint32, Phys))
    ensures r.1 == 0 && (r.0, r.2) == Freevm(s, pgdir)
  {
    var f := Freevm(s, pgdir);
    (f.0, 0, f.1)
  }

  /** Page w is one of those mappages maps for a row. */
  predicate InRegion(r: Region, w: uint32) {
    Delta(PgRoundDown(r.virt), w) <= MapCount(r.virt, SubU(r.pend, r.pstart))
  }

  /** The entry a row's mappages writes for page w. */
  function RegionPte(r: Region, w: uint32): uint32
    requires RegionOk(r)
  {
    MappedPte(r.pstart, r.perm, Delta(PgRoundDown(r.virt), w))
  }

  /** What page w maps after one row was mapped over `prev`. */
  function OverOne(r: Region, w: uint32, prev: Option<uint32>): Option<uint32>
    requires RegionOk(r)
  {
    if InRegion(r, w) then Some(RegionPte(r, w)) else prev
  }

  /** What page w maps after the rows were mapped in order over `prev`. */
  function Over(regs: seq<Region>, w: uint32, prev: Option<uint32>): Option<uint32>
    requires RegionsOk(regs)
    decreases |regs|
  {
    if regs == [] then prev
    else
      assert RegionOk(regs[0]);
      Over(regs[1..], w, OverOne(regs[0], w, prev))
  }

  /** One row's mappages, in the terms of InRegion and RegionPte. */
  lemma RegionStep(s: Phys, pgdir: nat, r: Region, w: uint32)
    requires Sep(s, pgdir) && RegionOk(r)
    ensures var m := MapRegion(s, pgdir, r);
      Sep(m.2, pgdir) && SameOutside(s, m.2)
      && (m.0 == Done && m.1 == 0 ==>
            Mapping(m.2, pgdir, w) == if InRegion(r, w) then Some(RegionPte(r, w)) else Mapping(s, pgdir, w))
  {
    MappagesMeaning(s, pgdir, r.virt, SubU(r.pend, r.pstart), r.pstart, r.perm, w);
  }

  /** A completed loop over the rows keeps the separation facts and all but
      the page tables, and maps each row's pages as mappages does. */
  lemma {:induction false} KmapLoopMapping(s: Phys, pgdir: nat, regs: seq<Region>, w: uint32)
    requires Sep(s, pgdir) && RegionsOk(regs)
    requires KmapLoop(s, pgdir, regs).0 == Done && KmapLoop(s, pgdir, regs).1 >= 0
    ensures var s1 := KmapLoop(s, pgdir, regs).2;
      Sep(s1, pgdir) && SameOutside(s, s1) && Mapping(s1, pgdir, w) == Over(regs, w, Mapping(s, pgdir, w))
    decreases |regs|
  {
    if regs != [] {
      var r := regs[0];
      assert RegionOk(r);
      var m := MapRegion(s, pgdir, r);
      RegionStep(s, pgdir, r, w);
      var tail := regs[1..];
      assert RegionsOk(tail) by {
        forall k | 0 <= k < |tail| ensures RegionOk(tail[k]) {
          assert tail[k] == regs[k + 1];
        }
      }
      assert KmapLoop(s, pgdir, regs) == KmapLoop(m.2, pgdir, tail);
      assert m.1 == 0;
      KmapLoopMapping(m.2, pgdir, tail, w);
    }
  }

  /** A completed build returns the directory it was given, keeps the
      separation facts and all but the page tables, and adds the kmap
      rows' mappings. */
  lemma KvmBuildMeaning(s: Phys, pgdir: uint32, data: uint32, w: uint32)
    requires Sep(s, pgdir) && data % PGSIZE == 0 && pgdir != 0
    ensures var (o, d, s1) := KvmBuild(s, pgdir, data);
      o == Done && d != 0 ==>
        d == pgdir && Sep(s1, d) && SameOutside(s, s1) && Mapping(s1, d, w) == Over(Kmap(data), w, Mapping(s, pgdir, w))
  {
    var m := KmapLoop(s, pgdir, Kmap(data));
    if m.0 == Done && m.1 >= 0 {
      KmapLoopMapping(s, pgdir, Kmap(data), w);
    }
  }

  /** The state after setupkvm's kalloc and memset: the head of the free
      list taken, its bytes zeroed and, seen as a directory, empty. */
  function KvmStart(s: Phys): Phys
    requires s.freelist != []
  {
    var d := s.freelist[0];
    s.(freelist := s.freelist[1..], pages := s.pages[d := Fill(0)], tables := s.tables[d := map[]])
  }

  /** With a free page, setupkvm builds over KvmStart: a fresh, empty
      directory that satisfies the separation facts. */
  lemma KvmStartFacts(s: Phys, data: uint32)
    requires Valid(s) && NoDup(s.freelist) && s.freelist != [] && data % PGSIZE == 0
    ensures var d := s.freelist[0];
      d != 0 && Setupkvm(s, data) == KvmBuild(KvmStart(s), d, data) && Sep(KvmStart(s), d)
      && forall u: uint32 :: Mapping(KvmStart(s), d, u) == None
  {
    hide KvmBuild;
    var d := s.freelist[0];
    assert d in s.freelist;
    assert Freeable(s.kend, d);
    AllocPageValid(s);
    KfreeListTail(s.freelist);
    assert Table(KvmStart(s), d) == map[];
  }

  /** setupkvm(): with no free page it returns 0 and changes nothing; when
      it returns a directory, that is the page that headed the free list,
      the directory satisfies the separation facts, every page w maps as
      the kmap rows say and as nothing else, and the only bytes changed are
      the directory's own zeroed page (counters and allocpages stay). */
  lemma SetupkvmMeaning(s: Phys, data: uint32, w: uint32)
    requires Valid(s) && NoDup(s.freelist) && data % PGSIZE == 0
    ensures var (o, d, s1) := Setupkvm(s, data);
      (s.freelist == [] ==> o == Done && d == 0 && s1 == s)
      && (o == Done && d != 0 ==>
            d == s.freelist[0] && Sep(s1, d) && Mapping(s1, d, w) == Over(Kmap(data), w, None)
            && s1.pages == s.pages[d := Fill(0)] && s1.refc == s.refc && s1.allocpages == s.allocpages
            && s1.useLock == s.useLock)
  {
    if s.freelist != [] {
      KvmStartFacts(s, data);
      KvmBuildMeaning(KvmStart(s), s.freelist[0], data, w);
    }
  }

  // ----- the kernel's map under the linker's layout -----

  /** The number of bytes a row maps. */
  function Size(r: Region): uint32 { SubU(r.pend, r.pstart) }

  /** A row starting on a page boundary and covering whole pages, neither
      range wrapping at 2^32. */
  predicate Shaped(r: Region) {
    RegionOk(r) && r.virt % PGSIZE == 0 && Size(r) % PGSIZE == 0 && 0 < Size(r)
    && r.virt + Size(r) <= UINT_MOD && r.pstart + Size(r) <= UINT_MOD
  }

  /** A shaped row maps exactly the pages of [virt, virt + size). */
  lemma RegionRange(r: Region, w: uint32)
    requires Shaped(r)
    ensures InRegion(r, w) <==> r.virt <= w < r.virt + Size(r)
    ensures InRegion(r, w) ==> Delta(r.virt, w) * PGSIZE == PgRoundDown(w) - r.virt
  {
    var size := Size(r);
    var vq, sq, q := r.virt / PGSIZE, size / PGSIZE, w / PGSIZE;
    assert r.virt == vq * PGSIZE && size == sq * PGSIZE && PgRoundDown(w) == q * PGSIZE;
    assert PgRoundDown(r.virt) == r.virt;
    MapCountSpan(r.virt, size);
    var d := Delta(r.virt, w);
    if q >= vq {
      assert d == q - vq;
    } else {
      assert d == q - vq + 0x10_0000;
    }
  }

  /** ... and maps each page to the frame at the same distance from pstart. */
  lemma RegionFrame(r: Region, w: uint32)
    requires Shaped(r) && InRegion(r, w)
    ensures r.virt <= PgRoundDown(w)
    ensures Frame(r.pstart, Delta(PgRoundDown(r.virt), w)) == r.pstart + (PgRoundDown(w) - r.virt)
  {
    RegionRange(r, w);
    assert PgRoundDown(r.virt) == r.virt;
  }

  lemma MapCountSpan(virt: uint32, size: uint32)
    requires virt % PGSIZE == 0 && size % PGSIZE == 0 && 0 < size && virt + size <= UINT_MOD
    ensures MapCount(virt, size) == size / PGSIZE - 1
  {
    var last := SubU(AddU(virt, size), 1);
    assert last == virt + size - 1;
    assert PgRoundDown(last) == virt + size - PGSIZE;
  }

  /** The entry kmap gives the page of w when the kernel's data segment
      starts at `data`: the kernel's virtual range [KERNBASE, KERNBASE +
      PHYSTOP) maps to physical memory from 0, read-only from KERNLINK up to
      data and writable elsewhere; device space from DEVSPACE maps to
      itself, writable; nothing else is mapped. */
  function KernelPte(data: uint32, w: uint32): Option<uint32> {
    if KERNBASE <= w < P2V(PHYSTOP) then
      Some(MakePte(PgRoundDown(w) - KERNBASE, if KERNLINK <= w < data then 0 else PTE_W))
    else if DEVSPACE <= w then Some(MakePte(PgRoundDown(w), PTE_W))
    else None
  }

  /** Kernel text and read-only data end on a page boundary strictly inside
      the kernel's range. */
  predicate Layout(data: uint32) {
    data % PGSIZE == 0 && KERNLINK < data < P2V(PHYSTOP)
  }

  lemma KmapRows(data: uint32)
    requires Layout(data)
    ensures var regs := Kmap(data);
      && regs[0].virt == KERNBASE && Size(regs[0]) == KERNLINK - KERNBASE && regs[0].pstart == 0
      && regs[1].virt == KERNLINK && Size(regs[1]) == data - KERNLINK && regs[1].pstart == KERNLINK - KERNBASE
      && regs[2].virt == data && Size(regs[2]) == P2V(PHYSTOP) - data && regs[2].pstart == data - KERNBASE
      && regs[3].virt == DEVSPACE && Size(regs[3]) == UINT_MOD - DEVSPACE && regs[3].pstart == DEVSPACE
      && regs[0].perm == PTE_W && regs[1].perm == 0 && regs[2].perm == PTE_W && regs[3].perm == PTE_W
      && |regs| == 4 && forall k :: 0 <= k < 4 ==> Shaped(regs[k])
  {
    var regs := Kmap(data);
    assert Shaped(regs[0]) && Shaped(regs[1]) && Shaped(regs[2]) && Shaped(regs[3]);
  }

  /** Four rows mapped in order over `prev`. */
  lemma OverFour(regs: seq<Region>, w: uint32, prev: Option<uint32>)
    requires RegionsOk(regs) && |regs| == 4
    ensures Over(regs, w, prev)
      == OverOne(regs[3], w, OverOne(regs[2], w, OverOne(regs[1], w, OverOne(regs[0], w, prev))))
  {
    var t1 := regs[1..];
    var t2 := t1[1..];
    var t3 := t2[1..];
    assert t1[0] == regs[1] && t2[0] == regs[2] && t3[0] == regs[3] && t3[1..] == [];
    assert RegionsOk(t1) && RegionsOk(t2) && RegionsOk(t3) by {
      assert forall k :: 0 <= k < 3 ==> t1[k] == regs[k + 1];
      assert forall k :: 0 <= k < 2 ==> t2[k] == regs[k + 2];
    }
    var p1 := OverOne(regs[0], w, prev);
    var p2 := OverOne(regs[1], w, p1);
    var p3 := OverOne(regs[2], w, p2);
    assert Over(regs, w, prev) == Over(t1, w, p1);
    assert Over(t1, w, p1) == Over(t2, w, p2);
    assert Over(t2, w, p2) == Over(t3, w, p3);
    assert Over(t3, w, p3) == Over([], w, OverOne(regs[3], w, p3));
  }

  /** Each row of kmap spans its range. */
  lemma KmapRanges(data: uint32, w: uint32)
    requires Layout(data)
    ensures var regs := Kmap(data);
      && (InRegion(regs[0], w) <==> KERNBASE <= w < KERNLINK)
      && (InRegion(regs[1], w) <==> KERNLINK <= w < data)
      && (InRegion(regs[2], w) <==> data <= w < P2V(PHYSTOP))
      && (InRegion(regs[3], w) <==> DEVSPACE <= w)
  {
    var regs := Kmap(data);
    KmapRows(data);
    RegionRange(regs[0], w);
    RegionRange(regs[1], w);
    RegionRange(regs[2], w);
    RegionRange(regs[3], w);
  }

  /** The row holding w gives the entry KernelPte names. */
  lemma KmapPte(data: uint32, k: nat, w: uint32)
    requires Layout(data) && k < 4 && InRegion(Kmap(data)[k], w)
    ensures Some(RegionPte(Kmap(data)[k], w)) == KernelPte(data, w)
  {
    KmapRows(data);
    KmapRanges(data, w);
    hide Kmap, RegionPte, MakePte, InRegion, Size;
    var r := Kmap(data)[k];
    RowPte(r, w);
    if k < 3 {
      assert r.pstart + (PgRoundDown(w) - r.virt) == PgRoundDown(w) - KERNBASE;
    }
  }

  /** Inside a shaped row, w maps to the frame as far into the row's
      physical range as w's page is into its virtual one. */
  lemma RowPte(r: Region, w: uint32)
    requires Shaped(r) && InRegion(r, w)
    ensures r.virt <= PgRoundDown(w) && r.pstart + (PgRoundDown(w) - r.virt) < UINT_MOD
    ensures RegionPte(r, w) == MakePte(r.pstart + (PgRoundDown(w) - r.virt), r.perm)
  {
    RegionFrame(r, w);
    AlignedShift(r.pstart, PgRoundDown(w), r.virt);
  }

  lemma AlignedShift(a: nat, b: nat, c: nat)
    requires a % PGSIZE == 0 && b % PGSIZE == 0 && c % PGSIZE == 0 && c <= b
    ensures (a + (b - c)) % PGSIZE == 0
  {
    var qa, qb, qc := a / PGSIZE, b / PGSIZE, c / PGSIZE;
    assert a + (b - c) == (qa + qb - qc) * PGSIZE;
  }

  /** The four rows of kmap, mapped in order, give exactly KernelPte. */
  lemma KmapMeaning(data: uint32, w: uint32)
    requires Layout(data)
    ensures Over(Kmap(data), w, None) == KernelPte(data, w)
  {
    OverFour(Kmap(data), w, None);
    KmapRanges(data, w);
    forall k: nat | k < 4 && InRegion(Kmap(data)[k], w)
      ensures Some(RegionPte(Kmap(data)[k], w)) == KernelPte(data, w)
    {
      KmapPte(data, k, w);
    }
  }

  /** No page lies in two rows of kmap. */
  lemma KmapDisjoint(data: uint32)
    requires Layout(data)
    ensures Disjoint(Kmap(data))
  {
    forall j, k, u: uint32 | 0 <= j < k < 4 && InRegion(Kmap(data)[j], u)
      ensures !InRegion(Kmap(data)[k], u)
    {
      KmapRanges(data, u);
    }
  }

  /** No page lies in two rows. */
  ghost predicate Disjoint(regs: seq<Region>) {
    forall j, k, u: uint32 :: 0 <= j < k < |regs| && InRegion(regs[j], u) ==> !InRegion(regs[k], u)
  }

  /** The rows' pages are unmapped when the loop starts and no two rows
      share a page, so no mappages call finds a page already mapped: the
      loop does not panic. */
  lemma {:induction false} KmapLoopSafe(s: Phys, pgdir: nat, regs: seq<Region>)
    requires Sep(s, pgdir) && RegionsOk(regs) && Disjoint(regs)
    requires forall k, u: uint32 :: 0 <= k < |regs| && InRegion(regs[k], u) ==> Mapping(s, pgdir, u).None?
    ensures KmapLoop(s, pgdir, regs).0 == Done
    decreases |regs|
  {
    if regs != [] {
      var r := regs[0];
      assert RegionOk(r);
      var m := MapRegion(s, pgdir, r);
      RegionStep(s, pgdir, r, 0);
      MappagesMeaning(s, pgdir, r.virt, Size(r), r.pstart, r.perm, 0);
      if m.0.Panic? {
        var u: uint32 :| Delta(PgRoundDown(r.virt), u) <= MapCount(r.virt, Size(r)) && Mapping(s, pgdir, u).Some?;
        assert InRegion(regs[0], u);
        assert false;
      } else if m.1 == 0 {
        var tail := regs[1..];
        assert RegionsOk(tail) by {
          forall k | 0 <= k < |tail| ensures RegionOk(tail[k]) {
            assert tail[k] == regs[k + 1];
          }
        }
        forall k, u: uint32 | 0 <= k < |tail| && InRegion(tail[k], u)
          ensures Mapping(m.2, pgdir, u).None?
        {
          assert tail[k] == regs[k + 1];
          assert !InRegion(regs[0], u);
          RegionStep(s, pgdir, r, u);
        }
        assert Disjoint(tail) by {
          forall j, k, u: uint32 | 0 <= j < k < |tail| && InRegion(tail[j], u)
            ensures !InRegion(tail[k], u)
          {
            assert tail[j] == regs[j + 1] && tail[k] == regs[k + 1];
          }
        }
        KmapLoopSafe(m.2, pgdir, tail);
      }
    }
  }

  /** Under the linker's layout no mappages call of setupkvm panics (a
      failure can only be running out of pages), and a directory it returns
      maps every page as KernelPte says. */
  lemma SetupkvmKernelMap(s: Phys, data: uint32, w: uint32)
    requires Valid(s) && NoDup(s.freelist) && Layout(data)
    ensures var (o, d, s1) := Setupkvm(s, data);
      (s.freelist != [] ==> KmapLoop(KvmStart(s), s.freelist[0], Kmap(data)).0 == Done)
      && (o == Done && d != 0 ==> Mapping(s1, d, w) == KernelPte(data, w))
  {
    SetupkvmMeaning(s, data, w);
    KmapMeaning(data, w);
    if s.freelist != [] {
      KvmStartFacts(s, data);
      KmapDisjoint(data);
      KmapLoopSafe(KvmStart(s), s.freelist[0], Kmap(data));
    }
  }
}
