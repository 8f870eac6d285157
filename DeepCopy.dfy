// The deep copy of an address space (kernel/vm.c copyuvm with deep set)
// and the page-fault handler pgfaultintr that uses it, as functions on the
// allocator and memory state.
module DeepCopy {
  import opened Param
  import opened Wrappers
  import opened Kalloc
  import opened PageTable
  import opened AddressSpace
  import opened KernelSpace
  import opened UserMem
  import opened CopyUvm

  // ----- pages a directory cannot write -----

  /** Page `t` is neither the directory d, nor one of its present tables,
      nor free: building mappings in d cannot write it. */
  ghost predicate Untouched(s: Phys, d: nat, t: nat) {
    t != d && t !in s.freelist
    && forall i :: 0 <= i < NPDENTRIES && Present(Entry(s, d, i)) ==> TableAt(s, d, i) != t
  }

  /** walkpgdir in d leaves an untouched page untouched and unwritten. */
  lemma WalkUntouched(s: Phys, d: nat, va: uint32, alloc: bool, t: nat)
    requires Sep(s, d) && Untouched(s, d, t)
    ensures var r := Walk(s, d, va, alloc);
      Untouched(r.1, d, t) && Table(r.1, t) == Table(s, t) && Shrinks(s, r.1)
  {
    WalkKeeps(s, d, va, alloc);
    WalkShrinks(s, d, va, alloc);
    if !Present(Entry(s, d, Pdx(va))) && alloc && s.freelist != [] {
      var f := s.freelist[0];
      var s1 := Walk(s, d, va, alloc).1;
      assert f in s.freelist;
      assert Freeable(s.kend, f);
      InstalledTable(f);
      assert Table(s1, d) == Table(s, d)[Pdx(va) := Or7(V2P(f))];
      forall i | 0 <= i < NPDENTRIES && Present(Entry(s1, d, i))
        ensures TableAt(s1, d, i) != t
      {
        if i != Pdx(va) {
          assert Entry(s1, d, i) == Entry(s, d, i);
        }
      }
    }
  }

  /** One iteration of mappages in d leaves an untouched page untouched and
      unwritten. */
  lemma MapOneUntouched(s: Phys, d: nat, a: uint32, pa: uint32, perm: nat, t: nat)
    requires Sep(s, d) && Untouched(s, d, t) && pa % PGSIZE == 0 && perm < PGSIZE
    ensures var r := MapOne(s, d, a, pa, perm);
      Sep(r.2, d) && Untouched(r.2, d, t) && Table(r.2, t) == Table(s, t) && Shrinks(s, r.2) && SameOutside(s, r.2)
  {
    var (p, s1) := Walk(s, d, a, true);
    WalkUntouched(s, d, a, true, t);
    WalkKeeps(s, d, a, true);
    MapOneMapping(s, d, a, pa, perm, a);
    if p.Some? && !Present(Load(s1, p.value)) {
      StoreKeeps(s1, d, a, MakePte(pa, perm), a);
      var s2 := MapOne(s, d, a, pa, perm).2;
      assert TableAt(s1, d, Pdx(a)) != d;
      assert Table(s2, d) == Table(s1, d);
      forall i | 0 <= i < NPDENTRIES && Present(Entry(s2, d, i))
        ensures TableAt(s2, d, i) != t
      {
        assert Entry(s2, d, i) == Entry(s1, d, i);
      }
    }
  }

  /** mappages' loop in d leaves an untouched page untouched and unwritten. */
  lemma {:induction false} MapLoopUntouched(s: Phys, d: nat, a: uint32, pa: uint32, perm: nat, n: nat, t: nat)
    requires Sep(s, d) && Untouched(s, d, t) && pa % PGSIZE == 0 && perm < PGSIZE
    ensures var r := MapLoop(s, d, a, pa, perm, n);
      Sep(r.2, d) && Untouched(r.2, d, t) && Table(r.2, t) == Table(s, t) && Shrinks(s, r.2) && SameOutside(s, r.2)
    decreases n
  {
    hide MapOne;
    var r := MapOne(s, d, a, pa, perm);
    MapOneUntouched(s, d, a, pa, perm, t);
    if r.0 == Done && r.1 == 0 && n > 0 {
      MapLoopUntouched(r.2, d, NextPage(a), NextPage(pa), perm, n - 1, t);
    }
  }

  /** mappages in d leaves an untouched page untouched and unwritten. */
  lemma MappagesUntouched(s: Phys, d: nat, va: uint32, size: uint32, pa: uint32, perm: nat, t: nat)
    requires Sep(s, d) && Untouched(s, d, t) && pa % PGSIZE == 0 && perm < PGSIZE
    ensures var r := Mappages(s, d, va, size, pa, perm);
      Sep(r.2, d) && Untouched(r.2, d, t) && Table(r.2, t) == Table(s, t) && Shrinks(s, r.2) && SameOutside(s, r.2)
  {
    MapLoopUntouched(s, d, PgRoundDown(va), pa, perm, MapCount(va, size), t);
  }

  /** The parent's directory and each of its tables are untouched by d. */
  ghost predicate Apart(s: Phys, pgdir: nat, d: nat) {
    Untouched(s, d, pgdir)
    && forall j :: 0 <= j < NPDENTRIES && Present(Entry(s, pgdir, j)) ==> Untouched(s, d, TableAt(s, pgdir, j))
  }

  /** s1 holds the parent's directory and every table it names as s does. */
  ghost predicate SameDir(s: Phys, s1: Phys, pgdir: nat) {
    Table(s1, pgdir) == Table(s, pgdir)
    && forall j :: 0 <= j < NPDENTRIES && Present(Entry(s, pgdir, j)) ==> Table(s1, TableAt(s, pgdir, j)) == Table(s, TableAt(s, pgdir, j))
  }

  /** A directory whose pages were not written translates as before. */
  lemma SameDirMapping(s: Phys, s1: Phys, pgdir: nat, w: uint32)
    requires SameDir(s, s1, pgdir)
    ensures Mapping(s1, pgdir, w) == Mapping(s, pgdir, w)
    ensures Lookup(s1, pgdir, w) == Lookup(s, pgdir, w)
    ensures Lookup(s, pgdir, w).Some? ==> Load(s1, Lookup(s, pgdir, w).value) == Load(s, Lookup(s, pgdir, w).value)
    ensures PageOk(s1, pgdir, w, true) == PageOk(s, pgdir, w, true)
  {
    assert Entry(s1, pgdir, Pdx(w)) == Entry(s, pgdir, Pdx(w));
  }

  lemma SameDirTrans(s: Phys, s1: Phys, s2: Phys, pgdir: nat)
    requires SameDir(s, s1, pgdir) && SameDir(s1, s2, pgdir)
    ensures SameDir(s, s2, pgdir)
  {
    forall j | 0 <= j < NPDENTRIES && Present(Entry(s, pgdir, j))
      ensures Table(s2, TableAt(s, pgdir, j)) == Table(s, TableAt(s, pgdir, j))
    {
      assert Entry(s1, pgdir, j) == Entry(s, pgdir, j);
    }
  }

  /** mappages in d keeps the parent apart and unwritten. */
  lemma MappagesApart(s: Phys, pgdir: nat, d: nat, va: uint32, size: uint32, pa: uint32, perm: nat)
    requires Sep(s, d) && Apart(s, pgdir, d) && pa % PGSIZE == 0 && perm < PGSIZE
    ensures var r := Mappages(s, d, va, size, pa, perm);
      Sep(r.2, d) && Apart(r.2, pgdir, d) && SameDir(s, r.2, pgdir) && Shrinks(s, r.2) && SameOutside(s, r.2)
  {
    var r := Mappages(s, d, va, size, pa, perm);
    MappagesUntouched(s, d, va, size, pa, perm, pgdir);
    forall j | 0 <= j < NPDENTRIES && Present(Entry(s, pgdir, j))
      ensures Untouched(r.2, d, TableAt(s, pgdir, j)) && Table(r.2, TableAt(s, pgdir, j)) == Table(s, TableAt(s, pgdir, j))
    {
      MappagesUntouched(s, d, va, size, pa, perm, TableAt(s, pgdir, j));
    }
    forall j | 0 <= j < NPDENTRIES && Present(Entry(r.2, pgdir, j))
      ensures Untouched(r.2, d, TableAt(r.2, pgdir, j))
    {
      assert Entry(r.2, pgdir, j) == Entry(s, pgdir, j);
    }
  }

  // ----- one page of the deep copy -----

  /** The present entry e with PTE_W set keeps its other flag bits. */
  lemma CopyFlags(e: uint32)
    requires Present(e)
    ensures OrW(PteFlags(e)) < PGSIZE && Or1(OrW(PteFlags(e))) == OrW(PteFlags(e))
  {
    LowBitsOfOffset(e);
  }

  /** One page of copyuvm's deep loop: panic when a's table or entry is
      missing; otherwise take a free page (none: fail), copy the parent's
      frame into it, map it at a in d with the parent's flags and PTE_W
      (no table: fail), then count it: a reference and allocpages++.
      The bool says the iteration completed. */
  function DeepOne(s: Phys, pgdir: nat, d: nat, a: uint32): (r: (Outcome, bool, Phys))
    requires Valid(s)
    ensures r.0 == Done && r.1 ==> Valid(r.2)
  {
    var p := Lookup(s, pgdir, a);
    if p.None? then (Panic("copyuvm: pte should exist"), false, s)
    else
      var e := Load(s, p.value);
      if !Present(e) then (Panic("copyuvm: page not present"), false, s)
      else
        var (mem, s1) := AllocPage(s);
        if mem == 0 then (Done, false, s1)
        else
          AllocPageValid(s);
          FreeFrameAligned(s, mem);
          CopyFlags(e);
          var s2 := s1.(pages := s1.pages[mem := PageOf(s1.pages, P2V(PteAddr(e)))]);
          var m := Mappages(s2, d, a, PGSIZE, V2P(mem), OrW(PteFlags(e)));
          MapLoopShrinks(s2, d, PgRoundDown(a), V2P(mem), OrW(PteFlags(e)), MapCount(a, PGSIZE));
          if m.0.Panic? then (m.0, false, m.2)
          else if m.1 < 0 then (Done, false, m.2)
          else (Done, true, AddRef(m.2, mem, 1).(allocpages := AddU(m.2.allocpages, 1)))
  }

  /** The state after the deep loop's kalloc and memmove: the head of the
      free list holds the bytes of the page at `src`. */
  function CopyStart(s: Phys, src: nat): Phys
    requires s.freelist != []
  {
    s.(freelist := s.freelist[1..], pages := s.pages[s.freelist[0] := PageOf(s.pages, src)])
  }

  /** chgpgrefc(mem, 1) and allocpages++. */
  function Counted(s: Phys, mem: uint32): Phys {
    AddRef(s, mem, 1).(allocpages := AddU(s.allocpages, 1))
  }

  /** A completed iteration of the deep loop, spelled out. */
  lemma DeepOneForm(s: Phys, pgdir: nat, d: nat, a: uint32, s1: Phys)
    requires Valid(s) && DeepOne(s, pgdir, d, a) == (Done, true, s1)
    ensures PageOk(s, pgdir, a, true) && s.freelist != [] && s.freelist[0] in s.freelist
    ensures var e, mem := Pte(s, pgdir, a), s.freelist[0];
      mem % PGSIZE == 0 && V2P(mem) % PGSIZE == 0 && Present(e) && OrW(PteFlags(e)) < PGSIZE
      && var m := Mappages(CopyStart(s, P2V(PteAddr(e))), d, a, PGSIZE, V2P(mem), OrW(PteFlags(e)));
      m.0 == Done && m.1 == 0 && s1 == Counted(m.2, mem)
  {
    AllocPageValid(s);
    FreeFrameAligned(s, s.freelist[0]);
    CopyFlags(Pte(s, pgdir, a));
  }

  /** One completed iteration at page `a`, seen from page w: d, which kept
      the separation facts and the parent apart, now maps the page of `a`
      (unmapped before) to the frame of the head `mem` of the free list with
      the parent's flags and PTE_W; no other page of d changed, and neither
      did the parent's directory and tables. */
  ghost predicate DeepStep(s: Phys, s1: Phys, pgdir: nat, d: nat, a: uint32, w: uint32) {
    s.freelist != [] && s.freelist[0] % PGSIZE == 0 && s.freelist[0] !in s1.freelist
    && Sep(s1, d) && Apart(s1, pgdir, d) && SameDir(s, s1, pgdir) && Shrinks(s, s1) && s1.useLock == s.useLock
    && V2P(s.freelist[0]) % PGSIZE == 0 && Present(Pte(s, pgdir, a)) && OrW(PteFlags(Pte(s, pgdir, a))) < PGSIZE
    && Mapping(s1, d, w) == (if w / PGSIZE == a / PGSIZE then Some(MakePte(V2P(s.freelist[0]), OrW(PteFlags(Pte(s, pgdir, a))))) else Mapping(s, d, w))
    && (w / PGSIZE == a / PGSIZE ==> Mapping(s, d, w).None?)
  }

  /** Untouched and Apart survive any change that writes no table and
      only takes pages off the free list. */
  lemma ApartShrink(s: Phys, s1: Phys, pgdir: nat, d: nat)
    requires Apart(s, pgdir, d) && s1.tables == s.tables && forall x :: x in s1.freelist ==> x in s.freelist
    ensures Apart(s1, pgdir, d) && SameDir(s, s1, pgdir)
  {
    assert Table(s1, d) == Table(s, d) && Table(s1, pgdir) == Table(s, pgdir);
    forall i | 0 <= i < NPDENTRIES
      ensures Entry(s1, d, i) == Entry(s, d, i) && TableAt(s1, d, i) == TableAt(s, d, i)
      ensures Entry(s1, pgdir, i) == Entry(s, pgdir, i) && TableAt(s1, pgdir, i) == TableAt(s, pgdir, i)
    {
    }
  }

  /** kalloc and memmove keep the separation facts and the parent apart. */
  lemma CopyStartApart(s: Phys, pgdir: nat, d: nat, src: nat)
    requires Sep(s, d) && Apart(s, pgdir, d) && s.freelist != []
    ensures var s2 := CopyStart(s, src);
      Sep(s2, d) && Apart(s2, pgdir, d) && SameDir(s, s2, pgdir) && Shrinks(s, s2)
      && s.freelist[0] !in s2.freelist && s2.tables == s.tables
  {
    var s2 := CopyStart(s, src);
    AllocPageSep(s, d);
    assert Sep(AllocPage(s).1, d);
    KfreeListTail(s.freelist);
    assert forall x :: x in s2.freelist ==> x in s.freelist;
    ApartShrink(s, s2, pgdir, d);
  }

  /** Counting the page changes no table and no free page. */
  lemma CountedSame(s: Phys, pgdir: nat, d: nat, mem: uint32)
    requires Sep(s, d) && Apart(s, pgdir, d)
    ensures var s1 := Counted(s, mem);
      Sep(s1, d) && Apart(s1, pgdir, d) && SameDir(s, s1, pgdir) && s1.tables == s.tables
      && s1.freelist == s.freelist && s1.useLock == s.useLock
  {
    ApartShrink(s, Counted(s, mem), pgdir, d);
    assert Table(Counted(s, mem), d) == Table(s, d);
  }

  /** The mappages of one page in d, with a frame and flags that fit. */
  lemma MapCopy(s: Phys, pgdir: nat, d: nat, a: uint32, pa: uint32, perm: nat, w: uint32)
    requires Sep(s, d) && Apart(s, pgdir, d) && a % PGSIZE == 0 && pa % PGSIZE == 0 && perm < PGSIZE
    requires Mappages(s, d, a, PGSIZE, pa, perm).0 == Done && Mappages(s, d, a, PGSIZE, pa, perm).1 == 0
    ensures var m := Mappages(s, d, a, PGSIZE, pa, perm).2;
      Sep(m, d) && Apart(m, pgdir, d) && SameDir(s, m, pgdir) && Shrinks(s, m) && SameOutside(s, m)
      && Mapping(m, d, w) == (if w / PGSIZE == a / PGSIZE then Some(MakePte(pa, perm)) else Mapping(s, d, w))
      && (w / PGSIZE == a / PGSIZE ==> Mapping(s, d, w).None?)
  {
    MappagesApart(s, pgdir, d, a, PGSIZE, pa, perm);
    assert PgRoundDown(a) == a && MapCount(a, PGSIZE) == 0;
    MappagesMeaning(s, d, a, PGSIZE, pa, perm, w);
    DeltaZero(a, w);
    FrameZero(pa);
  }

  lemma DeepOneMapping(s: Phys, pgdir: nat, d: nat, a: uint32, s1: Phys, w: uint32)
    requires Sep(s, d) && Apart(s, pgdir, d) && a % PGSIZE == 0
    requires DeepOne(s, pgdir, d, a) == (Done, true, s1)
    ensures PageOk(s, pgdir, a, true) && DeepStep(s, s1, pgdir, d, a, w)
  {
    hide DeepOne;
    DeepOneForm(s, pgdir, d, a, s1);
    var e, mem := Pte(s, pgdir, a), s.freelist[0];
    var perm := OrW(PteFlags(e));
    var s2 := CopyStart(s, P2V(PteAddr(e)));
    CopyStartApart(s, pgdir, d, P2V(PteAddr(e)));
    MappingTables(s2, s, d, w);
    var m := Mappages(s2, d, a, PGSIZE, V2P(mem), perm).2;
    MapCopy(s2, pgdir, d, a, V2P(mem), perm, w);
    CountedSame(m, pgdir, d, mem);
    MappingTables(s1, m, d, w);
    SameDirTrans(s, s2, m, pgdir);
    SameDirTrans(s, m, s1, pgdir);
  }

  /** mappages writes only page tables and the free list. */
  lemma MapOneOutside(s: Phys, d: nat, a: uint32, pa: uint32, perm: nat)
    requires pa % PGSIZE == 0 && perm < PGSIZE
    ensures SameOutside(s, MapOne(s, d, a, pa, perm).2)
  {
    var (p, s1) := Walk(s, d, a, true);
    assert SameOutside(s, s1);
  }

  lemma {:induction false} MapLoopOutside(s: Phys, d: nat, a: uint32, pa: uint32, perm: nat, n: nat)
    requires pa % PGSIZE == 0 && perm < PGSIZE
    ensures SameOutside(s, MapLoop(s, d, a, pa, perm, n).2)
    decreases n
  {
    hide MapOne;
    var r := MapOne(s, d, a, pa, perm);
    MapOneOutside(s, d, a, pa, perm);
    if r.0 == Done && r.1 == 0 && n > 0 {
      MapLoopOutside(r.2, d, NextPage(a), NextPage(pa), perm, n - 1);
    }
  }

  /** chgpgrefc(mem, 1) moves mem's counter alone, by one modulo 256. */
  lemma CountedRefc(s: Phys, mem: uint32, k: nat)
    ensures Refc(Counted(s, mem), k) == (if s.useLock && k == RefIndex(mem) then (Refc(s, k) + 1) % 256 else Refc(s, k))
  {
    if k != RefIndex(mem) {
      RefcountArithmetic(s, mem, 1, k);
    }
  }

  /** The bytes, counters and allocpages after a completed iteration: the
      head `mem` of the free list holds the bytes of the parent's frame, its
      counter gained one (once the counters are on), allocpages gained one,
      and nothing else moved. */
  lemma DeepOneCounted(s: Phys, pgdir: nat, d: nat, a: uint32, s1: Phys, k: nat)
    requires Valid(s) && DeepOne(s, pgdir, d, a) == (Done, true, s1)
    ensures s.freelist != [] && s1.kend == s.kend && s1.useLock == s.useLock
    ensures var mem := s.freelist[0];
      s1.pages == s.pages[mem := PageOf(s.pages, P2V(PteAddr(Pte(s, pgdir, a))))]
      && Refc(s1, k) == (if s.useLock && k == RefIndex(mem) then (Refc(s, k) + 1) % 256 else Refc(s, k))
      && s1.allocpages == AddU(s.allocpages, 1)
  {
    hide DeepOne, MapLoop, Pte, P2V, V2P, PteAddr, PteFlags, OrW;
    DeepOneForm(s, pgdir, d, a, s1);
    var e, mem := Pte(s, pgdir, a), s.freelist[0];
    var s2 := CopyStart(s, P2V(PteAddr(e)));
    var m := Mappages(s2, d, a, PGSIZE, V2P(mem), OrW(PteFlags(e))).2;
    MapLoopOutside(s2, d, PgRoundDown(a), V2P(mem), OrW(PteFlags(e)), MapCount(a, PGSIZE));
    assert SameOutside(s2, m);
    CountedRefc(m, mem, k);
  }

  /** Two addresses on one page translate alike. */
  lemma SamePage(s: Phys, pgdir: nat, a: uint32, w: uint32)
    requires w / PGSIZE == a / PGSIZE
    ensures Mapping(s, pgdir, w) == Mapping(s, pgdir, a) && Pte(s, pgdir, w) == Pte(s, pgdir, a)
    ensures PageOk(s, pgdir, w, true) == PageOk(s, pgdir, a, true)
  {
    AddressSplit(a);
    AddressSplit(w);
  }

  /** When d does not map the page of `a`, an iteration panics exactly when
      the parent lacks a's table or a's entry is not present. */
  lemma DeepOnePanics(s: Phys, pgdir: nat, d: nat, a: uint32)
    requires Sep(s, d) && Apart(s, pgdir, d) && a % PGSIZE == 0 && Mapping(s, d, a).None?
    ensures DeepOne(s, pgdir, d, a).0.Panic? <==> !PageOk(s, pgdir, a, true)
  {
    if PageOk(s, pgdir, a, true) && s.freelist != [] && s.freelist[0] != 0 {
      var e, mem := Pte(s, pgdir, a), s.freelist[0];
      AllocPageValid(s);
      FreeFrameAligned(s, mem);
      CopyFlags(e);
      var s2 := CopyStart(s, P2V(PteAddr(e)));
      assert AllocPage(s).1.(pages := AllocPage(s).1.pages[mem := PageOf(AllocPage(s).1.pages, P2V(PteAddr(e)))]) == s2;
      CopyStartApart(s, pgdir, d, P2V(PteAddr(e)));
      MappingTables(s2, s, d, a);
      assert PgRoundDown(a) == a && MapCount(a, PGSIZE) == 0;
      MapOneMapping(s2, d, a, V2P(mem), OrW(PteFlags(e)), a);
    }
  }

  // ----- the deep loop -----

  /** for(i = a; i < sz; i += PGSIZE) DeepOne(i), up to the first iteration
      that panics or fails. */
  function DeepLoop(s: Phys, pgdir: nat, d: nat, a: nat, sz: uint32): (Outcome, bool, Phys)
    requires Valid(s) && sz <= KERNBASE
    decreases sz - a
  {
    if a >= sz then (Done, true, s)
    else
      var r := DeepOne(s, pgdir, d, a);
      if r.0.Panic? || !r.1 then r else DeepLoop(r.2, pgdir, d, a + PGSIZE, sz)
  }

  /** A loop that completed, completed its first iteration and then the rest. */
  lemma DeepLoopStep(s: Phys, pgdir: nat, d: nat, a: nat, sz: uint32, s2: Phys) returns (s1: Phys)
    requires Valid(s) && a < sz <= KERNBASE && DeepLoop(s, pgdir, d, a, sz) == (Done, true, s2)
    ensures DeepOne(s, pgdir, d, a) == (Done, true, s1) && Valid(s1)
    ensures DeepLoop(s1, pgdir, d, a + PGSIZE, sz) == (Done, true, s2)
  {
    s1 := DeepOne(s, pgdir, d, a).2;
  }

  /** Every page that was not free holds the bytes it held. */
  ghost predicate KeptBytes(s: Phys, s1: Phys) {
    Shrinks(s, s1) && forall x :: x !in s.freelist ==> PageOf(s1.pages, x) == PageOf(s.pages, x)
  }

  /** A completed iteration keeps every page that was not free. */
  lemma DeepOneKept(s: Phys, pgdir: nat, d: nat, a: uint32, s1: Phys)
    requires Sep(s, d) && Apart(s, pgdir, d) && a % PGSIZE == 0
    requires DeepOne(s, pgdir, d, a) == (Done, true, s1)
    ensures PageOk(s, pgdir, a, true) && KeptBytes(s, s1) && s1.kend == s.kend && s1.useLock == s.useLock
    ensures Sep(s1, d) && Apart(s1, pgdir, d) && SameDir(s, s1, pgdir)
  {
    hide DeepOne;
    DeepOneMapping(s, pgdir, d, a, s1, a);
    DeepOneCounted(s, pgdir, d, a, s1, 0);
    assert s.freelist[0] in s.freelist;
  }

  /** A completed loop keeps the separation facts, the parent's tables, and
      every page that was not free. */
  lemma {:induction false} DeepLoopKeeps(s: Phys, pgdir: nat, d: nat, a: nat, sz: uint32, s2: Phys)
    requires Sep(s, d) && Apart(s, pgdir, d) && a % PGSIZE == 0 && sz <= KERNBASE
    requires DeepLoop(s, pgdir, d, a, sz) == (Done, true, s2)
    ensures Sep(s2, d) && Apart(s2, pgdir, d) && SameDir(s, s2, pgdir)
    ensures KeptBytes(s, s2) && s2.kend == s.kend && s2.useLock == s.useLock
    decreases sz - a
  {
    hide DeepOne;
    if a < sz {
      var s1 := DeepLoopStep(s, pgdir, d, a, sz, s2);
      DeepOneKept(s, pgdir, d, a, s1);
      NextAligned(a);
      DeepLoopKeeps(s1, pgdir, d, a + PGSIZE, sz, s2);
      SameDirTrans(s, s1, s2, pgdir);
    }
  }

  /** The parent's frame behind `e` was not free at the start. */
  ghost predicate InUse(s: Phys, e: uint32) {
    P2V(PteAddr(e)) !in s.freelist
  }

  /** Page w of d maps a frame that was free in s, with the flags of the
      parent's entry e for w and PTE_W, and that frame now holds the bytes
      the parent's frame held in s. */
  ghost predicate Copied(s: Phys, s2: Phys, d: nat, w: uint32, e: uint32) {
    var c := Mapping(s2, d, w);
    c.Some? && PteFlags(c.value) == OrW(PteFlags(e)) && P2V(PteAddr(c.value)) in s.freelist
    && PageOf(s2.pages, P2V(PteAddr(c.value))) == PageOf(s.pages, P2V(PteAddr(e)))
  }

  /** The page this iteration maps: d gets a copy of the parent's frame, and
      the rest of the loop leaves both the entry and the copy alone. */
  lemma CopiedHere(s: Phys, s1: Phys, s2: Phys, pgdir: nat, d: nat, a: uint32, w: uint32)
    requires Valid(s) && a % PGSIZE == 0 && w / PGSIZE == a / PGSIZE
    requires DeepStep(s, s1, pgdir, d, a, w) && PageOk(s, pgdir, a, true)
    requires s1.pages == s.pages[s.freelist[0] := PageOf(s.pages, P2V(PteAddr(Pte(s, pgdir, a))))]
    requires KeptBytes(s1, s2) && Mapping(s2, d, w) == Mapping(s1, d, w)
    ensures Mapping(s, pgdir, w).Some? && Copied(s, s2, d, w, Mapping(s, pgdir, w).value)
  {
    var mem := s.freelist[0];
    assert mem in s.freelist;
    FreeFrameAligned(s, mem);
    SamePage(s, pgdir, a, w);
    CopyFlags(Pte(s, pgdir, a));
    assert P2V(PteAddr(Mapping(s2, d, w).value)) == mem;
  }

  /** A page a later iteration maps: this iteration changed neither the
      parent's entry nor the bytes of the parent's frame. */
  lemma CopiedLater(s: Phys, s1: Phys, s2: Phys, pgdir: nat, d: nat, w: uint32)
    requires SameDir(s, s1, pgdir) && KeptBytes(s, s1) && Mapping(s, pgdir, w).Some? && InUse(s, Mapping(s, pgdir, w).value)
    requires Copied(s1, s2, d, w, Mapping(s1, pgdir, w).value)
    ensures Copied(s, s2, d, w, Mapping(s, pgdir, w).value)
  {
    SameDirMapping(s, s1, pgdir, w);
  }

  lemma ThisPage(a: nat, sz: uint32, w: uint32)
    requires a % PGSIZE == 0 && a < sz <= KERNBASE && w / PGSIZE == a / PGSIZE
    ensures InRange(a, sz, w) && !InRange(a + PGSIZE, sz, w)
  {
    assert PgRoundDown(w) == a;
  }

  /** A completed loop over [a, sz): every page of the range was unmapped in
      d and holds a copy of the parent's page (Copied); every other page of d
      maps what it did. */
  lemma {:induction false} DeepLoopMapping(s: Phys, pgdir: nat, d: nat, a: nat, sz: uint32, s2: Phys, w: uint32)
    requires Sep(s, d) && Apart(s, pgdir, d) && a % PGSIZE == 0 && a < KERNBASE + PGSIZE && sz <= KERNBASE
    requires DeepLoop(s, pgdir, d, a, sz) == (Done, true, s2)
    requires InRange(a, sz, w) && Mapping(s, pgdir, w).Some? ==> InUse(s, Mapping(s, pgdir, w).value)
    ensures InRange(a, sz, w) ==> Mapping(s, pgdir, w).Some? && Mapping(s, d, w).None? && Copied(s, s2, d, w, Mapping(s, pgdir, w).value)
    ensures !InRange(a, sz, w) ==> Mapping(s2, d, w) == Mapping(s, d, w)
    decreases sz - a
  {
    hide DeepOne;
    if a < sz {
      var s1 := DeepLoopStep(s, pgdir, d, a, sz, s2);
      DeepOneMapping(s, pgdir, d, a, s1, w);
      DeepOneKept(s, pgdir, d, a, s1);
      NextAligned(a);
      SameDirMapping(s, s1, pgdir, w);
      DeepLoopMapping(s1, pgdir, d, a + PGSIZE, sz, s2, w);
      if w / PGSIZE == a / PGSIZE {
        ThisPage(a, sz, w);
        DeepOneCounted(s, pgdir, d, a, s1, 0);
        DeepLoopKeeps(s1, pgdir, d, a + PGSIZE, sz, s2);
        CopiedHere(s, s1, s2, pgdir, d, a, w);
      } else {
        InRangeStep(a, sz, w);
        if InRange(a, sz, w) {
          CopiedLater(s, s1, s2, pgdir, d, w);
        }
      }
    }
  }

  /** The counter of an entry's frame is the one of the frame's kernel address. */
  lemma FrameOfEntry(c: uint32)
    ensures RefIndex(P2V(PteAddr(c))) == FrameNo(c)
  {
    var x := PteAddr(c);
    assert SubU(P2V(x), KERNBASE) == x;
    DivMod(c, PGSIZE, x / PGSIZE, c % PGSIZE);
  }

  /** The loop moves no counter but those of free pages. */
  lemma {:induction false} DeepLoopRefcKept(s: Phys, pgdir: nat, d: nat, a: nat, sz: uint32, s2: Phys, k: nat)
    requires Sep(s, d) && Apart(s, pgdir, d) && a % PGSIZE == 0 && sz <= KERNBASE
    requires DeepLoop(s, pgdir, d, a, sz) == (Done, true, s2)
    requires forall x :: x in s.freelist ==> RefIndex(x) != k
    ensures Refc(s2, k) == Refc(s, k)
    decreases sz - a
  {
    hide DeepOne;
    if a < sz {
      var s1 := DeepLoopStep(s, pgdir, d, a, sz, s2);
      DeepOneKept(s, pgdir, d, a, s1);
      DeepOneCounted(s, pgdir, d, a, s1, k);
      assert s.freelist[0] in s.freelist;
      NextAligned(a);
      DeepLoopRefcKept(s1, pgdir, d, a + PGSIZE, sz, s2, k);
    }
  }

  /** Past the iteration that took `mem`, no later one moves mem's counter. */
  lemma AfterTaken(s: Phys, s1: Phys, mem: uint32)
    requires Valid(s) && mem in s.freelist && mem !in s1.freelist && Shrinks(s, s1)
    ensures forall x :: x in s1.freelist ==> RefIndex(x) != RefIndex(mem)
  {
    forall x | x in s1.freelist
      ensures RefIndex(x) != RefIndex(mem)
    {
      RefIndexDistinct(s, x, mem);
    }
  }

  /** The page this iteration maps: its frame's counter gained one here,
      and the rest of the loop leaves it alone. */
  lemma RefcHere(s: Phys, s1: Phys, s2: Phys, pgdir: nat, d: nat, a: nat, sz: uint32, w: uint32)
    requires Sep(s, d) && Apart(s, pgdir, d) && a % PGSIZE == 0 && a < sz <= KERNBASE && w / PGSIZE == a / PGSIZE
    requires DeepOne(s, pgdir, d, a) == (Done, true, s1) && DeepLoop(s1, pgdir, d, a + PGSIZE, sz) == (Done, true, s2)
    ensures Mapping(s2, d, w).Some? && P2V(PteAddr(Mapping(s2, d, w).value)) in s.freelist
    ensures var f := FrameNo(Mapping(s2, d, w).value);
      Refc(s2, f) == if s.useLock then (Refc(s, f) + 1) % 256 else Refc(s, f)
  {
    hide DeepOne;
    DeepOneMapping(s, pgdir, d, a, s1, w);
    DeepOneKept(s, pgdir, d, a, s1);
    var mem := s.freelist[0];
    assert mem in s.freelist;
    NextAligned(a);
    ThisPage(a, sz, w);
    DeepOneCounted(s, pgdir, d, a, s1, RefIndex(mem));
    DeepLoopMapping(s1, pgdir, d, a + PGSIZE, sz, s2, w);
    var c := Mapping(s2, d, w).value;
    FrameOfEntry(c);
    FreeFrameAligned(s, mem);
    assert P2V(PteAddr(c)) == mem;
    AfterTaken(s, s1, mem);
    DeepLoopRefcKept(s1, pgdir, d, a + PGSIZE, sz, s2, RefIndex(mem));
  }

  /** A page a later iteration maps: its frame was still free after this
      iteration, so this iteration did not move its counter. */
  lemma RefcLater(s: Phys, s1: Phys, s2: Phys, pgdir: nat, d: nat, a: uint32, c: uint32)
    requires Valid(s) && DeepOne(s, pgdir, d, a) == (Done, true, s1) && s.freelist != [] && s.freelist[0] !in s1.freelist
    requires P2V(PteAddr(c)) in s1.freelist && Shrinks(s, s1)
    requires Refc(s2, FrameNo(c)) == if s1.useLock then (Refc(s1, FrameNo(c)) + 1) % 256 else Refc(s1, FrameNo(c))
    ensures P2V(PteAddr(c)) in s.freelist
    ensures Refc(s2, FrameNo(c)) == if s.useLock then (Refc(s, FrameNo(c)) + 1) % 256 else Refc(s, FrameNo(c))
  {
    hide DeepOne;
    var f, mem := P2V(PteAddr(c)), s.freelist[0];
    FrameOfEntry(c);
    DeepOneCounted(s, pgdir, d, a, s1, RefIndex(f));
    assert mem in s.freelist && f != mem;
    RefIndexDistinct(s, f, mem);
  }

  /** A completed loop over [a, sz) took one reference to each frame it
      mapped in d (chgpgrefc(mem, 1)), once the counters are on. */
  lemma {:induction false} DeepLoopRefc(s: Phys, pgdir: nat, d: nat, a: nat, sz: uint32, s2: Phys, w: uint32)
    requires Sep(s, d) && Apart(s, pgdir, d) && a % PGSIZE == 0 && a < KERNBASE + PGSIZE && sz <= KERNBASE
    requires DeepLoop(s, pgdir, d, a, sz) == (Done, true, s2)
    requires InRange(a, sz, w) && Mapping(s, pgdir, w).Some? ==> InUse(s, Mapping(s, pgdir, w).value)
    ensures InRange(a, sz, w) ==>
      Mapping(s2, d, w).Some? && P2V(PteAddr(Mapping(s2, d, w).value)) in s.freelist
      && var f := FrameNo(Mapping(s2, d, w).value);
      Refc(s2, f) == if s.useLock then (Refc(s, f) + 1) % 256 else Refc(s, f)
    decreases sz - a
  {
    hide DeepOne;
    if a < sz && InRange(a, sz, w) {
      var s1 := DeepLoopStep(s, pgdir, d, a, sz, s2);
      if w / PGSIZE == a / PGSIZE {
        RefcHere(s, s1, s2, pgdir, d, a, sz, w);
      } else {
        DeepOneMapping(s, pgdir, d, a, s1, w);
        DeepOneKept(s, pgdir, d, a, s1);
        NextAligned(a);
        InRangeStep(a, sz, w);
        SameDirMapping(s, s1, pgdir, w);
        DeepLoopRefc(s1, pgdir, d, a + PGSIZE, sz, s2, w);
        RefcLater(s, s1, s2, pgdir, d, a, Mapping(s2, d, w).value);
      }
    }
  }

  /** When d maps nothing in [a, sz), the loop panics only at a page of the
      range whose table or entry the parent lacks, and never when the parent
      maps every page of the range. */
  lemma {:induction false} DeepLoopPanics(s: Phys, pgdir: nat, d: nat, a: nat, sz: uint32)
    requires Sep(s, d) && Apart(s, pgdir, d) && a % PGSIZE == 0 && a < KERNBASE + PGSIZE && sz <= KERNBASE
    requires forall u: uint32 :: InRange(a, sz, u) ==> Mapping(s, d, u).None?
    ensures DeepLoop(s, pgdir, d, a, sz).0.Panic? ==> exists u: uint32 :: InRange(a, sz, u) && !PageOk(s, pgdir, u, true)
    ensures (forall u: uint32 :: InRange(a, sz, u) ==> PageOk(s, pgdir, u, true)) ==> !DeepLoop(s, pgdir, d, a, sz).0.Panic?
    decreases sz - a
  {
    hide DeepOne;
    if a < sz {
      var r := DeepOne(s, pgdir, d, a);
      ThisPage(a, sz, a);
      DeepOnePanics(s, pgdir, d, a);
      if r.0 == Done && r.1 {
        var s1 := r.2;
        DeepOneKept(s, pgdir, d, a, s1);
        NextAligned(a);
        forall u: uint32 | InRange(a + PGSIZE, sz, u)
          ensures InRange(a, sz, u) && Mapping(s1, d, u).None? && PageOk(s1, pgdir, u, true) == PageOk(s, pgdir, u, true)
        {
          if u / PGSIZE == a / PGSIZE {
            ThisPage(a, sz, u);
          }
          InRangeStep(a, sz, u);
          DeepOneMapping(s, pgdir, d, a, s1, u);
          SameDirMapping(s, s1, pgdir, u);
        }
        DeepLoopPanics(s1, pgdir, d, a + PGSIZE, sz);
      }
    }
  }

  /** The number of pages the loop from `a` visits below sz. */
  function Pages(a: nat, sz: nat): nat {
    if a >= sz then 0 else (sz - a + PGSIZE - 1) / PGSIZE
  }

  lemma PagesStep(a: nat, sz: nat)
    requires a < sz
    ensures Pages(a, sz) == 1 + Pages(a + PGSIZE, sz)
  {
    if a + PGSIZE < sz {
      var n := sz - a - PGSIZE + PGSIZE - 1;
      DivMod(n + PGSIZE, PGSIZE, n / PGSIZE + 1, n % PGSIZE);
    } else {
      DivMod(sz - a + PGSIZE - 1, PGSIZE, 1, sz - a - 1);
    }
  }

  lemma ModAdd(x: nat, p: nat)
    ensures ((x % UINT_MOD) + p) % UINT_MOD == (x + p) % UINT_MOD
  {
    var q := x / UINT_MOD;
    var r := (x % UINT_MOD + p) % UINT_MOD;
    var q2 := (x % UINT_MOD + p) / UINT_MOD;
    DivMod(x + p, UINT_MOD, q + q2, r);
  }

  /** A completed loop added one to allocpages per page, modulo 2^32. */
  lemma {:induction false} DeepLoopCount(s: Phys, pgdir: nat, d: nat, a: nat, sz: uint32, s2: Phys)
    requires Valid(s) && sz <= KERNBASE && DeepLoop(s, pgdir, d, a, sz) == (Done, true, s2)
    ensures s2.allocpages == (s.allocpages + Pages(a, sz)) % UINT_MOD
    decreases sz - a
  {
    hide DeepOne;
    if a < sz {
      var s1 := DeepLoopStep(s, pgdir, d, a, sz, s2);
      DeepOneCounted(s, pgdir, d, a, s1, 0);
      DeepLoopCount(s1, pgdir, d, a + PGSIZE, sz, s2);
      PagesStep(a, sz);
      ModAdd(s.allocpages + 1, Pages(a + PGSIZE, sz));
    }
  }

  // ----- copyuvm(pgdir, sz, 1) -----

  /** setupkvm's rows take tables only from the free list. */
  lemma {:induction false} KmapLoopValid(s: Phys, pgdir: nat, regs: seq<Region>)
    requires RegionsOk(regs)
    ensures Shrinks(s, KmapLoop(s, pgdir, regs).2)
    ensures Valid(s) ==> Valid(KmapLoop(s, pgdir, regs).2)
    decreases |regs|
  {
    if regs != [] {
      var r := regs[0];
      assert RegionOk(r);
      var m := MapRegion(s, pgdir, r);
      MapLoopShrinks(s, pgdir, PgRoundDown(r.virt), r.pstart, r.perm, MapCount(r.virt, SubU(r.pend, r.pstart)));
      var tail := regs[1..];
      assert RegionsOk(tail) by {
        forall k | 0 <= k < |tail| ensures RegionOk(tail[k]) {
          assert tail[k] == regs[k + 1];
        }
      }
      if m.0.Done? && m.1 >= 0 {
        KmapLoopValid(m.2, pgdir, tail);
      }
    }
  }

  /** setupkvm's rows keep the parent apart from the new directory. */
  lemma {:induction false} KmapLoopApart(s: Phys, pgdir: nat, d: nat, regs: seq<Region>)
    requires Sep(s, d) && Apart(s, pgdir, d) && RegionsOk(regs)
    ensures var s1 := KmapLoop(s, d, regs).2;
      Sep(s1, d) && Apart(s1, pgdir, d) && SameDir(s, s1, pgdir) && Shrinks(s, s1)
    decreases |regs|
  {
    if regs != [] {
      var r := regs[0];
      assert RegionOk(r);
      var m := MapRegion(s, d, r);
      MappagesApart(s, pgdir, d, r.virt, SubU(r.pend, r.pstart), r.pstart, r.perm);
      var tail := regs[1..];
      assert RegionsOk(tail) by {
        forall k | 0 <= k < |tail| ensures RegionOk(tail[k]) {
          assert tail[k] == regs[k + 1];
        }
      }
      if m.0.Done? && m.1 >= 0 {
        KmapLoopApart(m.2, pgdir, d, tail);
        SameDirTrans(s, m.2, KmapLoop(m.2, d, tail).2, pgdir);
      }
    }
  }

  /** setupkvm leaves a valid allocator when it returns a directory. */
  lemma SetupkvmValid(s: Phys, data: uint32)
    requires Valid(s) && data % PGSIZE == 0
    ensures var (o, d, s1) := Setupkvm(s, data);
      o == Done && d != 0 ==> Valid(s1) && Shrinks(s, s1)
  {
    if s.freelist != [] && s.freelist[0] != 0 {
      AllocPageValid(s);
      var d := s.freelist[0];
      var s1 := AllocPage(s).1;
      KmapLoopValid(s1.(pages := s1.pages[d := Fill(0)], tables := s1.tables[d := map[]]), d, Kmap(data));
    }
  }

  /** The new directory, taken from the free list, starts apart from a
      parent that satisfies the separation facts. */
  lemma StartApart(s: Phys, pgdir: nat)
    requires Sep(s, pgdir) && s.freelist != []
    ensures Apart(KvmStart(s), pgdir, s.freelist[0]) && SameDir(s, KvmStart(s), pgdir)
  {
    var d, s1 := s.freelist[0], KvmStart(s);
    assert d in s.freelist;
    assert Table(s1, d) == map[];
    assert Table(s1, pgdir) == Table(s, pgdir);
    assert forall x :: x in s1.freelist ==> x in s.freelist;
    forall j | 0 <= j < NPDENTRIES && Present(Entry(s1, pgdir, j))
      ensures Untouched(s1, d, TableAt(s1, pgdir, j)) && Table(s1, TableAt(s1, pgdir, j)) == Table(s, TableAt(s, pgdir, j))
    {
      assert Entry(s1, pgdir, j) == Entry(s, pgdir, j);
    }
  }

  /** setupkvm keeps the parent's tables and the parent apart from the new
      directory. */
  lemma SetupkvmApart(s: Phys, pgdir: nat, data: uint32)
    requires Sep(s, pgdir) && data % PGSIZE == 0
    ensures var (o, d, s1) := Setupkvm(s, data);
      o == Done && d != 0 ==> Apart(s1, pgdir, d) && SameDir(s, s1, pgdir)
  {
    if s.freelist != [] {
      var d := s.freelist[0];
      KvmStartFacts(s, data);
      StartApart(s, pgdir);
      KmapLoopApart(KvmStart(s), pgdir, d, Kmap(data));
      SameDirTrans(s, KvmStart(s), KmapLoop(KvmStart(s), d, Kmap(data)).2, pgdir);
    }
  }

  /** copyuvm(pgdir, sz, 1): a fresh directory from setupkvm (0 when that
      fails), then the deep loop; when an iteration fails the partial
      directory is freed (freevm) and the result is 0. */
  function DeepCopy(s: Phys, pgdir: nat, sz: uint32, data: uint32): (Outcome, nat, Phys)
    requires Valid(s) && sz <= KERNBASE && data % PGSIZE == 0
  {
    var (o, d, s1) := Setupkvm(s, data);
    if o.Panic? then (o, 0, s1)
    else if d == 0 then (Done, 0, s1)
    else
      SetupkvmValid(s, data);
      var (o2, ok, s2) := DeepLoop(s1, pgdir, d, 0, sz);
      if o2.Panic? then (o2, 0, s2)
      else if ok then (Done, d, s2)
      else
        var f := Freevm(s2, d);
        (f.0, 0, f.1)
  }

  /** setupkvm only zeroed the directory page it took, so a copy made after
      it copies what the parent's frame held before it. */
  lemma CopiedFromStart(s: Phys, s1: Phys, s2: Phys, d: nat, w: uint32, e: uint32)
    requires Copied(s1, s2, d, w, e) && InUse(s, e) && Shrinks(s, s1)
    requires d in s.freelist && d !in s1.freelist && s1.pages == s.pages[d := Fill(0)]
    ensures Copied(s, s2, d, w, e) && P2V(PteAddr(Mapping(s2, d, w).value)) != d
  {
    assert P2V(PteAddr(e)) != d;
  }

  /** A copy that returned a directory: setupkvm returned it, it was the
      head of the free list, and the deep loop completed every iteration. */
  lemma DeepCopyDone(s: Phys, pgdir: nat, sz: uint32, data: uint32, d: nat, s2: Phys)
    requires Sep(s, pgdir) && Layout(data) && sz <= KERNBASE
    requires DeepCopy(s, pgdir, sz, data) == (Done, d, s2) && d != 0
    ensures var (o, d0, s1) := Setupkvm(s, data);
      o == Done && d0 == d && s.freelist != [] && d == s.freelist[0] && Valid(s1)
      && DeepLoop(s1, pgdir, d, 0, sz) == (Done, true, s2)
  {
    SetupkvmMeaning(s, data, 0);
    SetupkvmValid(s, data);
  }

  /** The new directory left the free list. */
  lemma SetupkvmTaken(s: Phys, data: uint32)
    requires Valid(s) && NoDup(s.freelist) && data % PGSIZE == 0
    ensures var (o, d, s1) := Setupkvm(s, data);
      o == Done && d != 0 ==> d in s.freelist && d !in s1.freelist && Shrinks(s, s1)
  {
    SetupkvmValid(s, data);
    if s.freelist != [] {
      KfreeListTail(s.freelist);
      KvmStartFacts(s, data);
      KmapLoopValid(KvmStart(s), s.freelist[0], Kmap(data));
    }
  }

  /** The directory setupkvm built and the deep loop filled keeps the
      separation facts and the kernel's map, maps nothing else outside
      [0, sz), and the parent's directory is as it was. */
  lemma DeepCopyKeeps(s: Phys, pgdir: nat, sz: uint32, data: uint32, w: uint32, d: nat, s1: Phys, s2: Phys)
    requires Sep(s, pgdir) && Layout(data) && sz <= KERNBASE
    requires Setupkvm(s, data) == (Done, d, s1) && d != 0 && Valid(s1)
    requires DeepLoop(s1, pgdir, d, 0, sz) == (Done, true, s2)
    ensures Sep(s2, d) && Table(s2, pgdir) == Table(s, pgdir) && Mapping(s2, pgdir, w) == Mapping(s, pgdir, w)
    ensures KERNBASE <= w ==> Mapping(s2, d, w) == KernelPte(data, w)
    ensures w < KERNBASE && !InRange(0, sz, w) ==> Mapping(s2, d, w).None?
  {
    hide Setupkvm, DeepLoop;
    SetupkvmMeaning(s, data, w);
    SetupkvmKernelMap(s, data, w);
    SetupkvmApart(s, pgdir, data);
    DeepLoopKeeps(s1, pgdir, d, 0, sz, s2);
    SameDirTrans(s, s1, s2, pgdir);
    SameDirMapping(s, s2, pgdir, w);
    if !InRange(0, sz, w) {
      DeepLoopMapping(s1, pgdir, d, 0, sz, s2, w);
    }
  }

  /** Each page of [0, sz) in the directory setupkvm built and the deep loop
      filled holds a copy of the parent's page in a frame that was free, with
      one more reference; allocpages counts every page of [0, sz). */
  lemma DeepCopyPages(s: Phys, pgdir: nat, sz: uint32, data: uint32, w: uint32, d: nat, s1: Phys, s2: Phys)
    requires Sep(s, pgdir) && Layout(data) && sz <= KERNBASE
    requires Setupkvm(s, data) == (Done, d, s1) && d != 0 && Valid(s1)
    requires DeepLoop(s1, pgdir, d, 0, sz) == (Done, true, s2)
    requires InRange(0, sz, w) && Mapping(s, pgdir, w).Some? ==> InUse(s, Mapping(s, pgdir, w).value)
    ensures InRange(0, sz, w) ==>
      Mapping(s, pgdir, w).Some? && Copied(s, s2, d, w, Mapping(s, pgdir, w).value)
      && P2V(PteAddr(Mapping(s2, d, w).value)) != d
      && var f := FrameNo(Mapping(s2, d, w).value);
      Refc(s2, f) == if s.useLock then (Refc(s, f) + 1) % 256 else Refc(s, f)
    ensures s2.allocpages == (s.allocpages + Pages(0, sz)) % UINT_MOD
  {
    hide Setupkvm, DeepLoop;
    SetupkvmMeaning(s, data, w);
    SetupkvmApart(s, pgdir, data);
    DeepLoopCount(s1, pgdir, d, 0, sz, s2);
    if InRange(0, sz, w) {
      SetupkvmTaken(s, data);
      SameDirMapping(s, s1, pgdir, w);
      DeepLoopMapping(s1, pgdir, d, 0, sz, s2, w);
      DeepLoopRefc(s1, pgdir, d, 0, sz, s2, w);
      CopiedFromStart(s, s1, s2, d, w, Mapping(s, pgdir, w).value);
    }
  }

  /** copyuvm(pgdir, sz, 1), read page by page: with no free page it returns
      0 and changes nothing. When it returns a directory d, d was the head of
      the free list and satisfies the separation facts, the parent's
      directory and what it maps are unchanged, d maps the kernel as kmap
      says above KERNBASE and nothing below it outside [0, sz), and each page
      of [0, sz) is mapped in the parent and, in d, maps a frame that was
      free, with the parent's flags and PTE_W, holding the bytes the
      parent's frame held, with one more reference; allocpages grew by the
      number of pages below sz. */
  lemma DeepCopyMeaning(s: Phys, pgdir: nat, sz: uint32, data: uint32, w: uint32)
    requires Sep(s, pgdir) && Layout(data) && sz <= KERNBASE
    requires InRange(0, sz, w) && Mapping(s, pgdir, w).Some? ==> InUse(s, Mapping(s, pgdir, w).value)
    ensures var (o, d, s1) := DeepCopy(s, pgdir, sz, data);
      (s.freelist == [] ==> o == Done && d == 0 && s1 == s)
      && (o == Done && d != 0 ==>
            d == s.freelist[0] && Sep(s1, d) && Table(s1, pgdir) == Table(s, pgdir)
            && Mapping(s1, pgdir, w) == Mapping(s, pgdir, w)
            && (KERNBASE <= w ==> Mapping(s1, d, w) == KernelPte(data, w))
            && (w < KERNBASE && !InRange(0, sz, w) ==> Mapping(s1, d, w).None?)
            && (InRange(0, sz, w) ==>
                  Mapping(s, pgdir, w).Some? && Copied(s, s1, d, w, Mapping(s, pgdir, w).value)
                  && P2V(PteAddr(Mapping(s1, d, w).value)) != d
                  && var f := FrameNo(Mapping(s1, d, w).value);
                  Refc(s1, f) == if s.useLock then (Refc(s, f) + 1) % 256 else Refc(s, f))
            && s1.allocpages == (s.allocpages + Pages(0, sz)) % UINT_MOD)
  {
    var r := DeepCopy(s, pgdir, sz, data);
    if s.freelist == [] {
      SetupkvmMeaning(s, data, w);
    }
    if r.0 == Done && r.1 != 0 {
      hide DeepCopy, DeepLoop;
      DeepCopyDone(s, pgdir, sz, data, r.1, r.2);
      DeepCopyKeeps(s, pgdir, sz, data, w, r.1, Setupkvm(s, data).2, r.2);
      DeepCopyPages(s, pgdir, sz, data, w, r.1, Setupkvm(s, data).2, r.2);
    }
  }

  // ----- pgfaultintr -----

  /** The part of the running process the page-fault handler uses. */
  datatype ProcVm = ProcVm(pgdir: nat, sz: uint32)

  /** pgfaultintr as written: no process panics; otherwise the process gets
      a deep copy of its address space (its old directory again when the
      copy returns 0), and then the old directory's user part is always
      released with deallocuvm(oldpgdir, KERNBASE, 0). The result is the
      process's directory afterwards. */
  function PgfaultAsWritten(s: Phys, p: Option<ProcVm>, data: uint32): (r: (Outcome, nat, Phys))
    requires Valid(s) && data % PGSIZE == 0
    requires p.Some? ==> p.value.sz <= KERNBASE
    ensures p.None? ==> r == (Panic("pgfaultintr no proc on cpu"), 0, s)
  {
    if p.None? then (Panic("pgfaultintr no proc on cpu"), 0, s)
    else
      var prev := p.value.pgdir;
      var (o, d, s1) := DeepCopy(s, prev, p.value.sz, data);
      if o.Panic? then (o, prev, s1)
      else
        var now := if d == 0 then prev else d;
        var (o2, _, s2) := Deallocuvm(s1, prev, KERNBASE, 0);
        (o2, now, s2)
  }

  /** pgfaultintr as evidently intended: the old directory is released only
      when the copy replaced it. */
  function Pgfault(s: Phys, p: Option<ProcVm>, data: uint32): (r: (Outcome, nat, Phys))
    requires Valid(s) && data % PGSIZE == 0
    requires p.Some? ==> p.value.sz <= KERNBASE
    ensures p.None? ==> r == (Panic("pgfaultintr no proc on cpu"), 0, s)
  {
    if p.None? then (Panic("pgfaultintr no proc on cpu"), 0, s)
    else
      var prev := p.value.pgdir;
      var (o, d, s1) := DeepCopy(s, prev, p.value.sz, data);
      if o.Panic? || d == 0 then (o, prev, s1)
      else
        var (o2, _, s2) := Deallocuvm(s1, prev, KERNBASE, 0);
        (o2, d, s2)
  }

  /** As written, with no free page the copy fails and the process keeps its
      old directory, yet that directory's user pages are released: a page
      whose frame had at most one reference is unmapped and its frame is
      back on the free list while the process still runs on it. */
  lemma PgfaultAsWrittenLosesPages(s: Phys, pgdir: nat, sz: uint32, data: uint32, w: uint32)
    requires Sep(s, pgdir) && Layout(data) && sz <= KERNBASE && s.freelist == []
    requires UniqueFrames(s, pgdir, 0, KERNBASE) && Deallocuvm(s, pgdir, KERNBASE, 0).0 == Done
    requires w < KERNBASE && Mapping(s, pgdir, w).Some? && Refc(s, FrameNo(Mapping(s, pgdir, w).value)) <= 1
    ensures var (o, now, s1) := PgfaultAsWritten(s, Some(ProcVm(pgdir, sz)), data);
      o == Done && now == pgdir && Mapping(s1, pgdir, w).None?
      && P2V(PteAddr(Mapping(s, pgdir, w).value)) in s1.freelist
  {
    DeepCopyMeaning(s, pgdir, sz, data, w);
    assert PgRoundUp(0) == 0;
    assert PgRoundDown(w) < KERNBASE;
    DeallocuvmMeaning(s, pgdir, KERNBASE, 0, w);
  }

  /** As intended, a copy that fails for want of a free page leaves the
      process and every page it maps as they were. */
  lemma PgfaultKeepsOnFailure(s: Phys, pgdir: nat, sz: uint32, data: uint32)
    requires Sep(s, pgdir) && Layout(data) && sz <= KERNBASE && s.freelist == []
    ensures Pgfault(s, Some(ProcVm(pgdir, sz)), data) == (Done, pgdir, s)
  {
    DeepCopyMeaning(s, pgdir, sz, data, 0);
  }
}
