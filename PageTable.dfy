// Two-level x86 page tables as vm.c builds them (32-bit paging, section 4.3
// of the Intel 64 and IA-32 Architectures Software Developer's Manual,
// Vol. 3A): a directory of 1024 entries indexed by address bits 31:22, each
// present entry naming a page table of 1024 entries indexed by bits 21:12,
// each present entry naming a 4096-byte frame. Entries keep the frame
// address in bits 31:12 and the flags P (bit 0), W (bit 1) and U (bit 2).
module PageTable {
  import opened Param
  import opened Wrappers
  import opened Kalloc

  // ----- addresses and entries -----

  /** PDX(va): bits 31:22. */
  function Pdx(va: uint32): (i: nat)
    ensures i < NPDENTRIES
  {
    va / 0x40_0000
  }

  /** PTX(va): bits 21:12. */
  function Ptx(va: uint32): (i: nat)
    ensures i < NPTENTRIES
  {
    (va / PGSIZE) % NPTENTRIES
  }

  /** PGADDR(d, t, o) */
  function PgAddr(d: nat, t: nat, o: nat): nat {
    d * 0x40_0000 + t * PGSIZE + o
  }

  /** An address is its directory index, table index and offset put back together. */
  lemma AddressSplit(va: uint32)
    ensures PgAddr(Pdx(va), Ptx(va), va % PGSIZE) == va
    ensures va / PGSIZE == Pdx(va) * NPTENTRIES + Ptx(va)
  {
  }

  /** PTE_ADDR(e): bits 31:12. */
  function PteAddr(e: uint32): (a: uint32)
    ensures a % PGSIZE == 0 && a <= e < a + PGSIZE
  {
    e - e % PGSIZE
  }

  /** PTE_FLAGS(e): bits 11:0. */
  function PteFlags(e: uint32): nat { e % PGSIZE }

  /** Flag bits 0, 1 and 2, read off the low bits. */
  predicate Present(e: uint32) { e % 2 == 1 }
  predicate Writable(e: uint32) { e % 4 >= 2 }
  predicate User(e: uint32) { e % 8 >= 4 }

  /** x | PTE_P|PTE_W|PTE_U */
  function Or7(x: uint32): uint32 { x - x % 8 + 7 }

  /** perm | PTE_P */
  function Or1(perm: nat): nat { perm - perm % 2 + 1 }

  /** flags | PTE_W */
  function OrW(f: nat): (r: nat)
    ensures r % 4 >= 2 && r % 2 == f % 2 && r / 4 == f / 4
  {
    if f % 4 >= 2 then f else f + 2
  }

  /** The low three bits of x are those of its offset within the page. */
  lemma LowBitsOfOffset(x: nat)
    ensures x % 2 == (x % PGSIZE) % 2 && x % 4 == (x % PGSIZE) % 4 && x % 8 == (x % PGSIZE) % 8
  {
    var q, r := x / PGSIZE, x % PGSIZE;
    DivMod(x, 8, 512 * q + r / 8, r % 8);
    DivMod(x, 4, 1024 * q + r / 4, r % 4);
    DivMod(x, 2, 2048 * q + r / 2, r % 2);
  }

  /** Bits 0 and 1 of x are those of its low three bits. */
  lemma Low8(x: nat)
    ensures x % 2 == (x % 8) % 2 && x % 4 == (x % 8) % 4
  {
    var q, r := x / 8, x % 8;
    DivMod(x, 2, 4 * q + r / 2, r % 2);
    DivMod(x, 4, 2 * q + r / 4, r % 4);
  }

  /** Taking k off the low bits of e, when they hold at least k. */
  lemma SubLow(e: nat, k: nat)
    requires e % 8 >= k
    ensures (e - k) % 8 == e % 8 - k
    ensures (e - k) - (e - k) % PGSIZE == e - e % PGSIZE
  {
    var q, r := e / PGSIZE, e % PGSIZE;
    LowBitsOfOffset(e);
    DivMod(r, 8, r / 8, r % 8);
    DivMod(e - k, 8, 512 * q + r / 8, r % 8 - k);
    DivMod(e - k, PGSIZE, q, r - k);
  }

  /** A page-aligned frame plus flag bits below PGSIZE. */
  lemma AddLow(pa: nat, f: nat)
    requires pa % PGSIZE == 0 && f < PGSIZE
    ensures (pa + f) % PGSIZE == f && (pa + f) % 8 == f % 8
    ensures pa < UINT_MOD ==> pa + f < UINT_MOD
  {
    var q := pa / PGSIZE;
    DivMod(pa + f, PGSIZE, q, f);
    DivMod(pa + f, 8, 512 * q + f / 8, f % 8);
    if pa < UINT_MOD {
      assert q < 0x10_0000;
    }
  }

  /** perm | PTE_P is present and keeps the W and U bits of perm. */
  lemma Or1Low(perm: nat)
    requires perm < PGSIZE
    ensures Or1(perm) < PGSIZE && Or1(perm) % 8 == perm % 8 - perm % 2 + 1
    ensures Or1(perm) % 2 == 1 && (Or1(perm) % 4 >= 2 <==> perm % 4 >= 2) && (Or1(perm) % 8 >= 4 <==> perm % 8 >= 4)
  {
    var q, r := perm / 8, perm % 8;
    Low8(perm);
    DivMod(r, 2, r / 2, r % 2);
    if r % 2 == 0 {
      DivMod(perm + 1, 8, q, r + 1);
      Low8(perm + 1);
      assert perm % 4 == r % 4 && (perm + 1) % 4 == (r + 1) % 4;
      if r == 0 {
      } else if r == 2 {
      } else if r == 4 {
      } else {
        assert r == 6;
      }
    } else {
      assert Or1(perm) == perm;
    }
  }

  /** e & ~PTE_W */
  function ClearW(e: uint32): (r: uint32)
    ensures !Writable(r) && Present(r) == Present(e) && User(r) == User(e) && PteAddr(r) == PteAddr(e)
  {
    Low8(e);
    if Writable(e) then SubLow(e, 2); Low8(e - 2); e - 2 else e
  }

  /** e & ~PTE_U */
  function ClearU(e: uint32): (r: uint32)
    ensures !User(r) && Present(r) == Present(e) && Writable(r) == Writable(e) && PteAddr(r) == PteAddr(e)
  {
    Low8(e);
    if User(e) then SubLow(e, 4); Low8(e - 4); e - 4 else e
  }

  /** pa | perm | PTE_P for a page-aligned pa and flag bits perm: present,
      with frame pa and flags perm | P. */
  function MakePte(pa: uint32, perm: nat): (e: uint32)
    requires pa % PGSIZE == 0 && perm < PGSIZE
    ensures Present(e) && PteAddr(e) == pa && PteFlags(e) == Or1(perm)
    ensures Writable(e) == (perm % 4 >= 2) && User(e) == (perm % 8 >= 4)
  {
    MakePteBits(pa, perm);
    pa + Or1(perm)
  }

  lemma MakePteBits(pa: uint32, perm: nat)
    requires pa % PGSIZE == 0 && perm < PGSIZE
    ensures pa + Or1(perm) < UINT_MOD
    ensures (pa + Or1(perm)) % PGSIZE == Or1(perm)
    ensures (pa + Or1(perm)) % 2 == 1
    ensures (pa + Or1(perm)) % 4 >= 2 <==> perm % 4 >= 2
    ensures (pa + Or1(perm)) % 8 >= 4 <==> perm % 8 >= 4
  {
    var f := Or1(perm);
    Or1Low(perm);
    AddLow(pa, f);
    Low8(pa + f);
    Low8(f);
  }

  /** V2P(a) and P2V(a), computed on a uint. */
  function V2P(a: uint32): uint32 { SubU(a, KERNBASE) }
  function P2V(a: uint32): uint32 { AddU(a, KERNBASE) }

  lemma P2VV2P(a: uint32)
    ensures P2V(V2P(a)) == a
  {
  }

  // ----- reading and writing entries -----

  /** The 1024 entries of the page at `t` (zero where never written). */
  function Table(s: Phys, t: nat): map<nat, uint32> {
    if t in s.tables then s.tables[t] else map[]
  }

  /** Entry `i` of a page's entries. */
  function At(m: map<nat, uint32>, i: nat): uint32 {
    if i in m then m[i] else 0
  }

  function Entry(s: Phys, t: nat, i: nat): uint32 {
    At(Table(s, t), i)
  }

  /** The kernel address of the page table directory entry `i` names. */
  function TableOf(dir: map<nat, uint32>, i: nat): uint32 {
    P2V(PteAddr(At(dir, i)))
  }

  function TableAt(s: Phys, pgdir: nat, i: nat): uint32 {
    TableOf(Table(s, pgdir), i)
  }

  /** A pointer to one entry: the page holding it and its index there. */
  datatype Slot = Slot(table: nat, index: nat)

  function Load(s: Phys, p: Slot): uint32 { Entry(s, p.table, p.index) }

  /** *p = v */
  function Store(s: Phys, p: Slot, v: uint32): (r: Phys)
    ensures Load(r, p) == v
    ensures r == s.(tables := r.tables)
  {
    s.(tables := s.tables[p.table := Table(s, p.table)[p.index := v]])
  }

  /** walkpgdir(pgdir, va, alloc): the entry's slot when the directory entry
      is present; otherwise, if asked to and kalloc succeeds, a fresh zeroed
      table installed with P|W|U; otherwise null. */
  function Walk(s: Phys, pgdir: nat, va: uint32, alloc: bool): (Option<Slot>, Phys) {
    var pde := Entry(s, pgdir, Pdx(va));
    if Present(pde) then (Some(Slot(TableAt(s, pgdir, Pdx(va)), Ptx(va))), s)
    else if !alloc then (None, s)
    else
      var (t, s1) := AllocPage(s);
      if t == 0 then (None, s1)
      else
        var s2 := s1.(tables := s1.tables[t := map[]]);
        (Some(Slot(t, Ptx(va))), Store(s2, Slot(pgdir, Pdx(va)), Or7(V2P(t))))
  }

  /** The three outcomes of walkpgdir. */
  lemma WalkOutcomes(s: Phys, pgdir: nat, va: uint32, alloc: bool)
    ensures var (p, s1) := Walk(s, pgdir, va, alloc);
      var pde := Entry(s, pgdir, Pdx(va));
      (Present(pde) ==> p == Some(Slot(TableAt(s, pgdir, Pdx(va)), Ptx(va))) && s1 == s)
      && (!Present(pde) && (!alloc || s.freelist == []) ==> p == None && s1 == s)
      && (!Present(pde) && alloc && s.freelist != [] && s.freelist[0] != 0 ==>
            p == Some(Slot(s.freelist[0], Ptx(va)))
            && s1.freelist == s.freelist[1..]
            && Table(s1, s.freelist[0]) == (if pgdir == s.freelist[0] then map[Pdx(va) := Or7(V2P(s.freelist[0]))] else map[])
            && Present(Entry(s1, pgdir, Pdx(va))) && Writable(Entry(s1, pgdir, Pdx(va))) && User(Entry(s1, pgdir, Pdx(va))))
  {
    hide P2V, V2P, PteAddr;
  }

  // ----- what a directory maps -----

  /** The entry translating `va` when both levels are present. */
  function Mapping(s: Phys, pgdir: nat, va: uint32): Option<uint32> {
    if !Present(Entry(s, pgdir, Pdx(va))) then None
    else
      var e := Entry(s, TableAt(s, pgdir, Pdx(va)), Ptx(va));
      if Present(e) then Some(e) else None
  }

  /** Translation reads only the page tables. */
  lemma MappingTables(s: Phys, t: Phys, pgdir: nat, va: uint32)
    requires s.tables == t.tables
    ensures Mapping(s, pgdir, va) == Mapping(t, pgdir, va)
  {
  }

  /** What vm.c relies on about a directory: the free pages are aligned,
      distinct and none of them is the directory or one of its tables, no
      table is the directory itself, and no two entries share a table. */
  ghost predicate Sep(s: Phys, pgdir: nat) {
    Valid(s) && NoDup(s.freelist) && pgdir !in s.freelist && DirOk(Table(s, pgdir), pgdir, s.freelist)
  }

  /** The directory part of Sep. */
  ghost predicate DirOk(dir: map<nat, uint32>, pgdir: nat, free: seq<uint32>) {
    && (forall i :: 0 <= i < NPDENTRIES && Present(At(dir, i)) ==>
          TableOf(dir, i) != pgdir && TableOf(dir, i) !in free)
    && (forall i, j :: 0 <= i < j < NPDENTRIES && Present(At(dir, i)) && Present(At(dir, j)) ==>
          TableOf(dir, i) != TableOf(dir, j))
  }

  /** Installing the head of the free list as the table of an absent entry. */
  lemma DirInstall(dir: map<nat, uint32>, pgdir: nat, free: seq<uint32>, k: nat)
    requires DirOk(dir, pgdir, free) && NoDup(free) && free != [] && free[0] != pgdir
    requires free[0] % PGSIZE == 0 && k < NPDENTRIES && !Present(At(dir, k))
    ensures DirOk(dir[k := Or7(V2P(free[0]))], pgdir, free[1..])
  {
    var t := free[0];
    var d1 := dir[k := Or7(V2P(t))];
    InstalledTable(t);
    assert TableOf(d1, k) == t;
    assert forall x :: x in free[1..] ==> x in free;
    assert t !in free[1..] by {
      forall i | 0 <= i < |free[1..]|
        ensures free[1..][i] != t
      {
        assert free[1..][i] == free[i + 1];
      }
    }
    assert t in free;
    forall i | 0 <= i < NPDENTRIES && i != k
      ensures At(d1, i) == At(dir, i) && TableOf(d1, i) == TableOf(dir, i)
    {
    }
    forall i, j | 0 <= i < j < NPDENTRIES && Present(At(d1, i)) && Present(At(d1, j))
      ensures TableOf(d1, i) != TableOf(d1, j)
    {
      if i == k {
        assert TableOf(d1, j) == TableOf(dir, j) && TableOf(dir, j) !in free;
      } else if j == k {
        assert TableOf(d1, i) == TableOf(dir, i) && TableOf(dir, i) !in free;
      }
    }
  }

  /** A free page, installed as a table through a directory entry, is found
      again through that entry. */
  lemma InstalledTable(t: uint32)
    requires t % PGSIZE == 0
    ensures P2V(PteAddr(Or7(V2P(t)))) == t
  {
    var x := V2P(t);
    var q := t / PGSIZE;
    var qx := if t >= KERNBASE then q - 0x8_0000 else q + 0x8_0000;
    DivMod(x, PGSIZE, qx, 0);
    DivMod(x, 8, 512 * qx, 0);
    AddLow(x, 7);
    assert Or7(x) == x + 7;
  }

  /** The facts about the state outside page tables that every step keeps. */
  predicate SameOutside(s: Phys, s1: Phys) {
    s1.kend == s.kend && s1.useLock == s.useLock && s1.refc == s.refc
    && s1.pages == s.pages && s1.allocpages == s.allocpages
  }

  /** walkpgdir keeps the separation facts, touches no table outside the
      directory and the free list, and a slot it returns is the entry
      translating `va`. */
  lemma WalkKeeps(s: Phys, pgdir: nat, va: uint32, alloc: bool)
    requires Sep(s, pgdir)
    ensures var r := Walk(s, pgdir, va, alloc);
      Sep(r.1, pgdir) && SameOutside(s, r.1)
      && (forall t :: t != pgdir && t !in s.freelist ==> Table(r.1, t) == Table(s, t))
      && (r.0.Some? ==> Present(Entry(r.1, pgdir, Pdx(va))) && r.0.value == Slot(TableAt(r.1, pgdir, Pdx(va)), Ptx(va)))
  {
    hide P2V, V2P, PteAddr;
    if !Present(Entry(s, pgdir, Pdx(va))) && alloc && s.freelist != [] {
      var t := s.freelist[0];
      assert t in s.freelist;
      assert Freeable(s.kend, t);
      var s1 := Walk(s, pgdir, va, alloc).1;
      DirInstall(Table(s, pgdir), pgdir, s.freelist, Pdx(va));
      assert Table(s1, pgdir) == Table(s, pgdir)[Pdx(va) := Or7(V2P(t))];
      KfreeListTail(s.freelist);
      assert forall x :: x in s1.freelist ==> x in s.freelist;
      InstalledTable(t);
      assert Entry(s1, pgdir, Pdx(va)) == Or7(V2P(t)) && TableAt(s1, pgdir, Pdx(va)) == t;
    }
  }

  /** walkpgdir leaves what the directory maps unchanged: a new table is
      all zeros, so nothing it holds is present. */
  lemma WalkMapping(s: Phys, pgdir: nat, va: uint32, alloc: bool, w: uint32)
    requires Sep(s, pgdir)
    ensures Mapping(Walk(s, pgdir, va, alloc).1, pgdir, w) == Mapping(s, pgdir, w)
  {
    if !Present(Entry(s, pgdir, Pdx(va))) && alloc && s.freelist != [] {
      var t := s.freelist[0];
      assert t in s.freelist;
      assert Freeable(s.kend, t);
      var s1 := Walk(s, pgdir, va, alloc).1;
      assert t != pgdir;
      assert Table(s1, pgdir) == Table(s, pgdir)[Pdx(va) := Or7(V2P(t))];
      if Pdx(w) == Pdx(va) {
        InstalledTable(t);
        assert Table(s1, t) == map[];
      } else if Present(Entry(s, pgdir, Pdx(w))) {
        assert TableAt(s1, pgdir, Pdx(w)) == TableAt(s, pgdir, Pdx(w));
        assert TableAt(s, pgdir, Pdx(w)) != t;
      }
    }
  }

  /** Writing the entry that translates `a` changes the mapping of a's page
      and of no other page, and keeps the separation facts. */
  lemma StoreKeeps(s: Phys, pgdir: nat, a: uint32, v: uint32, w: uint32)
    requires Sep(s, pgdir) && Present(Entry(s, pgdir, Pdx(a)))
    ensures var s1 := Store(s, Slot(TableAt(s, pgdir, Pdx(a)), Ptx(a)), v);
      Sep(s1, pgdir) && SameOutside(s, s1)
      && Mapping(s1, pgdir, w) == (if w / PGSIZE == a / PGSIZE then (if Present(v) then Some(v) else None) else Mapping(s, pgdir, w))
      && (forall t :: t != TableAt(s, pgdir, Pdx(a)) ==> Table(s1, t) == Table(s, t))
  {
    var T := TableAt(s, pgdir, Pdx(a));
    var s1 := Store(s, Slot(T, Ptx(a)), v);
    assert T != pgdir;
    assert Table(s1, pgdir) == Table(s, pgdir);
    AddressSplit(w);
    AddressSplit(a);
    if Pdx(w) != Pdx(a) && Present(Entry(s, pgdir, Pdx(w))) {
      if Pdx(w) < Pdx(a) {
        assert TableAt(s, pgdir, Pdx(w)) != T;
      } else {
        assert TableAt(s, pgdir, Pdx(w)) != T;
      }
    }
  }

  /** The tail of a list without repeats has no repeats and lacks the head. */
  lemma KfreeListTail(l: seq<uint32>)
    requires NoDup(l) && l != []
    ensures NoDup(l[1..]) && l[0] !in l[1..]
  {
    forall i | 0 <= i < |l[1..]|
      ensures l[1..][i] != l[0]
    {
      assert l[1..][i] == l[i + 1];
    }
  }

  // ----- mappages -----

  /** How many pages after the page of `a` the page of `w` lies, counting
      around the 2^20 pages of the address space. */
  function Delta(a: uint32, w: uint32): (d: nat)
    ensures d < 0x10_0000
  {
    (w / PGSIZE - a / PGSIZE) % 0x10_0000
  }

  /** The frame address `d` pages after pa, on a uint. */
  function Frame(pa: uint32, d: nat): uint32 {
    (pa + d * PGSIZE) % UINT_MOD
  }

  lemma DeltaZero(a: uint32, w: uint32)
    ensures Delta(a, w) == 0 <==> w / PGSIZE == a / PGSIZE
  {
  }

  /** Advancing `a` by a page moves every other page one step closer. */
  lemma DeltaStep(a: uint32, w: uint32)
    requires a % PGSIZE == 0
    ensures Delta(AddU(a, PGSIZE), w) == if Delta(a, w) == 0 then 0xF_FFFF else Delta(a, w) - 1
  {
    var A := a / PGSIZE;
    var W := w / PGSIZE;
    if a + PGSIZE < UINT_MOD {
      assert AddU(a, PGSIZE) / PGSIZE == A + 1;
    } else {
      assert A == 0xF_FFFF;
      assert AddU(a, PGSIZE) == 0;
    }
  }

  lemma FrameStep(pa: uint32, d: nat)
    requires d >= 1
    ensures Frame(AddU(pa, PGSIZE), d - 1) == Frame(pa, d)
  {
    var x := pa + PGSIZE + (d - 1) * PGSIZE;
    assert x == pa + d * PGSIZE;
    if pa + PGSIZE >= UINT_MOD {
      assert AddU(pa, PGSIZE) + (d - 1) * PGSIZE == x - UINT_MOD;
    }
  }

  lemma FrameAligned(pa: uint32, d: nat)
    requires pa % PGSIZE == 0
    ensures Frame(pa, d) % PGSIZE == 0
  {
    var x := pa + d * PGSIZE;
    assert x % PGSIZE == 0;
    assert UINT_MOD == PGSIZE * 0x10_0000;
  }

  /** One iteration of mappages' loop: walk to the entry for `a`
      (allocating its table), panic if it is present, else store pa|perm|P.
      The int is mappages' return value so far (-1 when the walk failed). */
  function MapOne(s: Phys, pgdir: nat, a: uint32, pa: uint32, perm: nat): (r: (Outcome, int, Phys))
    requires pa % PGSIZE == 0 && perm < PGSIZE
    ensures r.1 == 0 || r.1 == -1
  {
    var (p, s1) := Walk(s, pgdir, a, true);
    if p.None? then (Done, -1, s1)
    else if Present(Load(s1, p.value)) then (Panic("remap"), 0, s1)
    else (Done, 0, Store(s1, p.value, MakePte(pa, perm)))
  }

  /** a + PGSIZE on a uint; page alignment survives the wrap at 2^32. */
  function NextPage(a: uint32): (b: uint32)
    ensures a % PGSIZE == 0 ==> b % PGSIZE == 0
    ensures b == AddU(a, PGSIZE)
  {
    if a % PGSIZE == 0 then NextPageAligned(a); AddU(a, PGSIZE) else AddU(a, PGSIZE)
  }

  /** The loop of mappages from page `a` mapping to frame `pa`, with `n`
      more pages to go after this one. */
  function MapLoop(s: Phys, pgdir: nat, a: uint32, pa: uint32, perm: nat, n: nat): (res: (Outcome, int, Phys))
    requires pa % PGSIZE == 0 && perm < PGSIZE
    ensures res.1 == 0 || res.1 == -1
    decreases n
  {
    var r := MapOne(s, pgdir, a, pa, perm);
    if r.0.Panic? || r.1 != 0 || n == 0 then r
    else MapLoop(r.2, pgdir, NextPage(a), NextPage(pa), perm, n - 1)
  }

  /** The pages mappages covers: PGROUNDDOWN(va) up to PGROUNDDOWN(va+size-1). */
  function MapCount(va: uint32, size: uint32): nat {
    SubU(PgRoundDown(SubU(AddU(va, size), 1)), PgRoundDown(va)) / PGSIZE
  }

  /** mappages(pgdir, va, size, pa, perm) */
  function Mappages(s: Phys, pgdir: nat, va: uint32, size: uint32, pa: uint32, perm: nat): (Outcome, int, Phys)
    requires pa % PGSIZE == 0 && perm < PGSIZE
  {
    MapLoop(s, pgdir, PgRoundDown(va), pa, perm, MapCount(va, size))
  }

  /** One completed iteration keeps the separation facts, maps the page of
      `a` (which was unmapped) to pa, and leaves every other page as it was. */
  lemma MapOneMapping(s: Phys, pgdir: nat, a: uint32, pa: uint32, perm: nat, w: uint32)
    requires Sep(s, pgdir) && pa % PGSIZE == 0 && perm < PGSIZE
    ensures var r := MapOne(s, pgdir, a, pa, perm);
      Sep(r.2, pgdir) && SameOutside(s, r.2)
      && (r.0.Panic? <==> r.1 == 0 && Mapping(s, pgdir, a).Some?)
      && (r.0 == Done && r.1 == 0 ==>
            Mapping(r.2, pgdir, w) == if Delta(a, w) == 0 then Some(MakePte(pa, perm)) else Mapping(s, pgdir, w))
      && (r.1 != 0 ==> Mapping(r.2, pgdir, w) == Mapping(s, pgdir, w))
  {
    var (p, s1) := Walk(s, pgdir, a, true);
    WalkKeeps(s, pgdir, a, true);
    WalkMapping(s, pgdir, a, true, w);
    WalkMapping(s, pgdir, a, true, a);
    if p.Some? {
      StoreKeeps(s1, pgdir, a, MakePte(pa, perm), w);
    }
    DeltaZero(a, w);
    AddressSplit(a);
    AddressSplit(w);
  }

  lemma NextPageAligned(a: uint32)
    requires a % PGSIZE == 0
    ensures AddU(a, PGSIZE) % PGSIZE == 0
  {
    assert UINT_MOD == PGSIZE * 0x10_0000;
  }

  lemma FrameZero(pa: uint32)
    ensures Frame(pa, 0) == pa
  {
  }

  /** A finished mapping loop keeps the separation facts and touches
      nothing outside the page tables. */
  lemma {:induction false} MapLoopKeeps(s: Phys, pgdir: nat, a: uint32, pa: uint32, perm: nat, n: nat)
    requires Sep(s, pgdir) && pa % PGSIZE == 0 && perm < PGSIZE
    ensures Sep(MapLoop(s, pgdir, a, pa, perm, n).2, pgdir) && SameOutside(s, MapLoop(s, pgdir, a, pa, perm, n).2)
    decreases n
  {
    hide MapOne;
    var r := MapOne(s, pgdir, a, pa, perm);
    MapOneMapping(s, pgdir, a, pa, perm, a);
    if r.0 == Done && r.1 == 0 && n > 0 {
      MapLoopKeeps(r.2, pgdir, NextPage(a), NextPage(pa), perm, n - 1);
    }
  }

  /** The entry mappages writes for the page `d` pages into its range. */
  function MappedPte(pa: uint32, perm: nat, d: nat): uint32
    requires pa % PGSIZE == 0 && perm < PGSIZE
  {
    FrameAligned(pa, d);
    MakePte(Frame(pa, d), perm)
  }

  /** A completed mapping loop found every page of its range unmapped. */
  lemma {:induction false} MapLoopFresh(s: Phys, pgdir: nat, a: uint32, pa: uint32, perm: nat, n: nat, w: uint32)
    requires Sep(s, pgdir) && a % PGSIZE == 0 && pa % PGSIZE == 0 && perm < PGSIZE && n < 0x10_0000
    requires MapLoop(s, pgdir, a, pa, perm, n).0 == Done && MapLoop(s, pgdir, a, pa, perm, n).1 == 0
    requires Delta(a, w) <= n
    ensures Mapping(s, pgdir, w).None?
    decreases n
  {
    hide MapOne;
    var r := MapOne(s, pgdir, a, pa, perm);
    MapOneMapping(s, pgdir, a, pa, perm, w);
    if Delta(a, w) == 0 {
      MapOneMapping(s, pgdir, a, pa, perm, a);
      DeltaZero(a, w);
      SamePage(a, w);
    } else {
      DeltaStep(a, w);
      MapLoopFresh(r.2, pgdir, NextPage(a), NextPage(pa), perm, n - 1, w);
    }
  }

  /** Addresses on one page share their directory and table indexes. */
  lemma SamePage(a: uint32, w: uint32)
    requires a / PGSIZE == w / PGSIZE
    ensures Pdx(a) == Pdx(w) && Ptx(a) == Ptx(w)
  {
    AddressSplit(a);
    AddressSplit(w);
  }

  /** The bookkeeping of one step of the loop: the range seen from the next
      page, one shorter and one frame further on, plus the page just mapped,
      is the range seen from this page. */
  lemma MappedShift(a: uint32, pa: uint32, perm: nat, n: nat, w: uint32, before: Option<uint32>, mid: Option<uint32>)
    requires a % PGSIZE == 0 && pa % PGSIZE == 0 && perm < PGSIZE && 0 < n < 0x10_0000
    requires mid == if Delta(a, w) == 0 then Some(MakePte(pa, perm)) else before
    ensures var a1, pa1 := NextPage(a), NextPage(pa);
      (if Delta(a1, w) <= n - 1 then Some(MappedPte(pa1, perm, Delta(a1, w))) else mid)
      == (if Delta(a, w) <= n then Some(MappedPte(pa, perm, Delta(a, w))) else before)
  {
    FrameZero(pa);
    DeltaStep(a, w);
    var d := Delta(a, w);
    if d > 0 && d <= n {
      FrameStep(pa, d);
    }
  }

  /** A completed mapping loop maps the k-th page of the range to frame
      pa + k*PGSIZE with perm|P and leaves every other page as it was. */
  lemma {:induction false} MapLoopMapping(s: Phys, pgdir: nat, a: uint32, pa: uint32, perm: nat, n: nat, w: uint32)
    requires Sep(s, pgdir) && a % PGSIZE == 0 && pa % PGSIZE == 0 && perm < PGSIZE && n < 0x10_0000
    requires MapLoop(s, pgdir, a, pa, perm, n).0 == Done && MapLoop(s, pgdir, a, pa, perm, n).1 == 0
    ensures Mapping(MapLoop(s, pgdir, a, pa, perm, n).2, pgdir, w) ==
      if Delta(a, w) <= n then Some(MappedPte(pa, perm, Delta(a, w))) else Mapping(s, pgdir, w)
    decreases n
  {
    hide MapOne;
    var r := MapOne(s, pgdir, a, pa, perm);
    MapOneMapping(s, pgdir, a, pa, perm, w);
    if n > 0 {
      MapLoopMapping(r.2, pgdir, NextPage(a), NextPage(pa), perm, n - 1, w);
      MappedShift(a, pa, perm, n, w, Mapping(s, pgdir, w), Mapping(r.2, pgdir, w));
    } else {
      FrameZero(pa);
      DeltaZero(a, w);
    }
  }

  /** A mapping loop that panics met a page of its range that was mapped. */
  lemma {:induction false} MapLoopPanic(s: Phys, pgdir: nat, a: uint32, pa: uint32, perm: nat, n: nat)
    requires Sep(s, pgdir) && a % PGSIZE == 0 && pa % PGSIZE == 0 && perm < PGSIZE && n < 0x10_0000
    requires MapLoop(s, pgdir, a, pa, perm, n).0.Panic?
    ensures exists w: uint32 :: Delta(a, w) <= n && Mapping(s, pgdir, w).Some?
    decreases n
  {
    hide MapOne;
    var r := MapOne(s, pgdir, a, pa, perm);
    MapOneMapping(s, pgdir, a, pa, perm, a);
    DeltaZero(a, a);
    if r.0.Done? {
      MapLoopPanic(r.2, pgdir, NextPage(a), NextPage(pa), perm, n - 1);
      var w: uint32 :| Delta(NextPage(a), w) <= n - 1 && Mapping(r.2, pgdir, w).Some?;
      DeltaStep(a, w);
      MapOneMapping(s, pgdir, a, pa, perm, w);
      assert Delta(a, w) <= n && Mapping(s, pgdir, w).Some?;
    }
  }

  /** Every page in the free list after a mapping loop was free before it. */
  predicate Shrinks(s: Phys, s1: Phys) {
    s1.kend == s.kend && forall x :: x in s1.freelist ==> x in s.freelist
  }

  lemma WalkShrinks(s: Phys, pgdir: nat, va: uint32, alloc: bool)
    ensures Shrinks(s, Walk(s, pgdir, va, alloc).1)
  {
    if s.freelist != [] {
      assert forall x :: x in s.freelist[1..] ==> x in s.freelist;
    }
  }

  lemma {:induction false} MapLoopShrinks(s: Phys, pgdir: nat, a: uint32, pa: uint32, perm: nat, n: nat)
    requires pa % PGSIZE == 0 && perm < PGSIZE
    ensures Shrinks(s, MapLoop(s, pgdir, a, pa, perm, n).2)
    ensures Valid(s) ==> Valid(MapLoop(s, pgdir, a, pa, perm, n).2)
    decreases n
  {
    var r := MapOne(s, pgdir, a, pa, perm);
    WalkShrinks(s, pgdir, a, true);
    if r.0.Done? && r.1 == 0 && n > 0 {
      MapLoopShrinks(r.2, pgdir, NextPage(a), NextPage(pa), perm, n - 1);
    }
  }

  /** mappages(pgdir, va, size, pa, perm), read per page: on success every
      page from PGROUNDDOWN(va) to PGROUNDDOWN(va+size-1) was unmapped and
      now maps the frame pa + k*PGSIZE with perm|P, and no other page
      changed; a panic ("remap") means some page of that range was mapped. */
  lemma MappagesMeaning(s: Phys, pgdir: nat, va: uint32, size: uint32, pa: uint32, perm: nat, w: uint32)
    requires Sep(s, pgdir) && pa % PGSIZE == 0 && perm < PGSIZE
    ensures var (o, r, s1) := Mappages(s, pgdir, va, size, pa, perm);
      var a, n := PgRoundDown(va), MapCount(va, size);
      Sep(s1, pgdir) && SameOutside(s, s1)
      && (o == Done && r == 0 ==>
            Mapping(s1, pgdir, w) == (if Delta(a, w) <= n then Some(MappedPte(pa, perm, Delta(a, w))) else Mapping(s, pgdir, w))
            && (Delta(a, w) <= n ==> Mapping(s, pgdir, w).None?))
      && (o.Panic? ==> exists u: uint32 :: Delta(a, u) <= n && Mapping(s, pgdir, u).Some?)
  {
    var a, n := PgRoundDown(va), MapCount(va, size);
    MapLoopKeeps(s, pgdir, a, pa, perm, n);
    var (o, r, s1) := Mappages(s, pgdir, va, size, pa, perm);
    if o == Done && r == 0 {
      MapLoopMapping(s, pgdir, a, pa, perm, n, w);
      if Delta(a, w) <= n {
        MapLoopFresh(s, pgdir, a, pa, perm, n, w);
      }
    }
    if o.Panic? {
      MapLoopPanic(s, pgdir, a, pa, perm, n);
    }
  }

  /** Writing the entry that translates `a` changes what a's page maps and
      nothing else, as long as no table is the directory itself and no two
      directory entries share a table. */
  lemma StoreMapping(s: Phys, pgdir: nat, a: uint32, v: uint32, w: uint32)
    requires DirOk(Table(s, pgdir), pgdir, []) && Present(Entry(s, pgdir, Pdx(a)))
    ensures var s1 := Store(s, Slot(TableAt(s, pgdir, Pdx(a)), Ptx(a)), v);
      Table(s1, pgdir) == Table(s, pgdir)
      && Mapping(s1, pgdir, w) == (if w / PGSIZE == a / PGSIZE then (if Present(v) then Some(v) else None) else Mapping(s, pgdir, w))
  {
    var T := TableAt(s, pgdir, Pdx(a));
    assert T != pgdir;
    AddressSplit(w);
    AddressSplit(a);
    if Pdx(w) != Pdx(a) && Present(Entry(s, pgdir, Pdx(w))) {
      if Pdx(w) < Pdx(a) {
        assert TableAt(s, pgdir, Pdx(w)) != T;
      } else {
        assert TableAt(s, pgdir, Pdx(w)) != T;
      }
    }
  }
}
