// Sharing and copying a user address space (kernel/vm.c copyuvm and the
// page-fault handler pgfaultintr, and the reference-sharing loop of fork in
// kernel/proc.c), as functions on the allocator and memory state.
module CopyUvm {
  import opened Param
  import opened Wrappers
  import opened Kalloc
  import opened PageTable
  import opened AddressSpace
  import opened KernelSpace

  // ----- the reference copy -----

  /** The entry word translating `a`, read through the directory whether or
      not it is present (what *walkpgdir(pgdir, a, 0) reads). */
  function Pte(s: Phys, pgdir: nat, a: uint32): uint32 {
    Entry(s, TableAt(s, pgdir, Pdx(a)), Ptx(a))
  }

  /** walkpgdir(pgdir, a, 0): the slot of a's entry when its table exists. */
  function Lookup(s: Phys, pgdir: nat, a: uint32): Option<Slot> {
    if Present(Entry(s, pgdir, Pdx(a))) then Some(Slot(TableAt(s, pgdir, Pdx(a)), Ptx(a))) else None
  }

  /** Lookup is the walk that never allocates, and that walk changes nothing. */
  lemma LookupIsWalk(s: Phys, pgdir: nat, a: uint32)
    ensures Walk(s, pgdir, a, false) == (Lookup(s, pgdir, a), s)
  {
  }

  /** What a page needs for one step of the sharing loop not to panic: its
      table exists, and when `check` is set its entry is present. */
  predicate PageOk(s: Phys, pgdir: nat, a: uint32, check: bool) {
    Present(Entry(s, pgdir, Pdx(a))) && (check ==> Present(Pte(s, pgdir, a)))
  }

  /** One page of the reference copy: panic when the page's table is
      absent (or, with `check`, when its entry is not present), otherwise
      clear PTE_W in the entry and add a reference to the frame.
      copyuvm (`check`) counts the frame of PTE_ADDR(*pte) read before the
      W bit is cleared; fork's loop counts P2V(*pte) of the cleared entry,
      flag bits and all. */
  function ShareOne(s: Phys, pgdir: nat, a: uint32, check: bool): (Outcome, Phys) {
    var p := Lookup(s, pgdir, a);
    if p.None? then (Panic(if check then "copyuvm: lite, pte should exist" else "forklazy should exist pte but doesn't"), s)
    else
      var e := Load(s, p.value);
      if check && !Present(e) then (Panic("copuvm: lite page not present"), s)
      else
        var s1 := Store(s, p.value, ClearW(e));
        (Done, AddRef(s1, P2V(if check then PteAddr(e) else ClearW(e)), 1))
  }

  /** for(i = a; i < sz; i += PGSIZE) ShareOne(i), stopping at a panic. */
  function ShareLoop(s: Phys, pgdir: nat, a: nat, sz: uint32, check: bool): (Outcome, Phys)
    requires sz <= KERNBASE
    decreases sz - a
  {
    if a >= sz then (Done, s)
    else
      var r := ShareOne(s, pgdir, a, check);
      if r.0.Panic? then r else ShareLoop(r.1, pgdir, a + PGSIZE, sz, check)
  }

  /** copyuvm(pgdir, sz, 0): share every page below sz read-only and return
      the same directory (the reload of %cr3 is not modelled). */
  function RefCopy(s: Phys, pgdir: nat, sz: uint32): (Outcome, nat, Phys)
    requires sz <= KERNBASE
  {
    var (o, s1) := ShareLoop(s, pgdir, 0, sz, true);
    (o, pgdir, s1)
  }

  /** fork's sharing loop over the parent's pages below sz. */
  function ForkShare(s: Phys, pgdir: nat, sz: uint32): (Outcome, Phys)
    requires sz <= KERNBASE
  {
    ShareLoop(s, pgdir, 0, sz, false)
  }

  /** The number of pages the loop from `a` visits whose table exists and
      whose entry names frame k: the references it adds to frame k. */
  function Hits(s: Phys, pgdir: nat, a: nat, sz: uint32, k: nat): nat
    requires sz <= KERNBASE
    decreases sz - a
  {
    if a >= sz then 0
    else
      var here := if Present(Entry(s, pgdir, Pdx(a))) && FrameNo(Pte(s, pgdir, a)) == k then 1 else 0;
      here + Hits(s, pgdir, a + PGSIZE, sz, k)
  }

  /** Both ways of naming the frame count the same counter: flag bits sit
      below bit 12. */
  lemma CountedFrame(e: uint32)
    ensures RefIndex(P2V(PteAddr(e))) == FrameNo(e) && RefIndex(P2V(ClearW(e))) == FrameNo(e)
  {
    assert FrameNo(PteAddr(e)) == PteAddr(e) / PGSIZE;
    DivMod(e, PGSIZE, PteAddr(e) / PGSIZE, e % PGSIZE);
    assert FrameNo(ClearW(e)) == ClearW(e) / PGSIZE;
    DivMod(ClearW(e), PGSIZE, PteAddr(e) / PGSIZE, ClearW(e) % PGSIZE);
  }

  /** What the sharing loop keeps: everything but the entries and the
      counters, and the directory itself. */
  predicate Shared(s: Phys, s1: Phys, pgdir: nat) {
    s1.kend == s.kend && s1.freelist == s.freelist && s1.useLock == s.useLock
    && s1.pages == s.pages && s1.allocpages == s.allocpages && Table(s1, pgdir) == Table(s, pgdir)
  }

  /** One step panics exactly when the page fails PageOk, and then changes
      nothing; otherwise it keeps what Shared names. */
  lemma ShareOneOutcome(s: Phys, pgdir: nat, a: uint32, check: bool)
    requires DirOk(Table(s, pgdir), pgdir, [])
    ensures ShareOne(s, pgdir, a, check).0.Panic? <==> !PageOk(s, pgdir, a, check)
    ensures ShareOne(s, pgdir, a, check).0.Panic? ==> ShareOne(s, pgdir, a, check).1 == s
    ensures ShareOne(s, pgdir, a, check).0 == Done ==> Shared(s, ShareOne(s, pgdir, a, check).1, pgdir)
  {
    if PageOk(s, pgdir, a, check) {
      var p := Slot(TableAt(s, pgdir, Pdx(a)), Ptx(a));
      StoreMapping(s, pgdir, a, ClearW(Load(s, p)), a);
    }
  }

  /** After one step, a's page maps what it did with PTE_W cleared and
      every other page maps what it did. */
  lemma ShareOneMapping(s: Phys, pgdir: nat, a: uint32, check: bool, w: uint32)
    requires DirOk(Table(s, pgdir), pgdir, []) && ShareOne(s, pgdir, a, check).0 == Done
    ensures var m := Mapping(s, pgdir, w);
      Mapping(ShareOne(s, pgdir, a, check).1, pgdir, w) == if w / PGSIZE == a / PGSIZE && m.Some? then Some(ClearW(m.value)) else m
  {
    var p := Slot(TableAt(s, pgdir, Pdx(a)), Ptx(a));
    StoreMapping(s, pgdir, a, ClearW(Load(s, p)), w);
    if w / PGSIZE == a / PGSIZE {
      SamePage(a, w);
    }
  }

  /** One step keeps the frame every entry with a present table names. */
  lemma ShareOneFrame(s: Phys, pgdir: nat, a: uint32, check: bool, w: uint32)
    requires DirOk(Table(s, pgdir), pgdir, []) && Present(Entry(s, pgdir, Pdx(w)))
    requires ShareOne(s, pgdir, a, check).0 == Done
    ensures FrameNo(Pte(ShareOne(s, pgdir, a, check).1, pgdir, w)) == FrameNo(Pte(s, pgdir, w))
  {
    var p := Slot(TableAt(s, pgdir, Pdx(a)), Ptx(a));
    var e := Load(s, p);
    StorePte(s, pgdir, a, ClearW(e), w);
    if w / PGSIZE == a / PGSIZE {
      SamePage(a, w);
      CountedFrame(e);
    }
  }

  /** A step that did not panic cleared W in a's entry and then counted one
      more reference to the page it names. */
  lemma ShareOneDone(s: Phys, pgdir: nat, a: uint32, check: bool)
    requires ShareOne(s, pgdir, a, check).0 == Done
    ensures var p := Slot(TableAt(s, pgdir, Pdx(a)), Ptx(a));
      var e := Pte(s, pgdir, a);
      Load(s, p) == e
      && ShareOne(s, pgdir, a, check).1 == AddRef(Store(s, p, ClearW(e)), P2V(if check then PteAddr(e) else ClearW(e)), 1)
  {
  }

  /** One step adds one reference to the frame of a's entry (after kinit2)
      and to no other. */
  lemma ShareOneRefc(s: Phys, pgdir: nat, a: uint32, check: bool, k: nat)
    requires ShareOne(s, pgdir, a, check).0 == Done
    ensures Refc(ShareOne(s, pgdir, a, check).1, k) ==
      if s.useLock && k == FrameNo(Pte(s, pgdir, a)) then (Refc(s, k) + 1) % 256 else Refc(s, k)
  {
    hide ShareOne, Pte;
    ShareOneDone(s, pgdir, a, check);
    var p := Slot(TableAt(s, pgdir, Pdx(a)), Ptx(a));
    var e := Pte(s, pgdir, a);
    var s0 := Store(s, p, ClearW(e));
    var v := P2V(if check then PteAddr(e) else ClearW(e));
    CountedFrame(e);
    assert RefIndex(v) == FrameNo(e);
    if k != FrameNo(e) {
      RefcountArithmetic(s0, v, 1, k);
    }
  }

  /** The raw entry of a page after a store into the entry of `a`: the
      stored value on a's page, the old value elsewhere (where the
      directory entry is present). */
  lemma StorePte(s: Phys, pgdir: nat, a: uint32, v: uint32, w: uint32)
    requires DirOk(Table(s, pgdir), pgdir, []) && Present(Entry(s, pgdir, Pdx(a))) && Present(Entry(s, pgdir, Pdx(w)))
    ensures var s1 := Store(s, Slot(TableAt(s, pgdir, Pdx(a)), Ptx(a)), v);
      Pte(s1, pgdir, w) == if w / PGSIZE == a / PGSIZE then v else Pte(s, pgdir, w)
  {
    var T := TableAt(s, pgdir, Pdx(a));
    assert T != pgdir;
    AddressSplit(w);
    AddressSplit(a);
    if Pdx(w) != Pdx(a) {
      assert TableAt(s, pgdir, Pdx(w)) != T;
    }
  }

  /** Hits reads only directory entries and entry frames. */
  lemma {:induction false} HitsSame(s: Phys, s1: Phys, pgdir: nat, a: nat, sz: uint32, k: nat)
    requires sz <= KERNBASE && Table(s1, pgdir) == Table(s, pgdir)
    requires forall w: uint32 :: Present(Entry(s, pgdir, Pdx(w))) ==> FrameNo(Pte(s1, pgdir, w)) == FrameNo(Pte(s, pgdir, w))
    ensures Hits(s1, pgdir, a, sz, k) == Hits(s, pgdir, a, sz, k)
    decreases sz - a
  {
    if a < sz {
      HitsSame(s, s1, pgdir, a + PGSIZE, sz, k);
    }
  }

  /** Every aligned page from `a` below sz passes PageOk. */
  ghost predicate AllOk(s: Phys, pgdir: nat, a: nat, sz: uint32, check: bool) {
    forall w: uint32 :: a <= w < sz && w % PGSIZE == 0 ==> PageOk(s, pgdir, w, check)
  }

  /** The loop from an aligned `a` completes exactly when every page it
      visits passes PageOk. */
  lemma {:induction false} ShareLoopDone(s: Phys, pgdir: nat, a: nat, sz: uint32, check: bool)
    requires sz <= KERNBASE && a % PGSIZE == 0 && DirOk(Table(s, pgdir), pgdir, [])
    ensures ShareLoop(s, pgdir, a, sz, check).0 == Done <==> AllOk(s, pgdir, a, sz, check)
    decreases sz - a
  {
    hide ShareOne;
    if a < sz {
      ShareOneOutcome(s, pgdir, a, check);
      var t := ShareOne(s, pgdir, a, check).1;
      if ShareOne(s, pgdir, a, check).0 == Done {
        NextAligned(a);
        ShareLoopDone(t, pgdir, a + PGSIZE, sz, check);
        PageOkKept(s, t, pgdir, a, sz, check);
      } else {
        assert a < UINT_MOD;
        assert !PageOk(s, pgdir, a, check);
      }
    }
  }

  /** A completed loop keeps what Shared names. */
  lemma {:induction false} ShareLoopShared(s: Phys, pgdir: nat, a: nat, sz: uint32, check: bool, s2: Phys)
    requires sz <= KERNBASE && DirOk(Table(s, pgdir), pgdir, [])
    requires ShareLoop(s, pgdir, a, sz, check) == (Done, s2)
    ensures Shared(s, s2, pgdir)
    decreases sz - a
  {
    hide ShareOne;
    if a < sz {
      var t := ShareLoopStep(s, pgdir, a, sz, check);
      ShareOneOutcome(s, pgdir, a, check);
      ShareLoopShared(t, pgdir, a + PGSIZE, sz, check, s2);
    }
  }

  /** When the loop from an aligned `a` completes, each page it visits maps
      what it did with PTE_W cleared and every other page maps what it did. */
  lemma {:induction false} ShareLoopMapping(s: Phys, pgdir: nat, a: nat, sz: uint32, check: bool, s2: Phys, w: uint32)
    requires sz <= KERNBASE && a % PGSIZE == 0 && a < KERNBASE + PGSIZE && DirOk(Table(s, pgdir), pgdir, [])
    requires ShareLoop(s, pgdir, a, sz, check) == (Done, s2)
    ensures var m := Mapping(s, pgdir, w);
      Mapping(s2, pgdir, w) == if InRange(a, sz, w) && m.Some? then Some(ClearW(m.value)) else m
    decreases sz - a
  {
    hide ShareOne;
    if a < sz {
      var t := ShareLoopStep(s, pgdir, a, sz, check);
      ShareOneOutcome(s, pgdir, a, check);
      ShareOneMapping(s, pgdir, a, check, w);
      NextAligned(a);
      ShareLoopMapping(t, pgdir, a + PGSIZE, sz, check, s2, w);
      ClearShift(a, sz, w, Mapping(s, pgdir, w), Mapping(t, pgdir, w), Mapping(s2, pgdir, w));
    }
  }

  /** a + PGSIZE stays aligned. */
  lemma NextAligned(a: nat)
    requires a % PGSIZE == 0
    ensures (a + PGSIZE) % PGSIZE == 0
  {
    DivMod(a + PGSIZE, PGSIZE, a / PGSIZE + 1, 0);
  }

  /** The bookkeeping of one step: clearing W on a's page and then on the
      pages the rest of the loop visits is clearing it on every page the
      loop visits from `a`. */
  lemma ClearShift(a: nat, sz: uint32, w: uint32, m0: Option<uint32>, m1: Option<uint32>, m2: Option<uint32>)
    requires a % PGSIZE == 0 && a < sz <= KERNBASE
    requires m1 == if w / PGSIZE == a / PGSIZE && m0.Some? then Some(ClearW(m0.value)) else m0
    requires m2 == if InRange(a + PGSIZE, sz, w) && m1.Some? then Some(ClearW(m1.value)) else m1
    ensures m2 == if InRange(a, sz, w) && m0.Some? then Some(ClearW(m0.value)) else m0
  {
    if w / PGSIZE == a / PGSIZE {
      assert PgRoundDown(w) == a by { DivMod(w, PGSIZE, a / PGSIZE, w - a); }
      if m0.Some? {
        ClearWTwice(m0.value);
      }
    } else {
      InRangeStep(a, sz, w);
    }
  }

  /** `t` lists the states of the sharing loop from page `a` while below
      sz, every step completing. */
  ghost predicate IsShareTrace(t: seq<Phys>, pgdir: nat, a: nat, sz: uint32, check: bool)
    requires sz <= KERNBASE
    decreases sz - a
  {
    |t| >= 1 &&
    if a >= sz then |t| == 1
    else |t| >= 2 && ShareOne(t[0], pgdir, a, check) == (Done, t[1]) && IsShareTrace(t[1..], pgdir, a + PGSIZE, sz, check)
  }

  /** A loop that completed completed its first step and then the rest. */
  lemma ShareLoopStep(s: Phys, pgdir: nat, a: nat, sz: uint32, check: bool) returns (s1: Phys)
    requires a < sz <= KERNBASE && ShareLoop(s, pgdir, a, sz, check).0 == Done
    ensures ShareOne(s, pgdir, a, check) == (Done, s1)
    ensures ShareLoop(s, pgdir, a, sz, check) == ShareLoop(s1, pgdir, a + PGSIZE, sz, check)
  {
    s1 := ShareOne(s, pgdir, a, check).1;
  }

  /** A completed loop went through a trace. */
  lemma {:induction false} ShareLoopTrace(s: Phys, pgdir: nat, a: nat, sz: uint32, check: bool, s2: Phys) returns (t: seq<Phys>)
    requires sz <= KERNBASE && ShareLoop(s, pgdir, a, sz, check) == (Done, s2)
    ensures IsShareTrace(t, pgdir, a, sz, check) && t[0] == s && Last(t) == s2
    decreases sz - a
  {
    hide ShareOne;
    if a >= sz {
      t := [s];
    } else {
      var s1 := ShareLoopStep(s, pgdir, a, sz, check);
      var rest := ShareLoopTrace(s1, pgdir, a + PGSIZE, sz, check, s2);
      t := [s] + rest;
      assert t[0] == s && t[1] == rest[0] && t[1..] == rest;
      LastOfCons(s, rest);
    }
  }

  /** One completed step seen from counter k: the lock flag is kept, the
      counter gains one exactly when the entry names frame k, and the rest
      of the loop counts the same hits from the new state. */
  ghost predicate RefStep(s: Phys, s1: Phys, pgdir: nat, a: nat, sz: uint32, k: nat)
    requires a < sz <= KERNBASE
  {
    var hit := k == FrameNo(Pte(s, pgdir, a));
    s1.useLock == s.useLock
    && Refc(s1, k) == (if s.useLock && hit then (Refc(s, k) + 1) % 256 else Refc(s, k))
    && Hits(s, pgdir, a, sz, k) == (if hit then 1 else 0) + Hits(s1, pgdir, a + PGSIZE, sz, k)
  }

  /** A trace whose consecutive states are one RefStep apart. */
  ghost predicate RefSteps(t: seq<Phys>, pgdir: nat, a: nat, sz: uint32, k: nat)
    requires sz <= KERNBASE
    decreases sz - a
  {
    |t| >= 1 &&
    if a >= sz then |t| == 1
    else |t| >= 2 && RefStep(t[0], t[1], pgdir, a, sz, k) && RefSteps(t[1..], pgdir, a + PGSIZE, sz, k)
  }

  /** A completed step is a RefStep. */
  lemma ShareOneRefStep(s: Phys, pgdir: nat, a: nat, sz: uint32, check: bool, k: nat)
    requires a < sz <= KERNBASE && DirOk(Table(s, pgdir), pgdir, []) && ShareOne(s, pgdir, a, check).0 == Done
    ensures RefStep(s, ShareOne(s, pgdir, a, check).1, pgdir, a, sz, k)
  {
    ShareOneOutcome(s, pgdir, a, check);
    ShareOneRefc(s, pgdir, a, check, k);
    ShareOneHits(s, pgdir, a, sz, check, k);
  }

  /** Along a trace from a state whose directory is separated, consecutive
      states are one RefStep apart. */
  lemma {:induction false} TraceRefSteps(t: seq<Phys>, pgdir: nat, a: nat, sz: uint32, check: bool, k: nat)
    requires sz <= KERNBASE && IsShareTrace(t, pgdir, a, sz, check) && DirOk(Table(t[0], pgdir), pgdir, [])
    ensures RefSteps(t, pgdir, a, sz, k)
    decreases sz - a
  {
    hide ShareOne;
    if a < sz {
      ShareOneRefStep(t[0], pgdir, a, sz, check, k);
      ShareOneOutcome(t[0], pgdir, a, check);
      TraceRefSteps(t[1..], pgdir, a + PGSIZE, sz, check, k);
    }
  }

  /** Along a RefSteps trace, counter k gains one reference per hit,
      modulo 256, when the lock flag is set. */
  lemma {:induction false} StepsRefc(t: seq<Phys>, pgdir: nat, a: nat, sz: uint32, k: nat)
    requires sz <= KERNBASE && RefSteps(t, pgdir, a, sz, k)
    ensures Refc(Last(t), k) == if t[0].useLock then (Refc(t[0], k) + Hits(t[0], pgdir, a, sz, k)) % 256 else Refc(t[0], k)
    decreases sz - a
  {
    hide Pte, FrameNo, Refc, Entry;
    if a < sz {
      StepsRefc(t[1..], pgdir, a + PGSIZE, sz, k);
      assert Last(t[1..]) == Last(t);
      var hit := k == FrameNo(Pte(t[0], pgdir, a));
      RefcShift(t[0].useLock, t[1].useLock, hit, Refc(t[0], k), Refc(t[1], k), Refc(Last(t), k),
        Hits(t[1], pgdir, a + PGSIZE, sz, k), Hits(t[0], pgdir, a, sz, k));
    } else {
      assert Hits(t[0], pgdir, a, sz, k) == 0;
      DivMod(Refc(t[0], k) + Hits(t[0], pgdir, a, sz, k), 256, 0, Refc(t[0], k));
    }
  }

  /** When the loop from `a` completes, each frame has gained one reference
      per visited page naming it (modulo 256, after kinit2). */
  lemma ShareLoopRefc(s: Phys, pgdir: nat, a: nat, sz: uint32, check: bool, s2: Phys, k: nat)
    requires sz <= KERNBASE && DirOk(Table(s, pgdir), pgdir, [])
    requires ShareLoop(s, pgdir, a, sz, check) == (Done, s2)
    ensures Refc(s2, k) ==
      if s.useLock then (Refc(s, k) + Hits(s, pgdir, a, sz, k)) % 256 else Refc(s, k)
  {
    hide ShareOne;
    var t := ShareLoopTrace(s, pgdir, a, sz, check, s2);
    TraceRefSteps(t, pgdir, a, sz, check, k);
    StepsRefc(t, pgdir, a, sz, k);
  }

  /** One step leaves what the rest of the loop counts unchanged. */
  lemma ShareOneHits(s: Phys, pgdir: nat, a: nat, sz: uint32, check: bool, k: nat)
    requires a < sz <= KERNBASE && DirOk(Table(s, pgdir), pgdir, []) && ShareOne(s, pgdir, a, check).0 == Done
    ensures Hits(ShareOne(s, pgdir, a, check).1, pgdir, a + PGSIZE, sz, k) == Hits(s, pgdir, a + PGSIZE, sz, k)
  {
    hide ShareOne, Hits, Pte, FrameNo;
    var t := ShareOne(s, pgdir, a, check).1;
    ShareOneOutcome(s, pgdir, a, check);
    forall w: uint32 | Present(Entry(s, pgdir, Pdx(w)))
      ensures FrameNo(Pte(t, pgdir, w)) == FrameNo(Pte(s, pgdir, w))
    {
      ShareOneFrame(s, pgdir, a, check, w);
    }
    HitsSame(s, t, pgdir, a + PGSIZE, sz, k);
  }

  /** The bookkeeping of one step of the counters: one reference on this
      page's frame when it is frame k, then h more from the rest of the loop. */
  lemma RefcShift(lock: bool, lock1: bool, hit: bool, r0: byte, r1: byte, r2: byte, h: nat, total: nat)
    requires lock1 == lock && total == (if hit then 1 else 0) + h
    requires r1 == if lock && hit then (r0 + 1) % 256 else r0
    requires r2 == if lock1 then (r1 + h) % 256 else r1
    ensures r2 == if lock then (r0 + total) % 256 else r0
  {
    if lock {
      ModAdd(r0, if hit then 1 else 0, h);
    }
  }

  /** Counting one reference and then h more, modulo 256. */
  lemma ModAdd(r: nat, b: nat, h: nat)
    requires b <= 1
    ensures ((if b == 1 then (r + 1) % 256 else r) + h) % 256 == (r + b + h) % 256
  {
    if b == 1 {
      DivMod(r + 1, 256, (r + 1) / 256, (r + 1) % 256);
      DivMod((r + 1) % 256 + h, 256, ((r + 1) % 256 + h) / 256, ((r + 1) % 256 + h) % 256);
      DivMod(r + 1 + h, 256, (r + 1) / 256 + ((r + 1) % 256 + h) / 256, ((r + 1) % 256 + h) % 256);
    }
  }

  /** Clearing W twice is clearing it once. */
  lemma ClearWTwice(e: uint32)
    ensures ClearW(ClearW(e)) == ClearW(e)
  {
  }

  /** A visited page other than a's is visited by the rest of the loop. */
  lemma InRangeStep(a: nat, sz: uint32, w: uint32)
    requires a % PGSIZE == 0 && w / PGSIZE != a / PGSIZE && a < sz <= KERNBASE
    ensures InRange(a, sz, w) <==> InRange(a + PGSIZE, sz, w)
  {
    if a <= w {
      DivMod(a, PGSIZE, a / PGSIZE, 0);
      DivMod(w, PGSIZE, w / PGSIZE, w % PGSIZE);
    }
  }

  /** After one step the later pages pass PageOk exactly as before. */
  lemma PageOkKept(s: Phys, t: Phys, pgdir: nat, a: nat, sz: uint32, check: bool)
    requires a % PGSIZE == 0 && a < sz <= KERNBASE && DirOk(Table(s, pgdir), pgdir, [])
    requires ShareOne(s, pgdir, a, check) == (Done, t)
    ensures PageOk(s, pgdir, a, check)
    ensures AllOk(t, pgdir, a + PGSIZE, sz, check) <==> AllOk(s, pgdir, a, sz, check)
  {
    ShareOneOutcome(s, pgdir, a, check);
    forall w: uint32 | a + PGSIZE <= w
      ensures PageOk(t, pgdir, w, check) == PageOk(s, pgdir, w, check)
    {
      assert w / PGSIZE != a / PGSIZE by { DivMod(a, PGSIZE, a / PGSIZE, 0); }
      ShareOneMapping(s, pgdir, a, check, w);
    }
    forall w: uint32 | a < w < a + PGSIZE
      ensures w % PGSIZE != 0
    {
      DivMod(w, PGSIZE, a / PGSIZE, w - a);
    }
  }

  /** Reference copyuvm returns the same directory; when it completes,
      every page below sz keeps its frame, loses PTE_W and gains one
      reference (per page naming the frame), and every page at or above sz
      is untouched. It panics exactly when a page below sz has no entry. */
  lemma RefCopyMeaning(s: Phys, pgdir: nat, sz: uint32, w: uint32)
    requires sz <= KERNBASE && DirOk(Table(s, pgdir), pgdir, [])
    ensures var (o, d, s1) := RefCopy(s, pgdir, sz);
      var m := Mapping(s, pgdir, w);
      d == pgdir
      && (o == Done <==> forall u: uint32 :: u < sz && u % PGSIZE == 0 ==> PageOk(s, pgdir, u, true))
      && (o == Done ==>
            s1.freelist == s.freelist && s1.pages == s.pages && s1.allocpages == s.allocpages
            && (PgRoundDown(w) < sz && m.Some? ==>
                  Mapping(s1, pgdir, w) == Some(ClearW(m.value)) && !Writable(ClearW(m.value))
                  && PteAddr(ClearW(m.value)) == PteAddr(m.value) && User(ClearW(m.value)) == User(m.value))
            && (PgRoundDown(w) >= sz ==> Mapping(s1, pgdir, w) == m)
            && (s.useLock && m.Some? ==> Refc(s1, FrameNo(m.value)) == (Refc(s, FrameNo(m.value)) + Hits(s, pgdir, 0, sz, FrameNo(m.value))) % 256))
  {
    hide ShareOne;
    var r := ShareLoop(s, pgdir, 0, sz, true);
    ShareLoopDone(s, pgdir, 0, sz, true);
    if r.0 == Done {
      ShareLoopShared(s, pgdir, 0, sz, true, r.1);
      ShareLoopMapping(s, pgdir, 0, sz, true, r.1, w);
      if Mapping(s, pgdir, w).Some? {
        ShareLoopRefc(s, pgdir, 0, sz, true, r.1, FrameNo(Mapping(s, pgdir, w).value));
      }
    }
  }

  /** fork's loop is the same walk without the present check: it panics
      exactly when a page below sz has no table, and otherwise clears PTE_W
      in every entry below sz and adds a reference to each entry's frame,
      present or not (an empty entry counts against frame 0). */
  lemma ForkShareMeaning(s: Phys, pgdir: nat, sz: uint32, w: uint32, k: nat)
    requires sz <= KERNBASE && DirOk(Table(s, pgdir), pgdir, [])
    ensures var (o, s1) := ForkShare(s, pgdir, sz);
      var m := Mapping(s, pgdir, w);
      (o == Done <==> forall u: uint32 :: u < sz && u % PGSIZE == 0 ==> Present(Entry(s, pgdir, Pdx(u))))
      && (o == Done ==>
            s1.freelist == s.freelist && s1.pages == s.pages && s1.allocpages == s.allocpages
            && Mapping(s1, pgdir, w) == (if PgRoundDown(w) < sz && m.Some? then Some(ClearW(m.value)) else m)
            && Refc(s1, k) == if s.useLock then (Refc(s, k) + Hits(s, pgdir, 0, sz, k)) % 256 else Refc(s, k))
  {
    hide ShareOne;
    var r := ShareLoop(s, pgdir, 0, sz, false);
    ShareLoopDone(s, pgdir, 0, sz, false);
    assert AllOk(s, pgdir, 0, sz, false) <==> forall u: uint32 :: u < sz && u % PGSIZE == 0 ==> Present(Entry(s, pgdir, Pdx(u))) by {
      forall u: uint32 ensures PageOk(s, pgdir, u, false) == Present(Entry(s, pgdir, Pdx(u))) { }
    }
    if r.0 == Done {
      ShareLoopShared(s, pgdir, 0, sz, false, r.1);
      ShareLoopMapping(s, pgdir, 0, sz, false, r.1, w);
      ShareLoopRefc(s, pgdir, 0, sz, false, r.1, k);
    }
  }
}
