// The physical page allocator (kernel/kalloc.c): a LIFO free list of
// 4096-byte pages threaded through the free pages themselves, and an 8-bit
// reference counter per physical frame. Physical memory is seen through two
// views: the bytes of a page, and a page's 1024 entries when it serves as a
// page directory or page table (used by the Vm module).
module Kalloc {
  import opened Param
  import opened Wrappers
  import opened Bytes

  /** Number of frames pgrefcounter[] covers: PHYSTOP >> 12. */
  const NFRAMES: nat := PHYSTOP / PGSIZE

  /** Allocator and memory state. `kend` is the linker symbol `end`, the
      first address after the kernel image; `allocpages` is the global
      counter vm.c keeps of user pages. An absent key of `refc` is a zero
      counter; an absent page of `tables` is a table of zero entries. */
  datatype Phys = Phys(
    kend: nat,
    freelist: seq<uint32>,
    useLock: bool,
    refc: map<nat, byte>,
    pages: map<nat, seq<byte>>,
    tables: map<nat, map<nat, uint32>>,
    allocpages: uint32)

  /** The checks kfree makes: page-aligned, not inside the kernel image,
      and below PHYSTOP once translated (V2P, computed on a uint). */
  predicate Freeable(kend: nat, v: uint32) {
    v % PGSIZE == 0 && v >= kend && SubU(v, KERNBASE) < PHYSTOP
  }

  /** Every page on the free list passed kfree's checks. */
  predicate Valid(s: Phys) {
    forall v :: v in s.freelist ==> Freeable(s.kend, v)
  }

  predicate NoDup(l: seq<uint32>) {
    forall i, j :: 0 <= i < j < |l| ==> l[i] != l[j]
  }

  /** A page filled with one byte value (memset(v, b, PGSIZE)). */
  function Fill(b: byte): (p: seq<byte>)
    ensures |p| == PGSIZE && forall i :: 0 <= i < PGSIZE ==> p[i] == b
  {
    seq(PGSIZE, _ => b)
  }

  /** The head of a free list, 0 (a null `struct run *`) when it is empty. */
  function Head(l: seq<uint32>): uint32 {
    if l == [] then 0 else l[0]
  }

  /** A freed page: filled with junk byte 1, then its first word (`r->next`,
      a little-endian pointer) set to the old head of the list. */
  function Junk(next: uint32): (p: seq<byte>)
    ensures |p| == PGSIZE && p[..4] == Le32(next)
    ensures forall i :: 4 <= i < PGSIZE ==> p[i] == 1
  {
    Le32(next) + seq(PGSIZE - 4, _ => 1)
  }

  /** kfree(v): panic on a page that fails the checks; otherwise fill it
      with junk bytes, link it to the old head and push it on the list. */
  function FreePage(s: Phys, v: uint32): (Outcome, Phys) {
    if !Freeable(s.kend, v) then (Panic("kfree"), s)
    else (Done, s.(pages := s.pages[v := Junk(Head(s.freelist))], freelist := [v] + s.freelist))
  }

  /** The list is threaded through its pages: the first word of each listed
      page is the next listed page, and that of the last page is 0. */
  predicate Threaded(s: Phys) {
    forall i :: 0 <= i < |s.freelist| ==>
      s.freelist[i] in s.pages && |s.pages[s.freelist[i]]| == PGSIZE
      && Get32(s.pages[s.freelist[i]], 0) == Head(s.freelist[i + 1..])
  }

  /** kfree of a page not yet on the list keeps the list threaded; the new
      head's first word is the old head. */
  lemma KfreeThreads(s: Phys, v: uint32)
    requires Threaded(s) && v !in s.freelist
    ensures Threaded(FreePage(s, v).1)
  {
    if Freeable(s.kend, v) {
      var s1 := FreePage(s, v).1;
      forall i | 0 <= i < |s1.freelist|
        ensures s1.freelist[i] in s1.pages && |s1.pages[s1.freelist[i]]| == PGSIZE
        ensures Get32(s1.pages[s1.freelist[i]], 0) == Head(s1.freelist[i + 1..])
      {
        if i == 0 {
          Get32Le32(Head(s.freelist), Junk(Head(s.freelist)), 0);
          assert s1.freelist[1..] == s.freelist;
        } else {
          assert s1.freelist[i] == s.freelist[i - 1] != v;
          assert s1.freelist[i + 1..] == s.freelist[i..];
        }
      }
    }
  }

  /** kalloc's `kmem.freelist = r->next` reads the link of the popped page,
      which on a threaded list is the list's next page, so the new list is
      threaded again. */
  lemma KallocThreads(s: Phys)
    requires Threaded(s)
    ensures s.freelist != [] ==> Head(AllocPage(s).1.freelist) == Get32(s.pages[s.freelist[0]], 0)
    ensures Threaded(AllocPage(s).1)
  {
    if s.freelist != [] {
      var l := s.freelist[1..];
      forall i | 0 <= i < |l|
        ensures l[i] in s.pages && |s.pages[l[i]]| == PGSIZE && Get32(s.pages[l[i]], 0) == Head(l[i + 1..])
      {
        assert l[i] == s.freelist[i + 1] && l[i + 1..] == s.freelist[i + 2..];
      }
    }
  }

  /** kalloc(): pop the head of the free list, or return 0 when it is empty. */
  function AllocPage(s: Phys): (uint32, Phys) {
    if s.freelist == [] then (0, s)
    else (s.freelist[0], s.(freelist := s.freelist[1..]))
  }

  /** The page kalloc returns is never 0: free pages lie above the kernel. */
  lemma KallocNonZero(s: Phys)
    requires Valid(s) && s.kend > 0
    ensures AllocPage(s).0 == 0 <==> s.freelist == []
    ensures AllocPage(s).0 != 0 ==> AllocPage(s).0 !in AllocPage(s).1.freelist || !NoDup(s.freelist)
    ensures Valid(AllocPage(s).1)
  {
    if s.freelist != [] {
      assert s.freelist[0] in s.freelist;
      assert forall v :: v in s.freelist[1..] ==> v in s.freelist;
      if NoDup(s.freelist) {
        forall i | 0 <= i < |s.freelist| - 1
          ensures s.freelist[1..][i] != s.freelist[0]
        {
          assert s.freelist[1..][i] == s.freelist[i + 1];
        }
      }
    }
  }

  /** A kalloc right after kfree(v) hands back v, and the free list is as
      before the pair; only the page's bytes were overwritten. */
  lemma KallocAfterKfree(s: Phys, v: uint32)
    requires Freeable(s.kend, v)
    ensures FreePage(s, v).0 == Done
    ensures AllocPage(FreePage(s, v).1) == (v, s.(pages := s.pages[v := Junk(Head(s.freelist))]))
  {
    assert ([v] + s.freelist)[1..] == s.freelist;
  }

  /** kfree keeps the list's pages valid, and keeps them distinct unless the
      page was already free (kfree has no double-free check). */
  lemma KfreeKeepsInvariants(s: Phys, v: uint32)
    requires Valid(s) && NoDup(s.freelist)
    ensures Valid(FreePage(s, v).1)
    ensures NoDup(FreePage(s, v).1.freelist) <==> FreePage(s, v).0.Panic? || v !in s.freelist
  {
    var l := [v] + s.freelist;
    if Freeable(s.kend, v) && v in s.freelist {
      var j :| 0 <= j < |s.freelist| && s.freelist[j] == v;
      assert l[0] == l[j + 1];
    }
    if Freeable(s.kend, v) && v !in s.freelist {
      forall i, j | 0 <= i < j < |l|
        ensures l[i] != l[j]
      {
        if i > 0 {
          assert l[i] == s.freelist[i - 1] && l[j] == s.freelist[j - 1];
        } else {
          assert l[j] == s.freelist[j - 1];
        }
      }
    }
  }

  // ----- freerange -----

  /** The pages freerange visits from `p`: every page-sized step whose whole
      extent lies below `vend`. */
  function Run(p: nat, vend: uint32): (r: seq<uint32>)
    decreases vend - p
    ensures forall i :: 0 <= i < |r| ==> r[i] == p + i * PGSIZE && r[i] + PGSIZE <= vend
  {
    if p + PGSIZE <= vend then [p] + Run(p + PGSIZE, vend) else []
  }

  function Reverse(l: seq<uint32>): (r: seq<uint32>)
    ensures |r| == |l| && forall i :: 0 <= i < |l| ==> r[i] == l[|l| - 1 - i]
  {
    if l == [] then [] else Reverse(l[1..]) + [l[0]]
  }

  /** The loop of freerange from `p`, on C pointers (p + PGSIZE wraps). */
  function FreeLoop(s: Phys, p: uint32, vend: uint32): (Outcome, Phys)
    decreases UINT_MOD - p
  {
    if AddU(p, PGSIZE) <= vend then
      var (o, s1) := FreePage(s, p);
      if o.Panic? || p + PGSIZE >= UINT_MOD then (o, s1)
      else FreeLoop(s1, p + PGSIZE, vend)
    else (Done, s)
  }

  /** freerange(vstart, vend) */
  function FreePages(s: Phys, vstart: uint32, vend: uint32): (Outcome, Phys) {
    FreeLoop(s, PgRoundUp(vstart), vend)
  }

  /** The pages after kfree of each page of `l` in order onto the list
      `fl`: each page is junk linked to the head at its turn. */
  function FillAll(pages: map<nat, seq<byte>>, l: seq<uint32>, fl: seq<uint32>): map<nat, seq<byte>>
    decreases |l|
  {
    if l == [] then pages else FillAll(pages[l[0] := Junk(Head(fl))], l[1..], [l[0]] + fl)
  }

  /** From a page-aligned start the loop completes iff every page of Run
      passes kfree's checks. The one page whose successor wraps past 2^32
      (0xFFFFF000) is never in Run but would be visited, and it always fails
      the checks. */
  lemma {:induction false} FreeLoopDone(s: Phys, p: uint32, vend: uint32)
    requires p % PGSIZE == 0
    ensures FreeLoop(s, p, vend).0 == Done <==>
      p != UINT_MOD - PGSIZE && forall a :: a in Run(p, vend) ==> Freeable(s.kend, a)
    decreases UINT_MOD - p
  {
    if p + PGSIZE >= UINT_MOD {
      assert !Freeable(s.kend, p);
    } else if p + PGSIZE <= vend {
      var s1 := FreePage(s, p).1;
      assert Run(p, vend) == [p] + Run(p + PGSIZE, vend);
      if Freeable(s.kend, p) {
        FreeLoopDone(s1, p + PGSIZE, vend);
        assert s1.kend == s.kend;
      } else {
        assert p in Run(p, vend);
      }
    } else {
      assert Run(p, vend) == [];
    }
  }

  /** A completed loop has pushed the pages of Run on the free list in visit
      order, so the last page freed is the new head, and filled each with junk. */
  lemma {:induction false} FreeLoopState(s: Phys, p: uint32, vend: uint32)
    requires FreeLoop(s, p, vend).0 == Done
    ensures FreeLoop(s, p, vend).1 == s.(freelist := Reverse(Run(p, vend)) + s.freelist,
                                         pages := FillAll(s.pages, Run(p, vend), s.freelist))
    decreases UINT_MOD - p
  {
    hide Junk;
    var run := Run(p, vend);
    if AddU(p, PGSIZE) > vend {
      assert run == [];
      return;
    }
    if p + PGSIZE >= UINT_MOD {
      assert false;
    }
    var s1 := FreePage(s, p).1;
    assert s1 == s.(pages := s.pages[p := Junk(Head(s.freelist))], freelist := [p] + s.freelist);
    var rest := Run(p + PGSIZE, vend);
    assert run == [p] + rest;
    FreeLoopState(s1, p + PGSIZE, vend);
    PushRun(run, p, rest, s.freelist);
    assert FillAll(s.pages, run, s.freelist) == FillAll(s1.pages, rest, s1.freelist);
  }

  /** Pushing p and then the pages of `rest` is pushing the pages of [p] + rest. */
  lemma PushRun(run: seq<uint32>, p: uint32, rest: seq<uint32>, fl: seq<uint32>)
    requires run == [p] + rest
    ensures Reverse(rest) + ([p] + fl) == Reverse(run) + fl
  {
    assert run[1..] == rest;
    assert Reverse(run) == Reverse(rest) + [p];
  }

  // ----- reference counters -----

  /** The counter of frame `ppn` (zero until first changed). */
  function Refc(s: Phys, ppn: nat): byte {
    if ppn in s.refc then s.refc[ppn] else 0
  }

  /** (va - KERNBASE) >> 12, on a uint. */
  function RefIndex(va: uint32): (ppn: nat)
    ensures ppn < UINT_MOD / PGSIZE
  {
    SubU(va, KERNBASE) / PGSIZE
  }

  /** chgpgrefc(va, dif): pgrefcounter[ppn] += dif on an unsigned char, and
      nothing at all before use_lock is set. */
  function AddRef(s: Phys, va: uint32, dif: uint32): Phys {
    if !s.useLock then s
    else s.(refc := s.refc[RefIndex(va) := (Refc(s, RefIndex(va)) + dif) % 256])
  }

  /** getpgrefc(va): the counter, or a panic before kinit2 set use_lock. */
  function RefOf(s: Phys, va: uint32): (Outcome, byte) {
    if s.useLock then (Done, Refc(s, RefIndex(va))) else (Panic("somehow ended up here before kinit2 done?"), 0)
  }

  /** After kinit2, chgpgrefc adds `dif` modulo 256 to the frame's counter and
      to no other; adding (uint)-1 decrements modulo 256. Before it nothing
      changes and getpgrefc panics. */
  lemma RefcountArithmetic(s: Phys, va: uint32, dif: uint32, other: nat)
    requires other != RefIndex(va)
    ensures s.useLock ==> RefOf(AddRef(s, va, dif), va) == (Done, (Refc(s, RefIndex(va)) + dif) % 256)
    ensures s.useLock && dif == UINT_MOD - 1 ==>
      RefOf(AddRef(s, va, dif), va).1 == (Refc(s, RefIndex(va)) - 1) % 256
    ensures Refc(AddRef(s, va, dif), other) == Refc(s, other)
    ensures !s.useLock ==> AddRef(s, va, dif) == s && RefOf(s, va).0.Panic?
  {
  }

  /** Adding 1 and then (uint)-1 restores the counter, also across the wrap at 255. */
  lemma RefcountIncDec(s: Phys, va: uint32)
    ensures Refc(AddRef(AddRef(s, va, 1), va, UINT_MOD - 1), RefIndex(va)) == Refc(s, RefIndex(va))
  {
  }

  /** The counter index of a kernel address is its physical frame number, and
      the frame numbers of pages below PHYSTOP fit pgrefcounter[]. */
  lemma RefIndexOfKernelPage(v: uint32)
    requires KERNBASE <= v < KERNBASE + PHYSTOP
    ensures RefIndex(v) == (v - KERNBASE) / PGSIZE < NFRAMES
  {
  }

  /** The allocator as the kernel holds it. */
  class Kmem {
    const kend: nat
    var freelist: seq<uint32>
    var useLock: bool
    var refc: map<nat, byte>
    var pages: map<nat, seq<byte>>
    var tables: map<nat, map<nat, uint32>>
    var allocpages: uint32

    function State(): Phys
      reads this
    {
      Phys(kend, freelist, useLock, refc, pages, tables, allocpages)
    }

    /** Store a whole state (used by the operations that other modules
        specify through their functions on Phys). */
    method SetState(s: Phys)
      requires s.kend == kend
      modifies this
      ensures State() == s
    {
      freelist, useLock, refc, pages, tables, allocpages :=
        s.freelist, s.useLock, s.refc, s.pages, s.tables, s.allocpages;
    }

    /** kinit1 before its freerange: an empty list, no lock, zero counters. */
    constructor (kend: nat)
      ensures State() == Phys(kend, [], false, map[], map[], map[], 0)
    {
      this.kend := kend;
      freelist, useLock, refc, pages, tables, allocpages := [], false, map[], map[], map[], 0;
    }

    method Kfree(v: uint32) returns (r: Outcome)
      modifies this
      ensures (r, State()) == FreePage(old(State()), v)
    {
      if v % PGSIZE != 0 || v < kend || SubU(v, KERNBASE) >= PHYSTOP {
        return Panic("kfree");
      }
      pages := pages[v := Junk(Head(freelist))];
      freelist := [v] + freelist;
      r := Done;
    }

    method Kalloc() returns (v: uint32)
      modifies this
      ensures (v, State()) == AllocPage(old(State()))
    {
      if freelist == [] {
        return 0;
      }
      v := freelist[0];
      freelist := freelist[1..];
    }

    /** freerange(vstart, vend): kfree every whole page in the range. */
    method FreeRange(vstart: uint32, vend: uint32) returns (r: Outcome)
      modifies this
      ensures (r, State()) == FreePages(old(State()), vstart, vend)
    {
      var p: uint32 := PgRoundUp(vstart);
      while AddU(p, PGSIZE) <= vend
        invariant FreeLoop(old(State()), PgRoundUp(vstart), vend) == FreeLoop(State(), p, vend)
        decreases UINT_MOD - p
      {
        r := Kfree(p);
        if r.Panic? || p + PGSIZE >= UINT_MOD {
          return;
        }
        p := p + PGSIZE;
      }
      r := Done;
    }

    /** kinit1(vstart, vend): the lock-free first phase. */
    method Kinit1(vstart: uint32, vend: uint32) returns (r: Outcome)
      modifies this
      ensures (r, State()) == FreePages(old(State()).(useLock := false), vstart, vend)
    {
      useLock := false;
      r := FreeRange(vstart, vend);
    }

    /** kinit2(vstart, vend): free the rest, then turn on locking (and with
        it the reference counters). */
    method Kinit2(vstart: uint32, vend: uint32) returns (r: Outcome)
      modifies this
      ensures var (o, s) := FreePages(old(State()), vstart, vend);
        r == o && (o == Done ==> State() == s.(useLock := true))
    {
      r := FreeRange(vstart, vend);
      if r.Panic? {
        return;
      }
      useLock := true;
    }

    method ChgPgRefc(va: uint32, dif: uint32)
      modifies this
      ensures State() == AddRef(old(State()), va, dif)
    {
      if useLock {
        var ppn := SubU(va, KERNBASE) / PGSIZE;
        var c := if ppn in refc then refc[ppn] else 0;
        refc := refc[ppn := (c + dif) % 256];
      }
    }

    method GetPgRefc(va: uint32) returns (r: Outcome, c: byte)
      ensures (r, c) == RefOf(State(), va)
    {
      if useLock {
        var ppn := SubU(va, KERNBASE) / PGSIZE;
        return Done, if ppn in refc then refc[ppn] else 0;
      }
      return Panic("somehow ended up here before kinit2 done?"), 0;
    }
  }
}
