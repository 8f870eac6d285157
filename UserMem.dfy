// Reading and writing single pages of a user address space (kernel/vm.c):
// clearpteu, uva2ka, copyout and inituvm, as functions on the allocator
// and memory state.
module UserMem {
  import opened Param
  import opened Wrappers
  import opened Bytes
  import opened Kalloc
  import opened PageTable
  import opened AddressSpace

  // ----- clearpteu -----

  /** clearpteu(pgdir, uva): panic when the table of uva is absent, else
      clear PTE_U in its entry. */
  function Clearpteu(s: Phys, pgdir: nat, uva: uint32): (Outcome, Phys) {
    var (p, _) := Walk(s, pgdir, uva, false);
    if p.None? then (Panic("clearpteu"), s)
    else (Done, Store(s, p.value, ClearU(Load(s, p.value))))
  }

  /** clearpteu panics exactly when the directory entry of uva is absent;
      otherwise the page of uva keeps its frame, presence and W bit and
      loses U, every other page maps what it did, and nothing outside the
      page tables changes. */
  lemma ClearpteuMeaning(s: Phys, pgdir: nat, uva: uint32, w: uint32)
    requires DirOk(Table(s, pgdir), pgdir, [])
    ensures var (o, s1) := Clearpteu(s, pgdir, uva);
      var m := Mapping(s, pgdir, w);
      (o.Panic? <==> !Present(Entry(s, pgdir, Pdx(uva))))
      && (o.Panic? ==> s1 == s)
      && (o == Done ==>
            s1 == s.(tables := s1.tables)
            && Mapping(s1, pgdir, w) == (if w / PGSIZE == uva / PGSIZE && m.Some? then Some(ClearU(m.value)) else m))
  {
    if Present(Entry(s, pgdir, Pdx(uva))) {
      var p := Slot(TableAt(s, pgdir, Pdx(uva)), Ptx(uva));
      StoreMapping(s, pgdir, uva, ClearU(Load(s, p)), w);
      if w / PGSIZE == uva / PGSIZE {
        SamePage(uva, w);
      }
    }
  }

  // ----- uva2ka -----

  /** uva2ka as written: walkpgdir with alloc 0 returns null when the
      directory entry is absent, and the entry is then read through that
      null pointer, which the model shows as a fault. */
  function Uva2kaAsWritten(s: Phys, pgdir: nat, uva: uint32): (Outcome, uint32) {
    var (p, _) := Walk(s, pgdir, uva, false);
    if p.None? then (Panic("null pte"), 0)
    else
      var e := Load(s, p.value);
      if !Present(e) || !User(e) then (Done, 0) else (Done, P2V(PteAddr(e)))
  }

  /** uva2ka with the missing null check: 0 when no table, no present entry
      or no PTE_U, else the kernel address of the frame. */
  function Uva2ka(s: Phys, pgdir: nat, uva: uint32): uint32 {
    var (p, _) := Walk(s, pgdir, uva, false);
    if p.None? then 0
    else
      var e := Load(s, p.value);
      if !Present(e) || !User(e) then 0 else P2V(PteAddr(e))
  }

  /** The user page `uva` lies on is present and user-accessible. */
  predicate UserPage(s: Phys, pgdir: nat, uva: uint32) {
    Mapping(s, pgdir, uva).Some? && User(Mapping(s, pgdir, uva).value)
  }

  /** uva2ka gives the kernel address of the frame the two-level
      translation finds for a present user page, and 0 for any other
      page. */
  lemma Uva2kaMeaning(s: Phys, pgdir: nat, uva: uint32)
    ensures Uva2ka(s, pgdir, uva) == if UserPage(s, pgdir, uva) then P2V(PteAddr(Mapping(s, pgdir, uva).value)) else 0
  {
  }

  /** A page copyout can write: a present user page whose frame has a
      non-null kernel address. */
  predicate CopyTarget(s: Phys, pgdir: nat, uva: uint32) {
    UserPage(s, pgdir, uva) && PteAddr(Mapping(s, pgdir, uva).value) != KERNBASE
  }

  /** A frame address other than the one at KERNBASE has a non-zero
      kernel address. */
  lemma P2VNonZero(pa: uint32)
    ensures P2V(pa) == 0 <==> pa == KERNBASE
  {
  }

  /** The code as written agrees with the corrected one whenever the
      directory entry is present, and faults otherwise. */
  lemma Uva2kaAsWrittenAgrees(s: Phys, pgdir: nat, uva: uint32)
    ensures Present(Entry(s, pgdir, Pdx(uva))) ==> Uva2kaAsWritten(s, pgdir, uva) == (Done, Uva2ka(s, pgdir, uva))
    ensures !Present(Entry(s, pgdir, Pdx(uva))) ==> Uva2kaAsWritten(s, pgdir, uva).0.Panic? && Uva2ka(s, pgdir, uva) == 0
  {
  }

  /** A state with no page tables at all. */
  const Bare: Phys := Phys(0, [], false, map[], map[], map[], 0)

  /** copyout on an address whose directory entry is absent (any address of
      a fresh directory) reaches the null read. */
  lemma Uva2kaNullRead()
    ensures Uva2kaAsWritten(Bare, 0, 0).0.Panic?
    ensures Uva2ka(Bare, 0, 0) == 0
  {
    assert Entry(Bare, 0, Pdx(0)) == 0;
  }

  // ----- copyout -----

  /** The bytes of a page as the model holds them: a page never written
      reads as zeros. */
  function PageOf(pages: map<nat, seq<byte>>, v: nat): (p: seq<byte>)
    ensures |p| == PGSIZE
  {
    if v in pages && |pages[v]| == PGSIZE then pages[v] else Fill(0)
  }

  /** memmove(v + off, w, |w|) within the page at v. */
  function WriteBytes(pages: map<nat, seq<byte>>, v: nat, off: nat, w: seq<byte>): map<nat, seq<byte>>
    requires off + |w| <= PGSIZE
  {
    pages[v := Splice(PageOf(pages, v), off, w)]
  }

  function Min(a: nat, b: nat): nat { if a <= b then a else b }

  /** The pieces copyout cuts [va, va+len) into: (address, length), each
      from va or a page boundary to the end of its page or of the range. */
  function Chunks(va: uint32, len: nat): seq<(uint32, nat)>
    decreases len
  {
    if len == 0 then []
    else
      var n := Min(PGSIZE - va % PGSIZE, len);
      [(va, n)] + Chunks(AddU(PgRoundDown(va), PGSIZE), len - n)
  }

  function SumLengths(c: seq<(uint32, nat)>): nat {
    if c == [] then 0 else c[0].1 + SumLengths(c[1..])
  }

  /** Chunks cover exactly len bytes, each is non-empty and stays inside
      one page, and each starts where the previous one ended (on a uint). */
  lemma {:induction false} ChunksCover(va: uint32, len: nat)
    ensures var c := Chunks(va, len);
      SumLengths(c) == len
      && (forall k :: 0 <= k < |c| ==> c[k].1 > 0 && c[k].0 % PGSIZE + c[k].1 <= PGSIZE)
      && (len > 0 ==> c[0].0 == va)
      && (forall k :: 0 < k < |c| ==> c[k].0 == AddU(c[k - 1].0, c[k - 1].1) && c[k].0 % PGSIZE == 0)
    decreases len
  {
    if len > 0 {
      var n := Min(PGSIZE - va % PGSIZE, len);
      var next := AddU(PgRoundDown(va), PGSIZE);
      var c := Chunks(va, len);
      var rest := Chunks(next, len - n);
      ChunksCover(next, len - n);
      assert c[1..] == rest;
      NextPageAligned(PgRoundDown(va));
      if len - n > 0 {
        assert va - va % PGSIZE == PgRoundDown(va);
        assert n == PGSIZE - va % PGSIZE;
        assert c[1].0 == AddU(c[0].0, c[0].1);
      }
      forall k | 0 < k < |c|
        ensures c[k].0 == AddU(c[k - 1].0, c[k - 1].1) && c[k].0 % PGSIZE == 0
      {
        if k > 1 {
          assert c[k] == rest[k - 1] && c[k - 1] == rest[k - 2];
        }
      }
    }
  }

  /** The first chunk starts at va and runs to the end of its page or of
      the range; the rest are the chunks from the next page. */
  lemma ChunksHead(va: uint32, len: nat)
    requires len > 0
    ensures var c, n := Chunks(va, len), Min(PGSIZE - va % PGSIZE, len);
      |c| > 0 && c[0] == (va, n) && c[1..] == Chunks(AddU(PgRoundDown(va), PGSIZE), len - n)
      && va - PgRoundDown(va) == va % PGSIZE
  {
  }

  /** One memmove of copyout: `data` into the frame at kernel address
      `at`, from byte `off` of that page. */
  datatype Write = Write(at: uint32, off: nat, data: seq<byte>)

  predicate Fits(w: Write) { w.off + |w.data| <= PGSIZE }

  /** copyout's loop over the bytes still to copy, given uva2ka on the
      (unchanging) page tables: the status it returns and the memmoves it
      makes, in order; it stops with -1 at the first page uva2ka refuses,
      after the earlier chunks were copied. */
  function CopyLoop(frame: map<uint32, uint32>, va: uint32, buf: seq<byte>): (r: (int, seq<Write>))
    ensures r.0 == 0 || r.0 == -1
    ensures forall k :: 0 <= k < |r.1| ==> Fits(r.1[k])
    decreases |buf|
  {
    if |buf| == 0 then (0, [])
    else
      var va0 := PgRoundDown(va);
      var pa0 := Look(frame, va0);
      if pa0 == 0 then (-1, [])
      else
        var n := Min(PGSIZE - (va - va0), |buf|);
        var rest := CopyLoop(frame, AddU(va0, PGSIZE), buf[n..]);
        (rest.0, [Write(pa0, va - va0, buf[..n])] + rest.1)
  }

  /** Making the memmoves in order. */
  function Apply(pages: map<nat, seq<byte>>, ws: seq<Write>): map<nat, seq<byte>>
    requires forall k :: 0 <= k < |ws| ==> Fits(ws[k])
    decreases |ws|
  {
    if |ws| == 0 then pages
    else
      assert Fits(ws[0]);
      Apply(WriteBytes(pages, ws[0].at, ws[0].off, ws[0].data), ws[1..])
  }

  /** uva2ka on the page tables of s, as a table from page to kernel address. */
  function FrameOf(s: Phys, pgdir: nat): map<uint32, uint32> {
    map u: uint32 | 0 <= u < UINT_MOD :: Uva2ka(s, pgdir, u)
  }

  /** The kernel address a frame table gives a page (0 for none). */
  function Look(frame: map<uint32, uint32>, u: uint32): uint32 {
    if u in frame then frame[u] else 0
  }

  /** copyout(pgdir, va, p, len), the len bytes at p given as `buf`. */
  function Copyout(s: Phys, pgdir: nat, va: uint32, buf: seq<byte>): (int, Phys) {
    var (r, ws) := CopyLoop(FrameOf(s, pgdir), va, buf);
    (r, s.(pages := Apply(s.pages, ws)))
  }

  /** Every chunk lies on a page with a frame. */
  ghost predicate AllMapped(frame: map<uint32, uint32>, c: seq<(uint32, nat)>) {
    c == [] || (Look(frame, PgRoundDown(c[0].0)) != 0 && AllMapped(frame, c[1..]))
  }

  lemma {:induction false} AllMappedEach(frame: map<uint32, uint32>, c: seq<(uint32, nat)>)
    ensures AllMapped(frame, c) <==> forall k :: 0 <= k < |c| ==> Look(frame, PgRoundDown(c[k].0)) != 0
  {
    if c != [] {
      AllMappedEach(frame, c[1..]);
      assert forall k :: 0 < k < |c| ==> c[k] == c[1..][k - 1];
    }
  }

  /** copyout's loop returns 0 exactly when every chunk lies on a page
      with a frame, and -1 otherwise. */
  lemma {:induction false} CopyLoopOutcome(frame: map<uint32, uint32>, va: uint32, buf: seq<byte>)
    ensures CopyLoop(frame, va, buf).0 == 0 <==> AllMapped(frame, Chunks(va, |buf|))
    decreases |buf|
  {
    hide PgRoundDown, AddU;
    if |buf| > 0 {
      var va0 := PgRoundDown(va);
      ChunksHead(va, |buf|);
      if Look(frame, va0) != 0 {
        var n := Min(PGSIZE - (va - va0), |buf|);
        CopyLoopOutcome(frame, AddU(va0, PGSIZE), buf[n..]);
      }
    }
  }

  /** copyout looks a page up by its rounded-down address: uva2ka of it is
      non-zero exactly for a present user page whose frame is not the one
      at physical KERNBASE (above PHYSTOP, so never a frame of RAM). */
  lemma PageLookup(s: Phys, pgdir: nat, va: uint32)
    ensures Look(FrameOf(s, pgdir), PgRoundDown(va)) != 0 <==> CopyTarget(s, pgdir, va)
  {
    var va0 := PgRoundDown(va);
    Uva2kaMeaning(s, pgdir, va0);
    SamePage(va0, va);
    if UserPage(s, pgdir, va) {
      P2VNonZero(PteAddr(Mapping(s, pgdir, va).value));
    }
  }

  /** copyout(pgdir, va, p, len) changes only page bytes, and it returns 0
      exactly when every page of its chunks is present and user-accessible,
      with a frame of non-null kernel address; else -1. */
  lemma CopyoutMeaning(s: Phys, pgdir: nat, va: uint32, buf: seq<byte>)
    ensures var (r, s1) := Copyout(s, pgdir, va, buf);
      var c := Chunks(va, |buf|);
      s1 == s.(pages := s1.pages) && (r == 0 || r == -1)
      && (r == 0 <==> forall k :: 0 <= k < |c| ==> CopyTarget(s, pgdir, c[k].0))
  {
    var c := Chunks(va, |buf|);
    CopyLoopOutcome(FrameOf(s, pgdir), va, buf);
    AllMappedEach(FrameOf(s, pgdir), c);
    forall k | 0 <= k < |c|
      ensures Look(FrameOf(s, pgdir), PgRoundDown(c[k].0)) != 0 <==> CopyTarget(s, pgdir, c[k].0)
    {
      PageLookup(s, pgdir, c[k].0);
    }
  }

  // ----- reading back what copyout wrote -----

  /** The frame of the page holding va+i. */
  function FrameAt(frame: map<uint32, uint32>, va: uint32, i: nat): uint32
    requires va + i < UINT_MOD
  {
    Look(frame, PgRoundDown(va + i))
  }

  /** The page number of va+i. */
  function PageNo(va: uint32, i: nat): nat { (va + i) / PGSIZE }

  /** No two pages of [va, va+len) reach the same frame. */
  ghost predicate DistinctFrames(frame: map<uint32, uint32>, va: uint32, len: nat)
    requires va + len <= UINT_MOD
  {
    forall i, j :: 0 <= i < j < len && PageNo(va, i) != PageNo(va, j) ==>
      FrameAt(frame, va, i) != FrameAt(frame, va, j)
  }

  /** The first chunk of [va, va+len): non-empty, inside one page, and
      followed by the next page when the range goes on. */
  lemma ChunkNext(va: uint32, len: nat)
    requires 0 < len && va + len <= UINT_MOD
    ensures var n := Min(PGSIZE - (va - PgRoundDown(va)), len);
      0 < n && (va - PgRoundDown(va)) + n <= PGSIZE
      && (n < len ==> AddU(PgRoundDown(va), PGSIZE) == va + n)
  {
  }

  /** Byte i of the first chunk lies on va's page, i bytes past va. */
  lemma ChunkFirst(va: uint32, len: nat, i: nat)
    requires va + len <= UINT_MOD && i < Min(PGSIZE - (va - PgRoundDown(va)), len)
    ensures PgRoundDown(va + i) == PgRoundDown(va) && (va + i) % PGSIZE == va - PgRoundDown(va) + i
  {
    var va0 := PgRoundDown(va);
    assert va + i == va0 + (va - va0 + i);
  }

  /** Bytes past the first chunk lie on later pages. */
  lemma ChunkLater(va: uint32, len: nat, j: nat)
    requires va + len <= UINT_MOD && Min(PGSIZE - (va - PgRoundDown(va)), len) <= j < len
    ensures PageNo(va, j) != PageNo(va, 0)
  {
    var va0 := PgRoundDown(va);
    assert va + j >= va0 + PGSIZE;
  }

  /** The memmoves go only to frames of pages of the range. */
  lemma {:induction false} CopyLoopTargets(frame: map<uint32, uint32>, va: uint32, buf: seq<byte>, P: nat)
    requires va + |buf| <= UINT_MOD
    requires forall i :: 0 <= i < |buf| ==> FrameAt(frame, va, i) != P
    ensures forall k :: 0 <= k < |CopyLoop(frame, va, buf).1| ==> CopyLoop(frame, va, buf).1[k].at != P
    decreases |buf|
  {
    if |buf| > 0 {
      var va0 := PgRoundDown(va);
      assert Look(frame, va0) == FrameAt(frame, va, 0);
      if Look(frame, va0) != 0 {
        var n := Min(PGSIZE - (va - va0), |buf|);
        var next := AddU(va0, PGSIZE);
        ChunkNext(va, |buf|);
        forall i | 0 <= i < |buf[n..]|
          ensures FrameAt(frame, next, i) != P
        {
          assert FrameAt(frame, next, i) == FrameAt(frame, va, n + i);
        }
        CopyLoopTargets(frame, next, buf[n..], P);
      }
    }
  }

  /** Memmoves to other frames leave a page alone. */
  lemma {:induction false} ApplyKeeps(pages: map<nat, seq<byte>>, ws: seq<Write>, P: nat)
    requires forall k :: 0 <= k < |ws| ==> Fits(ws[k]) && ws[k].at != P
    ensures PageOf(Apply(pages, ws), P) == PageOf(pages, P)
    decreases |ws|
  {
    if ws != [] {
      ApplyKeeps(WriteBytes(pages, ws[0].at, ws[0].off, ws[0].data), ws[1..], P);
    }
  }

  /** The distinct-frames fact carries over to the rest of the range after
      the first chunk. */
  lemma CopyShift(frame: map<uint32, uint32>, va: uint32, next: uint32, n: nat, len: nat)
    requires va + len <= UINT_MOD && n < len && next == va + n
    requires DistinctFrames(frame, va, len)
    ensures DistinctFrames(frame, next, len - n)
  {
    forall i, j | 0 <= i < j < len - n && PageNo(next, i) != PageNo(next, j)
      ensures FrameAt(frame, next, i) != FrameAt(frame, next, j)
    {
      assert FrameAt(frame, next, i) == FrameAt(frame, va, n + i);
      assert FrameAt(frame, next, j) == FrameAt(frame, va, n + j);
      assert PageNo(va, n + i) != PageNo(va, n + j);
    }
  }

  /** A byte of a memmove into a frame no later memmove touches. */
  lemma CopyFirstChunk(pages: map<nat, seq<byte>>, pa0: nat, off: nat, w: seq<byte>, rest: seq<Write>, i: nat)
    requires off + |w| <= PGSIZE && i < |w|
    requires forall k :: 0 <= k < |rest| ==> Fits(rest[k]) && rest[k].at != pa0
    ensures PageOf(Apply(WriteBytes(pages, pa0, off, w), rest), pa0)[off + i] == w[i]
  {
    var p1 := WriteBytes(pages, pa0, off, w);
    ApplyKeeps(p1, rest, pa0);
    var r := PageOf(p1, pa0);
    assert r == Splice(PageOf(pages, pa0), off, w);
    assert r[off + i] == r[off..off + |w|][i];
  }

  /** The first chunk's frame is no later chunk's frame. */
  lemma FirstFrameNotLater(frame: map<uint32, uint32>, va: uint32, buf: seq<byte>)
    requires va + |buf| <= UINT_MOD && 0 < |buf|
    requires DistinctFrames(frame, va, |buf|)
    ensures var va0 := PgRoundDown(va);
      var n := Min(PGSIZE - (va - va0), |buf|);
      n <= |buf| && forall j :: 0 <= j < |buf| - n ==> FrameAt(frame, AddU(va0, PGSIZE), j) != Look(frame, va0)
  {
    var va0 := PgRoundDown(va);
    var n := Min(PGSIZE - (va - va0), |buf|);
    var next := AddU(va0, PGSIZE);
    ChunkNext(va, |buf|);
    forall j | 0 <= j < |buf| - n
      ensures FrameAt(frame, next, j) != Look(frame, va0)
    {
      assert FrameAt(frame, next, j) == FrameAt(frame, va, n + j);
      ChunkLater(va, |buf|, n + j);
      assert Look(frame, va0) == FrameAt(frame, va, 0);
    }
  }

  /** After memmoves in order, a byte of one no later memmove overwrites
      (none targets the same frame) reads back. */
  lemma {:induction false} ApplyReads(pages: map<nat, seq<byte>>, ws: seq<Write>, k: nat, t: nat)
    requires forall j :: 0 <= j < |ws| ==> Fits(ws[j])
    requires k < |ws| && t < |ws[k].data|
    requires forall j :: k < j < |ws| ==> ws[j].at != ws[k].at
    ensures PageOf(Apply(pages, ws), ws[k].at)[ws[k].off + t] == ws[k].data[t]
    decreases |ws|
  {
    var w, rest := ApplyCons(pages, ws);
    var p1 := WriteBytes(pages, w.at, w.off, w.data);
    var wk := ws[k];
    if k == 0 {
      CopyFirstChunk(pages, w.at, w.off, w.data, rest, t);
      assert PageOf(Apply(p1, rest), wk.at)[wk.off + t] == wk.data[t];
    } else {
      assert wk == rest[k - 1];
      ApplyReads(p1, rest, k - 1, t);
      assert PageOf(Apply(p1, rest), wk.at)[wk.off + t] == wk.data[t];
    }
  }

  /** Apply unfolded by one memmove. */
  lemma ApplyCons(pages: map<nat, seq<byte>>, ws: seq<Write>) returns (w: Write, rest: seq<Write>)
    requires forall j :: 0 <= j < |ws| ==> Fits(ws[j])
    requires |ws| > 0
    ensures w == ws[0] && Fits(w) && rest == ws[1..]
    ensures forall j :: 0 <= j < |rest| ==> Fits(rest[j]) && rest[j] == ws[j + 1]
    ensures Apply(pages, ws) == Apply(WriteBytes(pages, w.at, w.off, w.data), rest)
  {
    w, rest := ws[0], ws[1..];
    assert Fits(w);
  }

  /** The same byte reached from a range that starts n bytes later. */
  lemma FrameShift(frame: map<uint32, uint32>, va: uint32, next: uint32, n: nat, i: nat)
    requires va + i < UINT_MOD && n <= i && next == va + n
    ensures FrameAt(frame, next, i - n) == FrameAt(frame, va, i)
    ensures (next + (i - n)) % PGSIZE == (va + i) % PGSIZE
  {
    assert next + (i - n) == va + i;
  }

  /** A first memmove to a frame none of the rest targets is the last one
      to that frame. */
  lemma FirstUnique(ws: seq<Write>, w: Write, rest: seq<Write>)
    requires ws == [w] + rest
    requires forall j :: 0 <= j < |rest| ==> rest[j].at != w.at
    ensures forall j :: 0 < j < |ws| ==> ws[j].at != ws[0].at
  {
    assert forall j :: 0 < j < |ws| ==> ws[j] == rest[j - 1];
  }

  /** The k-th of the rest is the (k+1)-th of all, with the same later ones. */
  lemma LaterUnique(ws: seq<Write>, w: Write, rest: seq<Write>, k: nat)
    requires ws == [w] + rest && k < |rest|
    requires forall j :: k < j < |rest| ==> rest[j].at != rest[k].at
    ensures ws[k + 1] == rest[k]
    ensures forall j :: k + 1 < j < |ws| ==> ws[j].at != ws[k + 1].at
  {
    assert forall j :: 0 < j < |ws| ==> ws[j] == rest[j - 1];
  }

  /** Where copyout's loop put byte i: the memmove k, at position t of its
      data, into the frame of the page of va+i at the offset of va+i; when
      the pages of the range have distinct frames, no later memmove goes to
      that frame. */
  lemma {:induction false} CopyLoopByte(frame: map<uint32, uint32>, va: uint32, buf: seq<byte>, i: nat) returns (k: nat, t: nat)
    requires va + |buf| <= UINT_MOD && i < |buf|
    requires CopyLoop(frame, va, buf).0 == 0 && DistinctFrames(frame, va, |buf|)
    ensures var ws := CopyLoop(frame, va, buf).1;
      k < |ws| && t < |ws[k].data| && ws[k].at == FrameAt(frame, va, i)
      && ws[k].off + t == (va + i) % PGSIZE && ws[k].data[t] == buf[i]
      && forall j :: k < j < |ws| ==> ws[j].at != ws[k].at
    decreases |buf|
  {
    hide CopyLoop, PgRoundDown, DistinctFrames;
    CopyLoopCons(frame, va, buf);
    var va0 := PgRoundDown(va);
    var n := Min(PGSIZE - (va - va0), |buf|);
    var next := AddU(va0, PGSIZE);
    var pa0 := Look(frame, va0);
    ChunkNext(va, |buf|);
    var w := Write(pa0, va - va0, buf[..n]);
    var rest := CopyLoop(frame, next, buf[n..]).1;
    var ws := CopyLoop(frame, va, buf).1;
    assert ws == [w] + rest;
    if i < n {
      k, t := 0, i;
      FirstFrameNotLater(frame, va, buf);
      CopyLoopTargets(frame, next, buf[n..], pa0);
      ChunkFirst(va, |buf|, i);
      assert FrameAt(frame, va, i) == pa0;
      assert ws[0] == w && w.data[i] == buf[i];
      FirstUnique(ws, w, rest);
    } else {
      CopyShift(frame, va, next, n, |buf|);
      var k', t' := CopyLoopByte(frame, next, buf[n..], i - n);
      k, t := k' + 1, t';
      FrameShift(frame, va, next, n, i);
      assert ws[k] == rest[k'] && buf[n..][i - n] == buf[i];
      LaterUnique(ws, w, rest, k');
    }
  }

  /** One step of the copy loop that did not fail: the first chunk's
      memmove, then the rest of the loop from the next page. */
  lemma CopyLoopCons(frame: map<uint32, uint32>, va: uint32, buf: seq<byte>)
    requires va + |buf| <= UINT_MOD && 0 < |buf| && CopyLoop(frame, va, buf).0 == 0
    ensures var va0 := PgRoundDown(va);
      var n := Min(PGSIZE - (va - va0), |buf|);
      var rest := CopyLoop(frame, AddU(va0, PGSIZE), buf[n..]);
      Look(frame, va0) != 0 && n <= |buf| && rest.0 == 0
      && CopyLoop(frame, va, buf).1 == [Write(Look(frame, va0), va - va0, buf[..n])] + rest.1
  {
  }

  /** The byte at user address u, read through the page tables (uva2ka of
      its page, then the offset within the page). */
  function ReadUser(s: Phys, pgdir: nat, u: uint32): byte {
    PageOf(s.pages, Uva2ka(s, pgdir, PgRoundDown(u)))[u % PGSIZE]
  }

  /** copyout copies exactly len bytes to consecutive user addresses: after
      it returned 0, over pages whose frames are distinct, reading user
      address va+i through the page tables gives p[i]. */
  lemma CopyoutReads(s: Phys, pgdir: nat, va: uint32, buf: seq<byte>, i: nat)
    requires va + |buf| <= UINT_MOD && i < |buf|
    requires Copyout(s, pgdir, va, buf).0 == 0 && DistinctFrames(FrameOf(s, pgdir), va, |buf|)
    ensures ReadUser(Copyout(s, pgdir, va, buf).1, pgdir, va + i) == buf[i]
  {
    hide Uva2ka, CopyLoop, Apply, DistinctFrames, FrameOf;
    var frame := FrameOf(s, pgdir);
    var ws := CopyLoop(frame, va, buf).1;
    var s1 := Copyout(s, pgdir, va, buf).1;
    assert s1.pages == Apply(s.pages, ws) && s1.tables == s.tables;
    var k, t := CopyLoopByte(frame, va, buf, i);
    ApplyReads(s.pages, ws, k, t);
    var u := PgRoundDown(va + i);
    FrameOfLook(s, pgdir, u);
    Uva2kaTables(s, s1, pgdir, u);
    assert Uva2ka(s1, pgdir, u) == FrameAt(frame, va, i);
  }

  /** The frame table copyout consults is uva2ka itself. */
  lemma FrameOfLook(s: Phys, pgdir: nat, u: uint32)
    ensures Look(FrameOf(s, pgdir), u) == Uva2ka(s, pgdir, u)
  {
  }

  /** Page tables are all uva2ka reads. */
  lemma Uva2kaTables(s: Phys, s1: Phys, pgdir: nat, u: uint32)
    requires s.tables == s1.tables
    ensures Uva2ka(s, pgdir, u) == Uva2ka(s1, pgdir, u)
  {
  }

  // ----- inituvm -----

  /** inituvm(pgdir, init, sz), the sz bytes at init given as `init`: panic
      when they do not fit in a page; take a page (a null one faults at the
      memset), zero it, map it at user address 0 with W|U (ignoring what
      mappages returns) and copy the bytes to its start. */
  function Inituvm(s: Phys, pgdir: nat, init: seq<byte>): (Outcome, Phys)
    requires Valid(s)
  {
    if |init| >= PGSIZE then (Panic("inituvm: more than a page"), s)
    else
      var (mem, s1) := AllocPage(s);
      if mem == 0 then (Panic("inituvm: memset of a null page"), s1)
      else
        AllocPageValid(s);
        FreeFrameAligned(s, mem);
        var s2 := s1.(pages := s1.pages[mem := Fill(0)]);
        var m := Mappages(s2, pgdir, 0, PGSIZE, V2P(mem), UserPerm);
        if m.0.Panic? then (m.0, m.2)
        else (Done, m.2.(pages := WriteBytes(m.2.pages, mem, 0, init)))
  }

  /** The page inituvm fills: the bytes of init, then zeros. */
  lemma ZeroPadded(init: seq<byte>)
    requires |init| < PGSIZE
    ensures Splice(Fill(0), 0, init) == init + Zeros(PGSIZE - |init|)
  {
    var r := Splice(Fill(0), 0, init);
    assert r[..|init|] == init;
    forall i | 0 <= i < PGSIZE
      ensures r[i] == (init + Zeros(PGSIZE - |init|))[i]
    {
      if i < |init| {
        assert r[i] == r[..|init|][i];
      }
    }
  }

  /** The state after inituvm's kalloc and memset. */
  function InitClaim(s: Phys): Phys
    requires s.freelist != []
  {
    s.(freelist := s.freelist[1..], pages := s.pages[s.freelist[0] := Fill(0)])
  }

  /** inituvm past its checks, spelled out: mappages of one page is one
      iteration of its loop, on a state that keeps the separation facts. */
  lemma InituvmForm(s: Phys, pgdir: nat, init: seq<byte>)
    requires Sep(s, pgdir) && |init| < PGSIZE && s.freelist != []
    ensures var mem := s.freelist[0];
      mem % PGSIZE == 0 && V2P(mem) % PGSIZE == 0 && Sep(InitClaim(s), pgdir) && mem !in InitClaim(s).freelist
      && var m := MapOne(InitClaim(s), pgdir, 0, V2P(mem), UserPerm);
      Inituvm(s, pgdir, init) == if m.0.Panic? then (m.0, m.2) else (Done, m.2.(pages := WriteBytes(m.2.pages, mem, 0, init)))
  {
    var mem := s.freelist[0];
    AllocPageSep(s, pgdir);
    FreeFrameAligned(s, mem);
    assert PgRoundDown(0) == 0 && MapCount(0, PGSIZE) == 0;
  }

  /** The walk mappages makes at user address 0 on the state after the
      kalloc: it finds a slot when the first directory entry is present or
      another page is free. */
  lemma InitWalk(s: Phys, pgdir: nat)
    requires Sep(s, pgdir) && s.freelist != []
    ensures Walk(InitClaim(s), pgdir, 0, true).0.Some? <==> Present(Entry(s, pgdir, 0)) || |s.freelist| >= 2
  {
    var s2 := InitClaim(s);
    WalkOutcomes(s2, pgdir, 0, true);
    if |s.freelist| >= 2 {
      assert s2.freelist[0] == s.freelist[1] && s.freelist[1] in s.freelist;
      assert Freeable(s.kend, s.freelist[1]);
    }
    assert Pdx(0) == 0;
  }

  /** What inituvm leaves in memory when it does not panic: the page that
      headed the free list holds init followed by zeros and is no longer
      free; no other page's bytes, no counter and not allocpages changed. */
  lemma InituvmBytes(s: Phys, pgdir: nat, init: seq<byte>)
    requires Sep(s, pgdir) && |init| < PGSIZE && s.freelist != []
    requires Inituvm(s, pgdir, init).0 == Done
    ensures var s1 := Inituvm(s, pgdir, init).1;
      Sep(s1, pgdir) && s.freelist[0] !in s1.freelist
      && s1.pages == s.pages[s.freelist[0] := init + Zeros(PGSIZE - |init|)]
      && s1.refc == s.refc && s1.allocpages == s.allocpages
  {
    hide Inituvm, Mapping;
    var mem := s.freelist[0];
    InituvmForm(s, pgdir, init);
    var s2 := InitClaim(s);
    MapOneMapping(s2, pgdir, 0, V2P(mem), UserPerm, 0);
    WalkShrinks(s2, pgdir, 0, true);
    ZeroPadded(init);
  }

  /** What inituvm does to the mappings: it panics ("remap") exactly when
      user address 0 was mapped; otherwise page 0 maps the page that headed
      the free list with W|U|P, unless the first directory entry was absent
      and no second page was free: then mappages failed, inituvm went on,
      and no mapping changed. */
  lemma InituvmMapping(s: Phys, pgdir: nat, init: seq<byte>, w: uint32)
    requires Sep(s, pgdir) && |init| < PGSIZE && s.freelist != []
    ensures V2P(s.freelist[0]) % PGSIZE == 0
    ensures var (o, s1) := Inituvm(s, pgdir, init);
      (o.Panic? <==> Mapping(s, pgdir, 0).Some?)
      && (o == Done ==>
            Mapping(s1, pgdir, w) ==
              if w < PGSIZE && (Present(Entry(s, pgdir, 0)) || |s.freelist| >= 2)
              then Some(MakePte(V2P(s.freelist[0]), UserPerm)) else Mapping(s, pgdir, w))
  {
    var mem := s.freelist[0];
    InituvmForm(s, pgdir, init);
    var s2 := InitClaim(s);
    MappingTables(s2, s, pgdir, w);
    MappingTables(s2, s, pgdir, 0);
    MapOneMapping(s2, pgdir, 0, V2P(mem), UserPerm, w);
    MapOneMapping(s2, pgdir, 0, V2P(mem), UserPerm, 0);
    InitWalk(s, pgdir);
    DeltaZero(0, w);
    var m := MapOne(s2, pgdir, 0, V2P(mem), UserPerm);
    if m.0 == Done {
      MappingTables(Inituvm(s, pgdir, init).1, m.2, pgdir, w);
    }
  }
}
