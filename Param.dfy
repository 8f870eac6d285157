// Constants of the kernel's configuration headers (param.h, fs.h, mmu.h,
// memlayout.h, buf.h) and the 32-bit unsigned arithmetic the kernel is
// written in. The headers are not part of this model; the values are the
// ones the kernel's code and comments rely on.
module Param {
  // param.h
  const NPROC: nat := 64     // process table slots (the loop bound in sigsend)
  const NCPU: nat := 8
  const NOFILE: nat := 16
  const NINODE: nat := 50
  const ROOTDEV: nat := 1
  const ROOTINO: nat := 1

  // fs.h
  const BSIZE: nat := 512
  const NDIRECT: nat := 12
  const NINDIRECT: nat := BSIZE / 4
  const MAXFILE: nat := NDIRECT + NINDIRECT
  const BPB: nat := BSIZE * 8
  const DIRSIZ: nat := 14
  const T_DIR: nat := 1
  const T_FILE: nat := 2
  const T_DEV: nat := 3

  // mmu.h, memlayout.h
  const PGSIZE: nat := 4096
  const NPDENTRIES: nat := 1024
  const NPTENTRIES: nat := 1024
  const KERNBASE: nat := 0x8000_0000
  const PHYSTOP: nat := 0x0E00_0000
  const EXTMEM: nat := 0x10_0000
  const KERNLINK: nat := KERNBASE + EXTMEM
  const DEVSPACE: nat := 0xFE00_0000
  const PTE_P: nat := 1
  const PTE_W: nat := 2
  const PTE_U: nat := 4

  // buf.h
  const B_VALID: nat := 2
  const B_DIRTY: nat := 4

  const UINT_MOD: nat := 0x1_0000_0000

  /** A C `uint`. */
  type uint32 = x: int | 0 <= x < UINT_MOD

  /** A C `uchar`, also one byte of a disk block or of a page. */
  type byte = x: int | 0 <= x < 256

  /** C's `a + b` on `uint`. */
  function AddU(a: uint32, b: uint32): (r: uint32)
    ensures a + b < UINT_MOD ==> r == a + b
    ensures a + b >= UINT_MOD ==> r == a + b - UINT_MOD
  {
    (a + b) % UINT_MOD
  }

  /** C's `a - b` on `uint`. */
  function SubU(a: uint32, b: uint32): (r: uint32)
    ensures b <= a ==> r == a - b
    ensures a < b ==> r == a - b + UINT_MOD
  {
    (a - b) % UINT_MOD
  }

  /** PGROUNDDOWN(a): the page boundary at or below `a`. */
  function PgRoundDown(a: uint32): (r: uint32)
    ensures r % PGSIZE == 0 && r <= a < r + PGSIZE
  {
    a / PGSIZE * PGSIZE
  }

  /** PGROUNDUP(a) = (a + PGSIZE-1) & ~(PGSIZE-1), computed in `uint`. */
  function PgRoundUp(a: uint32): (r: uint32)
    ensures r % PGSIZE == 0
    ensures a <= UINT_MOD - PGSIZE ==> a <= r < a + PGSIZE
    ensures a > UINT_MOD - PGSIZE ==> r == 0
  {
    AddU(a, PGSIZE - 1) / PGSIZE * PGSIZE
  }

  lemma {:induction false} MulGrows(m: int, k: int)
    requires 0 < m && 1 <= k
    ensures m * k >= m
    decreases k
  {
    if k > 1 {
      MulGrows(m, k - 1);
      assert m * k == m * (k - 1) + m;
    }
  }

  lemma MulGap(m: int, a: int, b: int)
    requires 0 < m && b < a
    ensures m * a - m * b >= m
  {
    MulGrows(m, a - b);
    assert m * (a - b) == m * a - m * b;
  }

  /** Division with remainder has one answer: if x = m*q + r with 0 <= r < m
      then q and r are x / m and x % m. */
  lemma DivMod(x: int, m: int, q: int, r: int)
    requires 0 < m && 0 <= r < m && x == m * q + r
    ensures x % m == r && x / m == q
  {
    var q1 := x / m;
    if q1 > q {
      MulGap(m, q1, q);
      assert false;
    } else if q > q1 {
      MulGap(m, q, q1);
      assert false;
    }
  }
}
