// The disk as the file system sees it, and the block allocator of
// kernel/fs.c (balloc, bfree): one bit per block in the bitmap blocks that
// start at sb.bmapstart. The buffer cache and the log are plain reads and
// writes of the disk map.
module FsBitmap {
  import opened Param
  import opened Wrappers
  import opened Bits
  import opened Bytes

  /** The bytes of one disk block. */
  type Block = s: seq<byte> | |s| == BSIZE witness Zeros(BSIZE)

  /** Every device's blocks, by (device, block number); a block never
      written reads as zeros. */
  type Disk = map<(nat, nat), Block>

  function Blk(d: Disk, dev: nat, b: nat): Block {
    if (dev, b) in d then d[(dev, b)] else Zeros(BSIZE)
  }

  /** The superblock fields the modelled code reads. */
  datatype Superblock = Superblock(size: uint32, ninodes: uint32, bmapstart: nat)

  /** BBLOCK(b, sb): the bitmap block holding b's bit. */
  function BBlock(b: nat, sb: Superblock): nat {
    b / BPB + sb.bmapstart
  }

  // ----- bits of a bitmap byte -----

  /** (v & (1 << k)) != 0 */
  predicate TestBit(v: byte, k: nat)
    requires k < 8
  {
    BitsOf(v, 8)[k]
  }

  /** v | (1 << k) */
  function SetBit(v: byte, k: nat): byte
    requires k < 8
  {
    Pow2Byte();
    ValueOf(BitsOf(v, 8)[k := true])
  }

  /** v & ~(1 << k) */
  function ClearBit(v: byte, k: nat): byte
    requires k < 8
  {
    Pow2Byte();
    ValueOf(BitsOf(v, 8)[k := false])
  }

  /** Setting or clearing bit k moves bit k and no other. */
  lemma SetClearBit(v: byte, k: nat, j: nat)
    requires k < 8 && j < 8
    ensures TestBit(SetBit(v, k), j) == (j == k || TestBit(v, j))
    ensures TestBit(ClearBit(v, k), j) == (j != k && TestBit(v, j))
  {
    BitsOfValueOf(BitsOf(v, 8)[k := true]);
    BitsOfValueOf(BitsOf(v, 8)[k := false]);
  }

  /** Clearing a bit that was just set gives the byte back. */
  lemma ClearSetBit(v: byte, k: nat)
    requires k < 8 && !TestBit(v, k)
    ensures ClearBit(SetBit(v, k), k) == v
  {
    var bs := BitsOf(v, 8);
    Pow2Byte();
    BitsOfValueOf(bs[k := true]);
    assert bs[k := true][k := false] == bs;
    ValueOfBitsOf(v, 8);
  }

  // ----- the bitmap -----

  /** The byte of the bitmap block that holds b's bit. */
  function BitByte(b: nat): nat {
    (b % BPB) / 8
  }

  /** Block b is marked in use on device dev. */
  predicate Used(d: Disk, sb: Superblock, dev: nat, b: nat) {
    TestBit(Blk(d, dev, BBlock(b, sb))[BitByte(b)], b % 8)
  }

  /** The disk with b's bit set (on) or cleared. */
  function Mark(d: Disk, sb: Superblock, dev: nat, b: nat, on: bool): Disk {
    var bb, i := BBlock(b, sb), BitByte(b);
    var blk := Blk(d, dev, bb);
    d[(dev, bb) := blk[i := if on then SetBit(blk[i], b % 8) else ClearBit(blk[i], b % 8)]]
  }

  /** Two blocks with the same bitmap block, byte and bit are the same block. */
  lemma SameBit(x: nat, y: nat, sb: Superblock)
    requires BBlock(x, sb) == BBlock(y, sb) && BitByte(x) == BitByte(y) && x % 8 == y % 8
    ensures x == y
  {
    DivMod(x % BPB, 8, BitByte(x), x % 8);
    DivMod(y % BPB, 8, BitByte(y), y % 8);
    DivMod(x, BPB, x / BPB, x % BPB);
    DivMod(y, BPB, y / BPB, y % BPB);
  }

  /** Marking b changes b's bit and no other, and only b's bitmap block. */
  lemma MarkMeaning(d: Disk, sb: Superblock, dev: nat, b: nat, on: bool, y: nat)
    ensures Used(Mark(d, sb, dev, b, on), sb, dev, y) == if y == b then on else Used(d, sb, dev, y)
  {
    var bb, i := BBlock(b, sb), BitByte(b);
    var blk := Blk(d, dev, bb);
    SetClearBit(blk[i], b % 8, y % 8);
    if y != b && BBlock(y, sb) == bb && BitByte(y) == i {
      if y % 8 == b % 8 {
        SameBit(y, b, sb);
      }
    }
  }

  /** The lowest block from x on, below sb.size, whose bit is clear. */
  function FirstFree(d: Disk, sb: Superblock, dev: nat, x: nat): Option<nat>
    decreases sb.size - x
  {
    if x >= sb.size then None
    else if !Used(d, sb, dev, x) then Some(x)
    else FirstFree(d, sb, dev, x + 1)
  }

  /** What FirstFree finds lies below sb.size. */
  lemma {:induction false} FirstFreeBelow(d: Disk, sb: Superblock, dev: nat, x: nat)
    ensures FirstFree(d, sb, dev, x).Some? ==> FirstFree(d, sb, dev, x).value < sb.size
    decreases sb.size - x
  {
    hide Used;
    if x < sb.size {
      FirstFreeBelow(d, sb, dev, x + 1);
    }
  }

  lemma {:induction false} FirstFreeMeaning(d: Disk, sb: Superblock, dev: nat, x: nat)
    ensures var r := FirstFree(d, sb, dev, x);
      (r.Some? ==>
        x <= r.value < sb.size && !Used(d, sb, dev, r.value)
        && forall z: nat :: x <= z < r.value ==> Used(d, sb, dev, z))
      && (r.None? ==> forall z: nat :: x <= z < sb.size ==> Used(d, sb, dev, z))
    decreases sb.size - x
  {
    hide Used;
    if x < sb.size && Used(d, sb, dev, x) {
      FirstFreeMeaning(d, sb, dev, x + 1);
    }
  }

  /** The lowest clear bit below `x` that every lower block's bit rules out
      is what FirstFree finds from 0. */
  lemma {:induction false} FirstFreeFrom(d: Disk, sb: Superblock, dev: nat, x: nat, y: nat)
    requires x <= y && (forall z: nat :: x <= z < y ==> Used(d, sb, dev, z))
    ensures FirstFree(d, sb, dev, x) == FirstFree(d, sb, dev, y)
    decreases y - x
  {
    hide Used;
    if x < y {
      assert Used(d, sb, dev, x);
      FirstFreeFrom(d, sb, dev, x + 1, y);
    }
  }

  /** Zeroing a block other than y's bitmap block keeps y's bit. */
  lemma ZeroKeepsUsed(d: Disk, sb: Superblock, dev: nat, x: nat, y: nat)
    requires BBlock(y, sb) != x
    ensures Used(d[(dev, x) := Zeros(BSIZE)], sb, dev, y) == Used(d, sb, dev, y)
  {
  }

  /** balloc(dev): the lowest free block below sb.size, marked in use and
      zeroed (bzero); with none free the kernel panics. */
  function Balloc(d: Disk, sb: Superblock, dev: nat): (Outcome, uint32, Disk) {
    hide Used;
    FirstFreeBelow(d, sb, dev, 0);
    match FirstFree(d, sb, dev, 0)
    case None => (Panic("balloc: out of blocks"), 0, d)
    case Some(x) => (Done, x, Mark(d, sb, dev, x, true)[(dev, x) := Zeros(BSIZE)])
  }

  /** balloc finds the lowest free block, marks it and zeroes it, and writes
      no other block than its bitmap block; it panics only when every block
      below sb.size is in use, and then changes nothing. */
  lemma BallocMeaning(d: Disk, sb: Superblock, dev: nat)
    ensures var (o, x, d1) := Balloc(d, sb, dev);
      (o == Done ==>
        x < sb.size && !Used(d, sb, dev, x) && (forall z: nat :: z < x ==> Used(d, sb, dev, z))
        && Blk(d1, dev, x) == Zeros(BSIZE)
        && (forall y: nat :: BBlock(y, sb) != x ==> Used(d1, sb, dev, y) == (y == x || Used(d, sb, dev, y)))
        && (forall e: nat, b: nat :: (e, b) != (dev, x) && (e, b) != (dev, BBlock(x, sb)) ==> Blk(d1, e, b) == Blk(d, e, b)))
      && (o.Panic? ==> d1 == d && forall z: nat :: z < sb.size ==> Used(d, sb, dev, z))
  {
    hide Used, FirstFree;
    FirstFreeMeaning(d, sb, dev, 0);
    var (o, x, d1) := Balloc(d, sb, dev);
    if o == Done {
      forall y: nat | BBlock(y, sb) != x
        ensures Used(d1, sb, dev, y) == (y == x || Used(d, sb, dev, y))
      {
        MarkMeaning(d, sb, dev, x, true, y);
        ZeroKeepsUsed(Mark(d, sb, dev, x, true), sb, dev, x, y);
      }
    }
  }

  /** bfree(dev, b): clears b's bit; a bit already clear panics. */
  function Bfree(d: Disk, sb: Superblock, dev: nat, b: nat): (Outcome, Disk) {
    if !Used(d, sb, dev, b) then (Panic("freeing free block"), d)
    else (Done, Mark(d, sb, dev, b, false))
  }

  /** bfree succeeds exactly on a block in use, clears its bit and no other,
      and writes only b's bitmap block. */
  lemma BfreeMeaning(d: Disk, sb: Superblock, dev: nat, b: nat)
    ensures var (o, d1) := Bfree(d, sb, dev, b);
      (o == Done <==> Used(d, sb, dev, b))
      && (o == Done ==> forall y: nat :: Used(d1, sb, dev, y) == (y != b && Used(d, sb, dev, y)))
      && (forall e: nat, c: nat :: (e, c) != (dev, BBlock(b, sb)) ==> Blk(d1, e, c) == Blk(d, e, c))
  {
    if Used(d, sb, dev, b) {
      forall y: nat
        ensures Used(Bfree(d, sb, dev, b).1, sb, dev, y) == (y != b && Used(d, sb, dev, y))
      {
        MarkMeaning(d, sb, dev, b, false, y);
      }
    }
  }

  /** bfree(balloc()) puts the bitmap block back as it was, byte for byte,
      unless the block handed out was its own bitmap block. */
  lemma BfreeBalloc(d: Disk, sb: Superblock, dev: nat)
    requires Balloc(d, sb, dev).0 == Done
    ensures var (_, x, d1) := Balloc(d, sb, dev);
      x != BBlock(x, sb) ==>
        Bfree(d1, sb, dev, x).0 == Done
        && Blk(Bfree(d1, sb, dev, x).1, dev, BBlock(x, sb)) == Blk(d, dev, BBlock(x, sb))
  {
    var (_, x, d1) := Balloc(d, sb, dev);
    BallocMeaning(d, sb, dev);
    if x != BBlock(x, sb) {
      var bb, i := BBlock(x, sb), BitByte(x);
      var blk := Blk(d, dev, bb);
      assert Blk(d1, dev, bb) == blk[i := SetBit(blk[i], x % 8)];
      ClearSetBit(blk[i], x % 8);
      assert Blk(Bfree(d1, sb, dev, x).1, dev, bb) == blk[i := SetBit(blk[i], x % 8)][i := blk[i]];
    }
  }

  // ----- blocks balloc never hands out -----

  /** The boot block and the bitmap blocks. */
  predicate Meta(sb: Superblock, x: nat) {
    x == 0 || sb.bmapstart <= x <= sb.bmapstart + sb.size / BPB
  }

  /** Every metadata block below sb.size is marked in use, as mkfs leaves
      a file system. */
  ghost predicate Reserved(d: Disk, sb: Superblock, dev: nat) {
    forall x: nat :: x < sb.size && Meta(sb, x) ==> Used(d, sb, dev, x)
  }

  /** Under Reserved, balloc hands out neither block 0 nor a bitmap block,
      and keeps Reserved. */
  lemma BallocReserved(d: Disk, sb: Superblock, dev: nat)
    requires Reserved(d, sb, dev)
    ensures var (o, x, d1) := Balloc(d, sb, dev);
      o == Done ==>
        x != 0 && !Meta(sb, x) && (forall y: nat :: y < sb.size ==> BBlock(y, sb) != x)
        && Reserved(d1, sb, dev)
  {
    hide Balloc, Used, Mark;
    BallocMeaning(d, sb, dev);
    var (o, x, d1) := Balloc(d, sb, dev);
    if o == Done {
      forall y: nat | y < sb.size
        ensures BBlock(y, sb) != x
      {
        assert y / BPB <= sb.size / BPB;
      }
      forall z: nat | z < sb.size && Meta(sb, z)
        ensures Used(d1, sb, dev, z)
      {
        assert BBlock(z, sb) != x;
      }
    }
  }
}
