// The second IDE channel's driver (kernel/ide2.c): a FIFO of buffers whose
// head is the request the disk is working on, the interrupt handler that
// completes the head and starts the next, and the task-file register values
// ide2start writes (28-bit LBA addressing of the ATA command set). Port
// output is recorded as a list of writes instead of being performed.
module Ide2 {
  import opened Param
  import opened Wrappers

  const SECTOR_SIZE: nat := 512
  const IDE2_BASE1: nat := 0x170
  const IDE2_BASE2: nat := 0x376
  const IDE_CMD_READ: nat := 0x20
  const IDE_CMD_WRITE: nat := 0x30
  const IDE_CMD_RDMUL: nat := 0xc4
  const IDE_CMD_WRMUL: nat := 0xc5

  /** One `outb` (or the `outsl` of a block's data) to an I/O port. */
  datatype PortWrite = OutB(port: nat, value: nat) | OutData(port: nat, data: seq<byte>)

  /** flags & bit, for the one-bit flags B_VALID and B_DIRTY. */
  predicate Has(flags: nat, bit: nat)
    requires bit == B_VALID || bit == B_DIRTY
  {
    (flags / bit) % 2 == 1
  }

  /** flags | B_VALID, then & ~B_DIRTY. */
  function Completed(flags: nat): (f: nat)
    ensures Has(f, B_VALID) && !Has(f, B_DIRTY)
    ensures f % 2 == flags % 2 && f / 8 == flags / 8
  {
    FlagBits(flags);
    var q, c, a := flags / 8, (flags / 4) % 2, flags % 2;
    FlagCompose(q, c, 1, a);
    FlagCompose(q, 0, 1, a);
    var v := if Has(flags, B_VALID) then flags else flags + B_VALID;
    assert v == 8 * q + 4 * c + 2 * 1 + a;
    var f := if Has(v, B_DIRTY) then v - B_DIRTY else v;
    assert f == 8 * q + 4 * 0 + 2 * 1 + a;
    f
  }

  /** A number from its bits 0, 1 and 2 and the rest. */
  lemma FlagCompose(q: nat, c: nat, b: nat, a: nat)
    requires c < 2 && b < 2 && a < 2
    ensures var x := 8 * q + 4 * c + 2 * b + a;
      x / 8 == q && (x / 4) % 2 == c && (x / 2) % 2 == b && x % 2 == a
  {
    var x := 8 * q + 4 * c + 2 * b + a;
    DivMod(x, 8, q, 4 * c + 2 * b + a);
    DivMod(x, 4, 2 * q + c, 2 * b + a);
    DivMod(2 * q + c, 2, q, c);
    DivMod(x, 2, 4 * q + 2 * c + b, a);
    DivMod(4 * q + 2 * c + b, 2, 2 * q + c, b);
  }

  /** A number is its bits 0, 1 and 2 and the rest. */
  lemma FlagBits(x: nat)
    ensures x == 8 * (x / 8) + 4 * ((x / 4) % 2) + 2 * ((x / 2) % 2) + x % 2
  {
    var q, r := x / 8, x % 8;
    DivMod(x, 4, 2 * q + r / 4, r % 4);
    DivMod(x / 4, 2, q, r / 4);
    DivMod(x, 2, 4 * q + r / 2, r % 2);
    DivMod(x / 2, 2, 2 * q + r / 4, (r / 2) % 2);
  }

  /** BSIZE / SECTOR_SIZE */
  function SectorsPerBlock(): nat { BSIZE / SECTOR_SIZE }

  /** The task-file writes of ide2start for a request, or its panic. */
  function StartWrites(dev: nat, blockno: nat, dirty: bool, data: seq<byte>): (r: (Outcome, seq<PortWrite>))
    ensures blockno >= 4000 ==> r.0.Panic?
  {
    if blockno >= 4000 then (Panic("incorrect blockno"), [])
    else
      var spb := SectorsPerBlock();
      var sector := blockno * spb;
      var readCmd := if spb == 1 then IDE_CMD_READ else IDE_CMD_RDMUL;
      var writeCmd := if spb == 1 then IDE_CMD_WRITE else IDE_CMD_WRMUL;
      if spb > 7 then (Panic("idestart"), [])
      else
        (Done,
         [OutB(IDE2_BASE2, 0),
          OutB(IDE2_BASE1 + 2, spb),
          OutB(IDE2_BASE1 + 3, sector % 256),
          OutB(IDE2_BASE1 + 4, (sector / 256) % 256),
          OutB(IDE2_BASE1 + 5, (sector / 0x1_0000) % 256),
          OutB(IDE2_BASE1 + 6, 0xE0 + 16 * (dev % 2) + (sector / 0x100_0000) % 16)]
         + (if dirty then [OutB(IDE2_BASE1 + 7, writeCmd), OutData(IDE2_BASE1, data)]
            else [OutB(IDE2_BASE1 + 7, readCmd)]))
  }

  /** What a controller reads back from the address registers: the 28-bit
      sector number, the drive bit, and the LBA-mode bits 0xE0. */
  function DecodeLba(w: seq<PortWrite>): (r: (nat, nat, nat))
    requires |w| >= 6 && forall i :: 2 <= i < 6 ==> w[i].OutB?
  {
    (w[2].value + 256 * w[3].value + 0x1_0000 * w[4].value + 0x100_0000 * (w[5].value % 16),
     (w[5].value / 16) % 2,
     w[5].value / 32)
  }

  /** For a block below 4000 ide2start succeeds, the registers carry the
      block's sector and the device's drive bit in LBA mode, and the command
      is a write followed by the data exactly when the buffer is dirty. */
  lemma StartWritesMeaning(dev: nat, blockno: nat, dirty: bool, data: seq<byte>)
    requires blockno < 4000
    ensures var r := StartWrites(dev, blockno, dirty, data);
      r.0 == Done && |r.1| == (if dirty then 8 else 7)
      && (forall i :: 2 <= i < 6 ==> r.1[i].OutB?)
      && DecodeLba(r.1) == (blockno * SectorsPerBlock(), dev % 2, 7)
      && r.1[6] == OutB(IDE2_BASE1 + 7, if dirty then IDE_CMD_WRITE else IDE_CMD_READ)
      && (dirty ==> r.1[7] == OutData(IDE2_BASE1, data))
  {
    var sector := blockno;
    assert SectorsPerBlock() == 1;
    var r := StartWrites(dev, blockno, dirty, data);
    var w5 := 0xE0 + 16 * (dev % 2) + (sector / 0x100_0000) % 16;
    assert sector / 0x100_0000 == 0;
    assert w5 % 16 == 0 && (w5 / 16) % 2 == dev % 2 && w5 / 32 == 7;
    assert sector % 256 + 256 * ((sector / 256) % 256) + 0x1_0000 * ((sector / 0x1_0000) % 256) == sector;
  }

  /** The checks ide2rw makes before queueing: the caller holds the buffer's
      lock, there is something to do (not VALID-and-clean), and the disk exists. */
  predicate Accepts(b: Buf, havedisk2: bool)
    reads b
  {
    b.locked && !(Has(b.flags, B_VALID) && !Has(b.flags, B_DIRTY)) && !(b.dev == 2 && !havedisk2)
  }

  /** A disk buffer: the fields of struct buf the driver reads and writes. */
  class Buf {
    var flags: nat
    var dev: nat
    var blockno: nat
    var locked: bool
    var data: seq<byte>

    constructor (dev: nat, blockno: nat, flags: nat, data: seq<byte>)
      ensures this.dev == dev && this.blockno == blockno && this.flags == flags
      ensures this.data == data && !locked
    {
      this.dev := dev;
      this.blockno := blockno;
      this.flags := flags;
      this.data := data;
      this.locked := false;
    }
  }

  class Driver {
    /** idequeue, head first. */
    var queue: seq<Buf>
    var havedisk2: bool
    /** Every port write issued so far. */
    var ports: seq<PortWrite>
    /** The buffers ide2rw accepted, and those ide2intr completed, in order. */
    ghost var submitted: seq<Buf>
    ghost var completed: seq<Buf>

    /** FIFO: the completed requests followed by the pending ones are
        exactly the accepted requests, in the order they were accepted. */
    ghost predicate Valid()
      reads this
    {
      completed + queue == submitted
    }

    constructor (havedisk2: bool)
      ensures Valid() && submitted == [] && completed == []
      ensures queue == [] && ports == [] && this.havedisk2 == havedisk2
    {
      submitted, completed := [], [];
      queue := [];
      ports := [];
      this.havedisk2 := havedisk2;
    }

    /** ide2start(b): issue the request's writes, or panic with no writes. */
    method Start(b: Buf) returns (r: Outcome)
      modifies this`ports
      ensures var s := StartWrites(b.dev, b.blockno, Has(b.flags, B_DIRTY), b.data);
        r == s.0 && ports == old(ports) + s.1
    {
      var s := StartWrites(b.dev, b.blockno, Has(b.flags, B_DIRTY), b.data);
      ports := ports + s.1;
      return s.0;
    }

    /** ide2rw(b) up to the wait: panic checks, append at the tail, and start
        the disk when `b` became the head. */
    method Rw(b: Buf) returns (r: Outcome)
      requires Valid()
      modifies this`queue, this`ports, this`submitted
      ensures Valid() && completed == old(completed)
      ensures submitted == old(submitted) + (if Accepts(b, havedisk2) then [b] else [])
      ensures !Accepts(b, havedisk2) ==>
        r.Panic? && queue == old(queue) && ports == old(ports)
      ensures Accepts(b, havedisk2) ==>
        queue == old(queue) + [b]
        && (queue[0] == b ==>
              var s := StartWrites(b.dev, b.blockno, Has(b.flags, B_DIRTY), b.data);
              r == s.0 && ports == old(ports) + s.1)
        && (queue[0] != b ==> r == Done && ports == old(ports))
    {
      if !b.locked {
        return Panic("ide2rw: buf not locked");
      }
      if Has(b.flags, B_VALID) && !Has(b.flags, B_DIRTY) {
        return Panic("ide2rw: nothing to do");
      }
      if b.dev == 2 && !havedisk2 {
        return Panic("ide2rw: ide disk 2 not present");
      }
      queue := queue + [b];
      submitted := submitted + [b];
      if queue[0] == b {
        r := Start(b);
      } else {
        r := Done;
      }
    }

    /** ide2intr: complete the head request (taking the disk's data for a
        read when the controller reports no error) and start the next one. */
    method Intr(diskOk: bool, diskData: seq<byte>) returns (done: Option<Buf>, r: Outcome)
      requires Valid()
      modifies this`queue, this`ports, this`completed, if queue == [] then {} else {queue[0]}
      ensures Valid() && submitted == old(submitted)
      ensures completed == old(completed) + (if done.Some? then [done.value] else [])
      ensures old(queue) == [] ==> done == None && r == Done && queue == [] && ports == old(ports)
      ensures old(queue) != [] ==>
        var b := old(queue[0]);
        done == Some(b) && queue == old(queue[1..])
        && b.flags == Completed(old(b.flags))
        && b.data == (if !Has(old(b.flags), B_DIRTY) && diskOk then diskData else old(b.data))
        && (queue == [] ==> r == Done && ports == old(ports))
        && (queue != [] ==>
              var s := StartWrites(queue[0].dev, queue[0].blockno, Has(queue[0].flags, B_DIRTY), queue[0].data);
              r == s.0 && ports == old(ports) + s.1)
    {
      if queue == [] {
        return None, Done;
      }
      var b := queue[0];
      completed := completed + [b];
      assert completed + queue[1..] == old(completed) + queue;
      queue := queue[1..];
      if !Has(b.flags, B_DIRTY) && diskOk {
        b.data := diskData;
      }
      b.flags := Completed(b.flags);
      done := Some(b);
      if queue != [] {
        r := Start(queue[0]);
      } else {
        r := Done;
      }
    }
  }
}
