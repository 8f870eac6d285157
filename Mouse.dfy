// The kernel side of the PS/2 mouse (kernel/mouse.c): a ring buffer of
// BUFLEN slots with read/write indices and a fill count, the packet filter of
// the interrupt handler, and readmouse. Port I/O is replaced by the bytes
// the controller would deliver.
module Mouse {
  import opened Param
  import opened MousePacket

  const BUFLEN: nat := 129

  /** How many of `n` values fit into a buffer already holding `size`. */
  function Room(size: nat, n: nat): nat {
    if size + n <= BUFLEN then n else if size <= BUFLEN then BUFLEN - size else 0
  }

  /** Distinct positions of a queue shorter than the buffer use distinct slots. */
  lemma SlotsDistinct(read: nat, i: nat, j: nat)
    requires i < j < BUFLEN
    ensures (read + i) % BUFLEN != (read + j) % BUFLEN
  {
    var qi, qj := (read + i) / BUFLEN, (read + j) / BUFLEN;
    if qi == qj {
    } else {
      assert qj == qi + 1;
    }
  }

  /** Position i after advancing `read` by one is position i+1 before. */
  lemma SlotShift(read: nat, i: nat)
    ensures ((read + 1) % BUFLEN + i) % BUFLEN == (read + (i + 1)) % BUFLEN
  {
    var q := (read + 1) / BUFLEN;
    DivMod((read + 1) % BUFLEN + i + BUFLEN * q, BUFLEN, ((read + 1) % BUFLEN + i) / BUFLEN + q, ((read + 1) % BUFLEN + i) % BUFLEN);
  }

  /** Advancing a slot index by one is advancing the position by one. */
  lemma SlotNext(x: nat)
    ensures (x % BUFLEN + 1) % BUFLEN == (x + 1) % BUFLEN
  {
    var q := x / BUFLEN;
    DivMod(x % BUFLEN + 1 + BUFLEN * q, BUFLEN, (x % BUFLEN + 1) / BUFLEN + q, (x % BUFLEN + 1) % BUFLEN);
  }

  class RingBuffer {
    var circlebuf: array<uint32>
    var read: int
    var write: int
    var size: int

    /** The indices stay in range and `write` is always `size` slots past `read`. */
    predicate Valid()
      reads this
    {
      circlebuf.Length == BUFLEN
      && 0 <= read < BUFLEN && 0 <= write < BUFLEN && 0 <= size <= BUFLEN
      && write == (read + size) % BUFLEN
    }

    /** The queued values, oldest first. */
    function Contents(): (q: seq<uint32>)
      reads this, circlebuf
      requires Valid()
      ensures |q| == size
    {
      seq(size, i requires 0 <= i < size && circlebuf.Length == BUFLEN reads this, circlebuf =>
        circlebuf[(read + i) % BUFLEN])
    }

    constructor ()
      ensures Valid() && fresh(circlebuf) && Contents() == []
    {
      circlebuf := new uint32[BUFLEN](_ => 0);
      read, write, size := 0, 0, 0;
    }

    /** write_buffer: append unless all BUFLEN slots are in use. */
    method WriteBuffer(data: uint32)
      requires Valid()
      modifies this, circlebuf
      ensures Valid() && circlebuf == old(circlebuf)
      ensures Contents() == if old(size) < BUFLEN then old(Contents()) + [data] else old(Contents())
      ensures old(size) >= BUFLEN ==>
        read == old(read) && write == old(write) && size == old(size) && circlebuf[..] == old(circlebuf[..])
    {
      if size < 129 {
        ghost var q := Contents();
        ghost var buf := circlebuf[..];
        circlebuf[write] := data;
        write := (write + 1) % BUFLEN;
        size := size + 1;
        SlotNext(read + size - 1);
        forall i | 0 <= i < size
          ensures Contents()[i] == (q + [data])[i]
        {
          if i < size - 1 {
            SlotsDistinct(read, i, size - 1);
            assert q[i] == buf[(read + i) % BUFLEN];
          }
        }
      }
    }

    /** read_buffer: remove and return the oldest value, or -1 when empty. */
    method ReadBuffer() returns (out: int)
      requires Valid()
      modifies this
      ensures Valid() && circlebuf == old(circlebuf)
      ensures old(size) > 0 ==> out == old(Contents())[0] && Contents() == old(Contents())[1..]
      ensures old(size) == 0 ==> out == -1 && read == old(read) && write == old(write) && size == 0
    {
      if size > 0 {
        ghost var q := Contents();
        out := circlebuf[read];
        assert out == q[0];
        var r0 := read;
        read := (read + 1) % BUFLEN;
        size := size - 1;
        SlotShift(r0, size);
        forall i | 0 <= i < size
          ensures Contents()[i] == q[1..][i]
        {
          SlotShift(r0, i);
        }
        return;
      }
      return -1;
    }

    /** mouseintr once the controller reports data: the packet is queued
        flags, x, y in that order when neither overflow bit is set and the
        always-1 bit is; otherwise it is dropped. */
    method MouseIntr(dataReady: bool, p: Packet) returns (accepted: bool)
      requires Valid()
      modifies this, circlebuf
      ensures Valid() && circlebuf == old(circlebuf)
      ensures accepted <==> dataReady && p.flags < 64 && (p.flags / 8) % 2 == 1
      ensures accepted ==> Contents() == old(Contents()) + [p.flags, p.x, p.y][..Room(old(size), 3)]
      ensures !accepted ==> Contents() == old(Contents())
    {
      NoOverflow(p.flags);
      if !dataReady {
        return false;
      }
      var f := Unpack(p.flags);
      if f.yOverflow || f.xOverflow {
        return false;
      }
      if !f.always1 {
        return false;
      }
      ghost var q := Contents();
      var pk := [p.flags, p.x, p.y];
      WriteBuffer(p.flags);
      ghost var q1 := Contents();
      WriteBuffer(p.x);
      ghost var q2 := Contents();
      WriteBuffer(p.y);
      ghost var q3 := Contents();
      if |q| + 3 <= BUFLEN {
        assert q3 == q + pk;
      } else if |q| + 2 == BUFLEN {
        assert q3 == q + pk[..2];
      } else if |q| + 1 == BUFLEN {
        assert q3 == q + pk[..1];
      } else {
        assert q3 == q;
      }
      return true;
    }

    /** readmouse: with three values queued, remove them in FIFO order
        (each truncated to a char). With fewer it would sleep: nothing changes. */
    method ReadMouse() returns (ok: bool, pkt: seq<byte>)
      requires Valid()
      modifies this
      ensures Valid() && circlebuf == old(circlebuf)
      ensures ok <==> old(size) >= 3
      ensures ok ==> |pkt| == 3 && Contents() == old(Contents())[3..]
      ensures ok ==> forall i :: 0 <= i < 3 ==> pkt[i] == old(Contents())[i] % 256
      ensures !ok ==> Contents() == old(Contents())
    {
      if size < 3 {
        return false, [];
      }
      pkt := [];
      var i := 0;
      while i < 3
        invariant 0 <= i <= 3 && |pkt| == i
        invariant Valid() && circlebuf == old(circlebuf)
        invariant Contents() == old(Contents())[i..]
        invariant forall j :: 0 <= j < i ==> pkt[j] == old(Contents())[j] % 256
      {
        var v := ReadBuffer();
        pkt := pkt + [v % 256];
        i := i + 1;
      }
      return true, pkt;
    }
  }
}
