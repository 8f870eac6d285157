// The mouse listener user/ml.c: one packet from readmouse decoded into the
// buttons pressed and, when there is movement, a signed (x, y) step.
module Ml {
  import opened Param
  import opened Wrappers
  import opened MousePacket

  /** What one loop iteration reports for a packet. */
  datatype Report = Report(left: bool, middle: bool, right: bool, move: Option<(int, int)>)

  /** A C `uint` read back as a 32-bit two's-complement `int`. */
  function ToInt32(u: uint32): (v: int)
    ensures -0x8000_0000 <= v < 0x8000_0000
    ensures (v - u) % UINT_MOD == 0
  {
    if u < 0x8000_0000 then u else u - UINT_MOD
  }

  /** `sign ? (0xFFFFFF00 | m) : m`, assigned to an int. The low byte of
      0xFFFFFF00 is clear, so the `|` adds `m`. */
  function Movement(sign: bool, m: byte): (v: int)
    ensures v == (if sign then m - 256 else m)
    ensures -256 <= v <= 255
    ensures sign <==> v < 0
    ensures v % 256 == m
  {
    ToInt32(if sign then 0xFFFF_FF00 + m else m)
  }

  /** The body of the loop in main, after a successful readmouse. */
  function Decode(p: Packet): (r: Report)
    ensures r.left == (p.flags % 2 == 1)
    ensures r.right == ((p.flags / 2) % 2 == 1)
    ensures r.middle == ((p.flags / 4) % 2 == 1)
    ensures r.move.Some? <==> (p.x != 0 || p.y != 0)
    ensures r.move.Some? ==>
      r.move.value.0 % 256 == p.x && r.move.value.1 % 256 == p.y
      && (r.move.value.0 < 0 <==> (p.flags / 16) % 2 == 1)
      && (r.move.value.1 < 0 <==> (p.flags / 32) % 2 == 1)
  {
    var f := Unpack(p.flags);
    Report(f.left, f.middle, f.right,
      if p.x != 0 || p.y != 0 then Some((Movement(f.xSign, p.x), Movement(f.ySign, p.y))) else None)
  }
}
