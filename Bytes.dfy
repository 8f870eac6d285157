// Little-endian encoding of the C integer types the file system stores in
// disk blocks (x86 byte order), and in-place replacement of a byte range
// of a block, the effect of a store through a pointer into a buffer.
module Bytes {
  import opened Param

  type u16 = x: int | 0 <= x < 0x1_0000

  function Le16(x: u16): (s: seq<byte>)
    ensures |s| == 2 && s[0] as int + 256 * s[1] as int == x
  {
    [x % 256, x / 256]
  }

  function Le32(x: uint32): (s: seq<byte>)
    ensures |s| == 4
    ensures s[0] as int + 256 * s[1] as int + 0x1_0000 * s[2] as int + 0x100_0000 * s[3] as int == x
  {
    var a1 := x / 256;
    var a2 := a1 / 256;
    DivMod(x, 0x1_0000, a2, x % 256 + 256 * (a1 % 256));
    DivMod(x, 0x100_0000, a2 / 256, x % 256 + 256 * (a1 % 256) + 0x1_0000 * (a2 % 256));
    [x % 256, (x / 256) % 256, (x / 0x1_0000) % 256, x / 0x100_0000]
  }

  function Get16(s: seq<byte>, off: nat): (x: u16)
    requires off + 2 <= |s|
  {
    s[off] as int + 256 * s[off + 1] as int
  }

  function Get32(s: seq<byte>, off: nat): (x: uint32)
    requires off + 4 <= |s|
  {
    s[off] as int + 256 * s[off + 1] as int + 0x1_0000 * s[off + 2] as int
      + 0x100_0000 * s[off + 3] as int
  }

  lemma Get16Le16(x: u16, s: seq<byte>, off: nat)
    requires off + 2 <= |s| && s[off..off + 2] == Le16(x)
    ensures Get16(s, off) == x
  {
    assert s[off] == Le16(x)[0] && s[off + 1] == Le16(x)[1];
  }

  lemma Get32Le32(x: uint32, s: seq<byte>, off: nat)
    requires off + 4 <= |s| && s[off..off + 4] == Le32(x)
    ensures Get32(s, off) == x
  {
    assert s[off] == Le32(x)[0] && s[off + 1] == Le32(x)[1];
    assert s[off + 2] == Le32(x)[2] && s[off + 3] == Le32(x)[3];
  }

  /** `s` with the bytes from `off` on replaced by `w` (a memmove into a buffer). */
  function Splice(s: seq<byte>, off: nat, w: seq<byte>): (r: seq<byte>)
    requires off + |w| <= |s|
    ensures |r| == |s|
    ensures r[off..off + |w|] == w
    ensures forall i :: 0 <= i < |s| && !(off <= i < off + |w|) ==> r[i] == s[i]
  {
    s[..off] + w + s[off + |w|..]
  }

  function Zeros(n: nat): (s: seq<byte>)
    ensures |s| == n && forall i :: 0 <= i < n ==> s[i] == 0
  {
    seq(n, _ => 0)
  }
}
