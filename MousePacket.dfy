// The PS/2 mouse packet of kernel/mouse.h: a flags byte whose bit-fields
// are declared lowest bit first (left button = bit 0 ... y overflow = bit 7),
// followed by the x and y movement bytes.
module MousePacket {
  import opened Param
  import opened Bits

  /** mflags_t: the eight one-bit fields of the flags byte. */
  datatype Flags = Flags(
    left: bool, right: bool, middle: bool, always1: bool,
    xSign: bool, ySign: bool, xOverflow: bool, yOverflow: bool)

  /** mpkt_t: flags, then x movement, then y movement. */
  datatype Packet = Packet(flags: byte, x: byte, y: byte)

  /** The fields in declaration order, which is bit order from bit 0. */
  function Fields(f: Flags): (bs: seq<bool>)
    ensures |bs| == 8
  {
    [f.left, f.right, f.middle, f.always1, f.xSign, f.ySign, f.xOverflow, f.yOverflow]
  }

  /** Reading the flags byte through the mflags_t bit-fields: the k-th
      declared field is bit k, (b >> k) & 1. */
  function Unpack(b: byte): Flags {
    Flags(Bit(b, 1), Bit(b, 2), Bit(b, 4), Bit(b, 8),
      Bit(b, 16), Bit(b, 32), Bit(b, 64), Bit(b, 128))
  }

  /** Field k of the bit-field view is bit k of the byte's bit list. */
  lemma UnpackBits(b: byte)
    ensures Fields(Unpack(b)) == BitsOf(b, 8)
  {
    Pow2Byte();
    var bs := BitsOf(b, 8);
    BitsOfArith(b, 8, 0);
    BitsOfArith(b, 8, 1);
    BitsOfArith(b, 8, 2);
    BitsOfArith(b, 8, 3);
    BitsOfArith(b, 8, 4);
    BitsOfArith(b, 8, 5);
    BitsOfArith(b, 8, 6);
    BitsOfArith(b, 8, 7);
    assert Fields(Unpack(b)) == [bs[0], bs[1], bs[2], bs[3], bs[4], bs[5], bs[6], bs[7]];
  }

  /** The byte whose bit-fields hold the given flags. */
  function Pack(f: Flags): (b: byte) {
    assert Pow2(8) == 256;
    ValueOf(Fields(f))
  }

  /** The bit-field view and the byte view describe the same byte. */
  lemma UnpackPack(f: Flags)
    ensures Unpack(Pack(f)) == f
  {
    var fs := Fields(f);
    BitsOfValueOf(fs);
    UnpackBits(Pack(f));
    assert Fields(Unpack(Pack(f))) == fs;
  }

  lemma PackUnpack(b: byte)
    ensures Pack(Unpack(b)) == b
  {
    assert Pow2(8) == 256;
    ValueOfBitsOf(b, 8);
    UnpackBits(b);
  }

  /** Neither overflow bit (6, 7) is set exactly when the byte is below 64. */
  lemma NoOverflow(b: byte)
    ensures !Unpack(b).xOverflow && !Unpack(b).yOverflow <==> b < 64
  {
    var d := b / 64;
    DivMod(b, 64, d, b % 64);
    DivMod(d, 2, d / 2, d % 2);
    DivMod(b, 128, d / 2, b % 64 + 64 * (d % 2));
  }
}
