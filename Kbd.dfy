// The keyboard scan-code state machine of kernel/kbd.c. The interrupt
// handler leaves one scan code in `data_buf`; kbdgetc consumes it, updates
// the static modifier word `shift`, and returns a character, 0 for a code
// that produces none, or -1 when nothing is buffered. The kbd.h tables are
// parameters. A modifier word is modelled as the set of its bit numbers, so
// `|`, `& ~` and `^` become union, difference and symmetric difference.
module Kbd {
  import opened Param

  type Mask = set<nat>

  // bit numbers of the modifier bits in `shift` (kbd.h)
  const SHIFT: nat := 0
  const CTL: nat := 1
  const CAPSLOCK: nat := 3
  const E0ESC: nat := 6

  /** shiftcode and togglecode (modifier bits per scan code) and the four maps
      charcode[] points to (normalmap, shiftmap, ctlmap, ctlmap). */
  datatype Tables = Tables(shiftcode: seq<Mask>, togglecode: seq<Mask>, charcode: seq<seq<byte>>)

  predicate WellFormed(t: Tables) {
    |t.shiftcode| == 256 && |t.togglecode| == 256
    && |t.charcode| == 4 && forall i :: 0 <= i < 4 ==> |t.charcode[i]| == 256
  }

  function Xor(a: Mask, b: Mask): Mask { (a - b) + (b - a) }

  predicate IsLower(c: byte) { 'a' as int <= c <= 'z' as int }
  predicate IsUpper(c: byte) { 'A' as int <= c <= 'Z' as int }

  /** The CAPSLOCK adjustment: letters change case, everything else stays. */
  function CapsAdjust(c: byte): (r: byte)
    ensures IsLower(c) ==> IsUpper(r) && r - 'A' as int == c - 'a' as int
    ensures IsUpper(c) ==> IsLower(r) && r - 'a' as int == c - 'A' as int
    ensures !IsLower(c) && !IsUpper(c) ==> r == c
  {
    if IsLower(c) then c + ('A' as int - 'a' as int)
    else if IsUpper(c) then c + ('a' as int - 'A' as int)
    else c
  }

  /** Case swapping twice gives back the original character. */
  lemma CapsAdjustInvolutive(c: byte)
    ensures CapsAdjust(CapsAdjust(c)) == c
  {
  }

  /** shift & (CTL | SHIFT): which of the four maps a press is looked up in. */
  function MapIndex(shift: Mask): (i: nat)
    ensures i < 4
    ensures (i % 2 == 1) == (SHIFT in shift) && (i >= 2) == (CTL in shift)
  {
    (if SHIFT in shift then 1 else 0) + (if CTL in shift then 2 else 0)
  }

  /** One kbdgetc call: the new shift, the new data_buf and the return value. */
  datatype Out = Out(shift: Mask, dataBuf: byte, ret: int)

  function Getc(t: Tables, shift: Mask, dataBuf: byte): (o: Out)
    requires WellFormed(t)
    ensures dataBuf == 0 <==> o.ret == -1
    ensures dataBuf == 0 ==> o.shift == shift && o.dataBuf == 0
    ensures o.ret != -1 ==> o.dataBuf == 0 && 0 <= o.ret < 256
    ensures dataBuf == 0xE0 ==> o.shift == shift + {E0ESC} && o.ret == 0
    ensures dataBuf >= 0x80 && dataBuf != 0xE0 ==> o.ret == 0 && E0ESC !in o.shift
  {
    if dataBuf == 0 then Out(shift, dataBuf, -1)
    else if dataBuf == 0xE0 then Out(shift + {E0ESC}, 0, 0)
    else if dataBuf >= 0x80 then Release(t, shift, dataBuf)
    else Press(t, shift, dataBuf)
  }

  /** The key a release code refers to: bit 7 is kept only after an E0 escape. */
  function ReleasedKey(shift: Mask, code: byte): byte {
    if E0ESC in shift then code else code % 0x80
  }

  /** A code with bit 7 set: a key was released. */
  function Release(t: Tables, shift: Mask, dataBuf: byte): (o: Out)
    requires WellFormed(t)
    ensures o.ret == 0 && o.dataBuf == 0 && E0ESC !in o.shift
  {
    var code := ReleasedKey(shift, dataBuf);
    Out(shift - (t.shiftcode[code] + {E0ESC}), 0, 0)
  }

  /** The key a press looks up: with an E0 escape pending, code | 0x80. */
  function PressedKey(shift: Mask, dataBuf: byte): byte
    requires dataBuf < 0x80
  {
    if E0ESC in shift then dataBuf + 0x80 else dataBuf
  }

  /** The modifier word after a press: the escape is consumed, the key's
      shift bits are set and its toggle bits flipped. */
  function PressShift(t: Tables, shift: Mask, key: byte): Mask
    requires WellFormed(t)
  {
    Xor((shift - {E0ESC}) + t.shiftcode[key], t.togglecode[key])
  }

  /** A code below 0x80: a key was pressed. */
  function Press(t: Tables, shift: Mask, dataBuf: byte): (o: Out)
    requires WellFormed(t) && dataBuf < 0x80
    ensures o.dataBuf == 0 && 0 <= o.ret < 256
  {
    var key := PressedKey(shift, dataBuf);
    var s1 := PressShift(t, shift, key);
    var c := t.charcode[MapIndex(s1)][key];
    Out(s1, 0, if CAPSLOCK in s1 then CapsAdjust(c) else c)
  }

  /** A release clears the released key's modifier bits and any pending
      E0 escape, keeps every other bit of `shift`, and produces no character. */
  lemma ReleaseClearsModifiers(t: Tables, shift: Mask, code: byte)
    requires WellFormed(t) && 0x80 <= code && code != 0xE0
    ensures var o := Getc(t, shift, code);
      var m := t.shiftcode[ReleasedKey(shift, code)];
      o.ret == 0 && o.dataBuf == 0
      && (forall b :: b in o.shift <==> b in shift && b !in m && b != E0ESC)
  {
    assert Getc(t, shift, code) == Release(t, shift, code);
  }

  /** A press with an E0 escape pending looks the key up at code | 0x80 and
      consumes the escape (unless the key's own table entries set E0ESC). */
  lemma EscapedPress(t: Tables, shift: Mask, code: byte)
    requires WellFormed(t) && 0 < code < 0x80 && E0ESC in shift
    requires E0ESC !in t.shiftcode[code + 0x80] && E0ESC !in t.togglecode[code + 0x80]
    ensures var o := Getc(t, shift, code);
      var key := code + 0x80;
      var s1 := Xor((shift - {E0ESC}) + t.shiftcode[key], t.togglecode[key]);
      var c := t.charcode[MapIndex(s1)][key];
      o == Out(s1, 0, if CAPSLOCK in s1 then CapsAdjust(c) else c) && E0ESC !in s1
  {
    assert Getc(t, shift, code) == Press(t, shift, code);
    assert PressedKey(shift, code) == code + 0x80;
  }

  /** The E0 prefix sets the escape that the following press consumes. */
  lemma E0ThenPress(t: Tables, shift: Mask, code: byte)
    requires WellFormed(t) && 0 < code < 0x80
    requires E0ESC !in t.shiftcode[code + 0x80] && E0ESC !in t.togglecode[code + 0x80]
    ensures var o1 := Getc(t, shift, 0xE0);
      var o2 := Getc(t, o1.shift, code);
      o1.ret == 0 && o1.dataBuf == 0
      && o2.shift == Xor((shift - {E0ESC}) + t.shiftcode[code + 0x80], t.togglecode[code + 0x80])
      && E0ESC !in o2.shift
  {
    var e := shift + {E0ESC};
    assert e - {E0ESC} == shift - {E0ESC};
    EscapedPress(t, e, code);
  }

  /** A plain press of a key with no modifier bits leaves `shift` alone and
      returns the table entry of the current map, case-swapped under CAPSLOCK. */
  lemma PlainPress(t: Tables, shift: Mask, code: byte)
    requires WellFormed(t) && 0 < code < 0x80 && E0ESC !in shift
    requires t.shiftcode[code] == {} && t.togglecode[code] == {}
    ensures var o := Getc(t, shift, code);
      var c := t.charcode[MapIndex(shift)][code];
      o.shift == shift
      && (CAPSLOCK !in shift ==> o.ret == c)
      && (CAPSLOCK in shift ==> o.ret == CapsAdjust(c))
  {
    assert Getc(t, shift, code) == Press(t, shift, code);
    assert PressShift(t, shift, code) == shift;
  }

  /** Pressing a toggle key twice (say CAPSLOCK, with no shift bits of its
      own) restores the modifier word. */
  lemma ToggleTwice(t: Tables, shift: Mask, code: byte)
    requires WellFormed(t) && 0 < code < 0x80 && E0ESC !in shift
    requires t.shiftcode[code] == {} && E0ESC !in t.togglecode[code]
    ensures Getc(t, Getc(t, shift, code).shift, code).shift == shift
  {
    var s1 := Getc(t, shift, code).shift;
    assert Getc(t, shift, code) == Press(t, shift, code);
    assert s1 == Xor(shift, t.togglecode[code]);
    assert Getc(t, s1, code) == Press(t, s1, code);
    assert Getc(t, s1, code).shift == Xor(s1, t.togglecode[code]);
  }

  class Keyboard {
    const tables: Tables
    var shift: Mask
    var dataBuf: byte

    constructor (t: Tables)
      requires WellFormed(t)
      ensures tables == t && shift == {} && dataBuf == 0
    {
      tables := t;
      shift := {};
      dataBuf := 0;
    }

    /** kbdgetc */
    method Kbdgetc() returns (c: int)
      requires WellFormed(tables)
      modifies this
      ensures Out(shift, dataBuf, c) == Getc(tables, old(shift), old(dataBuf))
    {
      if dataBuf == 0 {
        return -1;
      }
      if dataBuf == 0xE0 {
        shift := shift + {E0ESC};
        dataBuf := 0;
        return 0;
      } else if dataBuf >= 0x80 {
        dataBuf := if E0ESC in shift then dataBuf else dataBuf % 0x80;
        shift := shift - (tables.shiftcode[dataBuf] + {E0ESC});
        dataBuf := 0;
        return 0;
      } else if E0ESC in shift {
        dataBuf := dataBuf + 0x80;
        shift := shift - {E0ESC};
      }
      shift := shift + tables.shiftcode[dataBuf];
      shift := Xor(shift, tables.togglecode[dataBuf]);
      var ch := tables.charcode[MapIndex(shift)][dataBuf];
      if CAPSLOCK in shift {
        if 'a' as int <= ch && ch <= 'z' as int {
          ch := ch + ('A' as int - 'a' as int);
        } else if 'A' as int <= ch && ch <= 'Z' as int {
          ch := ch + ('a' as int - 'A' as int);
        }
      }
      dataBuf := 0;
      return ch;
    }
  }
}
