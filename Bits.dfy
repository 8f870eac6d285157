// Little-endian bit lists: the bits of a number as C code reads them with
// `x & (1 << k)` or through bit-fields, lowest bit first.
module Bits {
  import opened Param

  function Pow2(n: nat): (p: nat)
    ensures p >= 1
  {
    if n == 0 then 1 else 2 * Pow2(n - 1)
  }

  /** The lowest `n` bits of `x`, bit 0 first. */
  function BitsOf(x: nat, n: nat): (bs: seq<bool>)
    ensures |bs| == n
  {
    if n == 0 then [] else [x % 2 == 1] + BitsOf(x / 2, n - 1)
  }

  /** The number whose bits, lowest first, are `bs`. */
  function ValueOf(bs: seq<bool>): (x: nat)
    ensures x < Pow2(|bs|)
  {
    if bs == [] then 0 else (if bs[0] then 1 else 0) + 2 * ValueOf(bs[1..])
  }

  lemma {:induction false} ValueOfBitsOf(x: nat, n: nat)
    requires x < Pow2(n)
    ensures ValueOf(BitsOf(x, n)) == x
  {
    if n > 0 {
      ValueOfBitsOf(x / 2, n - 1);
      assert BitsOf(x, n)[1..] == BitsOf(x / 2, n - 1);
    }
  }

  lemma {:induction false} BitsOfValueOf(bs: seq<bool>)
    ensures BitsOf(ValueOf(bs), |bs|) == bs
  {
    if bs != [] {
      BitsOfValueOf(bs[1..]);
      assert bs == [bs[0]] + bs[1..];
    }
  }

  /** x >> k. */
  function Shr(x: nat, k: nat): nat {
    if k == 0 then x else Shr(x / 2, k - 1)
  }

  /** Bit k of the list is bit k of the number: (x >> k) & 1. */
  lemma {:induction false} BitsOfAt(x: nat, n: nat, k: nat)
    requires k < n
    ensures BitsOf(x, n)[k] == (Shr(x, k) % 2 == 1)
  {
    if k > 0 {
      BitsOfAt(x / 2, n - 1, k - 1);
    }
  }

  /** One more shift halves: x >> (k+1) == (x >> k) / 2. */
  lemma {:induction false} ShrSucc(x: nat, k: nat)
    ensures Shr(x, k + 1) == Shr(x, k) / 2
  {
    if k > 0 {
      ShrSucc(x / 2, k - 1);
    }
  }

  /** Bit k of a number: (x >> k) & 1, with 2^k given as `p`. */
  predicate Bit(x: nat, p: nat)
    requires p > 0
  {
    (x / p) % 2 == 1
  }

  lemma Pow2Byte()
    ensures Pow2(0) == 1 && Pow2(1) == 2 && Pow2(2) == 4 && Pow2(3) == 8
    ensures Pow2(4) == 16 && Pow2(5) == 32 && Pow2(6) == 64 && Pow2(7) == 128 && Pow2(8) == 256
  {
  }

  /** Dividing by 2p is halving and then dividing by p. */
  lemma DivTwice(x: nat, p: nat)
    requires p > 0
    ensures x / (2 * p) == (x / 2) / p
  {
    var h := x / 2;
    var d := h / p;
    assert x == 2 * h + x % 2;
    assert h == p * d + h % p;
    assert 2 * (p * d) == (2 * p) * d;
    DivMod(x, 2 * p, d, 2 * (h % p) + x % 2);
  }

  /** Bit k of the list is the arithmetic bit k of the number. */
  lemma {:induction false} BitsOfArith(x: nat, n: nat, k: nat)
    requires k < n
    ensures BitsOf(x, n)[k] == Bit(x, Pow2(k))
  {
    if k > 0 {
      BitsOfArith(x / 2, n - 1, k - 1);
      DivTwice(x, Pow2(k - 1));
    }
  }
}
