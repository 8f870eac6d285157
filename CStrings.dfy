// NUL-terminated strings as the kernel and the user programs use them. A
// character array is a sequence of bytes; reading past its end reads NUL,
// which is how a short name stored in a fixed-size field behaves.
module CStrings {
  import opened Param

  /** Byte i of an array, NUL past its end. */
  function At(s: seq<byte>, i: nat): byte {
    if i < |s| then s[i] else 0
  }

  predicate NoNul(s: seq<byte>) {
    forall i :: 0 <= i < |s| ==> s[i] != 0
  }

  /** The C string stored in `s`: its bytes up to the first NUL. */
  function CStr(s: seq<byte>): (r: seq<byte>)
    ensures |r| <= |s| && r == s[..|r|] && NoNul(r)
    ensures |r| < |s| ==> s[|r|] == 0
  {
    if s == [] || s[0] == 0 then [] else [s[0]] + CStr(s[1..])
  }

  /** A string without NUL, stored with its terminator, reads back as itself. */
  lemma {:induction false} CStrTerminated(s: seq<byte>)
    requires NoNul(s)
    ensures CStr(s + [0]) == s
  {
    if s != [] {
      var t := s + [0];
      assert t[0] == s[0] && t[1..] == s[1..] + [0];
      CStrTerminated(s[1..]);
    }
  }

  /** The first `n` bytes of `s`, or all of it when shorter. */
  function Take(s: seq<byte>, n: nat): (r: seq<byte>)
    ensures |r| == if |s| < n then |s| else n
  {
    if |s| <= n then s else s[..n]
  }

  /** strncmp(s, t, n) == 0: the loop compares byte by byte and stops
      after n bytes or at a NUL common to both. */
  function StrnEqual(s: seq<byte>, t: seq<byte>, n: nat): bool
    decreases n
  {
    if n == 0 then true
    else if At(s, 0) != At(t, 0) then false
    else if At(s, 0) == 0 then true
    else StrnEqual(if s == [] then [] else s[1..], if t == [] then [] else t[1..], n - 1)
  }

  /** Unfolding CStr(Take(s, n)) by one byte. */
  lemma CStrTakeStep(s: seq<byte>, n: nat)
    requires n > 0
    ensures At(s, 0) == 0 ==> CStr(Take(s, n)) == []
    ensures At(s, 0) != 0 ==> CStr(Take(s, n)) == [s[0]] + CStr(Take(s[1..], n - 1))
  {
    if s != [] && s[0] != 0 {
      assert Take(s, n) == [s[0]] + Take(s[1..], n - 1);
    }
  }

  /** strncmp returns 0 exactly when the two strings, each cut to n bytes,
      are the same C string. */
  lemma {:induction false} StrnEqualMeaning(s: seq<byte>, t: seq<byte>, n: nat)
    ensures StrnEqual(s, t, n) <==> CStr(Take(s, n)) == CStr(Take(t, n))
    decreases n
  {
    if n == 0 {
      assert Take(s, n) == [] && Take(t, n) == [];
    } else if At(s, 0) != At(t, 0) || At(s, 0) == 0 {
      CStrTakeStep(s, n);
      CStrTakeStep(t, n);
      var cs, ct := CStr(Take(s, n)), CStr(Take(t, n));
      if At(s, 0) != 0 && At(t, 0) != 0 {
        assert cs[0] != ct[0];
      }
    } else {
      var s1, t1 := s[1..], t[1..];
      StrnEqualMeaning(s1, t1, n - 1);
      StrnEqualStep(s, t, n);
      CStrTakeStep(s, n);
      CStrTakeStep(t, n);
      ConsEqual(s[0], CStr(Take(s1, n - 1)), CStr(Take(t1, n - 1)));
    }
  }

  lemma StrnEqualStep(s: seq<byte>, t: seq<byte>, n: nat)
    requires n > 0 && At(s, 0) == At(t, 0) != 0
    ensures StrnEqual(s, t, n) == StrnEqual(s[1..], t[1..], n - 1)
  {
  }

  lemma ConsEqual(c: byte, x: seq<byte>, y: seq<byte>)
    ensures [c] + x == [c] + y <==> x == y
  {
    if [c] + x == [c] + y {
      assert x == ([c] + x)[1..];
    }
  }
}
