/** Bitwise exclusive-or and shifts on the unsigned registers of the source, as arithmetic on nat:
    `c >> 1` is c / 2, `c & 1` is c % 2, `c & 0xFF` is c % 256, `c >> 8` is c / 256, and `^` is Xor. */
module Bitwise {

  type byte = x: int | 0 <= x < 256

  function Zeros(n: nat): (s: seq<byte>)
    ensures |s| == n && forall i | 0 <= i < n :: s[i] == 0
  {
    if n == 0 then [] else [0] + Zeros(n - 1)
  }

  function Xor(a: nat, b: nat): (r: nat)
    decreases a + b
  {
    if a == 0 && b == 0 then 0
    else (if a % 2 == b % 2 then 0 else 1) + 2 * Xor(a / 2, b / 2)
  }

  /** a << n, without a bound on the width. */
  function Shl(a: nat, n: nat): (r: nat)
    ensures a <= r
  {
    if n == 0 then a else 2 * Shl(a, n - 1)
  }

  /** The value of a uint32_t counter after n increments, and one more increment. */
  function Word(n: nat): nat { n % 0x1_0000_0000 }

  function Inc(n: nat): nat { (n + 1) % 0x1_0000_0000 }

  lemma IncWord(n: nat)
    ensures Inc(Word(n)) == Word(n + 1)
  {
  }

  lemma {:induction false} XorZero(a: nat)
    ensures Xor(a, 0) == a && Xor(0, a) == a && Xor(a, a) == 0
  {
    if a > 0 { XorZero(a / 2); }
  }

  lemma {:induction false} XorCommutes(a: nat, b: nat)
    ensures Xor(a, b) == Xor(b, a)
    decreases a + b
  {
    if a + b > 0 { XorCommutes(a / 2, b / 2); }
  }

  lemma XorHalf(a: nat, b: nat)
    ensures Xor(a, b) / 2 == Xor(a / 2, b / 2)
    ensures Xor(a, b) % 2 == if a % 2 == b % 2 then 0 else 1
  {
  }

  lemma {:induction false} XorAssociates(a: nat, b: nat, c: nat)
    ensures Xor(Xor(a, b), c) == Xor(a, Xor(b, c))
    decreases a + b + c
  {
    if a + b + c > 0 {
      XorAssociates(a / 2, b / 2, c / 2);
      XorHalf(a, b);
      XorHalf(b, c);
      XorHalf(Xor(a, b), c);
      XorHalf(a, Xor(b, c));
    }
  }

  /** The four-term rearrangement that linearity arguments need. */
  lemma XorSwap(a: nat, b: nat, c: nat, d: nat)
    ensures Xor(Xor(a, b), Xor(c, d)) == Xor(Xor(a, c), Xor(b, d))
  {
    XorAssociates(a, b, Xor(c, d));
    XorAssociates(b, c, d);
    XorCommutes(b, c);
    XorAssociates(c, b, d);
    XorAssociates(a, c, Xor(b, d));
  }

  lemma XorCancel(a: nat, b: nat, c: nat)
    ensures Xor(a, c) == Xor(b, c) <==> a == b
  {
    XorAssociates(a, c, c);
    XorAssociates(b, c, c);
    XorZero(c);
    XorZero(a);
    XorZero(b);
  }

  lemma XorIsZero(a: nat, b: nat)
    ensures Xor(a, b) == 0 <==> a == b
  {
    XorCancel(a, b, b);
    XorZero(b);
  }

  lemma {:induction false} ShlAdd(a: nat, m: nat, n: nat)
    ensures Shl(a, m + n) == Shl(Shl(a, m), n)
  {
    if n > 0 { ShlAdd(a, m, n - 1); }
  }

  lemma ShlByte(a: nat)
    ensures Shl(a, 8) == 256 * a
  {
    assert Shl(a, 8) == 2 * Shl(a, 7) && Shl(a, 7) == 2 * Shl(a, 6) && Shl(a, 6) == 2 * Shl(a, 5);
    assert Shl(a, 5) == 2 * Shl(a, 4) && Shl(a, 4) == 2 * Shl(a, 3) && Shl(a, 3) == 2 * Shl(a, 2);
    assert Shl(a, 2) == 2 * Shl(a, 1);
  }

  lemma {:induction false} XorFits(a: nat, b: nat, n: nat)
    requires a < Shl(1, n) && b < Shl(1, n)
    ensures Xor(a, b) < Shl(1, n)
  {
    if n > 0 { XorFits(a / 2, b / 2, n - 1); }
  }

  /** A value below 2^n and one whose top bit is bit n differ in that bit. */
  lemma {:induction false} XorTop(a: nat, p: nat, n: nat)
    requires a < Shl(1, n) <= p < Shl(1, n + 1)
    ensures Shl(1, n) <= Xor(a, p)
  {
    if n > 0 { XorTop(a / 2, p / 2, n - 1); }
  }

  lemma {:induction false} XorShift(a: nat, b: nat, n: nat)
    ensures Xor(Shl(a, n), Shl(b, n)) == Shl(Xor(a, b), n)
    decreases n
  {
    hide Xor;
    if n > 0 {
      var x, y := Shl(a, n - 1), Shl(b, n - 1);
      XorShift(a, b, n - 1);
      XorHalf(2 * x, 2 * y);
      assert 2 * x / 2 == x && 2 * y / 2 == y && 2 * x % 2 == 0 && 2 * y % 2 == 0;
      assert Xor(2 * x, 2 * y) / 2 == Xor(x, y) && Xor(2 * x, 2 * y) % 2 == 0;
    }
  }

  /** Bits that do not overlap add: the low n bits of one operand, the rest of the other. */
  lemma {:induction false} XorDisjoint(a: nat, b: nat, n: nat)
    requires a < Shl(1, n)
    ensures Xor(a, Shl(b, n)) == a + Shl(b, n)
    decreases n
  {
    hide Xor;
    if n == 0 {
      XorZero(b);
    } else {
      var s := Shl(b, n - 1);
      XorDisjoint(a / 2, b, n - 1);
      XorHalf(a, 2 * s);
      assert 2 * s / 2 == s && 2 * s % 2 == 0;
      assert Xor(a, 2 * s) / 2 == a / 2 + s && Xor(a, 2 * s) % 2 == a % 2;
    }
  }
}
