/** The two frame checksums as functions on byte strings, and what they detect. The bit step, initial
    values and polynomials are those of apex_crc64 and apex_crc32 in the kernel driver; both shift
    right and take the least significant bit of each byte first. */
module Crc {
  import opened Bitwise

  datatype Kind = Crc64 | Crc32

  const POLY64: nat := 0x42F0_E1EB_A9EA_3693
  const POLY32: nat := 0xEDB8_8320

  function Poly(k: Kind): nat { if k.Crc64? then POLY64 else POLY32 }

  /** The initial value of the register, which is also the value the result is inverted with. */
  function Ones(k: Kind): nat { if k.Crc64? then 0xFFFF_FFFF_FFFF_FFFF else 0xFFFF_FFFF }

  /** The number of bits in the C type of the register. */
  function Size(k: Kind): nat { if k.Crc64? then 64 else 32 }

  /** The number of bits up to the top bit of the polynomial. The CRC-64 constant has bit 63 clear and
      bit 62 set, and it is used unreversed, so that register works on 63 bits. */
  function Width(k: Kind): nat { if k.Crc64? then 63 else 32 }

  function Step(k: Kind, c: nat): nat { if c % 2 == 1 then Xor(c / 2, Poly(k)) else c / 2 }

  function Steps(k: Kind, c: nat, n: nat): nat
    decreases n
  {
    if n == 0 then c else Steps(k, Step(k, c), n - 1)
  }

  function ByteStep(k: Kind, c: nat, b: byte): nat { Steps(k, Xor(c, b), 8) }

  function Run(k: Kind, c: nat, data: seq<byte>): nat
    decreases |data|
  {
    if data == [] then c else Run(k, ByteStep(k, c, data[0]), data[1..])
  }

  function Checksum(k: Kind, data: seq<byte>): nat { Xor(Run(k, Ones(k), data), Ones(k)) }

  /** The byte string read as one little-endian number: bit i of the message is bit i of it. */
  function Message(data: seq<byte>): nat {
    if data == [] then 0 else data[0] + 256 * Message(data[1..])
  }

  // ----- the step is linear, and one-to-one on registers of Width bits

  lemma StepLinear(k: Kind, a: nat, b: nat)
    ensures Step(k, Xor(a, b)) == Xor(Step(k, a), Step(k, b))
  {
    XorHalf(a, b);
    var p := Poly(k);
    var x, y := a / 2, b / 2;
    if a % 2 == 1 && b % 2 == 1 {
      XorSwap(x, p, y, p);
      XorZero(p);
      XorZero(Xor(x, y));
    } else if a % 2 == 1 {
      XorAssociates(x, p, y);
      XorCommutes(p, y);
      XorAssociates(x, y, p);
    } else if b % 2 == 1 {
      XorAssociates(x, y, p);
    }
  }

  lemma {:induction false} StepsLinear(k: Kind, a: nat, b: nat, n: nat)
    ensures Steps(k, Xor(a, b), n) == Xor(Steps(k, a, n), Steps(k, b, n))
    decreases n
  {
    if n > 0 {
      StepLinear(k, a, b);
      StepsLinear(k, Step(k, a), Step(k, b), n - 1);
    }
  }

  lemma {:induction false} StepsAdd(k: Kind, c: nat, m: nat, n: nat)
    ensures Steps(k, c, m + n) == Steps(k, Steps(k, c, m), n)
    decreases m
  {
    if m > 0 { StepsAdd(k, Step(k, c), m - 1, n); }
  }

  /** Bits that have not reached the bottom of the register are only shifted. */
  lemma {:induction false} StepsShift(k: Kind, c: nat, n: nat)
    ensures Steps(k, Shl(c, n), n) == c
    decreases n
  {
    if n > 0 { StepsShift(k, c, n - 1); }
  }

  lemma ShlBytes(a: nat, n: nat)
    ensures Shl(a, n + 8) == 256 * Shl(a, n)
  {
    ShlAdd(a, n, 8);
    ShlByte(Shl(a, n));
  }

  lemma Powers()
    ensures Shl(1, 31) == 0x8000_0000 && Shl(1, 32) == 0x1_0000_0000
    ensures Shl(1, 62) == 0x4000_0000_0000_0000 && Shl(1, 63) == 0x8000_0000_0000_0000
    ensures Shl(1, 64) == 0x1_0000_0000_0000_0000
  {
    ShlByte(1);
    ShlBytes(1, 8);
    ShlBytes(1, 16);
    ShlBytes(1, 24);
    ShlBytes(1, 32);
    ShlBytes(1, 40);
    ShlBytes(1, 48);
    ShlBytes(1, 56);
    assert Shl(1, 32) == 2 * Shl(1, 31);
    assert Shl(1, 64) == 2 * Shl(1, 63) && Shl(1, 63) == 2 * Shl(1, 62);
  }

  lemma PolyTop(k: Kind)
    ensures Shl(1, Width(k) - 1) <= Poly(k) < Shl(1, Width(k)) <= Ones(k) + 1 == Shl(1, Size(k))
  {
    Powers();
  }

  lemma StepFits(k: Kind, c: nat, n: nat)
    requires n >= Width(k)
    requires c < Shl(1, n)
    ensures Step(k, c) < Shl(1, n)
  {
    PolyTop(k);
    ShlAdd(1, Width(k), n - Width(k));
    XorFits(c / 2, Poly(k), n);
  }

  lemma StepInjective(k: Kind, c: nat)
    requires c < Shl(1, Width(k))
    requires Step(k, c) == 0
    ensures c == 0
  {
    PolyTop(k);
    if c % 2 == 1 {
      XorTop(c / 2, Poly(k), Width(k) - 1);
    }
  }

  lemma {:induction false} StepsInjective(k: Kind, c: nat, n: nat)
    requires c < Shl(1, Width(k))
    requires Steps(k, c, n) == 0
    ensures c == 0
    decreases n
  {
    if n > 0 {
      StepFits(k, c, Width(k));
      StepsInjective(k, Step(k, c), n - 1);
      StepInjective(k, c);
    }
  }

  // ----- a whole byte string at once

  lemma {:induction false} MessageFits(data: seq<byte>)
    ensures Message(data) < Shl(1, 8 * |data|)
  {
    if data != [] {
      MessageFits(data[1..]);
      ShlBytes(1, 8 * |data[1..]|);
    }
  }

  /** The low n bits decide which multiples of the polynomial are added; the rest is shifted. */
  lemma SplitSteps(k: Kind, lo: nat, hi: nat, n: nat)
    requires lo < Shl(1, n)
    ensures Steps(k, lo + Shl(hi, n), n) == Xor(Steps(k, lo, n), hi)
  {
    XorDisjoint(lo, hi, n);
    StepsLinear(k, lo, Shl(hi, n), n);
    StepsShift(k, hi, n);
  }

  /** What the firmware's table look-up relies on. */
  lemma TableSplit(k: Kind, c: nat)
    ensures Steps(k, c, 8) == Xor(Steps(k, c % 256, 8), c / 256)
  {
    hide Steps, Xor, Shl;
    ShlByte(1);
    ShlByte(c / 256);
    SplitSteps(k, c % 256, c / 256, 8);
  }

  lemma AbsorbMore(k: Kind, c: nat, b: nat, m: nat, n: nat, r: nat)
    requires b < Shl(1, n)
    ensures Steps(k, Xor(Steps(k, Xor(c, b), n), m), r) == Steps(k, Xor(c, b + Shl(m, n)), n + r)
  {
    XorDisjoint(b, m, n);
    XorAssociates(c, b, Shl(m, n));
    StepsLinear(k, Xor(c, b), Shl(m, n), n);
    StepsShift(k, m, n);
    StepsAdd(k, Xor(c, b + Shl(m, n)), n, r);
  }

  lemma AbsorbByte(k: Kind, c: nat, b: byte, m: nat, r: nat)
    ensures Steps(k, Xor(ByteStep(k, c, b), m), r) == Steps(k, Xor(c, b + 256 * m), 8 + r)
  {
    hide Steps, Xor, Shl;
    ShlByte(1);
    ShlByte(m);
    AbsorbMore(k, c, b, m, 8, r);
  }

  /** The register after any byte string is the bit step iterated over initial value xor message. */
  lemma {:induction false} RunIsSteps(k: Kind, c: nat, data: seq<byte>)
    ensures Run(k, c, data) == Steps(k, Xor(c, Message(data)), 8 * |data|)
    decreases |data|
  {
    hide ByteStep, Xor;
    if data == [] {
      XorZero(c);
    } else {
      RunIsSteps(k, ByteStep(k, c, data[0]), data[1..]);
      AbsorbByte(k, c, data[0], Message(data[1..]), 8 * |data[1..]|);
    }
  }

  // ----- detection

  /** Two messages of the same length have the same checksum exactly when the register maps their
      difference to zero. */
  lemma SameChecksum(k: Kind, a: seq<byte>, b: seq<byte>)
    requires |a| == |b|
    ensures Checksum(k, a) == Checksum(k, b) <==> Steps(k, Xor(Message(a), Message(b)), 8 * |a|) == 0
  {
    var i, n := Ones(k), 8 * |a|;
    var x, y := Message(a), Message(b);
    RunIsSteps(k, i, a);
    RunIsSteps(k, i, b);
    StepsLinear(k, Xor(i, x), Xor(i, y), n);
    XorSwap(i, x, i, y);
    XorZero(i);
    XorZero(Xor(x, y));
    XorIsZero(Run(k, i, a), Run(k, i, b));
    XorCancel(Run(k, i, a), Run(k, i, b), i);
  }

  /** A burst: all differing bits of the two messages lie within Width(k) consecutive bits, starting
      at bit p of the string. Every burst changes the checksum. */
  lemma BurstDetected(k: Kind, a: seq<byte>, b: seq<byte>, p: nat, e: nat)
    requires |a| == |b|
    requires Xor(Message(a), Message(b)) == Shl(e, p)
    requires 0 < e < Shl(1, Width(k))
    requires p <= 8 * |a|
    ensures Checksum(k, a) != Checksum(k, b)
  {
    hide Shl, Xor, Message, Checksum;
    SameChecksum(k, a, b);
    StepsAdd(k, Shl(e, p), p, 8 * |a| - p);
    StepsShift(k, e, p);
    if Checksum(k, a) == Checksum(k, b) {
      StepsInjective(k, e, 8 * |a| - p);
    }
  }

  lemma {:induction false} MessageAppend(a: seq<byte>, b: seq<byte>)
    ensures Message(a + b) == Message(a) + Shl(Message(b), 8 * |a|)
  {
    if a == [] {
      assert a + b == b;
    } else {
      assert (a + b)[1..] == a[1..] + b;
      MessageAppend(a[1..], b);
      ShlBytes(Message(b), 8 * |a[1..]|);
    }
  }

  lemma {:induction false} MessageInjective(a: seq<byte>, b: seq<byte>)
    requires |a| == |b|
    requires Message(a) == Message(b)
    ensures a == b
  {
    if a != [] { MessageInjective(a[1..], b[1..]); }
  }

  lemma MessageOfParts(pre: seq<byte>, u: seq<byte>, post: seq<byte>)
    ensures Message(pre + u + post)
         == Xor(Message(pre), Shl(Xor(Message(u), Shl(Message(post), 8 * |u|)), 8 * |pre|))
  {
    hide Xor, Shl, Message;
    MessageFits(pre);
    MessageFits(u);
    assert pre + u + post == pre + (u + post);
    MessageAppend(pre, u + post);
    MessageAppend(u, post);
    XorDisjoint(Message(u), Message(post), 8 * |u|);
    XorDisjoint(Message(pre), Message(u + post), 8 * |pre|);
  }

  lemma XorCommonPart(a: nat, b: nat, q: nat)
    ensures Xor(Xor(a, q), Xor(b, q)) == Xor(a, b)
    ensures Xor(Xor(q, a), Xor(q, b)) == Xor(a, b)
  {
    XorSwap(a, q, b, q);
    XorSwap(q, a, q, b);
    XorZero(q);
    XorZero(Xor(a, b));
  }

  /** Replacing a stretch of bytes changes the message by that stretch's own difference, shifted. */
  lemma StretchDifference(pre: seq<byte>, u: seq<byte>, v: seq<byte>, post: seq<byte>)
    requires |u| == |v|
    ensures Xor(Message(pre + u + post), Message(pre + v + post)) == Shl(Xor(Message(u), Message(v)), 8 * |pre|)
  {
    MessageOfParts(pre, u, post);
    MessageOfParts(pre, v, post);
    var q := Shl(Message(post), 8 * |u|);
    var x, y := Xor(Message(u), q), Xor(Message(v), q);
    XorCommonPart(Shl(x, 8 * |pre|), Shl(y, 8 * |pre|), Message(pre));
    XorShift(x, y, 8 * |pre|);
    XorCommonPart(Message(u), Message(v), q);
  }

  /** Changing up to four consecutive bytes (CRC-32), or seven (CRC-64), anywhere in a byte string of
      any length changes the checksum. */
  lemma StretchDetected(k: Kind, pre: seq<byte>, u: seq<byte>, v: seq<byte>, post: seq<byte>)
    requires |u| == |v| && 8 * |u| <= Width(k)
    ensures Checksum(k, pre + u + post) == Checksum(k, pre + v + post) <==> u == v
  {
    hide Shl, Xor, Message, Checksum;
    if u != v {
      var e := Xor(Message(u), Message(v));
      StretchDifference(pre, u, v, post);
      if Message(u) == Message(v) { MessageInjective(u, v); }
      XorIsZero(Message(u), Message(v));
      MessageFits(u);
      MessageFits(v);
      XorFits(Message(u), Message(v), 8 * |u|);
      ShlAdd(1, 8 * |u|, Width(k) - 8 * |u|);
      BurstDetected(k, pre + u + post, pre + v + post, 8 * |pre|, e);
    }
  }

  // ----- widths

  lemma {:induction false} StepsFit(k: Kind, c: nat, n: nat)
    requires c < Shl(1, Size(k))
    ensures Steps(k, c, n) < Shl(1, Size(k))
    decreases n
  {
    if n > 0 {
      StepFits(k, c, Size(k));
      StepsFit(k, Step(k, c), n - 1);
    }
  }

  lemma {:induction false} RunFits(k: Kind, c: nat, data: seq<byte>)
    requires c <= Ones(k)
    ensures Run(k, c, data) <= Ones(k)
    decreases |data|
  {
    PolyTop(k);
    if data != [] {
      ShlByte(1);
      ShlAdd(1, 8, Size(k) - 8);
      XorFits(c, data[0], Size(k));
      StepsFit(k, Xor(c, data[0]), 8);
      RunFits(k, ByteStep(k, c, data[0]), data[1..]);
    }
  }

  /** At every point of the two loops, i bytes absorbed and j steps into the next, the register fits its C type:
      no operation on it ever truncates. */
  lemma RegisterFits(k: Kind, data: seq<byte>, i: nat, j: nat)
    requires i < |data| && j <= 8
    ensures Run(k, Ones(k), data[..i]) <= Ones(k)
    ensures Steps(k, Xor(Run(k, Ones(k), data[..i]), data[i]), j) <= Ones(k)
  {
    var c := Run(k, Ones(k), data[..i]);
    PolyTop(k);
    RunFits(k, Ones(k), data[..i]);
    ShlByte(1);
    ShlAdd(1, 8, Size(k) - 8);
    XorFits(c, data[i], Size(k));
    StepsFit(k, Xor(c, data[i]), j);
  }

  /** And so does the result. */
  lemma ChecksumFits(k: Kind, data: seq<byte>)
    ensures Checksum(k, data) <= Ones(k)
  {
    PolyTop(k);
    RunFits(k, Ones(k), data);
    XorFits(Run(k, Ones(k), data), Ones(k), Size(k));
  }
}
