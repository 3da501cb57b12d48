/** The arithmetic of Bitwise against the machine's own words: Value reads a 64-bit word as a number, and
    exclusive-or, shift and the CRC step on words are Xor, division and Crc.Step on numbers. Words can be
    evaluated, which pins the two checksums to the check values the repository's tests expect. */
module CrcValues {
  import opened Bitwise
  import opened Crc

  // ----- bytes

  function Num(b: bv8): byte { b as int }

  function Odd8(b: bv8): bool { b & 1 == 1 }

  function Half8(b: bv8): bv8 { b >> 1 }

  function Xor8(a: bv8, b: bv8): bv8 { a ^ b }

  lemma NumFacts(b: bv8)
    ensures Num(Half8(b)) == Num(b) / 2
    ensures Num(b) == 0 <==> b == 0
  {
  }

  lemma NumParity(b: bv8)
    ensures Num(b) % 2 == if Odd8(b) then 1 else 0
  {
  }

  lemma XorParts(a: bv8, b: bv8)
    ensures Odd8(Xor8(a, b)) <==> Odd8(a) != Odd8(b)
    ensures Half8(Xor8(a, b)) == Xor8(Half8(a), Half8(b))
    ensures Xor8(0, 0) == 0
  {
  }

  lemma {:induction false} XorOfBytes(a: bv8, b: bv8)
    ensures Xor(Num(a), Num(b)) == Num(Xor8(a, b))
    decreases Num(a) + Num(b)
  {
    hide Xor, Num, Half8, Odd8, Xor8;
    NumFacts(a);
    NumFacts(b);
    NumFacts(Xor8(a, b));
    NumParity(a);
    NumParity(b);
    NumParity(Xor8(a, b));
    XorParts(a, b);
    if a == 0 && b == 0 {
      XorZero(0);
    } else {
      XorOfBytes(Half8(a), Half8(b));
      XorHalf(Num(a), Num(b));
    }
  }

  // ----- words

  function Low(v: bv64): bv8 { (v & 0xFF) as bv8 }

  function High(v: bv64): bv64 { v >> 8 }

  function Half(v: bv64): bv64 { v >> 1 }

  function Odd(v: bv64): bool { v & 1 == 1 }

  function XorW(v: bv64, w: bv64): bv64 { v ^ w }

  /** The number in the low n bytes of a word. */
  function Value(v: bv64, n: nat): nat { if n == 0 then 0 else Num(Low(v)) + 256 * Value(High(v), n - 1) }

  predicate Fits(v: bv64, n: nat)
    decreases n
  {
    if n == 0 then v == 0 else Fits(High(v), n - 1)
  }

  lemma WordXor(v: bv64, w: bv64)
    ensures Low(XorW(v, w)) == Xor8(Low(v), Low(w))
    ensures High(XorW(v, w)) == XorW(High(v), High(w))
  {
  }

  function Join(lo: bv8, carry: bool): bv8 { if carry then (lo >> 1) | 0x80 else lo >> 1 }

  lemma WordHalf(v: bv64)
    ensures Low(Half(v)) == Join(Low(v), Odd(High(v)))
    ensures High(Half(v)) == Half(High(v))
    ensures Odd(v) == Odd8(Low(v))
  {
  }

  lemma JoinValue(lo: bv8, carry: bool)
    ensures Num(Join(lo, carry)) == Num(lo) / 2 + if carry then 128 else 0
  {
  }

  lemma SplitXor(x: byte, a: nat, y: byte, b: nat)
    ensures Xor(x + 256 * a, y + 256 * b) == Xor(x, y) + 256 * Xor(a, b)
  {
    hide Xor, Shl;
    ShlByte(1);
    ShlByte(a);
    ShlByte(b);
    ShlByte(Xor(a, b));
    XorDisjoint(x, a, 8);
    XorDisjoint(y, b, 8);
    XorSwap(x, Shl(a, 8), y, Shl(b, 8));
    XorShift(a, b, 8);
    XorFits(x, y, 8);
    XorDisjoint(Xor(x, y), Xor(a, b), 8);
  }

  /** `^` on words is Xor on numbers. */
  lemma {:induction false} XorOfWords(v: bv64, w: bv64, n: nat)
    ensures Xor(Value(v, n), Value(w, n)) == Value(XorW(v, w), n)
    decreases n
  {
    hide Xor, Low, High, XorW, Num, Xor8;
    if n == 0 {
      XorZero(0);
    } else {
      WordXor(v, w);
      XorOfBytes(Low(v), Low(w));
      XorOfWords(High(v), High(w), n - 1);
      SplitXor(Num(Low(v)), Value(High(v), n - 1), Num(Low(w)), Value(High(w), n - 1));
    }
  }

  /** `>> 1` on words is halving, and `& 1` the remainder. */
  lemma {:induction false} HalfOfWord(v: bv64, n: nat)
    requires Fits(v, n)
    ensures Value(Half(v), n) == Value(v, n) / 2
    ensures Odd(v) <==> Value(v, n) % 2 == 1
    decreases n
  {
    hide Low, High, Half, Odd, Num, Join, Odd8;
    if n == 0 {
      ZeroWord();
    } else {
      WordHalf(v);
      JoinValue(Low(v), Odd(High(v)));
      NumParity(Low(v));
      HalfOfWord(High(v), n - 1);
    }
  }

  lemma ZeroWord()
    ensures !Odd(0)
  {
  }

  lemma AllFit(v: bv64)
    ensures Fits(v, 8)
  {
    var a := High(v);
    var b := High(a);
    var c := High(b);
    var d := High(c);
    var e := High(d);
    var f := High(e);
    var g := High(f);
    assert Fits(v, 8) == Fits(a, 7) == Fits(b, 6) == Fits(c, 5) == Fits(d, 4);
    assert Fits(d, 4) == Fits(e, 3) == Fits(f, 2) == Fits(g, 1) == Fits(High(g), 0);
  }

  // ----- the register as a word

  function PolyW(k: Kind): bv64 { if k.Crc64? then 0x42F0_E1EB_A9EA_3693 else 0xEDB8_8320 }

  function StepW(k: Kind, c: bv64): bv64 { if Odd(c) then XorW(Half(c), PolyW(k)) else Half(c) }

  /** A byte absorbed and eight steps made, as the C loops do it. */
  function ByteW(k: Kind, c: bv64, b: bv8): bv64 {
    var c0 := XorW(c, b as bv64);
    StepW(k, StepW(k, StepW(k, StepW(k, StepW(k, StepW(k, StepW(k, StepW(k, c0))))))))
  }

  function RunW(k: Kind, c: bv64, data: seq<bv8>): bv64
    decreases |data|
  {
    if data == [] then c else RunW(k, ByteW(k, c, data[0]), data[1..])
  }

  function Nums(data: seq<bv8>): (s: seq<byte>)
    ensures |s| == |data| && forall i | 0 <= i < |data| :: s[i] == Num(data[i])
  {
    if data == [] then [] else [Num(data[0])] + Nums(data[1..])
  }

  lemma {:induction false} ZeroValue(n: nat)
    ensures Value(0, n) == 0
  {
    if n > 0 { ZeroValue(n - 1); }
  }

  lemma ByteAsWord(b: bv8)
    ensures Value(b as bv64, 8) == Num(b)
  {
    assert Low(b as bv64) == b && High(b as bv64) == 0;
    ZeroValue(7);
  }

  lemma PolyValue(k: Kind)
    ensures Value(PolyW(k), 8) == Poly(k)
  {
    hide Value;
    Poly64Value();
    Poly32Value();
  }

  lemma Poly64Value()
    ensures Value(0x42F0_E1EB_A9EA_3693, 8) == 0x42F0_E1EB_A9EA_3693
  {
  }

  lemma Poly32Value()
    ensures Value(0xEDB8_8320, 8) == 0xEDB8_8320
  {
    ZeroValue(4);
    assert Value(0xEDB8_8320, 8) == 0x20 + 256 * Value(0xED_B883, 7);
    assert Value(0xED_B883, 7) == 0x83 + 256 * Value(0xEDB8, 6);
    assert Value(0xEDB8, 6) == 0xB8 + 256 * Value(0xED, 5);
    assert Value(0xED, 5) == 0xED + 256 * Value(0, 4);
  }

  /** The bit step of the C loops on a word is Crc.Step on its number. */
  lemma StepOfWord(k: Kind, c: bv64)
    ensures Value(StepW(k, c), 8) == Step(k, Value(c, 8))
  {
    hide Odd, XorW, Half, Value, Xor;
    AllFit(c);
    HalfOfWord(c, 8);
    XorOfWords(Half(c), PolyW(k), 8);
    PolyValue(k);
  }

  lemma {:induction false} StepsOfWord(k: Kind, c: bv64)
    ensures Value(StepW(k, StepW(k, StepW(k, StepW(k, c)))), 8) == Steps(k, Value(c, 8), 4)
  {
    hide StepW, Step, Value;
    var c1 := StepW(k, c);
    var c2 := StepW(k, c1);
    var c3 := StepW(k, c2);
    StepOfWord(k, c);
    StepOfWord(k, c1);
    StepOfWord(k, c2);
    StepOfWord(k, c3);
    assert Steps(k, Value(c, 8), 4) == Steps(k, Value(c1, 8), 3);
    assert Steps(k, Value(c1, 8), 3) == Steps(k, Value(c2, 8), 2) == Steps(k, Value(c3, 8), 1);
  }

  lemma ByteOfWord(k: Kind, c: bv64, b: bv8)
    ensures Value(ByteW(k, c, b), 8) == ByteStep(k, Value(c, 8), Num(b))
  {
    hide StepW, Value, Xor, XorW, Steps;
    var c0 := XorW(c, b as bv64);
    XorOfWords(c, b as bv64, 8);
    ByteAsWord(b);
    StepsOfWord(k, c0);
    StepsOfWord(k, StepW(k, StepW(k, StepW(k, StepW(k, c0)))));
    StepsAdd(k, Value(c0, 8), 4, 4);
  }

  /** The kernel's loops on a uint64_t register compute Crc.Run. */
  lemma {:induction false} RunOfWord(k: Kind, c: bv64, data: seq<bv8>)
    ensures Value(RunW(k, c, data), 8) == Run(k, Value(c, 8), Nums(data))
    decreases |data|
  {
    hide ByteW, ByteStep, Value;
    if data != [] {
      ByteOfWord(k, c, data[0]);
      RunOfWord(k, ByteW(k, c, data[0]), data[1..]);
      assert Nums(data)[1..] == Nums(data[1..]);
    }
  }

  function OnesW(k: Kind): bv64 { if k.Crc64? then 0xFFFF_FFFF_FFFF_FFFF else 0xFFFF_FFFF }

  lemma OnesValue(k: Kind)
    ensures Value(OnesW(k), 8) == Ones(k)
  {
    AllOnes64();
    AllOnes32();
  }

  lemma AllOnes64()
    ensures Value(0xFFFF_FFFF_FFFF_FFFF, 8) == 0xFFFF_FFFF_FFFF_FFFF
  {
  }

  lemma AllOnes32()
    ensures Value(0xFFFF_FFFF, 8) == 0xFFFF_FFFF
  {
    ZeroValue(4);
    assert Value(0xFFFF_FFFF, 8) == 0xFF + 256 * Value(0xFF_FFFF, 7);
    assert Value(0xFF_FFFF, 7) == 0xFF + 256 * Value(0xFFFF, 6);
    assert Value(0xFFFF, 6) == 0xFF + 256 * Value(0xFF, 5);
    assert Value(0xFF, 5) == 0xFF + 256 * Value(0, 4);
  }

  lemma ChecksumOfWord(k: Kind, data: seq<bv8>, end: bv64)
    requires RunW(k, OnesW(k), data) == end
    ensures Checksum(k, Nums(data)) == Value(XorW(end, OnesW(k)), 8)
  {
    hide Value, XorW, RunW, OnesW, Xor;
    RunOfWord(k, OnesW(k), data);
    OnesValue(k);
    XorOfWords(end, OnesW(k), 8);
  }

  // ----- check values

  /** regs lists the register before each byte and after the last. */
  predicate Trace(k: Kind, regs: seq<bv64>, data: seq<bv8>) {
    |regs| == |data| + 1 && forall i | 0 <= i < |data| :: ByteW(k, regs[i], data[i]) == regs[i + 1]
  }

  lemma {:induction false} TraceRuns(k: Kind, regs: seq<bv64>, data: seq<bv8>)
    requires Trace(k, regs, data)
    ensures RunW(k, regs[0], data) == regs[|data|]
    decreases |data|
  {
    hide ByteW;
    if data != [] {
      assert ByteW(k, regs[0], data[0]) == regs[1];
      TraceRuns(k, regs[1..], data[1..]);
    }
  }

  const DIGITS: seq<byte> := [0x31, 0x32, 0x33, 0x34, 0x35, 0x36, 0x37, 0x38, 0x39]

  lemma Digits() returns (d: seq<bv8>)
    ensures d == [0x31, 0x32, 0x33, 0x34, 0x35, 0x36, 0x37, 0x38, 0x39]
    ensures Nums(d) == DIGITS
  {
    d := [0x31, 0x32, 0x33, 0x34, 0x35, 0x36, 0x37, 0x38, 0x39];
    assert Nums(d) == DIGITS;
  }

  lemma DigitsTrace64(d: seq<bv8>)
    requires d == [0x31, 0x32, 0x33, 0x34, 0x35, 0x36, 0x37, 0x38, 0x39]
    ensures RunW(Crc64, 0xFFFF_FFFF_FFFF_FFFF, d) == 0x4797_7C19_058E_F560
  {
    hide RunW;
    var regs: seq<bv64> := [
      0xFFFF_FFFF_FFFF_FFFF, 0x4304_DD93_F8B2_61B6, 0x37BF_C543_4AA6_D651, 0x2A0D_9785_116A_0223,
      0x6B79_6177_5A60_D567, 0x4187_DC02_2D58_AF28, 0x38D0_10E9_E738_204A, 0x2EA8_178D_D60A_EBD1,
      0x4350_6BB8_5DC8_40CF, 0x4797_7C19_058E_F560];
    assert Trace(Crc64, regs, d);
    TraceRuns(Crc64, regs, d);
  }

  lemma DigitsTrace32(d: seq<bv8>)
    requires d == [0x31, 0x32, 0x33, 0x34, 0x35, 0x36, 0x37, 0x38, 0x39]
    ensures RunW(Crc32, 0xFFFF_FFFF, d) == 0x340B_C6D9
  {
    hide RunW;
    var regs: seq<bv64> := [
      0xFFFF_FFFF, 0x7C23_1048, 0xB0AC_BB32, 0x77B7_9C2D, 0x641C_1F5C, 0x340A_C5E3, 0xF68D_2C9E, 0xAFFC_9660,
      0x651F_2550, 0x340B_C6D9];
    assert Trace(Crc32, regs, d);
    TraceRuns(Crc32, regs, d);
  }

  /** The check values in the repository's tests: of the ASCII digits 1 to 9, and of no bytes at all. */
  lemma CheckValues()
    ensures Checksum(Crc64, DIGITS) == 0xB868_83E6_FA71_0A9F
    ensures Checksum(Crc32, DIGITS) == 0xCBF4_3926
    ensures Checksum(Crc64, []) == Checksum(Crc32, []) == 0
  {
    hide RunW, Xor;
    var d := Digits();
    DigitsTrace64(d);
    DigitsTrace32(d);
    ChecksumOfWord(Crc64, d, 0x4797_7C19_058E_F560);
    ChecksumOfWord(Crc32, d, 0x340B_C6D9);
    Result64();
    Result32();
    XorZero(Ones(Crc64));
    XorZero(Ones(Crc32));
  }

  lemma Result64()
    ensures Value(XorW(0x4797_7C19_058E_F560, OnesW(Crc64)), 8) == 0xB868_83E6_FA71_0A9F
  {
  }

  lemma Result32()
    ensures Value(XorW(0x340B_C6D9, OnesW(Crc32)), 8) == 0xCBF4_3926
  {
    ZeroValue(4);
    assert XorW(0x340B_C6D9, 0xFFFF_FFFF) == 0xCBF4_3926;
    assert Value(0xCBF4_3926, 8) == 0x26 + 256 * Value(0xCB_F439, 7);
    assert Value(0xCB_F439, 7) == 0x39 + 256 * Value(0xCBF4, 6);
    assert Value(0xCBF4, 6) == 0xF4 + 256 * Value(0xCB, 5);
    assert Value(0xCB, 5) == 0xCB + 256 * Value(0, 4);
  }

  // ----- a header with no second sync byte

  lemma QuietSteps()
    ensures ByteW(Crc64, 0xFFFF_FFFF_FFFF_FFFF, 0xAA) == 0x7052_F3D0_4C21_7282
    ensures ByteW(Crc64, 0x7052_F3D0_4C21_7282, 0x00) == 0x3AF6_42C9_6816_0823
    ensures ByteW(Crc64, 0x3AF6_42C9_6816_0823, 0xFC) == 0x25E8_696A_7050_7A45
    ensures ByteW(Crc64, 0x25E8_696A_7050_7A45, 0x0F) == 0x7422_0B9B_B463_AA03
    ensures ByteW(Crc64, 0x7422_0B9B_B463_AA03, 0x00) == 0x4439_AB32_02DC_7389
    ensures ByteW(Crc64, 0x4439_AB32_02DC_7389, 0x00) == 0x1176_2395_A18C_2D60
    ensures ByteW(Crc64, 0x1176_2395_A18C_2D60, 0x00) == 0x525D_AFB2_D631_371A
    ensures ByteW(Crc64, 0x525D_AFB2_D631_371A, 0x00) == 0x4DCF_EAEF_2777_1B71
  {
  }

  lemma QuietTrace(d: seq<bv8>)
    requires d == [0xAA, 0x00, 0xFC, 0x0F, 0, 0, 0, 0]
    ensures RunW(Crc64, 0xFFFF_FFFF_FFFF_FFFF, d) == 0x4DCF_EAEF_2777_1B71
  {
    hide RunW, ByteW;
    QuietSteps();
    var regs: seq<bv64> := [
      0xFFFF_FFFF_FFFF_FFFF, 0x7052_F3D0_4C21_7282, 0x3AF6_42C9_6816_0823, 0x25E8_696A_7050_7A45,
      0x7422_0B9B_B463_AA03, 0x4439_AB32_02DC_7389, 0x1176_2395_A18C_2D60, 0x525D_AFB2_D631_371A,
      0x4DCF_EAEF_2777_1B71];
    assert Trace(Crc64, regs, d);
    TraceRuns(Crc64, regs, d);
  }

  const QUIET_WORD: seq<byte> := [0xAA, 0x00, 0xFC, 0x0F, 0, 0, 0, 0]

  /** Bytes 0 to 7 of a header for command 0 and the longest payload, and their CRC-64. */
  lemma QuietChecksum()
    ensures Checksum(Crc64, QUIET_WORD) == 0xB230_1510_D888_E48E
  {
    hide RunW, ByteW, Run, Xor;
    var d: seq<bv8> := [0xAA, 0x00, 0xFC, 0x0F, 0, 0, 0, 0];
    QuietTrace(d);
    assert Nums(d) == QUIET_WORD;
    ChecksumOfWord(Crc64, d, 0x4DCF_EAEF_2777_1B71);
    QuietResult();
  }

  lemma QuietResult()
    ensures Value(XorW(0x4DCF_EAEF_2777_1B71, OnesW(Crc64)), 8) == 0xB230_1510_D888_E48E
  {
  }
}
