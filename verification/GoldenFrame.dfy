/** One frame, byte by byte: which field lies where, and in which order its bytes are sent. */
module GoldenFrame {
  import opened Bitwise
  import opened Crc
  import opened Frame
  import opened CrcValues
  import Kernel

  const WORD: seq<byte> := [0xAA, 0x05, 0x09, 0x00, 0, 0, 0, 0]

  lemma WordSteps()
    ensures ByteW(Crc64, 0xFFFF_FFFF_FFFF_FFFF, 0xAA) == 0x7052_F3D0_4C21_7282
    ensures ByteW(Crc64, 0x7052_F3D0_4C21_7282, 0x05) == 0x73C1_1A54_907A_5561
    ensures ByteW(Crc64, 0x73C1_1A54_907A_5561, 0x09) == 0x3DC6_9BB6_A5BC_0903
    ensures ByteW(Crc64, 0x3DC6_9BB6_A5BC_0903, 0x00) == 0x4470_4FA2_2FCD_AC2A
    ensures ByteW(Crc64, 0x4470_4FA2_2FCD_AC2A, 0x00) == 0x260F_4A2C_3FAC_8CE2
    ensures ByteW(Crc64, 0x260F_4A2C_3FAC_8CE2, 0x00) == 0x68EC_C6E1_D7F5_3EEA
    ensures ByteW(Crc64, 0x68EC_C6E1_D7F5_3EEA, 0x00) == 0x075B_A650_A8A1_AF39
    ensures ByteW(Crc64, 0x075B_A650_A8A1_AF39, 0x00) == 0x3813_2D50_62EE_0D27
  {
  }

  lemma WordTrace(d: seq<bv8>)
    requires d == [0xAA, 0x05, 0x09, 0x00, 0, 0, 0, 0]
    ensures RunW(Crc64, 0xFFFF_FFFF_FFFF_FFFF, d) == 0x3813_2D50_62EE_0D27
  {
    hide RunW, ByteW;
    WordSteps();
    var regs: seq<bv64> := [
      0xFFFF_FFFF_FFFF_FFFF, 0x7052_F3D0_4C21_7282, 0x73C1_1A54_907A_5561, 0x3DC6_9BB6_A5BC_0903,
      0x4470_4FA2_2FCD_AC2A, 0x260F_4A2C_3FAC_8CE2, 0x68EC_C6E1_D7F5_3EEA, 0x075B_A650_A8A1_AF39,
      0x3813_2D50_62EE_0D27];
    assert Trace(Crc64, regs, d);
    TraceRuns(Crc64, regs, d);
  }

  lemma WordChecksum()
    ensures Checksum(Crc64, WORD) == 0xC7EC_D2AF_9D11_F2D8
  {
    hide RunW, ByteW, Run, Xor;
    var d: seq<bv8> := [0xAA, 0x05, 0x09, 0x00, 0, 0, 0, 0];
    WordTrace(d);
    assert Nums(d) == WORD;
    ChecksumOfWord(Crc64, d, 0x3813_2D50_62EE_0D27);
    WordResult();
  }

  lemma WordResult()
    ensures Value(XorW(0x3813_2D50_62EE_0D27, OnesW(Crc64)), 8) == 0xC7EC_D2AF_9D11_F2D8
  {
  }

  lemma FieldBytes()
    ensures Le(0xC7EC_D2AF_9D11_F2D8, 8) == [0xD8, 0xF2, 0x11, 0x9D, 0xAF, 0xD2, 0xEC, 0xC7]
    ensures Le(0xCBF4_3926, 4) == [0x26, 0x39, 0xF4, 0xCB]
  {
    hide Le;
    LeByte(0xC7EC_D2AF_9D11_F2D8, 8);
    LeByte(0xC7_ECD2_AF9D_11F2, 7);
    LeByte(0xC7EC_D2AF_9D11, 6);
    LeByte(0xC7_ECD2_AF9D, 5);
    LeByte(0xC7EC_D2AF, 4);
    LeByte(0xC7_ECD2, 3);
    LeByte(0xC7EC, 2);
    LeByte(0xC7, 1);
    LeByte(0xCBF4_3926, 4);
    LeByte(0xCB_F439, 3);
    LeByte(0xCBF4, 2);
    LeByte(0xCB, 1);
    NoBytes();
  }

  lemma NoBytes()
    ensures Le(0, 0) == []
  {
  }

  /** Command 5 with the digits 1 to 9 for a payload, as built, and as the host's validator reads it. */
  lemma TheFrame()
    ensures Encode(Msg(5, DIGITS)) == [
              0xAA, 0x05, 0x09, 0x00, 0x00, 0x00, 0x00, 0x00,
              0xD8, 0xF2, 0x11, 0x9D, 0xAF, 0xD2, 0xEC, 0xC7,
              0x31, 0x32, 0x33, 0x34, 0x35, 0x36, 0x37, 0x38, 0x39,
              0x26, 0x39, 0xF4, 0xCB]
    ensures Kernel.View(Encode(Msg(5, DIGITS))) == Kernel.Some(Msg(5, DIGITS))
  {
    hide Checksum, Le, Kernel.View;
    LengthRoundTrip(9);
    assert HeaderWord(5, 9, NO_FLAGS) == WORD;
    WordChecksum();
    CheckValues();
    FieldBytes();
    Kernel.BuiltIsAccepted(Msg(5, DIGITS), []);
    assert Encode(Msg(5, DIGITS)) + [] == Encode(Msg(5, DIGITS));
  }
}
