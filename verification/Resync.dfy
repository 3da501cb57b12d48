/** The resynchronisation bound of the main-loop receiver is the least one. */
module Resync {
  import opened Bitwise
  import opened Crc
  import opened Frame
  import opened Assembler
  import CrcValues

  /** A header announcing the longest payload in which only the first byte is a sync byte. */
  const LOUD_FIRST: seq<byte> := [0xAA, 0x00, 0xFC, 0x0F, 0, 0, 0, 0, 0x8E, 0xE4, 0x88, 0xD8, 0x10, 0x15, 0x30, 0xB2]

  lemma CrcBytes()
    ensures Le(0xB230_1510_D888_E48E, 8) == [0x8E, 0xE4, 0x88, 0xD8, 0x10, 0x15, 0x30, 0xB2]
  {
    LeByte(0xB230_1510_D888_E48E, 8);
    LeByte(0xB2_3015_10D8_88E4, 7);
    LeByte(0xB230_1510_D888, 6);
    LeByte(0xB2_3015_10D8, 5);
    LeByte(0xB230_1510, 4);
    LeByte(0xB2_3015, 3);
    LeByte(0xB230, 2);
    LeByte(0xB2, 1);
  }

  lemma HeaderIs()
    ensures Header(0, MAX_PAYLOAD, NO_FLAGS) == LOUD_FIRST
  {
    hide Checksum, Le;
    LengthRoundTrip(MAX_PAYLOAD);
    assert HeaderWord(0, MAX_PAYLOAD, NO_FLAGS) == CrcValues.QUIET_WORD;
    CrcValues.QuietChecksum();
    CrcBytes();
  }

  /** After a single sync byte, 4110 bytes without another can leave the receiver in the middle of a frame: the
      4111 of Resynchronises cannot be lowered. */
  lemma BoundIsLeast()
    ensures exists before, quiet ::
              SYNC !in quiet && |quiet| == 15 + MAX_PAYLOAD + CRC32_SIZE - 1
              && FeedAll(FeedAll(Idle, before).0, quiet).0 != Idle
  {
    hide Zeros, Parse, Header, FeedAll;
    var rest := Zeros(MAX_PAYLOAD + 3);
    var quiet := LOUD_FIRST[1..] + rest;
    assert SYNC !in quiet;
    var s := LOUD_FIRST + rest;
    assert [SYNC] + quiet == s;
    HeaderIs();
    Unfinished(rest);
    FeedAppend(Idle, [SYNC], quiet);
    RunsStayReachable(Idle, s);
    Incremental(Idle, s);
    assert Pending(Idle) + s == s;
    OnlyIdlePendsNothing(FeedAll(Idle, s).0);
  }

  lemma Unfinished(rest: seq<byte>)
    requires |rest| < MAX_PAYLOAD + CRC32_SIZE && Header(0, MAX_PAYLOAD, NO_FLAGS) == LOUD_FIRST
    ensures Parse(LOUD_FIRST + rest) == ([], LOUD_FIRST + rest)
  {
    hide Header, HeaderCrcOk;
    HeaderParts(0, MAX_PAYLOAD, NO_FLAGS);
    assert (LOUD_FIRST + rest)[..16] == LOUD_FIRST;
  }
}
