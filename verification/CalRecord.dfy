/** The calibration record in flash: its bytes under the 32-bit Arm ABI, which aligns timestamp to 4 and pads
    the structure to 24 bytes, its checksum, and whether what was written is accepted at the next start. */
module CalRecord {
  import opened Bitwise

  datatype Coeffs = Coeffs(offset: int, gain: int)

  const SIZE := 24
  const MAGIC := 0xADCA
  const NOMINAL := Coeffs(0, 1000)

  /** A 16-bit field, two's complement if negative. */
  function Half(x: int): seq<byte> { [x % 256, x / 256 % 256] }

  function Unsigned(s: seq<byte>): nat
    requires |s| == 2
  {
    s[0] as int + 256 * s[1] as int
  }

  function Signed(s: seq<byte>): int
    requires |s| == 2
  {
    if s[1] >= 128 then Unsigned(s) - 0x1_0000 else Unsigned(s)
  }

  function Total(s: seq<byte>): nat { if s == [] then 0 else Total(s[..|s| - 1]) + s[|s| - 1] }

  /** compute_checksum: all bytes of the structure but the last. The last byte is padding; the checksum field
      is byte 20. */
  function Sum(record: seq<byte>): byte
    requires |record| == SIZE
  {
    Total(record[..SIZE - 1]) % 256
  }

  method ComputeChecksum(record: seq<byte>) returns (sum: byte)
    requires |record| == SIZE
    ensures sum == Sum(record)
  {
    sum := 0;
    var i := 0;
    while i < SIZE - 1
      invariant 0 <= i <= SIZE - 1
      invariant sum == Total(record[..i]) % 256
    {
      sum := (sum + record[i]) % 256;
      i := i + 1;
      assert record[..i][..i - 1] == record[..i - 1];
    }
  }

  // ----- writing and reading the fields

  /** Bytes 0 to 19 of the record adc_cal_factory_calibrate builds. */
  function Fields(c: Coeffs, stamp: nat): (s: seq<byte>)
    ensures |s| == 20
  {
    Half(MAGIC) + [1, 0] + Half(c.offset) + Half(c.gain) + Half(0) + Half(1000) + [1, 1] + Half(0)
    + Half(stamp) + Half(stamp / 0x1_0000)
  }

  function Record(c: Coeffs, stamp: nat, checksum: byte): (s: seq<byte>)
    ensures |s| == SIZE
  {
    Fields(c, stamp) + [checksum, 0, 0, 0]
  }

  /** The record with its checksum, taken while the checksum field is still zero. */
  function Written(c: Coeffs, stamp: nat): (s: seq<byte>)
    ensures |s| == SIZE
  {
    Record(c, stamp, Sum(Record(c, stamp, 0)))
  }

  /** The test at start. */
  predicate Accepted(flash: seq<byte>)
    requires |flash| == SIZE
  {
    Unsigned(flash[0..2]) == MAGIC && flash[2] == 1 && flash[20] == Sum(flash) && flash[12] != 0
  }

  function CoeffsAt(flash: seq<byte>): Coeffs
    requires |flash| == SIZE
  {
    Coeffs(Signed(flash[4..6]), Unsigned(flash[6..8]))
  }

  function TempOffsetAt(flash: seq<byte>): int
    requires |flash| == SIZE
  {
    Signed(flash[8..10])
  }

  function TempGainAt(flash: seq<byte>): nat
    requires |flash| == SIZE
  {
    Unsigned(flash[10..12])
  }

  // ----- the checksum against itself

  lemma {:induction false} TotalAppend(a: seq<byte>, b: seq<byte>)
    ensures Total(a + b) == Total(a) + Total(b)
    decreases |b|
  {
    if b == [] {
      assert a + b == a;
    } else {
      assert (a + b)[..|a + b| - 1] == a + b[..|b| - 1];
      TotalAppend(a, b[..|b| - 1]);
    }
  }

  lemma TotalOne(x: byte)
    ensures Total([x]) == x
  {
    assert [x][..0] == [];
  }

  lemma TotalTwo(x: byte, y: byte)
    ensures Total([x, y]) == x + y
  {
    TotalAppend([x], [y]);
    TotalOne(x);
    TotalOne(y);
  }

  lemma SumParts(flash: seq<byte>)
    requires |flash| == SIZE
    ensures Sum(flash) == (Total(flash[..20]) + flash[20] + flash[21] + flash[22]) % 256
  {
    assert flash[..SIZE - 1] == flash[..20] + ([flash[20], flash[21]] + [flash[22]]);
    TotalAppend(flash[..20], [flash[20], flash[21]] + [flash[22]]);
    TotalAppend([flash[20], flash[21]], [flash[22]]);
    TotalTwo(flash[20], flash[21]);
    TotalOne(flash[22]);
  }

  /** The sum taken at start includes the checksum field, so the test does not depend on it: it asks whether
      the other bytes add up to a multiple of 256. */
  lemma ChecksumIgnored(flash: seq<byte>)
    requires |flash| == SIZE
    ensures Accepted(flash) <==>
            && flash[0] == 0xCA && flash[1] == 0xAD && flash[2] == 1 && flash[12] != 0
            && (Total(flash[..20]) + flash[21] + flash[22]) % 256 == 0
  {
    hide Total;
    SumParts(flash);
  }

  function ByteSum(x: int): nat { x % 256 + x / 256 % 256 }

  lemma TotalHalf(x: int)
    ensures Total(Half(x)) == ByteSum(x)
  {
    TotalTwo(x % 256, x / 256 % 256);
  }

  lemma FieldsTotal(c: Coeffs, stamp: nat)
    ensures Total(Fields(c, stamp))
            == 613 + ByteSum(c.offset) + ByteSum(c.gain) + ByteSum(stamp) + ByteSum(stamp / 0x1_0000)
  {
    hide Total, Half;
    var p0 := Half(MAGIC);
    var p1 := p0 + [1, 0];
    var p2 := p1 + Half(c.offset);
    var p3 := p2 + Half(c.gain);
    var p4 := p3 + Half(0);
    var p5 := p4 + Half(1000);
    var p6 := p5 + [1, 1];
    var p7 := p6 + Half(0);
    var p8 := p7 + Half(stamp);
    TotalAppend(p0, [1, 0]);
    TotalAppend(p1, Half(c.offset));
    TotalAppend(p2, Half(c.gain));
    TotalAppend(p3, Half(0));
    TotalAppend(p4, Half(1000));
    TotalAppend(p5, [1, 1]);
    TotalAppend(p6, Half(0));
    TotalAppend(p7, Half(stamp));
    TotalAppend(p8, Half(stamp / 0x1_0000));
    TotalHalf(MAGIC);
    TotalTwo(1, 0);
    TotalTwo(1, 1);
    TotalHalf(c.offset);
    TotalHalf(c.gain);
    TotalHalf(0);
    TotalHalf(1000);
    TotalHalf(stamp);
    TotalHalf(stamp / 0x1_0000);
  }

  lemma HalfReads(x: int)
    ensures 0 <= x < 0x1_0000 ==> Unsigned(Half(x)) == x
    ensures -0x8000 <= x < 0x8000 ==> Signed(Half(x)) == x
  {
  }

  /** The record byte by byte. */
  lemma RecordBytes(c: Coeffs, stamp: nat, checksum: byte)
    ensures Record(c, stamp, checksum) == [
              0xCA, 0xAD, 1, 0,
              c.offset % 256, c.offset / 256 % 256, c.gain % 256, c.gain / 256 % 256,
              0, 0, 0xE8, 0x03,
              1, 1, 0, 0,
              stamp % 256, stamp / 0x100 % 256, stamp / 0x1_0000 % 256, stamp / 0x100_0000 % 256,
              checksum, 0, 0, 0]
  {
    assert stamp / 0x1_0000 / 256 == stamp / 0x100_0000;
  }

  /** The fields read from the record, by their bytes. */
  lemma FieldsAt(flash: seq<byte>)
    requires |flash| == SIZE
    ensures CoeffsAt(flash).gain == flash[6] as int + 256 * flash[7] as int
    ensures CoeffsAt(flash).offset
         == flash[4] as int + 256 * flash[5] as int - if flash[5] >= 128 then 0x1_0000 else 0
    ensures TempOffsetAt(flash) == flash[8] as int + 256 * flash[9] as int - if flash[9] >= 128 then 0x1_0000 else 0
    ensures TempGainAt(flash) == flash[10] as int + 256 * flash[11] as int
  {
  }

  /** The fields read back as written, whatever the checksum. */
  lemma FieldsReadBack(c: Coeffs, stamp: nat, checksum: byte)
    requires -0x8000 <= c.offset < 0x8000 && 0 <= c.gain < 0x1_0000
    ensures var r := Record(c, stamp, checksum);
            && CoeffsAt(r) == c && TempOffsetAt(r) == 0 && TempGainAt(r) == 1000
            && Unsigned(r[0..2]) == MAGIC && r[2] == 1 && r[12] != 0
  {
    var r := Record(c, stamp, checksum);
    assert r[0..2] == Half(MAGIC) && r[4..6] == Half(c.offset) && r[6..8] == Half(c.gain);
    assert r[8..10] == Half(0) && r[10..12] == Half(1000);
    HalfReads(MAGIC);
    HalfReads(c.offset);
    HalfReads(c.gain);
    HalfReads(0);
    HalfReads(1000);
  }

  /** Calibration persists across a power cycle only by chance: the record written is accepted at the next
      start if and only if its bytes happen to add up to a multiple of 256. The fields would read back. */
  lemma PersistsExactly(c: Coeffs, stamp: nat)
    requires -0x8000 <= c.offset < 0x8000 && 0 <= c.gain < 0x1_0000
    ensures Accepted(Written(c, stamp)) <==>
            (613 + ByteSum(c.offset) + ByteSum(c.gain) + ByteSum(stamp) + ByteSum(stamp / 0x1_0000)) % 256 == 0
    ensures Written(c, stamp)[20]
         == (613 + ByteSum(c.offset) + ByteSum(c.gain) + ByteSum(stamp) + ByteSum(stamp / 0x1_0000)) % 256
    ensures CoeffsAt(Written(c, stamp)) == c
    ensures TempOffsetAt(Written(c, stamp)) == 0 && TempGainAt(Written(c, stamp)) == 1000
  {
    hide Total, Half, Fields, Signed, Unsigned;
    var r := Written(c, stamp);
    FieldsReadBack(c, stamp, Sum(Record(c, stamp, 0)));
    RecordBytes(c, stamp, Sum(Record(c, stamp, 0)));
    ChecksumIgnored(r);
    FieldsTotal(c, stamp);
    assert r[..20] == Fields(c, stamp);
    SumParts(Record(c, stamp, 0));
    assert Record(c, stamp, 0)[..20] == Fields(c, stamp);
  }

  /** A perfect board calibrated at time zero comes up uncalibrated. */
  lemma PerfectBoardForgotten()
    ensures !Accepted(Written(NOMINAL, 0))
  {
    hide Written, Accepted;
    PersistsExactly(NOMINAL, 0);
  }
}
