/** The loops that compute the checksums: bit by bit in the kernel driver, by table in the firmware. */
module CrcEngines {
  import opened Bitwise
  import opened Crc

  /** The inner loop that apex_crc64, apex_crc32, crc64_init and crc32_init share. */
  method EightSteps(k: Kind, c: nat) returns (crc: nat)
    ensures crc == Steps(k, c, 8)
  {
    hide Xor;
    crc := c;
    var j := 0;
    while j < 8
      invariant 0 <= j <= 8
      invariant Steps(k, crc, 8 - j) == Steps(k, c, 8)
    {
      if crc % 2 == 1 {
        crc := Xor(crc / 2, Poly(k));
      } else {
        crc := crc / 2;
      }
      j := j + 1;
    }
  }

  /** apex_crc64 and apex_crc32, which differ in their constants only. */
  method BitwiseCrc(k: Kind, data: seq<byte>) returns (r: nat)
    ensures r == Checksum(k, data)
    ensures r <= Ones(k)
  {
    hide Xor, Steps;
    var crc: nat := Ones(k);
    var i := 0;
    while i < |data|
      invariant 0 <= i <= |data|
      invariant Run(k, crc, data[i..]) == Run(k, Ones(k), data)
    {
      crc := Xor(crc, data[i]);
      crc := EightSteps(k, crc);
      assert data[i..][1..] == data[i + 1..];
      i := i + 1;
    }
    ChecksumFits(k, data);
    r := Xor(crc, Ones(k));
  }

  /** crc64_table and crc64_initialized, or crc32_table and crc32_initialized. */
  class CrcTable {
    const kind: Kind
    const table: array<nat>
    var initialized: bool

    /** Entry i of a built table is what eight bit steps make of i. */
    ghost predicate Built()
      reads table
    {
      table.Length == 256 && forall i: byte :: table[i] == Steps(kind, i, 8)
    }

    ghost predicate Valid()
      reads this, table
    {
      table.Length == 256 && (initialized ==> Built())
    }

    constructor (k: Kind)
      ensures Valid() && !initialized && kind == k && fresh(table)
    {
      kind := k;
      table := new nat[256];
      initialized := false;
    }

    method Init()
      requires Valid()
      modifies this, table
      ensures Valid() && initialized
    {
      hide Steps;
      var i := 0;
      while i < 256
        invariant 0 <= i <= 256
        invariant forall b: byte :: b < i ==> table[b] == Steps(kind, b, 8)
      {
        var crc := EightSteps(kind, i);
        table[i] := crc;
        i := i + 1;
      }
      initialized := true;
    }

    /** crc64_compute and crc32_compute: the result is the kernel's, whether or not the table has been
        built before the call. */
    method Compute(data: seq<byte>) returns (r: nat)
      requires Valid()
      modifies this, table
      ensures Valid() && initialized
      ensures r == Checksum(kind, data)
    {
      hide Xor, Steps;
      if !initialized {
        Init();
      }
      var crc: nat := Ones(kind);
      var i := 0;
      while i < |data|
        invariant 0 <= i <= |data|
        invariant Valid() && initialized
        invariant Run(kind, crc, data[i..]) == Run(kind, Ones(kind), data)
      {
        LookUp(kind, crc, data[i]);
        ghost var before := crc;
        crc := Xor(table[Xor(crc, data[i]) % 256], crc / 256);
        assert crc == ByteStep(kind, before, data[i]);
        assert data[i..][1..] == data[i + 1..];
        i := i + 1;
      }
      r := Xor(crc, Ones(kind));
    }
  }

  /** One table look-up does the work of the eight bit steps. */
  lemma LookUp(k: Kind, c: nat, b: byte)
    ensures ByteStep(k, c, b) == Xor(Steps(k, Xor(c, b) % 256, 8), c / 256)
  {
    hide Xor, Steps;
    TableSplit(k, Xor(c, b));
    HighBytes(c, b);
  }

  lemma HighBytes(c: nat, b: byte)
    ensures Xor(c, b) / 256 == c / 256
  {
    hide Xor;
    Quarter(c, b);
    Quarter(c / 4, b / 4);
    Quarter(c / 16, b / 16);
    Quarter(c / 64, b / 64);
    XorZero(c / 256);
    assert c / 4 / 4 == c / 16 && c / 16 / 4 == c / 64 && c / 64 / 4 == c / 256;
    assert b / 4 / 4 == b / 16 && b / 16 / 4 == b / 64 && b / 64 / 4 == 0;
  }

  lemma Quarter(a: nat, b: nat)
    ensures Xor(a, b) / 4 == Xor(a / 4, b / 4)
  {
    hide Xor;
    var x, y, z := a / 2, b / 2, Xor(a, b) / 2;
    XorHalf(a, b);
    XorHalf(x, y);
    assert z == Xor(x, y) && z / 2 == Xor(x / 2, y / 2);
    assert x / 2 == a / 4 && y / 2 == b / 4 && z / 2 == Xor(a, b) / 4;
  }
}
