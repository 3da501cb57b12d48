/** The wire format: a 16-byte header with a CRC-64 over its first half, the payload, and a CRC-32. */
module Frame {
  import opened Bitwise
  import opened Crc

  const SYNC: byte := 0xAA
  const HDR_SIZE := 16
  const MAX_PAYLOAD := 4092
  const CRC32_SIZE := 4

  datatype Msg = Msg(cmd: byte, payload: seq<byte>)

  /** n bytes of v, least significant first. Crc.Message reads them back. */
  function Le(v: nat, n: nat): (s: seq<byte>)
    ensures |s| == n
    decreases n
  {
    if n == 0 then [] else [v % 256] + Le(v / 256, n - 1)
  }

  /** Bytes 0 to 7, the part of the header the CRC-64 covers. */
  function HeaderWord(cmd: byte, len: nat, reserved: seq<byte>): seq<byte> { [SYNC, cmd] + Le(len, 2) + reserved }

  function Header(cmd: byte, len: nat, reserved: seq<byte>): seq<byte> {
    HeaderWord(cmd, len, reserved) + Le(Checksum(Crc64, HeaderWord(cmd, len, reserved)), 8)
  }

  function Trailer(payload: seq<byte>): seq<byte> { Le(Checksum(Crc32, payload), 4) }

  const NO_FLAGS: seq<byte> := [0, 0, 0, 0]

  /** What the builders emit. */
  function Encode(m: Msg): seq<byte> {
    Header(m.cmd, |m.payload|, NO_FLAGS) + m.payload + Trailer(m.payload)
  }

  lemma EncodedSize(m: Msg)
    ensures |Encode(m)| == HDR_SIZE + |m.payload| + CRC32_SIZE
  {
  }

  // ----- what the receivers look at

  /** The length field of a header. */
  function LengthField(h: seq<byte>): nat
    requires |h| >= 4
  {
    var lo: nat, hi: nat := h[2], h[3];
    lo + 256 * hi
  }

  predicate HeaderCrcOk(h: seq<byte>)
    requires |h| == HDR_SIZE
  {
    Checksum(Crc64, h[..8]) == Message(h[8..])
  }

  predicate TrailerOk(payload: seq<byte>, t: seq<byte>) { Checksum(Crc32, payload) == Message(t) }

  // ----- taking a frame apart

  lemma Slices(a: seq<byte>, b: seq<byte>, c: seq<byte>, rest: seq<byte>)
    ensures var s, i, j := a + b + c + rest, |a| + |b|, |a| + |b| + |c|;
            s[..|a|] == a && s[|a|..i] == b && s[i..j] == c && s[j..] == rest
  {
  }

  // ----- little-endian fields

  lemma LeByte(v: nat, n: nat)
    requires n > 0
    ensures Le(v, n) == [v % 256] + Le(v / 256, n - 1)
  {
  }

  lemma {:induction false} ReadWrite(v: nat, n: nat)
    requires v < Shl(1, 8 * n)
    ensures Message(Le(v, n)) == v
    decreases n
  {
    if n > 0 {
      ShlBytes(1, 8 * (n - 1));
      ReadWrite(v / 256, n - 1);
    }
  }

  lemma SplitLow(low: byte, rest: nat)
    ensures (low + 256 * rest) % 256 == low && (low + 256 * rest) / 256 == rest
  {
  }

  lemma {:induction false} WriteRead(s: seq<byte>)
    ensures Le(Message(s), |s|) == s
  {
    if s != [] {
      var rest := Message(s[1..]);
      SplitLow(s[0], rest);
      WriteRead(s[1..]);
    }
  }

  /** A checksum field holds the checksum exactly when its bytes are the checksum's. */
  lemma FieldHolds(k: Kind, data: seq<byte>, field: seq<byte>)
    requires 8 * |field| == Size(k)
    ensures Checksum(k, data) == Message(field) <==> field == Le(Checksum(k, data), |field|)
  {
    ChecksumFits(k, data);
    PolyTop(k);
    WriteRead(field);
    ReadWrite(Checksum(k, data), |field|);
  }

  lemma LengthRoundTrip(len: nat)
    requires len < 0x1_0000
    ensures Le(len, 2) == [len % 256, len / 256]
  {
    assert Le(len, 2) == [len % 256] + Le(len / 256, 1);
    assert Le(len / 256, 1) == [len / 256 % 256] + Le(len / 256 / 256, 0);
  }

  /** A header passes the sync and CRC-64 tests exactly when it is one Header builds, from the command,
      length and reserved bytes found in it. */
  lemma HeaderExact(h: seq<byte>)
    requires |h| == HDR_SIZE
    ensures h[0] == SYNC && HeaderCrcOk(h) <==> h == Header(h[1], LengthField(h), h[4..8])
  {
    var word := HeaderWord(h[1], LengthField(h), h[4..8]);
    LengthRoundTrip(LengthField(h));
    FieldHolds(Crc64, h[..8], h[8..]);
    assert h == h[..8] + h[8..];
    assert |word| == 8 && word[1..] == h[1..8];
    if h[0] == SYNC && HeaderCrcOk(h) {
      assert h[..8] == word;
    }
    if h == Header(h[1], LengthField(h), h[4..8]) {
      assert h[..8] == word && h[8..] == Le(Checksum(Crc64, word), 8);
    }
  }

  lemma HeaderParts(cmd: byte, len: nat, reserved: seq<byte>)
    requires len < 0x1_0000 && |reserved| == 4
    ensures var h := Header(cmd, len, reserved);
            && |h| == HDR_SIZE && h[0] == SYNC && h[1] == cmd
            && LengthField(h) == len && h[4..8] == reserved && HeaderCrcOk(h)
  {
    var h := Header(cmd, len, reserved);
    LengthRoundTrip(len);
    assert h[..8] == HeaderWord(cmd, len, reserved);
    assert h[4..8] == reserved;
    assert LengthField(h) == len;
    HeaderExact(h);
  }

  // ----- what the checksums protect

  /** Header bytes 0 to 7 cannot change in any way under an intact CRC-64 field: two headers that both
      pass the receivers' tests and share bytes 8 to 15 are the same header. */
  lemma HeaderCorruptionRejected(h: seq<byte>, g: seq<byte>)
    requires |h| == |g| == HDR_SIZE
    requires h[8..] == g[8..]
    requires h[0] == g[0] == SYNC && HeaderCrcOk(h) && HeaderCrcOk(g)
    ensures h == g
  {
    assert h[..8] == [SYNC] + h[1..8] + [] && g[..8] == [SYNC] + g[1..8] + [];
    StretchDetected(Crc64, [SYNC], h[1..8], g[1..8], []);
    assert h == h[..8] + h[8..] && g == g[..8] + g[8..];
  }

  /** Changing up to four consecutive payload bytes under an intact trailer is always noticed. */
  lemma PayloadCorruptionRejected(pre: seq<byte>, u: seq<byte>, v: seq<byte>, post: seq<byte>, t: seq<byte>)
    requires |u| == |v| <= 4 && u != v
    requires TrailerOk(pre + u + post, t)
    ensures !TrailerOk(pre + v + post, t)
  {
    StretchDetected(Crc32, pre, u, v, post);
  }
}
