/** The host side: apex_build_frame and apex_validate_frame. */
module Kernel {
  import opened Bitwise
  import opened Crc
  import opened CrcEngines
  import opened Frame

  datatype Option<+T> = None | Some(value: T)

  const EMSGSIZE := 90

  /** What apex_validate_frame returns for a buffer: the command and payload, or nothing for -EBADMSG. */
  function View(frame: seq<byte>): Option<Msg> {
    if |frame| < HDR_SIZE then None
    else if frame[0] != SYNC then None
    else if !HeaderCrcOk(frame[..16]) then None
    else if LengthField(frame) > MAX_PAYLOAD then None
    else if |frame| < HDR_SIZE + LengthField(frame) + CRC32_SIZE then None
    else
      var end := HDR_SIZE + LengthField(frame);
      if LengthField(frame) > 0 && !TrailerOk(frame[16..end], frame[end..end + 4]) then None
      else Some(Msg(frame[1], frame[16..end]))
  }

  /** The frame starts with a header for m, carrying any reserved bytes, then the payload and a trailer,
      which has to match unless the payload is empty. */
  predicate Carries(frame: seq<byte>, m: Msg, reserved: seq<byte>, trailer: seq<byte>) {
    && |reserved| == 4 && |trailer| == 4
    && |m.payload| <= MAX_PAYLOAD
    && (m.payload != [] ==> trailer == Trailer(m.payload))
    && Header(m.cmd, |m.payload|, reserved) + m.payload + trailer <= frame
  }

  /** The validator accepts exactly the buffers that start with a well-formed frame. */
  lemma AcceptsExactly(frame: seq<byte>, m: Msg)
    ensures View(frame) == Some(m) <==> exists reserved, trailer :: Carries(frame, m, reserved, trailer)
  {
    if View(frame) == Some(m) {
      AcceptedIsFrame(frame, m);
    }
    forall reserved, trailer | Carries(frame, m, reserved, trailer)
      ensures View(frame) == Some(m)
    {
      FrameIsAccepted(frame, m, reserved, trailer);
    }
  }

  lemma AcceptedIsFrame(frame: seq<byte>, m: Msg)
    requires View(frame) == Some(m)
    ensures |frame| >= HDR_SIZE + |m.payload| + CRC32_SIZE
    ensures Carries(frame, m, frame[4..8], frame[16 + |m.payload|..20 + |m.payload|])
  {
    hide Checksum, Message, Header;
    var h, end := frame[..16], 16 + |m.payload|;
    HeaderExact(h);
    assert h[4..8] == frame[4..8];
    assert h + m.payload + frame[end..end + 4] == frame[..end + 4];
    assert frame[..end + 4] <= frame;
    FieldHolds(Crc32, m.payload, frame[end..end + 4]);
  }

  lemma FrameIsAccepted(frame: seq<byte>, m: Msg, reserved: seq<byte>, trailer: seq<byte>)
    requires Carries(frame, m, reserved, trailer)
    ensures View(frame) == Some(m)
  {
    hide Checksum, Message, Header;
    var h, end := Header(m.cmd, |m.payload|, reserved), 16 + |m.payload|;
    HeaderParts(m.cmd, |m.payload|, reserved);
    var rest := frame[end + 4..];
    assert frame == h + m.payload + trailer + rest;
    Slices(h, m.payload, trailer, rest);
    assert frame[..16] == h && frame[16..end] == m.payload && frame[end..end + 4] == trailer;
    assert LengthField(frame) == LengthField(h) && frame[1] == h[1];
    FieldHolds(Crc32, m.payload, trailer);
  }

  /** What either builder emits is accepted, with anything behind it, and read back unchanged. */
  lemma BuiltIsAccepted(m: Msg, rest: seq<byte>)
    requires |m.payload| <= MAX_PAYLOAD
    ensures View(Encode(m) + rest) == Some(m)
  {
    assert Carries(Encode(m) + rest, m, NO_FLAGS, Trailer(m.payload));
    FrameIsAccepted(Encode(m) + rest, m, NO_FLAGS, Trailer(m.payload));
  }

  /** put_unaligned_le16, _le32 and _le64, and the firmware's write_le16, _le32 and _le64. */
  method PutLe(buf: array<byte>, off: nat, v: nat, n: nat)
    requires off + n <= buf.Length
    modifies buf
    ensures buf[..] == old(buf[..off]) + Le(v, n) + old(buf[off + n..])
  {
    var i, left := 0, v;
    while i < n
      invariant 0 <= i <= n
      invariant Le(v, n) == buf[off..off + i] + Le(left, n - i)
      invariant buf[..off] == old(buf[..off]) && buf[off + n..] == old(buf[off + n..])
    {
      ghost var done := buf[off..off + i];
      buf[off + i] := left % 256;
      assert buf[off..off + i + 1] == done + [left % 256];
      left := left / 256;
      i := i + 1;
    }
    assert buf[..] == buf[..off] + buf[off..off + n] + buf[off + n..];
  }

  /** apex_build_frame. A null payload with a nonzero length sends whatever the buffer holds there. */
  method BuildFrame(cmd: byte, payload: Option<seq<byte>>, payloadLen: nat, frameBuf: array<byte>) returns (ret: int)
    requires payloadLen < 0x1_0000
    requires payload.Some? ==> |payload.value| == payloadLen
    modifies frameBuf
    ensures payloadLen > MAX_PAYLOAD || HDR_SIZE + payloadLen + CRC32_SIZE > frameBuf.Length
            ==> ret == -90 && frameBuf[..] == old(frameBuf[..])
    ensures payloadLen <= MAX_PAYLOAD && HDR_SIZE + payloadLen + CRC32_SIZE <= frameBuf.Length
            ==> ret == HDR_SIZE + payloadLen + CRC32_SIZE
                && var sent := if payload.Some? then payload.value else old(frameBuf[16..16 + payloadLen]);
                   frameBuf[..] == Encode(Msg(cmd, sent)) + old(frameBuf[ret..])
  {
    hide Le, Checksum, Header;
    if payloadLen > MAX_PAYLOAD {
      return -EMSGSIZE;
    }
    var totalLen := HDR_SIZE + payloadLen + CRC32_SIZE;
    if totalLen > frameBuf.Length {
      return -EMSGSIZE;
    }
    ghost var sent := if payload.Some? then payload.value else frameBuf[16..16 + payloadLen];
    ghost var rest := frameBuf[totalLen..];
    ghost var was := frameBuf[..];
    PutHeader(cmd, payloadLen, frameBuf);
    SameBehind(frameBuf[..], was, 16, 16 + payloadLen, totalLen);
    if payloadLen > 0 && payload.Some? {
      ghost var headed := frameBuf[..];
      CopyIn(frameBuf, 16, payload.value);
      SameBehind(frameBuf[..], headed, 16 + payloadLen, 16 + payloadLen, totalLen);
    }
    assert frameBuf[16..16 + payloadLen] == sent && frameBuf[totalLen..] == rest;
    var crc32 := BitwiseCrc(Crc32, frameBuf[16..16 + payloadLen]);
    PutLe(frameBuf, 16 + payloadLen, crc32, 4);
    assert frameBuf[..16 + payloadLen] == frameBuf[..16] + sent;
    assert frameBuf[..] == frameBuf[..16 + payloadLen] + Trailer(sent) + rest;
    return totalLen;
  }

  lemma SameBehind(a: seq<byte>, b: seq<byte>, k: nat, i: nat, j: nat)
    requires |a| == |b| && k <= i <= j <= |a| && a[k..] == b[k..]
    ensures a[i..j] == b[i..j] && a[j..] == b[j..] && a[k..i] == b[k..i]
  {
    forall n | k <= n < |a| ensures a[n] == b[n] { assert a[n] == a[k..][n - k] && b[n] == b[k..][n - k]; }
  }

  /** The header part of both builders: sync, command, length, zero reserved word, CRC-64. */
  method PutHeader(cmd: byte, payloadLen: nat, buf: array<byte>)
    requires payloadLen < 0x1_0000 && buf.Length >= 16
    modifies buf
    ensures buf[..] == Header(cmd, payloadLen, NO_FLAGS) + old(buf[16..])
  {
    hide Le, Checksum;
    buf[0] := SYNC;
    buf[1] := cmd;
    PutLe(buf, 2, payloadLen, 2);
    PutLe(buf, 4, 0, 4);
    NoFlags();
    ghost var word := HeaderWord(cmd, payloadLen, NO_FLAGS);
    assert buf[..8] == word && buf[16..] == old(buf[16..]);
    var crc64 := BitwiseCrc(Crc64, buf[..8]);
    PutLe(buf, 8, crc64, 8);
    assert buf[..] == word + Le(crc64, 8) + old(buf[16..]);
  }

  /** memcpy of data to buf + off. */
  method CopyIn(buf: array<byte>, off: nat, data: seq<byte>)
    requires off + |data| <= buf.Length
    modifies buf
    ensures buf[..] == old(buf[..off]) + data + old(buf[off + |data|..])
  {
    forall i | 0 <= i < |data| {
      buf[off + i] := data[i];
    }
    assert forall i | 0 <= i < |data| :: buf[off + i] == data[i];
  }

  lemma NoFlags()
    ensures Le(0, 4) == NO_FLAGS
  {
    assert Le(0, 4) == [0] + Le(0, 3) && Le(0, 3) == [0] + Le(0, 2) && Le(0, 2) == [0] + Le(0, 1);
  }

  /** apex_validate_frame, with its output parameters as the message of the Some result. */
  method ValidateFrame(frame: seq<byte>) returns (r: Option<Msg>)
    ensures r == View(frame)
  {
    if |frame| < HDR_SIZE {
      return None;
    }
    if frame[0] != SYNC {
      return None;
    }
    assert frame[..16][..8] == frame[..8] && frame[..16][8..] == frame[8..16];
    var actual := BitwiseCrc(Crc64, frame[..8]);
    var expected := GetLe(frame[8..16]);
    if actual != expected {
      return None;
    }
    var len := GetLe(frame[2..4]);
    assert len == LengthField(frame) by {
      assert frame[2..4] == [frame[2], frame[3]] && frame[2..4][1..] == [frame[3]];
      assert Message([frame[3]]) == frame[3] + 256 * Message([]);
    }
    if len > MAX_PAYLOAD {
      return None;
    }
    if |frame| < HDR_SIZE + len + CRC32_SIZE {
      return None;
    }
    if len > 0 {
      actual := BitwiseCrc(Crc32, frame[16..16 + len]);
      expected := GetLe(frame[16 + len..20 + len]);
      if actual != expected {
        return None;
      }
    }
    return Some(Msg(frame[1], frame[16..16 + len]));
  }

  /** get_unaligned_le64 and its siblings, and the firmware's read_le64, most significant byte first. */
  method GetLe(field: seq<byte>) returns (v: nat)
    ensures v == Message(field)
  {
    v := 0;
    var i := |field|;
    while i > 0
      invariant 0 <= i <= |field|
      invariant v == Message(field[i..])
    {
      i := i - 1;
      v := v * 256 + field[i];
      assert field[i..][1..] == field[i + 1..];
    }
  }
}
