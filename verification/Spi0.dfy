/** spi0_isr.c as an object: the static spi0_rx and spi0_stats, updated in place. */
module Spi0 {
  import opened Bitwise
  import opened Crc
  import opened CrcEngines
  import opened Frame
  import opened Isr
  import opened Kernel

  class Receiver {
    const buf: array<byte>
    var pos: nat
    var state: State
    var payloadLen: nat
    var frameReady: bool
    var stats: Stats
    const crc64: CrcTable
    const crc32: CrcTable

    ghost predicate Valid()
      reads this, buf, crc64, crc32, crc64.table, crc32.table
    {
      && buf.Length == BUF_SIZE && pos <= BUF_SIZE && payloadLen <= 0xFFFF
      && crc64.kind == Crc64 && crc32.kind == Crc32
      && crc64.Valid() && crc32.Valid()
      && crc64 != crc32 && crc64.table != crc32.table
      && buf as object != crc64.table && buf as object != crc32.table
    }

    function Abs(): (rx: Rx)
      reads this, buf
    {
      Rx(buf[..], pos, state, payloadLen, frameReady)
    }

    constructor ()
      ensures Valid() && fresh(buf) && fresh(crc64) && fresh(crc32) && fresh(crc64.table) && fresh(crc32.table)
      ensures Abs() == FRESH && stats == NO_STATS
    {
      crc64 := new CrcTable(Crc64);
      crc32 := new CrcTable(Crc32);
      buf := new byte[BUF_SIZE](_ => 0);
      pos, state, payloadLen, frameReady, stats := 0, IDLE, 0, false, NO_STATS;
      new;
      ZerosAre(buf[..]);
    }

    /** The end of the header: check its CRC-64 and length. */
    method HeaderDone()
      requires Valid() && pos == HDR_SIZE
      modifies this, crc64, crc64.table
      ensures Valid()
      ensures Abs() == EndOfHeader(old(Abs())).0
      ensures stats == Count(old(stats), EndOfHeader(old(Abs())).1)
    {
      hide Checksum, Message, Inc;
      ghost var h := buf[..16];
      assert h[..8] == buf[..8] && h[8..] == buf[8..16];
      var computed := crc64.Compute(buf[..8]);
      var expected := GetLe(buf[8..16]);
      if computed != expected {
        stats := stats.(hdrCrc := Inc(stats.hdrCrc));
        state := ERROR;
        return;
      }
      payloadLen := LengthField(buf[..]);
      if payloadLen > MAX_PAYLOAD {
        stats := stats.(len := Inc(stats.len));
        state := ERROR;
        return;
      }
      state := PAYLOAD;
    }

    /** The end of the frame: check the payload's CRC-32. */
    method FrameDone()
      requires Valid() && pos == HDR_SIZE + payloadLen + CRC32_SIZE
      modifies this, crc32, crc32.table
      ensures Valid()
      ensures Abs() == EndOfFrame(old(Abs())).0
      ensures stats == Count(old(stats), EndOfFrame(old(Abs())).1)
    {
      hide Checksum, Message, Inc;
      var offset := HDR_SIZE + payloadLen;
      assert buf[..][16..offset] == buf[16..offset] && buf[..][offset..pos] == buf[offset..pos];
      var computed := crc32.Compute(buf[16..offset]);
      var expected := GetLe(buf[offset..offset + 4]);
      if computed == expected {
        stats := stats.(validated := Inc(stats.validated), received := Inc(stats.received));
        state := COMPLETE;
        frameReady := true;
      } else {
        stats := stats.(payCrc := Inc(stats.payCrc));
        state := ERROR;
      }
    }

    /** spi0_process_byte. */
    method ProcessByte(b: byte)
      requires Valid()
      modifies this, buf, crc64, crc32, crc64.table, crc32.table
      ensures Valid()
      ensures Abs() == OnByte(old(Abs()), b).0
      ensures stats == Tally(old(stats), OnByte(old(Abs()), b).1)
    {
      hide HeaderCrcOk, TrailerOk, Inc, Isr.EndOfHeader, Isr.EndOfFrame;
      ghost var was := Abs();
      stats := stats.(bytes := Inc(stats.bytes));
      match state {
        case IDLE =>
          if b == SYNC {
            buf[0] := b;
            pos := 1;
            state := HEADER;
            assert buf[..] == was.buf[0 := b];
          } else {
            stats := stats.(sync := Inc(stats.sync));
          }
        case HEADER =>
          if pos < HDR_SIZE {
            buf[pos] := b;
            pos := pos + 1;
            assert buf[..] == was.buf[was.pos := b];
            if pos == HDR_SIZE {
              HeaderDone();
            } else {
              MidFrame(Abs());
            }
          }
        case PAYLOAD =>
          if pos < HDR_SIZE + payloadLen + CRC32_SIZE && pos < BUF_SIZE {
            buf[pos] := b;
            pos := pos + 1;
            assert buf[..] == was.buf[was.pos := b];
            if pos == HDR_SIZE + payloadLen + CRC32_SIZE {
              FrameDone();
            } else {
              MidFrame(Abs());
            }
          } else {
            state := ERROR;
          }
        case COMPLETE =>
          stats := stats.(overflows := Inc(stats.overflows));
        case ERROR =>
          if b == SYNC {
            buf[0] := b;
            pos := 1;
            state := HEADER;
            assert buf[..] == was.buf[0 := b];
          }
      }
    }

    /** spi0_rx_get_frame: the returned bytes are those buf and len point at. */
    method GetFrame() returns (frame: Option<seq<byte>>)
      requires Valid()
      ensures frame == if frameReady then Some(buf[..pos]) else None
      ensures Isr.Reachable(Abs()) && frame.Some? ==> ValidFrame(frame.value)
    {
      if !frameReady {
        return None;
      }
      return Some(buf[..pos]);
    }

    /** spi0_rx_release_frame, not interrupted. Handoff interleaves its stores with interrupts. */
    method ReleaseFrame()
      requires Valid()
      modifies this, buf
      ensures Valid() && stats == old(stats)
      ensures forall i | 0 <= i < old(pos) :: buf[i] == 0
      ensures forall i | old(pos) <= i < buf.Length :: buf[i] == old(buf[i])
      ensures pos == payloadLen == 0 && !frameReady && state == IDLE
      ensures Abs() == Release(old(Abs()))
    {
      ReleaseWipes(Abs());
      var i := 0;
      while i < pos
        invariant 0 <= i <= pos
        invariant forall j | 0 <= j < i :: buf[j] == 0
        invariant buf[i..] == old(buf[i..])
        modifies buf
      {
        buf[i] := 0;
        i := i + 1;
      }
      assert buf[..] == Release(old(Abs())).buf;
      frameReady := false;
      pos := 0;
      payloadLen := 0;
      state := IDLE;
    }
  }
}
