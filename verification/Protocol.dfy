/** spi_protocol.c's receive side as an object: rx_ctx, the CRC tables, and the loop that drains the ring. */
module Protocol {
  import opened Bitwise
  import opened Crc
  import opened CrcEngines
  import opened Frame
  import opened Kernel
  import A = Assembler
  import B = ByteRing
  import R = RxRing

  datatype State = IDLE | HEADER | PAYLOAD | CRC32 | COMPLETE | ERROR

  /** The frame counters of rx_ctx, on 32 bits. */
  datatype Counters = Counters(received: nat, crcError: nat, syncError: nat, dispatched: nat)

  function Count(c: Counters, o: A.Outcome): Counters {
    match o
    case Quiet => c
    case SyncRejected => c.(syncError := Inc(c.syncError))
    case HeaderRejected => c.(crcError := Inc(c.crcError))
    case LengthRejected => c.(crcError := Inc(c.crcError))
    case PayloadRejected => c.(received := Inc(c.received), crcError := Inc(c.crcError))
    case Dispatched(_) => c.(received := Inc(c.received), dispatched := Inc(c.dispatched))
  }

  function CountAll(c: Counters, log: seq<A.Outcome>): Counters
    decreases |log|
  {
    if log == [] then c else CountAll(Count(c, log[0]), log[1..])
  }

  function Messages(log: seq<A.Outcome>): seq<Msg> {
    if log == [] then [] else (if log[0].Dispatched? then [log[0].m] else []) + Messages(log[1..])
  }

  class Link {
    var state: State
    const hdrBuf: array<byte>
    const payloadBuf: array<byte>
    const crcBuf: array<byte>
    var hdrIdx: nat
    var payloadIdx: nat
    var crcIdx: nat
    var expectedLen: nat
    var counters: Counters
    /** The calls dispatch_frame has made to the command handlers. */
    var handled: seq<Msg>
    const crc64: CrcTable
    const crc32: CrcTable

    ghost predicate Shape()
      reads this, crc64, crc32, crc64.table, crc32.table
    {
      && hdrBuf.Length == HDR_SIZE && payloadBuf.Length == MAX_PAYLOAD && crcBuf.Length == CRC32_SIZE
      && hdrBuf != payloadBuf && hdrBuf != crcBuf && payloadBuf != crcBuf
      && crc64.kind == Crc64 && crc32.kind == Crc32 && crc64.Valid() && crc32.Valid()
      && crc64 != crc32 && crc64.table != crc32.table
      && crc64.table as object !in {hdrBuf, payloadBuf, crcBuf}
      && crc32.table as object !in {hdrBuf, payloadBuf, crcBuf}
    }

    ghost predicate Valid()
      reads this, hdrBuf, payloadBuf, crcBuf, crc64, crc32, crc64.table, crc32.table
    {
      && Shape()
      && match state
         case HEADER => 1 <= hdrIdx < HDR_SIZE
         case PAYLOAD => payloadIdx < expectedLen == LengthField(hdrBuf[..]) <= MAX_PAYLOAD
         case CRC32 => crcIdx < CRC32_SIZE && expectedLen == LengthField(hdrBuf[..]) <= MAX_PAYLOAD
         case _ => true
    }

    ghost function Abs(): (rx: A.Rx)
      reads this, hdrBuf, payloadBuf, crcBuf, crc64, crc32, crc64.table, crc32.table
      requires Valid()
      ensures A.InBounds(rx)
    {
      match state
      case IDLE => A.Idle
      case HEADER => A.Hdr(hdrBuf[..hdrIdx])
      case PAYLOAD => A.Pay(hdrBuf[..], payloadBuf[..payloadIdx])
      case CRC32 => A.Trl(hdrBuf[..], payloadBuf[..expectedLen], crcBuf[..crcIdx])
      case COMPLETE => A.Stray
      case ERROR => A.Stray
    }

    /** spi_protocol_init, as far as the receive side goes: both tables are built first. */
    constructor ()
      ensures crc64.initialized && crc32.initialized
      ensures Valid() && Abs() == A.Idle && handled == [] && counters == Counters(0, 0, 0, 0)
      ensures fresh(hdrBuf) && fresh(payloadBuf) && fresh(crcBuf)
      ensures fresh(crc64) && fresh(crc32) && fresh(crc64.table) && fresh(crc32.table)
    {
      hdrBuf := new byte[HDR_SIZE](_ => 0);
      payloadBuf := new byte[MAX_PAYLOAD](_ => 0);
      crcBuf := new byte[CRC32_SIZE](_ => 0);
      crc64 := new CrcTable(Crc64);
      crc32 := new CrcTable(Crc32);
      state, hdrIdx, payloadIdx, crcIdx, expectedLen := IDLE, 0, 0, 0, 0;
      counters, handled := Counters(0, 0, 0, 0), [];
      new;
      crc64.Init();
      crc32.Init();
    }

    /** validate_frame_header and the length test after it, on a full header. */
    method HeaderDone()
      requires Shape()
      modifies this, crc64, crc64.table
      ensures Valid() && handled == old(handled)
      ensures Abs() == A.EndOfHeader(hdrBuf[..]).0
      ensures counters == Count(old(counters), A.EndOfHeader(hdrBuf[..]).1)
    {
      hide Checksum, Message, Inc;
      state := IDLE;
      if hdrBuf[0] != SYNC {
        counters := counters.(syncError := Inc(counters.syncError));
        return;
      }
      if hdrBuf[4..8] != NO_FLAGS {
        assert hdrBuf[..][4..8] == hdrBuf[4..8];
        counters := counters.(crcError := Inc(counters.crcError));
        return;
      }
      assert hdrBuf[..][4..8] == hdrBuf[4..8] && hdrBuf[..][..8] == hdrBuf[..8] && hdrBuf[..][8..] == hdrBuf[8..];
      var expected := GetLe(hdrBuf[8..]);
      var actual := crc64.Compute(hdrBuf[..8]);
      if expected != actual {
        counters := counters.(crcError := Inc(counters.crcError));
        return;
      }
      expectedLen := LengthField(hdrBuf[..]);
      if expectedLen > MAX_PAYLOAD {
        counters := counters.(crcError := Inc(counters.crcError));
        return;
      }
      if expectedLen > 0 {
        payloadIdx := 0;
        state := PAYLOAD;
        assert payloadBuf[..payloadIdx] == [];
      } else {
        crcIdx := 0;
        state := CRC32;
        assert payloadBuf[..expectedLen] == [] && crcBuf[..crcIdx] == [];
      }
    }

    /** validate_frame_payload and dispatch_frame, on a full trailer. */
    method FrameDone() returns (processed: bool)
      requires Shape() && expectedLen == LengthField(hdrBuf[..]) <= MAX_PAYLOAD
      modifies this, payloadBuf, crc32, crc32.table
      ensures Valid() && Abs() == A.Idle
      ensures var o := A.EndOfFrame(hdrBuf[..], old(payloadBuf[..expectedLen]), crcBuf[..]);
              && counters == Count(old(counters), o)
              && processed == o.Dispatched?
              && handled == old(handled) + (if o.Dispatched? then [o.m] else [])
              && (o.Dispatched? ==> forall i | 0 <= i < old(expectedLen) :: payloadBuf[i] == 0)
    {
      hide Checksum, Message, Inc;
      ghost var h, p, t := hdrBuf[..], payloadBuf[..expectedLen], crcBuf[..];
      state := IDLE;
      counters := counters.(received := Inc(counters.received));
      if expectedLen != 0 {
        var expected := GetLe(crcBuf[..]);
        var actual := crc32.Compute(payloadBuf[..expectedLen]);
        if expected != actual {
          counters := counters.(crcError := Inc(counters.crcError));
          return false;
        }
      }
      assert A.EndOfFrame(h, p, t) == A.Dispatched(Msg(hdrBuf[1], p));
      counters := counters.(dispatched := Inc(counters.dispatched));
      handled := handled + [Msg(hdrBuf[1], payloadBuf[..expectedLen])];
      forall i | 0 <= i < expectedLen {
        payloadBuf[i] := 0;
      }
      assert hdrBuf[..] == h && crcBuf[..] == t;
      return true;
    }

    /** The HEADER case of the switch in spi_protocol_process. */
    method TakeHeader(b: byte)
      requires Valid() && state == HEADER
      modifies this, hdrBuf, crc64, crc64.table
      ensures Valid() && handled == old(handled)
      ensures Abs() == A.Feed(old(Abs()), b).0
      ensures counters == Count(old(counters), A.Feed(old(Abs()), b).1) && !A.Feed(old(Abs()), b).1.Dispatched?
    {
      hide HeaderCrcOk, Inc;
      ghost var h := hdrBuf[..hdrIdx];
      hdrBuf[hdrIdx] := b;
      hdrIdx := hdrIdx + 1;
      assert hdrBuf[..hdrIdx] == h + [b];
      if hdrIdx >= HDR_SIZE {
        assert hdrBuf[..] == h + [b];
        HeaderDone();
      }
    }

    /** The PAYLOAD case. */
    method TakePayload(b: byte)
      requires Valid() && state == PAYLOAD
      modifies this, payloadBuf
      ensures Valid() && handled == old(handled) && counters == old(counters)
      ensures A.Feed(old(Abs()), b) == (Abs(), A.Quiet)
    {
      ghost var p := payloadBuf[..payloadIdx];
      payloadBuf[payloadIdx] := b;
      payloadIdx := payloadIdx + 1;
      assert payloadBuf[..payloadIdx] == p + [b];
      if payloadIdx >= expectedLen {
        crcIdx := 0;
        state := CRC32;
        assert crcBuf[..crcIdx] == [];
      }
    }

    /** The CRC32 case. */
    method TakeTrailer(b: byte) returns (processed: bool)
      requires Valid() && state == CRC32
      modifies this, payloadBuf, crcBuf, crc32, crc32.table
      ensures Valid()
      ensures Abs() == A.Feed(old(Abs()), b).0
      ensures Recorded(old(counters), old(handled), A.Feed(old(Abs()), b).1, processed)
    {
      hide TrailerOk, Inc, A.EndOfFrame;
      processed := false;
      ghost var t := crcBuf[..crcIdx];
      crcBuf[crcIdx] := b;
      crcIdx := crcIdx + 1;
      assert crcBuf[..crcIdx] == t + [b];
      if crcIdx >= CRC32_SIZE {
        assert crcBuf[..] == t + [b];
        processed := FrameDone();
      }
    }

    /** The counters and the handler calls one byte leaves behind, given what it was the end of. */
    ghost predicate Recorded(counted: Counters, before: seq<Msg>, o: A.Outcome, processed: bool)
      reads this
    {
      counters == Count(counted, o) && processed == o.Dispatched?
      && handled == if o.Dispatched? then before + [o.m] else before
    }

    /** The switch of spi_protocol_process on one byte. */
    method Take(b: byte) returns (processed: bool)
      requires Valid()
      modifies this, hdrBuf, payloadBuf, crcBuf, crc64, crc32, crc64.table, crc32.table
      ensures Valid()
      ensures Abs() == A.Feed(old(Abs()), b).0
      ensures Recorded(old(counters), old(handled), A.Feed(old(Abs()), b).1, processed)
    {
      hide A.EndOfHeader, A.EndOfFrame, Inc;
      processed := false;
      match state {
        case IDLE =>
          if b == SYNC {
            hdrBuf[0] := b;
            hdrIdx := 1;
            state := HEADER;
            assert hdrBuf[..1] == [b];
          }
        case HEADER => TakeHeader(b);
        case PAYLOAD => TakePayload(b);
        case CRC32 => processed := TakeTrailer(b);
        case COMPLETE => state := IDLE;
        case ERROR => state := IDLE;
      }
    }

    ghost predicate Apart(ring: R.Ring)
      reads this
    {
      ring.buf !in {hdrBuf, payloadBuf, crcBuf} && ring.buf as object !in {crc64.table, crc32.table}
    }

    /** One turn of the loop in spi_protocol_process: take a byte off the ring and through the switch. */
    method TakeNext(ring: R.Ring) returns (processed: bool)
      requires Valid() && ring.Valid() && Apart(ring) && ring.head != ring.tail
      modifies this, hdrBuf, payloadBuf, crcBuf, crc64, crc32, crc64.table, crc32.table, ring`tail
      ensures Valid() && ring.Valid()
      ensures ring.Contents() == old(ring.Contents())[1..]
      ensures B.Used(ring.head, ring.tail, R.SIZE) < old(B.Used(ring.head, ring.tail, R.SIZE))
      ensures Abs() == A.Feed(old(Abs()), old(ring.Contents())[0]).0
      ensures Recorded(old(counters), old(handled), A.Feed(old(Abs()), old(ring.Contents())[0]).1, processed)
    {
      hide A.Feed, Count, B.Slot, B.Queued;
      B.Consume(ring.buf[..], ring.head, ring.tail);
      B.UsedMoves(ring.head, ring.tail, R.SIZE);
      var b := ring.buf[ring.tail];
      B.IndicesAreModulo(ring.tail + 1, ring.head, ring.tail, R.SIZE);
      ring.tail := (ring.tail + 1) % R.SIZE;
      processed := Take(b);
    }

    /** spi_protocol_process with the ring it drains. */
    method Process(ring: R.Ring) returns (framesProcessed: nat)
      requires Valid() && ring.Valid() && Apart(ring)
      modifies this, hdrBuf, payloadBuf, crcBuf, crc64, crc32, crc64.table, crc32.table, ring`tail
      ensures Valid() && ring.Valid() && ring.Contents() == []
      ensures var (rx, log) := A.FeedAll(old(Abs()), old(ring.Contents()));
              && Abs() == rx
              && counters == CountAll(old(counters), log)
              && framesProcessed == A.Dispatches(log)
              && handled == old(handled) + Messages(log)
    {
      hide A.Feed, Count, B.Slot, B.Queued;
      framesProcessed := 0;
      ghost var (rx, log) := A.FeedAll(Abs(), ring.Contents());
      while ring.head != ring.tail
        invariant Valid() && ring.Valid()
        invariant Rest(Abs(), ring.Contents(), counters, handled, framesProcessed)
               == Rest(old(Abs()), old(ring.Contents()), old(counters), old(handled), 0)
        decreases B.Used(ring.head, ring.tail, R.SIZE)
      {
        ghost var was, q, counted, before, n := Abs(), ring.Contents(), counters, handled, framesProcessed;
        var processed := TakeNext(ring);
        if processed {
          framesProcessed := framesProcessed + 1;
        }
        RestStep(was, q, counted, before, n);
      }
      RestDone(Abs(), counters, handled, framesProcessed);
    }
  }

  /** What draining the bytes q will lead to: the final state, counters, handler calls and frame count. */
  function Rest(rx: A.Rx, q: seq<byte>, c: Counters, done: seq<Msg>, n: nat): (A.Rx, Counters, seq<Msg>, nat)
    requires A.InBounds(rx)
  {
    var (last, log) := A.FeedAll(rx, q);
    (last, CountAll(c, log), done + Messages(log), n + A.Dispatches(log))
  }

  lemma RestDone(rx: A.Rx, c: Counters, done: seq<Msg>, n: nat)
    requires A.InBounds(rx)
    ensures Rest(rx, [], c, done, n) == (rx, c, done, n)
  {
    assert done + [] == done;
  }

  lemma RestStep(rx: A.Rx, q: seq<byte>, c: Counters, done: seq<Msg>, n: nat)
    requires A.InBounds(rx) && q != []
    ensures var (next, o) := A.Feed(rx, q[0]);
            Rest(rx, q, c, done, n)
            == Rest(next, q[1..], Count(c, o),
                    if o.Dispatched? then done + [o.m] else done, if o.Dispatched? then n + 1 else n)
  {
    hide A.Feed, Count, Messages, A.Dispatches;
    var (next, o) := A.Feed(rx, q[0]);
    var log := A.FeedAll(next, q[1..]).1;
    NoteLog(c, o, log);
    if o.Dispatched? { assert done + ([o.m] + Messages(log)) == (done + [o.m]) + Messages(log); }
  }

  lemma NoteLog(c: Counters, o: A.Outcome, log: seq<A.Outcome>)
    ensures CountAll(c, A.Note(o) + log) == CountAll(Count(c, o), log)
    ensures Messages(A.Note(o) + log) == if o.Dispatched? then [o.m] + Messages(log) else Messages(log)
    ensures A.Dispatches(A.Note(o) + log) == A.Dispatches(log) + if o.Dispatched? then 1 else 0
  {
    if o == A.Quiet {
      assert A.Note(o) + log == log;
    } else {
      assert ([o] + log)[1..] == log;
      if !o.Dispatched? { assert [] + Messages(log) == Messages(log); }
    }
  }

  function Payloads(items: seq<A.Item>): seq<Msg> {
    if items == [] then [] else [items[0].m] + Payloads(items[1..])
  }

  /** With Assembler.StreamRoundTrip: one call of Process by an idle link, on a ring holding frames from the
      host's builder and noise between them, hands every message to the handlers once and in order, and
      returns their number. */
  lemma {:induction false} DeliveriesHandled(items: seq<A.Item>)
    ensures Messages(A.Deliveries(items)) == Payloads(items)
    ensures A.Dispatches(A.Deliveries(items)) == |items|
  {
    if items != [] {
      assert A.Deliveries(items) == [A.Dispatched(items[0].m)] + A.Deliveries(items[1..]);
      DeliveriesHandled(items[1..]);
    }
  }

  function PayloadRejects(log: seq<A.Outcome>): nat {
    if log == [] then 0 else (if log[0].PayloadRejected? then 1 else 0) + PayloadRejects(log[1..])
  }

  lemma {:induction false} CountersFrom(r: nat, e: nat, d: nat, log: seq<A.Outcome>)
    requires A.SyncRejected !in log && A.Quiet !in log
    ensures A.Dispatches(log) <= |log|
    ensures CountAll(Counters(Word(r), Word(e), 0, Word(d)), log)
         == Counters(Word(r + A.Dispatches(log) + PayloadRejects(log)),
                     Word(e + |log| - A.Dispatches(log)), 0, Word(d + A.Dispatches(log)))
    decreases |log|
  {
    hide Word, Inc;
    if log != [] {
      IncWord(r);
      IncWord(e);
      IncWord(d);
      var o := log[0];
      CountersFrom(if o.Dispatched? || o.PayloadRejected? then r + 1 else r, if o.Dispatched? then e else e + 1,
                   if o.Dispatched? then d + 1 else d, log[1..]);
    }
  }

  lemma {:induction false} NothingQuietLogged(rx: A.Rx, s: seq<byte>)
    requires A.InBounds(rx)
    ensures A.Quiet !in A.FeedAll(rx, s).1
    decreases |s|
  {
    hide A.Feed, A.InBounds;
    if s != [] { NothingQuietLogged(A.Feed(rx, s[0]).0, s[1..]); }
  }

  /** After any byte stream from initialisation, on 32-bit counters: a frame is received if it came to its
      trailer, that is if it was dispatched or its payload CRC was wrong; every other end of a frame, and
      that one too, is a CRC error, even a bad length; and the sync error counter is still zero. */
  lemma CountersExactly(s: seq<byte>)
    ensures var log := A.FeedAll(A.Idle, s).1;
            A.Dispatches(log) <= |log|
            && CountAll(Counters(0, 0, 0, 0), log)
               == Counters(Word(A.Dispatches(log) + PayloadRejects(log)),
                           Word(|log| - A.Dispatches(log)), 0, Word(A.Dispatches(log)))
  {
    A.RunsStayReachable(A.Idle, s);
    NothingQuietLogged(A.Idle, s);
    CountersFrom(0, 0, 0, A.FeedAll(A.Idle, s).1);
  }
}
