/** The response ring of spi_protocol.c: build_response_frame on one side, a reader that advances tx_tail on
    the other. As an object, and as a machine that interleaves the loads and stores of both sides. */
module TxRing {
  import opened Bitwise
  import opened ByteRing
  import opened Crc
  import opened CrcEngines
  import opened Frame
  import opened Kernel

  const SIZE := 4096

  type index = x: int | 0 <= x < SIZE

  /** All frames queued so far, end to end. */
  function Stream(sent: seq<Msg>): seq<byte> {
    if sent == [] then [] else Stream(sent[..|sent| - 1]) + Encode(sent[|sent| - 1])
  }

  lemma StreamSnoc(sent: seq<Msg>, m: Msg)
    ensures Stream(sent + [m]) == Stream(sent) + Encode(m)
  {
    assert (sent + [m])[..|sent|] == sent;
  }

  lemma AppendedIsAccepted(before: seq<byte>, m: Msg)
    requires |m.payload| <= MAX_PAYLOAD
    ensures View((before + Encode(m))[|before|..]) == Some(m)
  {
    hide View, Encode;
    BuiltIsAccepted(m, []);
    assert (before + Encode(m))[|before|..] == Encode(m) + [];
  }

  lemma DropAppend(a: seq<byte>, b: seq<byte>, n: nat)
    requires n <= |a|
    ensures (a + b)[n..] == a[n..] + b
  {
  }

  lemma DropDrop(a: seq<byte>, m: nat, n: nat)
    requires m + n <= |a|
    ensures a[m..][n..] == a[m + n..]
  {
  }

  class Ring {
    const buf: array<byte>
    var head: index
    var tail: index
    var overruns: nat
    const crc64: CrcTable
    const crc32: CrcTable
    /** Histories: the messages queued, and how many bytes the reader has taken. */
    ghost var sent: seq<Msg>
    ghost var read: nat

    ghost predicate Shape()
      reads this, crc64, crc32, crc64.table, crc32.table
    {
      && buf.Length == SIZE
      && crc64.kind == Crc64 && crc32.kind == Crc32 && crc64.Valid() && crc32.Valid()
      && crc64 != crc32 && crc64.table != crc32.table
      && buf as object !in {crc64.table, crc32.table}
    }

    function Unread(): seq<byte>
      reads this, buf
      requires buf.Length == SIZE
    {
      Queued(buf[..], head, tail)
    }

    /** The ring holds exactly the frames queued so far, less what has been read. */
    ghost predicate Valid()
      reads this, buf, crc64, crc32, crc64.table, crc32.table
    {
      && Shape()
      && read <= |Stream(sent)| && Unread() == Stream(sent)[read..]
      && forall i | 0 <= i < |sent| :: |sent[i].payload| <= SIZE - 1 - HDR_SIZE - CRC32_SIZE
    }

    constructor ()
      ensures Valid() && sent == [] && read == 0 && overruns == 0
      ensures fresh(buf) && fresh(crc64) && fresh(crc32) && fresh(crc64.table) && fresh(crc32.table)
    {
      buf := new byte[SIZE];
      crc64 := new CrcTable(Crc64);
      crc32 := new CrcTable(Crc32);
      head, tail, overruns, sent, read := 0, 0, 0, [], 0;
    }

    /** The copy loop at the end of build_response_frame. */
    method Copy(frame: seq<byte>)
      requires Shape() && Used(head, tail, SIZE) + |frame| <= SIZE - 1
      modifies this`head, buf
      ensures Unread() == old(Unread()) + frame
    {
      hide Slot, Queued;
      var i := 0;
      while i < |frame|
        invariant 0 <= i <= |frame|
        invariant Unread() == old(Unread()) + frame[..i]
      {
        ghost var was, from := buf[..], head;
        StoreUnseen(was, from, tail, frame[i]);
        Publish(was[from := frame[i]], from, tail);
        buf[head] := frame[i];
        IndicesAreModulo(head + 1, head, tail, SIZE);
        head := (head + 1) % SIZE;
        assert buf[..] == was[from := frame[i]];
        assert frame[..i + 1] == frame[..i] + [frame[i]];
        i := i + 1;
      }
      assert frame[..|frame|] == frame;
    }

    /** build_response_frame. Whole frames or nothing. The frame is put together in a buffer on the stack; a
        null payload with a nonzero length sends whatever that held after the header. */
    method BuildResponseFrame(cmd: byte, payload: Option<seq<byte>>, payloadLen: nat, stack: seq<byte>)
      returns (ret: int)
      requires Valid() && payloadLen < 0x1_0000 && |stack| == MAX_PAYLOAD
      requires payload.Some? ==> |payload.value| == payloadLen
      modifies this, buf, crc64, crc32, crc64.table, crc32.table
      ensures Valid() && read == old(read) && tail == old(tail)
      ensures ret == 0 || ret == -1
      ensures ret == 0 <==> HDR_SIZE + payloadLen + CRC32_SIZE <= SIZE - 1 - |old(Unread())|
      ensures ret == 0 ==> overruns == old(overruns) && |sent| == |old(sent)| + 1 && sent[..|old(sent)|] == old(sent)
      ensures ret == 0 && payload.Some? ==>
                && sent == old(sent) + [Msg(cmd, payload.value)]
                && Unread() == old(Unread()) + Encode(Msg(cmd, payload.value))
                && View(Unread()[|old(Unread())|..]) == Some(Msg(cmd, payload.value))
      ensures ret == 0 && payload.None? ==>
                && sent == old(sent) + [Msg(cmd, stack[..payloadLen])]
                && Unread() == old(Unread()) + Encode(Msg(cmd, stack[..payloadLen]))
      ensures ret == -1 ==>
                && sent == old(sent) && head == old(head) && buf[..] == old(buf[..])
                && overruns == if payloadLen > MAX_PAYLOAD then old(overruns) else Inc(old(overruns))
    {
      hide Inc, Checksum, Queued, Stream, Encode, Slot, View;
      if payloadLen > MAX_PAYLOAD {
        return -1;
      }
      var body := if payloadLen > 0 && payload.Some? then payload.value else stack[..payloadLen];
      var frame := Assemble(cmd, body);
      IndicesAreModulo(0, head, tail, SIZE);
      var used := (head - tail) % SIZE;
      var avail := SIZE - used - 1;
      if |frame| > avail {
        overruns := Inc(overruns);
        return -1;
      }
      StreamSnoc(sent, Msg(cmd, body));
      DropAppend(Stream(sent), frame, read);
      Copy(frame);
      sent := sent + [Msg(cmd, body)];
      AppendedIsAccepted(old(Unread()), Msg(cmd, body));
      return 0;
    }

    /** The frame build_response_frame puts together on its stack. */
    method Assemble(cmd: byte, payload: seq<byte>) returns (frame: seq<byte>)
      requires Shape() && |payload| <= MAX_PAYLOAD
      modifies crc64, crc32, crc64.table, crc32.table
      ensures Shape()
      ensures frame == Encode(Msg(cmd, payload)) && |frame| == HDR_SIZE + |payload| + CRC32_SIZE
    {
      hide Checksum;
      var word := [SYNC, cmd] + Le(|payload|, 2) + Le(0, 4);
      NoFlags();
      var crc64Val := crc64.Compute(word);
      var crc32Val := crc32.Compute(payload);
      frame := word + Le(crc64Val, 8) + payload + Le(crc32Val, 4);
    }

    /** The reader: any number of bytes off the tail. */
    method Read(n: nat) returns (bytes: seq<byte>)
      requires Valid() && n <= Used(head, tail, SIZE)
      modifies this`tail, this`read
      ensures Valid() && sent == old(sent) && read == old(read) + n
      ensures old(Unread()) == bytes + Unread() && |bytes| == n
    {
      hide Queued, Stream, Slot, Used;
      ghost var was := Unread();
      bytes := Unread()[..n];
      DropOldest(buf[..], head, tail, n);
      DropDrop(Stream(sent), read, n);
      assert was == was[..n] + was[n..];
      tail := Slot(tail + n, SIZE);
      read := read + n;
    }
  }

  /** A host that reads the stream from its start and validates at each frame boundary gets every message
      back: after the first k frames the validator accepts the next one, whatever follows it. */
  lemma {:induction false} HostReadsBack(sent: seq<Msg>, k: nat)
    requires k < |sent|
    requires forall i | 0 <= i < |sent| :: |sent[i].payload| <= MAX_PAYLOAD
    ensures |Stream(sent[..k])| <= |Stream(sent)|
    ensures View(Stream(sent)[|Stream(sent[..k])|..]) == Some(sent[k])
    decreases |sent|
  {
    hide Encode, View;
    var most, last := sent[..|sent| - 1], sent[|sent| - 1];
    if k == |sent| - 1 {
      assert Stream(sent)[|Stream(most)|..] == Encode(last);
      assert Encode(last) + [] == Encode(last);
      BuiltIsAccepted(last, []);
    } else {
      HostReadsBack(most, k);
      assert most[..k] == sent[..k];
      var from := |Stream(sent[..k])|;
      assert Stream(sent)[from..] == Stream(most)[from..] + Encode(last);
      AcceptedWithMore(Stream(most)[from..], Encode(last), sent[k]);
    }
  }

  lemma AcceptedWithMore(frame: seq<byte>, more: seq<byte>, m: Msg)
    requires View(frame) == Some(m)
    ensures View(frame + more) == Some(m)
  {
    hide View;
    AcceptsExactly(frame, m);
    AcceptsExactly(frame + more, m);
    forall r, t | Carries(frame, m, r, t) ensures Carries(frame + more, m, r, t) {}
  }

  // ----- the two sides interleaved

  /** Copying: i bytes of the frame are published, about to store the next or to return. Placed: byte i is in
      its slot, about to publish the head. */
  datatype Writer = Free | Copying(m: Msg, i: nat) | Placed(m: Msg, i: nat)

  /** Check: about to compare head and tail. Load: about to read the slot. Advance: about to store the tail. */
  datatype Reader = Check | Load | Advance(b: byte)

  /** taken is the history of what the reader has read. */
  datatype Sys = Sys(buf: seq<byte>, head: index, tail: index, writer: Writer, reader: Reader, overruns: nat,
                     sent: seq<Msg>, taken: seq<byte>)

  /** build_response_frame is called with a message and loads the tail; it makes its next store or returns; or
      the reader makes its next load or store. */
  datatype Action = Send(m: Msg) | Write | Take

  predicate Fits(m: Msg, used: nat) { HDR_SIZE + |m.payload| + CRC32_SIZE <= SIZE - 1 - used }

  function OnSend(s: Sys, m: Msg): Sys {
    if s.writer != Free || |m.payload| > MAX_PAYLOAD then s
    else if Fits(m, Used(s.head, s.tail, SIZE)) then s.(writer := Copying(m, 0))
    else s.(overruns := Inc(s.overruns))
  }

  function OnWrite(s: Sys): Sys
    requires |s.buf| == SIZE
  {
    match s.writer
    case Free => s
    case Copying(m, i) =>
      if i < |Encode(m)| then s.(buf := s.buf[s.head := Encode(m)[i]], writer := Placed(m, i))
      else s.(sent := s.sent + [m], writer := Free)
    case Placed(m, i) => s.(head := Slot(s.head + 1, SIZE), writer := Copying(m, i + 1))
  }

  function OnTake(s: Sys): Sys
    requires |s.buf| == SIZE
  {
    match s.reader
    case Check => if s.head != s.tail then s.(reader := Load) else s
    case Load => s.(reader := Advance(s.buf[s.tail]))
    case Advance(b) => s.(tail := Slot(s.tail + 1, SIZE), reader := Check, taken := s.taken + [b])
  }

  function Next(s: Sys, a: Action): (r: Sys)
    requires |s.buf| == SIZE
    ensures |r.buf| == SIZE
  {
    match a
    case Send(m) => OnSend(s, m)
    case Write => OnWrite(s)
    case Take => OnTake(s)
  }

  function Reached(buf: seq<byte>, actions: seq<Action>): (r: Sys)
    requires |buf| == SIZE
    ensures |r.buf| == SIZE
    decreases |actions|
  {
    if actions == [] then Sys(buf, 0, 0, Free, Check, 0, [], [])
    else Next(Reached(buf, actions[..|actions| - 1]), actions[|actions| - 1])
  }

  function Queue(s: Sys): seq<byte>
    requires |s.buf| == SIZE
  {
    Queued(s.buf, s.head, s.tail)
  }

  /** What is published of the frame being copied. */
  function Part(w: Writer): seq<byte> {
    match w
    case Free => []
    case Copying(m, i) => if i <= |Encode(m)| then Encode(m)[..i] else []
    case Placed(m, i) => if i <= |Encode(m)| then Encode(m)[..i] else []
  }

  predicate WriterInv(s: Sys)
    requires |s.buf| == SIZE
  {
    match s.writer
    case Free => true
    case Copying(m, i) =>
      && i <= |Encode(m)| <= SIZE - 1 - Used(s.head, s.tail, SIZE) + i
      && |m.payload| <= SIZE - 1 - HDR_SIZE - CRC32_SIZE
    case Placed(m, i) =>
      && i < |Encode(m)| <= SIZE - 1 - Used(s.head, s.tail, SIZE) + i
      && |m.payload| <= SIZE - 1 - HDR_SIZE - CRC32_SIZE && s.buf[s.head] == Encode(m)[i]
  }

  predicate ReaderInv(s: Sys)
    requires |s.buf| == SIZE
  {
    match s.reader
    case Check => true
    case Load => s.head != s.tail
    case Advance(b) => s.head != s.tail && b == s.buf[s.tail]
  }

  predicate Inv(s: Sys) {
    && |s.buf| == SIZE && WriterInv(s) && ReaderInv(s)
    && s.taken + Queue(s) == Stream(s.sent) + Part(s.writer)
    && forall i | 0 <= i < |s.sent| :: |s.sent[i].payload| <= SIZE - 1 - HDR_SIZE - CRC32_SIZE
  }

  lemma SendKeepsInv(s: Sys, m: Msg)
    requires Inv(s)
    ensures Inv(OnSend(s, m))
  {
    hide Queued, Stream, Encode, Inc;
    EncodedSize(m);
  }

  lemma WriteKeepsInv(s: Sys)
    requires Inv(s)
    ensures Inv(OnWrite(s))
  {
    hide Queued, Stream, Encode, Slot;
    match s.writer {
      case Free =>
      case Copying(m, i) =>
        if i < |Encode(m)| {
          StoreUnseen(s.buf, s.head, s.tail, Encode(m)[i]);
        } else {
          StreamSnoc(s.sent, m);
          assert Encode(m)[..i] == Encode(m);
        }
      case Placed(m, i) =>
        Publish(s.buf, s.head, s.tail);
        UsedMoves(s.head, s.tail, SIZE);
        NotFull(s.head, s.tail, SIZE);
        assert Encode(m)[..i + 1] == Encode(m)[..i] + [Encode(m)[i]];
        assert s.taken + (Queue(s) + [Encode(m)[i]]) == (s.taken + Queue(s)) + [Encode(m)[i]];
    }
  }

  lemma TakeKeepsInv(s: Sys)
    requires Inv(s)
    ensures Inv(OnTake(s))
  {
    hide Queued, Stream, Encode, Slot;
    if s.reader.Advance? {
      Consume(s.buf, s.head, s.tail);
      UsedMoves(s.head, s.tail, SIZE);
      assert s.taken + ([s.reader.b] + Queue(OnTake(s))) == (s.taken + [s.reader.b]) + Queue(OnTake(s));
    }
  }

  lemma {:induction false} InvAlways(buf: seq<byte>, actions: seq<Action>)
    requires |buf| == SIZE
    ensures Inv(Reached(buf, actions))
    decreases |actions|
  {
    hide Inv, OnSend, OnWrite, OnTake;
    if actions == [] {
      StartInv(buf);
    } else {
      var s := Reached(buf, actions[..|actions| - 1]);
      InvAlways(buf, actions[..|actions| - 1]);
      match actions[|actions| - 1] {
        case Send(m) => SendKeepsInv(s, m);
        case Write => WriteKeepsInv(s);
        case Take => TakeKeepsInv(s);
      }
    }
  }

  lemma StartInv(buf: seq<byte>)
    requires |buf| == SIZE
    ensures Inv(Sys(buf, 0, 0, Free, Check, 0, [], []))
  {
  }

  /** Under every interleaving of the two sides' loads and stores: what has been read and what is queued are
      together the frames sent, in order, and the published part of the one being copied; and a message is
      accepted if and only if its whole frame fits beside what is queued when the tail is loaded. */
  lemma OnlyFramesInOrder(buf: seq<byte>, actions: seq<Action>, m: Msg)
    requires |buf| == SIZE
    ensures var s := Reached(buf, actions);
            && s.taken + Queue(s) == Stream(s.sent) + Part(s.writer)
            && s.taken <= Stream(s.sent) + Part(s.writer)
            && |Queue(s)| <= SIZE - 1
            && (s.writer == Free ==>
                  && s.taken + Queue(s) == Stream(s.sent)
                  && (Next(s, Send(m)).writer != Free <==> 16 + |m.payload| + 4 <= 4095 - |Queue(s)|)
                  && (Next(s, Send(m)).overruns != s.overruns
                      <==> |m.payload| <= 4092 && 16 + |m.payload| + 4 > 4095 - |Queue(s)|))
  {
    hide Queued, Stream, Encode, Slot, WriterInv, ReaderInv;
    InvAlways(buf, actions);
  }

  /** Whatever has been sent and read, a payload over 4075 bytes is never accepted, although the protocol allows
      4092: the frame would not leave the one free slot the ring needs. With nothing queued any smaller one is, and
      4075 bytes only then. */
  lemma LargestResponse(buf: seq<byte>, actions: seq<Action>, m: Msg)
    requires |buf| == SIZE
    ensures var s := Reached(buf, actions);
            && (s.writer == Free && Next(s, Send(m)).writer != Free ==> |m.payload| <= 4075)
            && (s.writer == Free && Queue(s) == [] ==> (Next(s, Send(m)).writer != Free <==> |m.payload| <= 4075))
            && (s.writer == Free && |m.payload| == 4075 ==>
                  (Next(s, Send(m)).writer != Free <==> Queue(s) == []))
  {
    hide Queued, Stream, Encode, Slot, WriterInv, ReaderInv, Reached;
    InvAlways(buf, actions);
  }

  /** A host that reads on while frames are being copied in gets every message: once it has all of the k-th
      frame, the validator returns the k-th message. */
  lemma HostReadsOn(buf: seq<byte>, actions: seq<Action>, k: nat)
    requires |buf| == SIZE
    requires var s := Reached(buf, actions); k < |s.sent| && |Stream(s.sent[..k + 1])| <= |s.taken|
    ensures var s := Reached(buf, actions);
            && |Stream(s.sent[..k])| <= |s.taken|
            && View(s.taken[|Stream(s.sent[..k])|..]) == Some(s.sent[k])
  {
    hide Queued, Stream, Encode, Slot, View, WriterInv, ReaderInv;
    InvAlways(buf, actions);
    var s := Reached(buf, actions);
    var all := Stream(s.sent) + Part(s.writer);
    StreamPrefix(s.sent, k);
    var from, to := |Stream(s.sent[..k])|, |Stream(s.sent[..k + 1])|;
    assert s.taken == (s.taken + Queue(s))[..|s.taken|] == all[..|s.taken|];
    assert s.taken[from..to] == all[from..to] == Stream(s.sent)[from..to] == Encode(s.sent[k]);
    assert s.taken[from..] == s.taken[from..to] + s.taken[to..];
    BuiltIsAccepted(s.sent[k], s.taken[to..]);
  }

  lemma {:induction false} StreamPrefix(sent: seq<Msg>, k: nat)
    requires k < |sent|
    ensures var from, to := |Stream(sent[..k])|, |Stream(sent[..k + 1])|;
            from <= to <= |Stream(sent)| && Stream(sent)[from..to] == Encode(sent[k])
    decreases |sent|
  {
    hide Encode;
    var most := sent[..|sent| - 1];
    assert sent == most + [sent[|sent| - 1]];
    if k < |most| {
      StreamPrefix(most, k);
      assert most[..k] == sent[..k] && most[..k + 1] == sent[..k + 1];
    } else {
      assert sent[..k + 1] == sent && sent[..k] == most;
    }
  }
}
