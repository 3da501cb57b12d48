/** The firmware's interrupt-level receiver: spi0_process_byte and its statistics. */
module Isr {
  import opened Bitwise
  import opened Crc
  import opened Frame

  const BUF_SIZE := HDR_SIZE + MAX_PAYLOAD + CRC32_SIZE

  datatype State = IDLE | HEADER | PAYLOAD | COMPLETE | ERROR

  /** spi0_rx. */
  datatype Rx = Rx(buf: seq<byte>, pos: nat, state: State, payloadLen: nat, ready: bool)

  /** What one byte did, as far as spi0_stats can tell. */
  datatype Event = Started | Taken | NoSync | BadHeader | BadLength | BadPayload | Validated | Overflow

  predicate Sized(rx: Rx) {
    |rx.buf| == BUF_SIZE && rx.pos <= BUF_SIZE && rx.payloadLen <= 0xFFFF
  }

  /** A byte string of the size its good header announces. */
  predicate Framed(f: seq<byte>) {
    && |f| >= HDR_SIZE + CRC32_SIZE
    && f[0] == SYNC && HeaderCrcOk(f[..16])
    && LengthField(f) <= MAX_PAYLOAD
    && |f| == HDR_SIZE + LengthField(f) + CRC32_SIZE
  }

  predicate Trailed(f: seq<byte>)
    requires Framed(f)
  {
    TrailerOk(f[16..16 + LengthField(f)], f[16 + LengthField(f)..])
  }

  /** A byte string the interrupt handler validates as one whole frame. */
  predicate ValidFrame(f: seq<byte>) { Framed(f) && Trailed(f) }

  /** The states the code can be in between its steps. */
  predicate Reachable(rx: Rx) {
    && Sized(rx)
    && (rx.ready <==> rx.state == COMPLETE)
    && match rx.state
       case IDLE => true
       case ERROR => true
       case HEADER => 1 <= rx.pos < HDR_SIZE && rx.buf[0] == SYNC
       case PAYLOAD =>
         && rx.buf[0] == SYNC && HeaderCrcOk(rx.buf[..16]) && LengthField(rx.buf) == rx.payloadLen <= MAX_PAYLOAD
         && HDR_SIZE <= rx.pos < HDR_SIZE + rx.payloadLen + CRC32_SIZE
       case COMPLETE => rx.pos == HDR_SIZE + rx.payloadLen + CRC32_SIZE && ValidFrame(rx.buf[..rx.pos])
  }

  /** spi0_process_byte without its counters. */
  function OnByte(rx: Rx, b: byte): (r: (Rx, Event))
    requires Sized(rx)
    ensures Sized(r.0)
  {
    match rx.state
    case IDLE =>
      if b == SYNC then (rx.(buf := rx.buf[0 := b], pos := 1, state := HEADER), Started) else (rx, NoSync)
    case HEADER =>
      if rx.pos < HDR_SIZE then EndOfHeader(rx.(buf := rx.buf[rx.pos := b], pos := rx.pos + 1)) else (rx, Taken)
    case PAYLOAD =>
      if rx.pos < HDR_SIZE + rx.payloadLen + CRC32_SIZE && rx.pos < BUF_SIZE
      then EndOfFrame(rx.(buf := rx.buf[rx.pos := b], pos := rx.pos + 1))
      else (rx.(state := ERROR), Taken)
    case COMPLETE => (rx, Overflow)
    case ERROR =>
      if b == SYNC then (rx.(buf := rx.buf[0 := b], pos := 1, state := HEADER), Started) else (rx, Taken)
  }

  function EndOfHeader(rx: Rx): (r: (Rx, Event))
    requires Sized(rx)
    ensures Sized(r.0)
  {
    if rx.pos != HDR_SIZE then (rx, Taken)
    else if !HeaderCrcOk(rx.buf[..16]) then (rx.(state := ERROR), BadHeader)
    else
      var len := LengthField(rx.buf);
      if len > MAX_PAYLOAD then (rx.(payloadLen := len, state := ERROR), BadLength)
      else (rx.(payloadLen := len, state := PAYLOAD), Taken)
  }

  lemma MidFrame(rx: Rx)
    requires Sized(rx)
    ensures rx.pos != HDR_SIZE ==> EndOfHeader(rx) == (rx, Taken)
    ensures rx.pos != HDR_SIZE + rx.payloadLen + CRC32_SIZE ==> EndOfFrame(rx) == (rx, Taken)
  {
  }

  function EndOfFrame(rx: Rx): (r: (Rx, Event))
    requires Sized(rx)
    ensures Sized(r.0)
  {
    var end := HDR_SIZE + rx.payloadLen;
    if rx.pos != end + CRC32_SIZE then (rx, Taken)
    else if TrailerOk(rx.buf[16..end], rx.buf[end..rx.pos]) then (rx.(state := COMPLETE, ready := true), Validated)
    else (rx.(state := ERROR), BadPayload)
  }

  lemma ZerosAre(s: seq<byte>)
    requires forall i | 0 <= i < |s| :: s[i] == 0
    ensures s == Zeros(|s|)
  {
    if s != [] { ZerosAre(s[1..]); }
  }

  /** spi0_rx_release_frame, as one step. */
  function Release(rx: Rx): Rx
    requires Sized(rx)
  {
    Rx(Zeros(rx.pos) + rx.buf[rx.pos..], 0, IDLE, 0, false)
  }

  lemma ReleaseWipes(rx: Rx)
    requires Sized(rx)
    ensures var r := Release(rx);
            && Sized(r) && r.pos == r.payloadLen == 0 && !r.ready && r.state == IDLE
            && (forall i | 0 <= i < rx.pos :: r.buf[i] == 0)
            && forall i | rx.pos <= i < BUF_SIZE :: r.buf[i] == rx.buf[i]
  {
    hide Zeros;
  }

  lemma OnByteKeepsReachable(rx: Rx, b: byte)
    requires Reachable(rx)
    ensures Reachable(OnByte(rx, b).0)
  {
    hide HeaderCrcOk, TrailerOk;
    var next := OnByte(rx, b).0;
    if rx.state == PAYLOAD {
      assert next.buf[..16] == rx.buf[..16];
      if next.state == COMPLETE {
        var f, end := next.buf[..next.pos], 16 + rx.payloadLen;
        assert f[..16] == next.buf[..16] && f[16..end] == next.buf[16..end] && f[end..] == next.buf[end..next.pos];
      }
    }
  }

  // ----- one frame at a time

  /** The machine after a byte string. */
  function Bytes(rx: Rx, s: seq<byte>): (r: Rx)
    requires Sized(rx)
    ensures Sized(r)
    decreases |s|
  {
    if s == [] then rx else OnByte(Bytes(rx, s[..|s| - 1]), s[|s| - 1]).0
  }

  /** Ready for the first byte of a frame. */
  predicate Waiting(rx: Rx) { rx.state == IDLE || rx.state == ERROR }

  /** A machine without a frame under way, before the end of a header whatever its bytes after the first. */
  lemma {:induction false} HeaderArrives(rx: Rx, f: seq<byte>, k: nat)
    requires Sized(rx) && Waiting(rx) && 1 <= k < HDR_SIZE && k <= |f| && f[0] == SYNC
    ensures var r := Bytes(rx, f[..k]); r.state == HEADER && r.pos == k && r.buf[..k] == f[..k]
    decreases k
  {
    var was := Bytes(rx, f[..k - 1]);
    assert f[..k][..k - 1] == f[..k - 1];
    assert Bytes(rx, f[..k]) == OnByte(was, f[k - 1]).0;
    assert f[..k] == f[..k - 1] + [f[k - 1]];
    if k == 1 {
      assert Bytes(rx, f[..k]).buf[..1] == [f[0]];
    } else {
      HeaderArrives(rx, f, k - 1);
      assert Bytes(rx, f[..k]).buf[..k] == was.buf[..k - 1] + [f[k - 1]];
    }
  }

  /** A header whose CRC-64 does not match is refused with its sixteenth byte. */
  lemma BadHeaderRefused(rx: Rx, h: seq<byte>)
    requires Sized(rx) && Waiting(rx) && |h| == HDR_SIZE && h[0] == SYNC && !HeaderCrcOk(h)
    ensures Bytes(rx, h).state == ERROR
    ensures OnByte(Bytes(rx, h[..15]), h[15]).1 == BadHeader
  {
    hide HeaderCrcOk;
    HeaderArrives(rx, h, 15);
    var was := Bytes(rx, h[..15]);
    assert Bytes(rx, h) == OnByte(was, h[15]).0;
    assert h == h[..15] + [h[15]];
    assert was.buf[15 := h[15]][..16] == was.buf[..15] + [h[15]] == h;
  }

  /** A machine without a frame under way, part-way through a framed byte string: after k bytes it holds
      exactly those, and the last one completes the frame or refuses it, as the trailer says. */
  lemma {:induction false} Midway(rx: Rx, f: seq<byte>, k: nat)
    requires Sized(rx) && Waiting(rx) && Framed(f) && k <= |f|
    ensures var r := Bytes(rx, f[..k]);
            if k == 0 then r == rx else Partial(r, f, k)
    decreases k
  {
    hide HeaderCrcOk, Trailed, OnByte;
    if 1 <= k < HDR_SIZE {
      HeaderArrives(rx, f, k);
    } else if k > 0 {
      Midway(rx, f, k - 1);
      var was := Bytes(rx, f[..k - 1]);
      assert f[..k][..k - 1] == f[..k - 1];
      MidwayStep(f, k, was);
    }
  }

  predicate Partial(rx: Rx, f: seq<byte>, k: nat)
    requires 1 <= k <= |f| && Framed(f) && Sized(rx)
  {
    && rx.pos == k && rx.buf[..k] == f[..k]
    && rx.state == (if k < 16 then HEADER else if k < |f| then PAYLOAD else if Trailed(f) then COMPLETE else ERROR)
    && (k >= 16 ==> rx.payloadLen == LengthField(f))
  }

  lemma MidwayStep(f: seq<byte>, k: nat, was: Rx)
    requires Framed(f) && 2 <= k <= |f| && Sized(was)
    requires Partial(was, f, k - 1)
    ensures Partial(OnByte(was, f[k - 1]).0, f, k)
    ensures OnByte(was, f[k - 1]).1 == if k < |f| then Taken else if Trailed(f) then Validated else BadPayload
  {
    hide HeaderCrcOk, TrailerOk;
    var rx := OnByte(was, f[k - 1]).0;
    var buf := was.buf[k - 1 := f[k - 1]];
    assert f[..k] == f[..k - 1] + [f[k - 1]];
    assert buf[..k] == f[..k];
    if k >= 4 {
      assert buf[2] == buf[..k][2] && buf[3] == buf[..k][3];
    }
    if k == 16 { assert buf[..16] == f[..16]; }
    if k == |f| {
      var end := 16 + LengthField(f);
      SameParts(buf, f, 16, end, k);
    }
  }

  lemma SameParts(a: seq<byte>, b: seq<byte>, i: nat, j: nat, k: nat)
    requires i <= j <= k == |b| <= |a| && a[..k] == b[..k]
    ensures a[i..j] == b[i..j] && a[j..k] == b[j..]
  {
    forall n | 0 <= n < k ensures a[n] == b[n] { assert a[n] == a[..k][n] && b[n] == b[..k][n]; }
  }

  lemma EncodedIsValid(m: Msg)
    requires |m.payload| <= MAX_PAYLOAD
    ensures ValidFrame(Encode(m))
  {
    hide HeaderCrcOk, Checksum, Message, Header, Le;
    var h, t := Header(m.cmd, |m.payload|, NO_FLAGS), Trailer(m.payload);
    HeaderParts(m.cmd, |m.payload|, NO_FLAGS);
    FieldHolds(Crc32, m.payload, t);
    var f := Encode(m);
    Slices(h, m.payload, t, []);
    assert f == h + m.payload + t + [];
    assert f[..16] == h && f[2] == h[2] && f[3] == h[3];
    assert f[16 + |m.payload|..] == t;
  }

  // ----- accounting over whole runs

  datatype Action = Byte(b: byte) | ReleaseFrame

  /** spi0_stats, on 32-bit counters. */
  datatype Stats = Stats(received: nat, validated: nat, sync: nat, hdrCrc: nat, payCrc: nat, len: nat,
                         overflows: nat, bytes: nat)

  const NO_STATS := Stats(0, 0, 0, 0, 0, 0, 0, 0)

  function Tally(s: Stats, e: Event): Stats { Count(s.(bytes := Inc(s.bytes)), e) }

  function Count(s: Stats, e: Event): Stats {
    match e
    case Started => s
    case Taken => s
    case NoSync => s.(sync := Inc(s.sync))
    case BadHeader => s.(hdrCrc := Inc(s.hdrCrc))
    case BadLength => s.(len := Inc(s.len))
    case BadPayload => s.(payCrc := Inc(s.payCrc))
    case Validated => s.(validated := Inc(s.validated), received := Inc(s.received))
    case Overflow => s.(overflows := Inc(s.overflows))
  }

  /** A run: the machine, its counters, the events so far, and the frames a release cut short. */
  datatype Run = Run(rx: Rx, stats: Stats, log: seq<Event>, cut: nat)

  const FRESH := Rx(Zeros(BUF_SIZE), 0, IDLE, 0, false)

  predicate Busy(rx: Rx) { rx.state == HEADER || rx.state == PAYLOAD }

  function After(actions: seq<Action>): (r: Run)
    ensures Sized(r.rx)
    decreases |actions|
  {
    if actions == [] then Run(FRESH, NO_STATS, [], 0)
    else
      var r := After(actions[..|actions| - 1]);
      match actions[|actions| - 1]
      case Byte(b) =>
        var (next, e) := OnByte(r.rx, b);
        Run(next, Tally(r.stats, e), r.log + [e], r.cut)
      case ReleaseFrame =>
        r.(rx := Release(r.rx), cut := r.cut + if Busy(r.rx) then 1 else 0)
  }

  function Times(log: seq<Event>, e: Event): nat { multiset(log)[e] }

  /** The counters a log should leave, on 32-bit counters. */
  function Counters(log: seq<Event>): Stats {
    Stats(Word(Times(log, Validated)), Word(Times(log, Validated)), Word(Times(log, NoSync)),
          Word(Times(log, BadHeader)), Word(Times(log, BadPayload)), Word(Times(log, BadLength)),
          Word(Times(log, Overflow)), Word(|log|))
  }

  lemma TimesStep(log: seq<Event>, e: Event, f: Event)
    ensures Times(log + [e], f) == Times(log, f) + if e == f then 1 else 0
  {
  }

  lemma TallyStep(log: seq<Event>, e: Event)
    ensures Tally(Counters(log), e) == Counters(log + [e])
  {
    hide Times, Inc, Word;
    TimesStep(log, e, Validated);
    TimesStep(log, e, NoSync);
    TimesStep(log, e, BadHeader);
    TimesStep(log, e, BadPayload);
    TimesStep(log, e, BadLength);
    TimesStep(log, e, Overflow);
    IncWord(|log|);
    IncWord(Times(log, e));
  }

  lemma NoEvents()
    ensures Counters([]) == NO_STATS && forall e :: Times([], e) == 0
  {
  }

  /** Each counter is the true count modulo 2^32, and every validated frame counts as received. */
  lemma {:induction false} StatsAreCounts(actions: seq<Action>)
    ensures After(actions).stats == Counters(After(actions).log)
    decreases |actions|
  {
    hide OnByte, Release, Times, Tally, Counters;
    if actions == [] {
      NoEvents();
    } else {
      var r := After(actions[..|actions| - 1]);
      StatsAreCounts(actions[..|actions| - 1]);
      match actions[|actions| - 1]
      case Byte(b) => TallyStep(r.log, OnByte(r.rx, b).1);
      case ReleaseFrame =>
    }
  }

  /** Frames begun less frames whose end the log records. */
  function Open(log: seq<Event>): int {
    Times(log, Started) - Times(log, Validated) - Times(log, BadHeader) - Times(log, BadLength) - Times(log, BadPayload)
  }

  function Change(e: Event): int {
    match e
    case Started => 1
    case Validated => -1
    case BadHeader => -1
    case BadLength => -1
    case BadPayload => -1
    case _ => 0
  }

  lemma OpenStep(log: seq<Event>, e: Event)
    ensures Open(log + [e]) == Open(log) + Change(e)
  {
    hide Times;
    TimesStep(log, e, Started);
    TimesStep(log, e, Validated);
    TimesStep(log, e, BadHeader);
    TimesStep(log, e, BadLength);
    TimesStep(log, e, BadPayload);
  }

  lemma ByteBalance(rx: Rx, b: byte)
    requires Reachable(rx)
    ensures var (next, e) := OnByte(rx, b);
            Change(e) == (if Busy(next) then 1 else 0) - (if Busy(rx) then 1 else 0)
  {
    hide HeaderCrcOk, TrailerOk;
  }

  /** Every frame whose sync byte was taken is, at any time and over any run, exactly one of: validated,
      rejected for its header CRC, its length or its payload CRC, cut short by a release that came too
      early, or still arriving. */
  lemma {:induction false} FramesAccountedFor(actions: seq<Action>)
    ensures var r := After(actions);
            Reachable(r.rx)
            && Times(r.log, Started) == Times(r.log, Validated) + Times(r.log, BadHeader) + Times(r.log, BadLength)
                                        + Times(r.log, BadPayload) + r.cut + (if Busy(r.rx) then 1 else 0)
    decreases |actions|
  {
    hide Times, Tally, ValidFrame, OnByte;
    if actions == [] {
      NoEvents();
    } else {
      var r := After(actions[..|actions| - 1]);
      FramesAccountedFor(actions[..|actions| - 1]);
      match actions[|actions| - 1]
      case Byte(b) =>
        OnByteKeepsReachable(r.rx, b);
        ByteBalance(r.rx, b);
        OpenStep(r.log, OnByte(r.rx, b).1);
      case ReleaseFrame =>
    }
  }

  /** Nothing is cut short exactly when no release comes while a frame is arriving; in particular when
      frames are only ever released once complete. */
  lemma {:induction false} CutNothingExactly(actions: seq<Action>)
    ensures After(actions).cut == 0
       <==> forall i | 0 <= i < |actions| && actions[i].ReleaseFrame? :: !Busy(After(actions[..i]).rx)
    decreases |actions|
  {
    hide OnByte, Release, Busy, Tally;
    if actions != [] {
      var n := |actions| - 1;
      forall i | 0 <= i <= n ensures actions[..n][..i] == actions[..i] {}
      CutNothingExactly(actions[..n]);
    }
  }
}
