/** The firmware's main-loop receiver as a transition function on bytes, the batch decoder it computes
    incrementally, and what follows for streams of frames. */
module Assembler {
  import opened Bitwise
  import opened Crc
  import opened Frame

  /** rx_ctx without its counters. Stray stands for RX_STATE_COMPLETE and RX_STATE_ERROR, which the
      default branch handles and nothing enters. */
  datatype Rx =
    | Idle
    | Hdr(h: seq<byte>)
    | Pay(h: seq<byte>, p: seq<byte>)
    | Trl(h: seq<byte>, p: seq<byte>, t: seq<byte>)
    | Stray

  datatype Outcome =
    | Quiet
    | SyncRejected
    | HeaderRejected
    | LengthRejected
    | PayloadRejected
    | Dispatched(m: Msg)

  /** The tests on a full header, in the order the code makes them. */
  function EndOfHeader(h: seq<byte>): (Rx, Outcome)
    requires |h| == HDR_SIZE
  {
    if h[0] != SYNC then (Idle, SyncRejected)
    else if h[4..8] != NO_FLAGS then (Idle, HeaderRejected)
    else if !HeaderCrcOk(h) then (Idle, HeaderRejected)
    else if LengthField(h) > MAX_PAYLOAD then (Idle, LengthRejected)
    else if LengthField(h) > 0 then (Pay(h, []), Quiet)
    else (Trl(h, [], []), Quiet)
  }

  function EndOfFrame(h: seq<byte>, p: seq<byte>, t: seq<byte>): Outcome
    requires |h| == HDR_SIZE
  {
    if LengthField(h) > 0 && !TrailerOk(p, t) then PayloadRejected else Dispatched(Msg(h[1], p))
  }

  /** The states the code can be in: buffers hold no more than they can, and their contents have passed
      the tests made so far. */
  predicate Reachable(rx: Rx) {
    match rx
    case Idle => true
    case Hdr(h) => 1 <= |h| < HDR_SIZE && h[0] == SYNC
    case Pay(h, p) => |h| == HDR_SIZE && EndOfHeader(h) == (Pay(h, []), Quiet) && |p| < LengthField(h)
    case Trl(h, p, t) => |h| == HDR_SIZE && EndOfHeader(h).1 == Quiet && |p| == LengthField(h) && |t| < CRC32_SIZE
    case Stray => false
  }

  /** The indices of the C buffers, as far as memory safety needs them. */
  predicate InBounds(rx: Rx) {
    match rx
    case Idle => true
    case Hdr(h) => 1 <= |h| < HDR_SIZE
    case Pay(h, p) => |h| == HDR_SIZE && |p| < LengthField(h) <= MAX_PAYLOAD
    case Trl(h, p, t) => |h| == HDR_SIZE && |p| == LengthField(h) <= MAX_PAYLOAD && |t| < CRC32_SIZE
    case Stray => true
  }

  /** One pass through the switch of spi_protocol_process. */
  function Feed(rx: Rx, b: byte): (r: (Rx, Outcome))
    requires InBounds(rx)
    ensures InBounds(r.0)
  {
    match rx
    case Idle => (if b == SYNC then Hdr([b]) else Idle, Quiet)
    case Hdr(h) => if |h| + 1 < HDR_SIZE then (Hdr(h + [b]), Quiet) else EndOfHeader(h + [b])
    case Pay(h, p) => (if |p| + 1 < LengthField(h) then Pay(h, p + [b]) else Trl(h, p + [b], []), Quiet)
    case Trl(h, p, t) => if |t| + 1 < CRC32_SIZE then (Trl(h, p, t + [b]), Quiet) else (Idle, EndOfFrame(h, p, t + [b]))
    case Stray => (Idle, Quiet)
  }

  function Note(o: Outcome): seq<Outcome> { if o == Quiet then [] else [o] }

  /** Feeding a byte string: the final state, and what happened on the way, in order. */
  function FeedAll(rx: Rx, s: seq<byte>): (r: (Rx, seq<Outcome>))
    requires InBounds(rx)
    ensures InBounds(r.0)
    decreases |s|
  {
    if s == [] then (rx, [])
    else
      var (next, o) := Feed(rx, s[0]);
      var (last, log) := FeedAll(next, s[1..]);
      (last, Note(o) + log)
  }

  lemma FeedKeepsReachable(rx: Rx, b: byte)
    requires Reachable(rx)
    ensures InBounds(rx) && Reachable(Feed(rx, b).0)
    ensures Feed(rx, b).1 != SyncRejected
  {
    hide HeaderCrcOk, TrailerOk;
  }

  /** In every state a run from initialisation can reach, the fill counters stay inside their buffers,
      the default branch is dead, and so is the sync test on an assembled header: frames_sync_error
      never counts. */
  lemma {:induction false} RunsStayReachable(rx: Rx, s: seq<byte>)
    requires Reachable(rx)
    ensures InBounds(rx) && Reachable(FeedAll(rx, s).0)
    ensures SyncRejected !in FeedAll(rx, s).1
    decreases |s|
  {
    if s != [] {
      FeedKeepsReachable(rx, s[0]);
      RunsStayReachable(Feed(rx, s[0]).0, s[1..]);
    }
  }

  lemma {:induction false} FeedAppend(rx: Rx, s: seq<byte>, u: seq<byte>)
    requires InBounds(rx)
    ensures FeedAll(rx, s + u) == (FeedAll(FeedAll(rx, s).0, u).0, FeedAll(rx, s).1 + FeedAll(FeedAll(rx, s).0, u).1)
    decreases |s|
  {
    hide Feed, InBounds;
    if s == [] {
      assert s + u == u && [] + FeedAll(rx, u).1 == FeedAll(rx, u).1;
    } else {
      var (next, o) := Feed(rx, s[0]);
      assert (s + u)[1..] == s[1..] + u;
      FeedAppend(next, s[1..], u);
      var v := FeedAll(FeedAll(next, s[1..]).0, u).1;
      assert Note(o) + (FeedAll(next, s[1..]).1 + v) == (Note(o) + FeedAll(next, s[1..]).1) + v;
    }
  }

  // ----- the batch decoder

  /** Decode a whole stream at once: skip to a sync byte, take a header, drop it or take the rest of the
      frame. The second result is the unfinished frame at the end. */
  function Parse(s: seq<byte>): (seq<Outcome>, seq<byte>)
    decreases |s|
  {
    if s == [] then ([], [])
    else if s[0] != SYNC then Parse(s[1..])
    else if |s| < HDR_SIZE then ([], s)
    else
      var h := s[..HDR_SIZE];
      var verdict := EndOfHeader(h).1;
      if verdict != Quiet then
        var (log, left) := Parse(s[HDR_SIZE..]);
        ([verdict] + log, left)
      else
        var end := HDR_SIZE + LengthField(h);
        if |s| < end + CRC32_SIZE then ([], s)
        else
          var (log, left) := Parse(s[end + CRC32_SIZE..]);
          ([EndOfFrame(h, s[HDR_SIZE..end], s[end..end + CRC32_SIZE])] + log, left)
  }

  /** The bytes of the frame under assembly. */
  function Pending(rx: Rx): seq<byte> {
    match rx
    case Idle => []
    case Hdr(h) => h
    case Pay(h, p) => h + p
    case Trl(h, p, t) => h + p + t
    case Stray => []
  }

  lemma ParsePending(rx: Rx)
    requires Reachable(rx)
    ensures Parse(Pending(rx)) == ([], Pending(rx))
  {
    hide HeaderCrcOk, TrailerOk;
    match rx
    case Idle =>
    case Hdr(h) =>
    case Pay(h, p) => assert (h + p)[..16] == h;
    case Trl(h, p, t) => assert (h + p + t)[..16] == h;
  }

  lemma ParseSkip(b: byte, rest: seq<byte>)
    requires b != SYNC
    ensures Parse([b] + rest) == Parse(rest)
  {
    assert ([b] + rest)[1..] == rest;
  }

  lemma ParseBadHeader(h: seq<byte>, rest: seq<byte>)
    requires |h| == HDR_SIZE && h[0] == SYNC && EndOfHeader(h).1 != Quiet
    ensures Parse(h + rest) == ([EndOfHeader(h).1] + Parse(rest).0, Parse(rest).1)
  {
    hide EndOfHeader;
    assert (h + rest)[..16] == h && (h + rest)[16..] == rest;
  }

  lemma ParseFrame(h: seq<byte>, p: seq<byte>, t: seq<byte>, rest: seq<byte>)
    requires |h| == HDR_SIZE && h[0] == SYNC && EndOfHeader(h).1 == Quiet
    requires |p| == LengthField(h) && |t| == CRC32_SIZE
    ensures Parse(h + p + t + rest) == ([EndOfFrame(h, p, t)] + Parse(rest).0, Parse(rest).1)
  {
    hide EndOfHeader, EndOfFrame;
    Slices(h, p, t, rest);
  }

  lemma StepGrows(rx: Rx, b: byte)
    requires Reachable(rx) && Feed(rx, b).1 == Quiet
    ensures var next := Feed(rx, b).0;
            if next == Idle then rx == Idle && b != SYNC else Pending(next) == Pending(rx) + [b]
  {
    hide HeaderCrcOk, TrailerOk;
    if rx.Trl? { assert rx.h + rx.p + rx.t + [b] == rx.h + rx.p + (rx.t + [b]); }
  }

  lemma QuietHeader(h: seq<byte>)
    requires |h| == HDR_SIZE && EndOfHeader(h).1 == Quiet
    ensures h[0] == SYNC
  {
  }

  lemma StepEnds(rx: Rx, b: byte)
    requires Reachable(rx) && Feed(rx, b).1 != Quiet
    ensures Feed(rx, b).0 == Idle
    ensures match rx
            case Hdr(h) => |h| + 1 == HDR_SIZE && Feed(rx, b).1 == EndOfHeader(h + [b]).1
            case Trl(h, p, t) => |t| + 1 == CRC32_SIZE && Feed(rx, b).1 == EndOfFrame(h, p, t + [b])
            case _ => false
  {
    hide HeaderCrcOk, TrailerOk;
  }

  /** One byte fed to the machine is one byte more for the decoder. */
  lemma ParseStep(rx: Rx, b: byte, rest: seq<byte>)
    requires Reachable(rx)
    ensures InBounds(rx) && var (next, o) := Feed(rx, b);
            var (log, left) := Parse(Pending(next) + rest);
            Parse(Pending(rx) + [b] + rest) == (Note(o) + log, left)
  {
    hide EndOfHeader, EndOfFrame, Parse, Feed;
    FeedKeepsReachable(rx, b);
    var (next, o) := Feed(rx, b);
    if o == Quiet {
      StepGrows(rx, b);
      if next == Idle {
        ParseSkip(b, rest);
      } else {
        assert Pending(rx) + [b] == Pending(next);
      }
      assert [] + rest == rest && [] + [b] == [b];
      var log := Parse(Pending(next) + rest).0;
      assert Note(o) + log == log;
    } else {
      StepEnds(rx, b);
      assert [] + rest == rest;
      match rx
      case Hdr(h) => ParseBadHeader(h + [b], rest);
      case Trl(h, p, t) =>
        QuietHeader(h);
        ParseFrame(h, p, t + [b], rest); assert h + p + t + [b] == h + p + (t + [b]);
    }
  }

  /** The byte-at-a-time machine computes the batch decoder: same log, and the bytes it is holding are
      those of the unfinished frame. */
  lemma {:induction false} Incremental(rx: Rx, s: seq<byte>)
    requires Reachable(rx)
    ensures InBounds(rx)
    ensures Parse(Pending(rx) + s) == (FeedAll(rx, s).1, Pending(FeedAll(rx, s).0))
    decreases |s|
  {
    hide Parse, Feed;
    if s == [] {
      assert Pending(rx) + s == Pending(rx);
      ParsePending(rx);
    } else {
      FeedKeepsReachable(rx, s[0]);
      ParseStep(rx, s[0], s[1..]);
      assert Pending(rx) + s == Pending(rx) + [s[0]] + s[1..];
      Incremental(Feed(rx, s[0]).0, s[1..]);
    }
  }

  lemma OnlyIdlePendsNothing(rx: Rx)
    requires Reachable(rx)
    ensures Pending(rx) == [] <==> rx == Idle
  {
  }

  // ----- streams of frames

  /** A frame and the line noise before it. */
  datatype Item = Item(gap: seq<byte>, m: Msg)

  function Wire(items: seq<Item>): seq<byte> {
    if items == [] then [] else items[0].gap + Encode(items[0].m) + Wire(items[1..])
  }

  function Deliveries(items: seq<Item>): (r: seq<Outcome>)
    ensures |r| == |items|
  {
    seq(|items|, i requires 0 <= i < |items| => Dispatched(items[i].m))
  }

  predicate Sendable(items: seq<Item>) {
    forall i | 0 <= i < |items| :: SYNC !in items[i].gap && |items[i].m.payload| <= MAX_PAYLOAD
  }

  lemma {:induction false} ParseGap(gap: seq<byte>, rest: seq<byte>)
    requires SYNC !in gap
    ensures Parse(gap + rest) == Parse(rest)
  {
    if gap == [] {
      assert gap + rest == rest;
    } else {
      assert (gap + rest)[1..] == gap[1..] + rest;
      ParseGap(gap[1..], rest);
    }
  }

  lemma EncodedHeader(m: Msg)
    requires |m.payload| <= MAX_PAYLOAD
    ensures var h := Header(m.cmd, |m.payload|, NO_FLAGS);
            && |h| == HDR_SIZE && h[0] == SYNC && h[1] == m.cmd
            && LengthField(h) == |m.payload| && EndOfHeader(h).1 == Quiet
  {
    HeaderParts(m.cmd, |m.payload|, NO_FLAGS);
  }

  lemma ParseEncoded(m: Msg, rest: seq<byte>)
    requires |m.payload| <= MAX_PAYLOAD
    ensures Parse(Encode(m) + rest) == ([Dispatched(m)] + Parse(rest).0, Parse(rest).1)
  {
    var h, t := Header(m.cmd, |m.payload|, NO_FLAGS), Trailer(m.payload);
    EncodedHeader(m);
    ParseFrame(h, m.payload, t, rest);
    FieldHolds(Crc32, m.payload, t);
  }

  lemma {:induction false} ParseWire(items: seq<Item>, rest: seq<byte>)
    requires Sendable(items)
    ensures Parse(Wire(items) + rest) == (Deliveries(items) + Parse(rest).0, Parse(rest).1)
  {
    hide Parse, Encode;
    if items == [] {
      assert Wire(items) + rest == rest && Deliveries(items) + Parse(rest).0 == Parse(rest).0;
    } else {
      var it, more := items[0], Wire(items[1..]) + rest;
      assert Wire(items) + rest == it.gap + (Encode(it.m) + more);
      ParseGap(it.gap, Encode(it.m) + more);
      ParseEncoded(it.m, more);
      ParseWire(items[1..], rest);
      assert Deliveries(items) == [Dispatched(it.m)] + Deliveries(items[1..]);
      assert [Dispatched(it.m)] + (Deliveries(items[1..]) + Parse(rest).0) == Deliveries(items) + Parse(rest).0;
    }
  }

  /** Round trip: frames built by either builder, with noise free of sync bytes around them, are
      dispatched one for one and in order, and leave the receiver idle. */
  lemma StreamRoundTrip(items: seq<Item>, gap: seq<byte>)
    requires Sendable(items) && SYNC !in gap
    ensures FeedAll(Idle, Wire(items) + gap) == (Idle, Deliveries(items))
  {
    hide Parse;
    var s := Wire(items) + gap;
    Incremental(Idle, s);
    assert Pending(Idle) + s == s;
    ParseWire(items, gap);
    ParseGap(gap, []);
    assert gap + [] == gap;
    ParsePending(Idle);
    RunsStayReachable(Idle, s);
    OnlyIdlePendsNothing(FeedAll(Idle, s).0);
    assert Deliveries(items) + [] == Deliveries(items);
  }

  // ----- resynchronisation

  /** A bound on the bytes that can still be consumed before the machine is idle, if none is a sync. */
  function ToGo(rx: Rx): int
    requires InBounds(rx)
  {
    match rx
    case Idle => 0
    case Hdr(h) => HDR_SIZE - |h| + MAX_PAYLOAD + CRC32_SIZE
    case Pay(h, p) => LengthField(h) - |p| + CRC32_SIZE
    case Trl(h, p, t) => CRC32_SIZE - |t|
    case Stray => 1
  }

  function Dispatches(log: seq<Outcome>): nat {
    if log == [] then 0 else (if log[0].Dispatched? then 1 else 0) + Dispatches(log[1..])
  }

  lemma {:induction false} QuietSettles(rx: Rx, s: seq<byte>)
    requires Reachable(rx)
    requires SYNC !in s && |s| >= ToGo(rx)
    ensures FeedAll(rx, s).0 == Idle
    ensures Dispatches(FeedAll(rx, s).1) <= if rx == Idle then 0 else 1
    decreases |s|
  {
    hide HeaderCrcOk, TrailerOk;
    if s != [] {
      FeedKeepsReachable(rx, s[0]);
      var (next, o) := Feed(rx, s[0]);
      assert ToGo(next) <= if rx == Idle then 0 else ToGo(rx) - 1;
      assert o != Quiet ==> next == Idle;
      QuietSettles(next, s[1..]);
      var log := FeedAll(next, s[1..]).1;
      assert Note(o) + log == if o == Quiet then log else [o] + log;
    }
  }

  /** Resynchronisation: whatever the receiver has been sent before, 4111 bytes without a sync byte
      return it to idle with at most one dispatch on the way, and what follows is received as by a fresh
      receiver: the next frames are all delivered. */
  lemma Resynchronises(before: seq<byte>, quiet: seq<byte>, items: seq<Item>, gap: seq<byte>)
    requires SYNC !in quiet && |quiet| >= 15 + MAX_PAYLOAD + CRC32_SIZE
    requires Sendable(items) && SYNC !in gap
    ensures var rx := FeedAll(Idle, before).0;
            var (settled, log) := FeedAll(rx, quiet);
            settled == Idle && Dispatches(log) <= 1
            && FeedAll(Idle, before + quiet + (Wire(items) + gap))
               == (Idle, FeedAll(Idle, before).1 + log + Deliveries(items))
  {
    var rx := FeedAll(Idle, before).0;
    RunsStayReachable(Idle, before);
    QuietSettles(rx, quiet);
    FeedAppend(Idle, before, quiet);
    FeedAppend(Idle, before + quiet, Wire(items) + gap);
    StreamRoundTrip(items, gap);
  }

  // ----- accounting

  /** Every byte of a stream belongs to at most one frame: a log of dispatches needs at least as many
      bytes as the dispatched frames have. */
  function FrameBytes(log: seq<Outcome>): nat {
    if log == [] then 0
    else (if log[0].Dispatched? then HDR_SIZE + |log[0].m.payload| + CRC32_SIZE else 0) + FrameBytes(log[1..])
  }

  lemma {:induction false} ParseConserves(s: seq<byte>)
    ensures FrameBytes(Parse(s).0) + |Parse(s).1| <= |s|
    decreases |s|
  {
    hide HeaderCrcOk, TrailerOk;
    if s == [] {
    } else if s[0] != SYNC {
      ParseConserves(s[1..]);
    } else if |s| >= HDR_SIZE {
      var h := s[..HDR_SIZE];
      var end := HDR_SIZE + LengthField(h);
      if EndOfHeader(h).1 != Quiet {
        ParseConserves(s[HDR_SIZE..]);
      } else if |s| >= end + CRC32_SIZE {
        ParseConserves(s[end + CRC32_SIZE..]);
      }
    }
  }
}
