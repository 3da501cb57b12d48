/** The three receivers compared on the same bytes: the kernel's apex_validate_frame, the firmware's
    main-loop assembler, and its interrupt handler. */
module Receivers {
  import opened Bitwise
  import opened Crc
  import opened Frame
  import Kernel
  import Assembler
  import Isr
  import Codeword

  /** f is one frame for m, from its first byte to its last. */
  predicate KernelTakes(f: seq<byte>, m: Msg) {
    |f| == HDR_SIZE + |m.payload| + CRC32_SIZE && Kernel.View(f) == Kernel.Some(m)
  }

  predicate MainLoopTakes(f: seq<byte>, m: Msg) {
    |f| == HDR_SIZE + |m.payload| + CRC32_SIZE
    && Assembler.FeedAll(Assembler.Idle, f).1 == [Assembler.Dispatched(m)]
  }

  predicate IsrTakes(f: seq<byte>, m: Msg) {
    var rx := Isr.Bytes(Isr.FRESH, f);
    |f| == HDR_SIZE + |m.payload| + CRC32_SIZE
    && rx.state == Isr.COMPLETE && rx.pos == |f|
    && m == Msg(rx.buf[1], rx.buf[16..16 + |m.payload|])
  }

  // ----- the main loop against the kernel

  lemma KernelParts(f: seq<byte>, m: Msg)
    requires |f| == HDR_SIZE + |m.payload| + CRC32_SIZE
    ensures Kernel.View(f) == Kernel.Some(m)
       <==> f[0] == SYNC && HeaderCrcOk(f[..16]) && LengthField(f) == |m.payload| <= MAX_PAYLOAD
            && m == Msg(f[1], f[16..16 + |m.payload|])
            && (m.payload != [] ==> TrailerOk(m.payload, f[16 + |m.payload|..]))
  {
    hide HeaderCrcOk, TrailerOk;
    var end := 16 + |m.payload|;
    assert f[end..end + 4] == f[end..];
  }

  lemma MainLoopIsParse(f: seq<byte>)
    ensures Assembler.FeedAll(Assembler.Idle, f).1 == Assembler.Parse(f).0
  {
    Assembler.Incremental(Assembler.Idle, f);
    assert Assembler.Pending(Assembler.Idle) + f == f;
  }

  lemma OneDispatch(m: Msg)
    ensures Assembler.FrameBytes([Assembler.Dispatched(m)]) == HDR_SIZE + |m.payload| + CRC32_SIZE
  {
    assert [Assembler.Dispatched(m)][1..] == [];
  }

  /** The main loop takes exactly the frames the kernel takes whose reserved word is zero. */
  lemma MainLoopExactly(f: seq<byte>, m: Msg)
    ensures MainLoopTakes(f, m) <==> KernelTakes(f, m) && f[4..8] == NO_FLAGS
  {
    MainLoopIsParse(f);
    if MainLoopTakes(f, m) { MainLoopOnlyKernel(f, m); }
    if KernelTakes(f, m) && f[4..8] == NO_FLAGS { KernelAlsoMainLoop(f, m); }
  }

  lemma KernelAlsoMainLoop(f: seq<byte>, m: Msg)
    requires KernelTakes(f, m) && f[4..8] == NO_FLAGS
    ensures Assembler.Parse(f).0 == [Assembler.Dispatched(m)]
  {
    hide HeaderCrcOk, TrailerOk, Assembler.Parse;
    KernelParts(f, m);
    var h, t := f[..16], f[16 + |m.payload|..];
    assert h[4..8] == f[4..8];
    assert f == h + m.payload + t + [];
    Assembler.ParseFrame(h, m.payload, t, []);
    Assembler.ParsePending(Assembler.Idle);
  }

  lemma MainLoopOnlyKernel(f: seq<byte>, m: Msg)
    requires |f| == HDR_SIZE + |m.payload| + CRC32_SIZE
    requires Assembler.Parse(f).0 == [Assembler.Dispatched(m)]
    ensures KernelTakes(f, m) && f[4..8] == NO_FLAGS
  {
    hide HeaderCrcOk, TrailerOk;
    OneDispatch(m);
    if f[0] != SYNC {
      Assembler.ParseConserves(f[1..]);
      assert false;
    }
    var h := f[..16];
    assert h[4..8] == f[4..8];
    var end := 16 + LengthField(h);
    assert Assembler.EndOfHeader(h).1 == Assembler.Quiet;
    assert Assembler.Parse(f).0[0] == Assembler.EndOfFrame(h, f[16..end], f[end..end + 4]);
    KernelParts(f, m);
    assert f[end..end + 4] == f[end..];
  }

  // ----- the interrupt handler against the kernel

  /** While a frame is arriving, the buffer holds the last bytes received. */
  predicate Holds(rx: Isr.Rx, s: seq<byte>)
    requires Isr.Sized(rx)
  {
    && Isr.Reachable(rx)
    && (Isr.Busy(rx) ==> rx.pos <= |s| && rx.buf[..rx.pos] == s[|s| - rx.pos..])
    && (rx.state == Isr.COMPLETE ==> rx.pos <= |s| && (rx.pos == |s| ==> rx.buf[..rx.pos] == s))
  }

  lemma HoldsStep(rx: Isr.Rx, s: seq<byte>, b: byte)
    requires Isr.Sized(rx) && Holds(rx, s)
    ensures Holds(Isr.OnByte(rx, b).0, s + [b])
  {
    hide HeaderCrcOk, TrailerOk, Isr.ValidFrame;
    Isr.OnByteKeepsReachable(rx, b);
    var next := Isr.OnByte(rx, b).0;
    var u, n := s + [b], |s| + 1;
    if Isr.Busy(rx) && next.state != Isr.ERROR {
      assert next.pos == rx.pos + 1 && next.buf == rx.buf[rx.pos := b];
      assert next.buf[..next.pos] == rx.buf[..rx.pos] + [b];
      assert u[n - next.pos..] == s[|s| - rx.pos..] + [b];
      assert n == next.pos ==> u[n - next.pos..] == u;
    } else if Isr.Busy(next) {
      assert u[n - 1..] == [b] && next.buf[..1] == [b];
    }
  }

  lemma {:induction false} HoldsAlways(s: seq<byte>)
    ensures Holds(Isr.Bytes(Isr.FRESH, s), s)
    decreases |s|
  {
    hide Holds, Isr.OnByte;
    if s == [] {
      HoldsStart();
    } else {
      HoldsAlways(s[..|s| - 1]);
      HoldsStep(Isr.Bytes(Isr.FRESH, s[..|s| - 1]), s[..|s| - 1], s[|s| - 1]);
      assert s[..|s| - 1] + [s[|s| - 1]] == s;
    }
  }

  lemma HoldsStart()
    ensures Holds(Isr.FRESH, [])
  {
    hide Zeros;
  }

  /** The interrupt handler takes exactly the frames the kernel takes whose CRC-32 trailer is right even if
      the payload is empty; the reserved word it does not look at. */
  lemma IsrExactly(f: seq<byte>, m: Msg)
    ensures IsrTakes(f, m) <==> KernelTakes(f, m) && TrailerOk(m.payload, f[16 + |m.payload|..])
  {
    hide HeaderCrcOk, TrailerOk, Isr.OnByte;
    if |f| == HDR_SIZE + |m.payload| + CRC32_SIZE {
      var end := 16 + |m.payload|;
      KernelParts(f, m);
      if IsrTakes(f, m) {
        HoldsAlways(f);
        var rx := Isr.Bytes(Isr.FRESH, f);
        assert rx.buf[..rx.pos] == f;
        assert f[1] == rx.buf[1] && f[16..end] == rx.buf[16..end];
      }
      if KernelTakes(f, m) && TrailerOk(m.payload, f[end..]) {
        Isr.Midway(Isr.FRESH, f, |f|);
        assert f[..|f|] == f;
        var rx := Isr.Bytes(Isr.FRESH, f);
        assert rx.buf[1] == rx.buf[..|f|][1] && rx.buf[16..end] == rx.buf[..|f|][16..end];
      }
    }
  }

  // ----- what follows for all three

  /** On a frame with a payload and a zero reserved word the three receivers agree, message included. */
  lemma AllAgree(f: seq<byte>, m: Msg)
    requires |f| >= 8 && f[4..8] == NO_FLAGS && m.payload != []
    ensures KernelTakes(f, m) <==> MainLoopTakes(f, m)
    ensures KernelTakes(f, m) <==> IsrTakes(f, m)
  {
    hide HeaderCrcOk, TrailerOk, Isr.OnByte, Assembler.FeedAll;
    MainLoopExactly(f, m);
    IsrExactly(f, m);
    if KernelTakes(f, m) { KernelParts(f, m); }
  }

  /** On a frame without payload the kernel and the main loop take any trailer; the interrupt handler
      insists on four zero bytes, the CRC-32 of nothing. */
  lemma EmptyPayload(f: seq<byte>, m: Msg)
    requires m.payload == [] && |f| == HDR_SIZE + CRC32_SIZE && KernelTakes(f, m)
    ensures IsrTakes(f, m) <==> f[16..] == NO_FLAGS
  {
    hide IsrTakes, KernelTakes, TrailerOk;
    IsrExactly(f, m);
    EmptyTrailer(f[16..]);
    assert m.payload == [] && f[16 + |m.payload|..] == f[16..];
  }

  lemma EmptyTrailer(t: seq<byte>)
    requires |t| == 4
    ensures TrailerOk([], t) <==> t == NO_FLAGS
  {
    hide Message;
    XorZero(Ones(Crc32));
    assert Checksum(Crc32, []) == 0;
    FieldHolds(Crc32, [], t);
    Kernel.NoFlags();
    assert Le(Checksum(Crc32, []), |t|) == NO_FLAGS;
  }

  /** What the builders emit is taken by all three. */
  lemma BuiltIsTaken(m: Msg)
    requires |m.payload| <= MAX_PAYLOAD
    ensures KernelTakes(Encode(m), m) && MainLoopTakes(Encode(m), m) && IsrTakes(Encode(m), m)
  {
    hide HeaderCrcOk, TrailerOk, Isr.OnByte, Header, Le, IsrTakes, MainLoopTakes, Kernel.View;
    var f, end := Encode(m), 16 + |m.payload|;
    HeaderParts(m.cmd, |m.payload|, NO_FLAGS);
    Kernel.BuiltIsAccepted(m, []);
    assert f + [] == f;
    assert f[..16] == Header(m.cmd, |m.payload|, NO_FLAGS) && f[4..8] == f[..16][4..8];
    assert f[end..] == Trailer(m.payload);
    BuiltTrailer(m.payload);
    MainLoopExactly(f, m);
    IsrExactly(f, m);
  }

  lemma BuiltTrailer(payload: seq<byte>)
    ensures TrailerOk(payload, Trailer(payload))
  {
    FieldHolds(Crc32, payload, Trailer(payload));
  }

  predicate AnyTakes(f: seq<byte>, m: Msg) { KernelTakes(f, m) || MainLoopTakes(f, m) || IsrTakes(f, m) }

  lemma AnyTakesMeans(f: seq<byte>, m: Msg)
    requires AnyTakes(f, m)
    ensures |f| >= HDR_SIZE && KernelTakes(f, m) && f[0] == SYNC && HeaderCrcOk(f[..16])
    ensures LengthField(f) == |m.payload| <= MAX_PAYLOAD && f[16..16 + |m.payload|] == m.payload
    ensures m.payload != [] ==> TrailerOk(m.payload, f[16 + |m.payload|..])
  {
    hide HeaderCrcOk, TrailerOk, IsrTakes, MainLoopTakes, Kernel.View;
    MainLoopExactly(f, m);
    IsrExactly(f, m);
    KernelParts(f, m);
  }

  lemma NobodyTakes(f: seq<byte>, m: Msg)
    requires Kernel.View(f) == Kernel.None
    ensures !AnyTakes(f, m)
  {
    hide IsrTakes, MainLoopTakes, Kernel.View;
    MainLoopExactly(f, m);
    IsrExactly(f, m);
  }

  /** A whole header that fails leaves the main loop idle, with that one outcome. */
  lemma HeaderFails(h: seq<byte>)
    requires |h| == HDR_SIZE && h[0] == SYNC && Assembler.EndOfHeader(h).1 != Assembler.Quiet
    ensures Assembler.FeedAll(Assembler.Idle, h) == (Assembler.Idle, [Assembler.EndOfHeader(h).1])
  {
    hide Assembler.FeedAll, Assembler.EndOfHeader;
    Assembler.ParseBadHeader(h, []);
    assert h + [] == h && Assembler.Parse([]) == ([], []);
    assert [Assembler.EndOfHeader(h).1] + [] == [Assembler.EndOfHeader(h).1];
    SettlesIdle(h);
  }

  lemma SettlesIdle(s: seq<byte>)
    ensures Assembler.FeedAll(Assembler.Idle, s).1 == Assembler.Parse(s).0
    ensures Assembler.Parse(s).1 == [] ==> Assembler.FeedAll(Assembler.Idle, s).0 == Assembler.Idle
  {
    hide Assembler.FeedAll, Assembler.Parse;
    Assembler.Incremental(Assembler.Idle, s);
    assert Assembler.Pending(Assembler.Idle) + s == s;
    Assembler.RunsStayReachable(Assembler.Idle, s);
    Assembler.OnlyIdlePendsNothing(Assembler.FeedAll(Assembler.Idle, s).0);
  }

  /** g, with anything behind, fails at its header. The kernel refuses the buffer. If g begins with a sync byte, the
      main loop drops the header with its sixteenth byte, and the interrupt handler is then in its error state; if
      it does not, both ignore the byte. */
  predicate FailsAtHeader(g: seq<byte>, rx: Isr.Rx)
    requires |g| >= HDR_SIZE && Isr.Sized(rx)
  {
    && Kernel.View(g) == Kernel.None
    && (g[0] == SYNC ==>
          && Assembler.FeedAll(Assembler.Idle, g[..16]) == (Assembler.Idle, [Assembler.HeaderRejected])
          && Isr.Bytes(rx, g[..16]).state == Isr.ERROR
          && Isr.OnByte(Isr.Bytes(rx, g[..15]), g[15]).1 == Isr.BadHeader)
    && (g[0] != SYNC ==>
          && Assembler.Feed(Assembler.Idle, g[0]) == (Assembler.Idle, Assembler.Quiet)
          && Isr.OnByte(rx, g[0]).0 == rx)
  }

  lemma BadHeaderFails(g: seq<byte>, rx: Isr.Rx)
    requires |g| >= HDR_SIZE && Isr.Sized(rx) && Isr.Waiting(rx)
    requires g[0] == SYNC ==> !HeaderCrcOk(g[..16])
    ensures FailsAtHeader(g, rx)
  {
    hide HeaderCrcOk, Isr.Bytes, Assembler.FeedAll;
    if g[0] == SYNC {
      var h := g[..16];
      HeaderFails(h);
      Isr.BadHeaderRefused(rx, h);
      assert h[..15] == g[..15];
    }
  }

  /** Corrupt header bytes 0 to 7 of a good frame in any way, leaving its CRC-64 field alone, with anything behind:
      all three receivers refuse the header. */
  lemma NoReceiverTakesCorruptHeader(f: seq<byte>, m: Msg, g: seq<byte>, rx: Isr.Rx)
    requires AnyTakes(f, m)
    requires |g| >= HDR_SIZE && g[8..16] == f[8..16] && g[..8] != f[..8]
    requires Isr.Sized(rx) && Isr.Waiting(rx)
    ensures FailsAtHeader(g, rx) && forall n :: !AnyTakes(g, n)
  {
    hide HeaderCrcOk, KernelTakes, AnyTakes, FailsAtHeader;
    AnyTakesMeans(f, m);
    if g[0] == SYNC {
      var h := g[..16];
      assert f[..16][8..] == f[8..16] && h[8..] == g[8..16];
      assert f[..16][..8] == f[..8] && h[..8] == g[..8];
      if HeaderCrcOk(h) { HeaderCorruptionRejected(f[..16], h); }
    }
    BadHeaderFails(g, rx);
    FailureIsNone(g, rx);
    forall n ensures !AnyTakes(g, n) { NobodyTakes(g, n); }
  }

  lemma FailureIsNone(g: seq<byte>, rx: Isr.Rx)
    requires |g| >= HDR_SIZE && Isr.Sized(rx) && FailsAtHeader(g, rx)
    ensures Kernel.View(g) == Kernel.None
  {
  }

  /** The frame head + p + t, with anything behind, fails at its end. The kernel refuses the buffer; the main loop
      drops the frame at its last byte, or at the end of its header if the reserved word is not zero; and the
      interrupt handler is in its error state after the last byte. */
  ghost predicate FailsAtEnd(head: seq<byte>, p: seq<byte>, t: seq<byte>, rest: seq<byte>, rx: Isr.Rx)
    requires |head| == HDR_SIZE && Isr.Sized(rx)
  {
    var g := head + p + t;
    && Kernel.View(g + rest) == Kernel.None
    && (if head[4..8] == NO_FLAGS
        then Assembler.FeedAll(Assembler.Idle, g) == (Assembler.Idle, [Assembler.PayloadRejected])
        else Assembler.FeedAll(Assembler.Idle, head) == (Assembler.Idle, [Assembler.HeaderRejected]))
    && Isr.Bytes(rx, g).state == Isr.ERROR
    && forall n :: !AnyTakes(g, n)
  }

  lemma BadTrailerFails(head: seq<byte>, p: seq<byte>, t: seq<byte>, rest: seq<byte>, rx: Isr.Rx)
    requires BadTrailer(head, p, t) && Isr.Sized(rx) && Isr.Waiting(rx)
    ensures FailsAtEnd(head, p, t, rest, rx)
  {
    hide HeaderCrcOk, TrailerOk, Isr.Bytes, Assembler.FeedAll, AnyTakes, Kernel.View;
    var g := head + p + t;
    KernelRefuses(head, p, t, rest);
    KernelRefuses(head, p, t, []);
    assert g + [] == g;
    IsrRefuses(head, p, t, rx);
    if head[4..8] == NO_FLAGS {
      MainLoopRefuses(head, p, t);
    } else {
      HeaderFails(head);
    }
    forall n ensures !AnyTakes(g, n) { NobodyTakes(g, n); }
  }

  /** Corrupt up to four consecutive payload bytes of a good frame under an intact trailer, with anything behind:
      all three receivers refuse the frame. */
  lemma NoReceiverTakesCorruptPayload(head: seq<byte>, pre: seq<byte>, u: seq<byte>, v: seq<byte>, post: seq<byte>,
                                      t: seq<byte>, m: Msg, rest: seq<byte>, rx: Isr.Rx)
    requires |head| == HDR_SIZE && |t| == CRC32_SIZE && |u| == |v| <= 4 && u != v
    requires m.payload == pre + u + post && AnyTakes(head + m.payload + t, m)
    requires Isr.Sized(rx) && Isr.Waiting(rx)
    ensures FailsAtEnd(head, pre + v + post, t, rest, rx)
  {
    hide HeaderCrcOk, TrailerOk, KernelTakes, AnyTakes, FailsAtEnd;
    GoodParts(head, m, t);
    PayloadCorruptionRejected(pre, u, v, post, t);
    BadTrailerFails(head, pre + v + post, t, rest, rx);
  }

  // ----- error bursts

  /** A burst of up to 63 bits anywhere in the header of a good frame, CRC-64 field included. */
  lemma NoReceiverTakesHeaderBurst(f: seq<byte>, m: Msg, g: seq<byte>, p: nat, e: nat, rx: Isr.Rx)
    requires AnyTakes(f, m) && |g| >= HDR_SIZE && |f| >= HDR_SIZE
    requires Xor(Message(f[..16]), Message(g[..16])) == Shl(e, p) && 0 < e < Shl(1, 63)
    requires Isr.Sized(rx) && Isr.Waiting(rx)
    ensures FailsAtHeader(g, rx) && forall n :: !AnyTakes(g, n)
  {
    hide HeaderCrcOk, KernelTakes, AnyTakes, FailsAtHeader, Xor, Shl, Message;
    AnyTakesMeans(f, m);
    Codeword.HeaderBurst(f[..16], g[..16], p, e);
    BadHeaderFails(g, rx);
    FailureIsNone(g, rx);
    forall n ensures !AnyTakes(g, n) { NobodyTakes(g, n); }
  }

  /** A burst of up to 32 bits anywhere in the payload and trailer of a good frame. */
  lemma NoReceiverTakesPayloadBurst(head: seq<byte>, t: seq<byte>, m: Msg, v: seq<byte>, w: seq<byte>, p: nat, e: nat,
                                    rest: seq<byte>, rx: Isr.Rx)
    requires |head| == HDR_SIZE && |t| == |w| == CRC32_SIZE && |v| == |m.payload| > 0
    requires AnyTakes(head + m.payload + t, m)
    requires Xor(Message(m.payload + t), Message(v + w)) == Shl(e, p) && 0 < e < Shl(1, 32)
    requires Isr.Sized(rx) && Isr.Waiting(rx)
    ensures FailsAtEnd(head, v, w, rest, rx)
  {
    hide HeaderCrcOk, TrailerOk, KernelTakes, AnyTakes, FailsAtEnd, Xor, Shl, Message;
    GoodParts(head, m, t);
    Codeword.PayloadBurst(m.payload, t, v, w, p, e);
    BadTrailerFails(head, v, w, rest, rx);
  }

  /** A burst of up to 32 bits anywhere in a good frame, header, payload, trailer or across any two of them. If it
      touches the header, all three receivers refuse that; if not and there is a payload, all three refuse the frame
      at its end; and if there is none, so that only the trailer has changed, the kernel takes the frame as before,
      but the interrupt handler, if it took the one, does not take the other. */
  lemma NoReceiverTakesBurst(f: seq<byte>, m: Msg, g: seq<byte>, p: nat, e: nat, rest: seq<byte>, rx: Isr.Rx)
    requires AnyTakes(f, m) && |g| == |f|
    requires Xor(Message(f), Message(g)) == Shl(e, p) && 0 < e < Shl(1, 32)
    requires Isr.Sized(rx) && Isr.Waiting(rx)
    ensures |g| == HDR_SIZE + |m.payload| + CRC32_SIZE
    ensures if g[..16] != f[..16] then FailsAtHeader(g + rest, rx)
            else if m.payload != []
            then FailsAtEnd(g[..16], g[16..16 + |m.payload|], g[16 + |m.payload|..], rest, rx)
            else KernelTakes(g, m) && (IsrTakes(f, m) ==> !IsrTakes(g, m))
    ensures g[..16] != f[..16] || m.payload != [] ==> forall n :: !AnyTakes(g, n)
  {
    hide KernelTakes, IsrTakes, AnyTakes, FailsAtEnd, FailsAtHeader, Xor, Shl, Message;
    var q, d := BurstParts(f, m, g, p, e);
    if f[..16] != g[..16] {
      Codeword.ShorterFits(d);
      HeaderTouched(f, m, g, q, d, rest, rx);
    } else if m.payload != [] {
      PayloadTouched(f, m, g, q, d, rest, rx);
    } else {
      OnlyTrailer(f, m, g);
      if f == g { XorZero(Message(f)); Codeword.ShlGrows(e, p); }
    }
  }

  /** The burst in the header, or if that is untouched, in what follows. */
  lemma BurstParts(f: seq<byte>, m: Msg, g: seq<byte>, p: nat, e: nat) returns (q: nat, d: nat)
    requires AnyTakes(f, m) && |g| == |f| && e > 0 && Xor(Message(f), Message(g)) == Shl(e, p)
    ensures |f| == HDR_SIZE + |m.payload| + CRC32_SIZE && f[16..16 + |m.payload|] == m.payload && 0 < d <= e
    ensures if f[..16] != g[..16] then Xor(Message(f[..16]), Message(g[..16])) == Shl(d, q)
            else var end := 16 + |m.payload|;
                 Xor(Message(m.payload + f[end..]), Message(g[16..end] + g[end..])) == Shl(d, q)
  {
    hide HeaderCrcOk, TrailerOk, KernelTakes, AnyTakes, Xor, Shl, Message;
    SizeOf(f, m);
    AnyTakesMeans(f, m);
    var end := 16 + |m.payload|;
    assert f == f[..16] + (m.payload + f[end..]) && g == g[..16] + (g[16..end] + g[end..]);
    q, d := Codeword.SplitBurst(f[..16], m.payload + f[end..], g[..16], g[16..end] + g[end..], p, e);
  }

  lemma HeaderTouched(f: seq<byte>, m: Msg, g: seq<byte>, q: nat, d: nat, rest: seq<byte>, rx: Isr.Rx)
    requires AnyTakes(f, m) && |f| >= HDR_SIZE && |g| >= HDR_SIZE && Isr.Sized(rx) && Isr.Waiting(rx)
    requires Xor(Message(f[..16]), Message(g[..16])) == Shl(d, q) && 0 < d < Shl(1, 63)
    ensures FailsAtHeader(g + rest, rx) && forall n :: !AnyTakes(g, n)
  {
    hide AnyTakes, FailsAtHeader, Xor, Shl, Message;
    NoReceiverTakesHeaderBurst(f, m, g, q, d, rx);
    assert (g + rest)[..16] == g[..16];
    NoReceiverTakesHeaderBurst(f, m, g + rest, q, d, rx);
  }

  lemma PayloadTouched(f: seq<byte>, m: Msg, g: seq<byte>, q: nat, d: nat, rest: seq<byte>, rx: Isr.Rx)
    requires AnyTakes(f, m) && m.payload != [] && |f| == |g| == HDR_SIZE + |m.payload| + CRC32_SIZE
    requires f[..16] == g[..16] && f[16..16 + |m.payload|] == m.payload && Isr.Sized(rx) && Isr.Waiting(rx)
    requires var end := 16 + |m.payload|;
             Xor(Message(m.payload + f[end..]), Message(g[16..end] + g[end..])) == Shl(d, q)
    requires 0 < d < Shl(1, 32)
    ensures FailsAtEnd(g[..16], g[16..16 + |m.payload|], g[16 + |m.payload|..], rest, rx)
    ensures forall n :: !AnyTakes(g, n)
  {
    hide AnyTakes, FailsAtEnd, Xor, Shl, Message;
    var end := 16 + |m.payload|;
    var h, v, w := g[..16], g[16..end], g[end..];
    assert f == h + m.payload + f[end..] && g == h + v + w;
    NoReceiverTakesPayloadBurst(h, f[end..], m, v, w, q, d, rest, rx);
    EndIsNobody(h, v, w, rest, rx);
  }

  /** Without payload, a frame with the same header and another trailer. */
  lemma OnlyTrailer(f: seq<byte>, m: Msg, g: seq<byte>)
    requires AnyTakes(f, m) && m.payload == [] && |f| == |g| == HDR_SIZE + CRC32_SIZE && f[..16] == g[..16]
    ensures KernelTakes(g, m)
    ensures f != g && IsrTakes(f, m) ==> !IsrTakes(g, m)
  {
    hide HeaderCrcOk, TrailerOk, IsrTakes, AnyTakes;
    AnyTakesMeans(f, m);
    KernelParts(f, m);
    assert f[1] == f[..16][1] && f[2] == f[..16][2] && f[3] == f[..16][3] && f[0] == f[..16][0];
    assert g[1] == g[..16][1] && g[2] == g[..16][2] && g[3] == g[..16][3] && g[0] == g[..16][0];
    assert f[16..16] == g[16..16];
    KernelParts(g, m);
    EmptyPayload(f, m);
    EmptyPayload(g, m);
    assert f == f[..16] + f[16..] && g == g[..16] + g[16..];
  }

  lemma SizeOf(f: seq<byte>, m: Msg)
    requires AnyTakes(f, m)
    ensures |f| == HDR_SIZE + |m.payload| + CRC32_SIZE
  {
  }

  lemma EndIsNobody(head: seq<byte>, p: seq<byte>, t: seq<byte>, rest: seq<byte>, rx: Isr.Rx)
    requires |head| == HDR_SIZE && Isr.Sized(rx) && FailsAtEnd(head, p, t, rest, rx)
    ensures forall n :: !AnyTakes(head + p + t, n)
  {
  }

  lemma GoodParts(head: seq<byte>, m: Msg, t: seq<byte>)
    requires |head| == HDR_SIZE && |t| == CRC32_SIZE && AnyTakes(head + m.payload + t, m) && m.payload != []
    ensures head[0] == SYNC && HeaderCrcOk(head) && LengthField(head) == |m.payload| <= MAX_PAYLOAD
    ensures TrailerOk(m.payload, t)
  {
    hide HeaderCrcOk, TrailerOk, KernelTakes, AnyTakes;
    var f := head + m.payload + t;
    AnyTakesMeans(f, m);
    Slices(head, m.payload, t, []);
    assert f + [] == f;
    assert f[..16] == head && f[16 + |m.payload|..] == t;
    assert f[2] == head[2] && f[3] == head[3];
  }

  /** A frame with a good header and a trailer that does not match its payload. */
  predicate BadTrailer(head: seq<byte>, p: seq<byte>, t: seq<byte>) {
    && |head| == HDR_SIZE && |t| == CRC32_SIZE && p != [] && !TrailerOk(p, t)
    && head[0] == SYNC && HeaderCrcOk(head) && LengthField(head) == |p| <= MAX_PAYLOAD
  }

  lemma KernelRefuses(head: seq<byte>, p: seq<byte>, t: seq<byte>, rest: seq<byte>)
    requires BadTrailer(head, p, t)
    ensures Kernel.View(head + p + t + rest) == Kernel.None
  {
    hide HeaderCrcOk, TrailerOk;
    var g := head + p + t + rest;
    Slices(head, p, t, rest);
    assert g[2] == head[2] && g[3] == head[3] && g[0] == head[0];
  }

  lemma MainLoopRefuses(head: seq<byte>, p: seq<byte>, t: seq<byte>)
    requires BadTrailer(head, p, t) && head[4..8] == NO_FLAGS
    ensures Assembler.FeedAll(Assembler.Idle, head + p + t) == (Assembler.Idle, [Assembler.PayloadRejected])
  {
    hide HeaderCrcOk, TrailerOk, Assembler.FeedAll;
    Assembler.ParseFrame(head, p, t, []);
    assert head + p + t + [] == head + p + t && Assembler.Parse([]) == ([], []);
    assert [Assembler.PayloadRejected] + [] == [Assembler.PayloadRejected];
    SettlesIdle(head + p + t);
  }

  lemma IsrRefuses(head: seq<byte>, p: seq<byte>, t: seq<byte>, rx: Isr.Rx)
    requires BadTrailer(head, p, t) && Isr.Sized(rx) && Isr.Waiting(rx)
    ensures Isr.Bytes(rx, head + p + t).state == Isr.ERROR
  {
    hide HeaderCrcOk, TrailerOk, Isr.Bytes;
    var g := head + p + t;
    Slices(head, p, t, []);
    assert g + [] == g;
    assert g[..16] == head && g[2] == head[2] && g[3] == head[3] && g[0] == head[0];
    assert g[16 + |p|..] == t;
    Isr.Midway(rx, g, |g|);
    assert g[..|g|] == g;
  }
}
