/** What the interrupt-level receiver does with a whole byte stream, decoded in one go: the reference its
    byte-at-a-time machine and its statistics are proved against. */
module IsrBatch {
  import opened Bitwise
  import opened Crc
  import opened Frame
  import opened Isr

  /** Bytes skipped while idle; headers refused for their CRC-64 and for their length; frames refused for their
      CRC-32 and validated; bytes dropped behind a validated frame. */
  datatype Totals = Totals(sync: nat, hdrCrc: nat, len: nat, payCrc: nat, validated: nat, overflows: nat)

  const NONE := Totals(0, 0, 0, 0, 0, 0)

  function Plus(a: Totals, b: Totals): Totals {
    Totals(a.sync + b.sync, a.hdrCrc + b.hdrCrc, a.len + b.len, a.payCrc + b.payCrc,
           a.validated + b.validated, a.overflows + b.overflows)
  }

  datatype Decoded = Decoded(state: State, held: seq<byte>, totals: Totals)

  function Adding(t: Totals, d: Decoded): Decoded { d.(totals := Plus(t, d.totals)) }

  /** Skip to a sync byte, counting what is skipped unless something has just been refused. Take a header; go on
      behind it if it is refused. Take the rest of the frame; go on behind it if it is refused. Behind a good frame
      everything is dropped. What was refused is held until the next sync byte. */
  function Decode(s: seq<byte>, refused: seq<byte>): Decoded
    decreases |s|
  {
    if s == [] then Decoded(if refused == [] then IDLE else ERROR, refused, NONE)
    else if s[0] != 0xAA then Adding(if refused == [] then NONE.(sync := 1) else NONE, Decode(s[1..], refused))
    else if |s| < 16 then Decoded(HEADER, s, NONE)
    else if Checksum(Crc64, s[..8]) != Message(s[8..16]) then Adding(NONE.(hdrCrc := 1), Decode(s[16..], s[..16]))
    else
      var len: nat := s[2] as int + 256 * s[3] as int;
      if len > 4092 then Adding(NONE.(len := 1), Decode(s[16..], s[..16]))
      else if |s| < 20 + len then Decoded(PAYLOAD, s, NONE)
      else if Checksum(Crc32, s[16..16 + len]) != Message(s[16 + len..20 + len])
      then Adding(NONE.(payCrc := 1), Decode(s[20 + len..], s[..20 + len]))
      else Decoded(COMPLETE, s[..20 + len], NONE.(validated := 1, overflows := |s| - 20 - len))
  }

  // ----- the machine's own totals

  function One(e: Event): Totals {
    match e
    case NoSync => NONE.(sync := 1)
    case BadHeader => NONE.(hdrCrc := 1)
    case BadLength => NONE.(len := 1)
    case BadPayload => NONE.(payCrc := 1)
    case Validated => NONE.(validated := 1)
    case Overflow => NONE.(overflows := 1)
    case _ => NONE
  }

  /** The events of a byte string, added up. */
  function Sum(rx: Rx, s: seq<byte>): Totals
    requires Sized(rx)
    decreases |s|
  {
    if s == [] then NONE
    else Plus(Sum(rx, s[..|s| - 1]), One(OnByte(Bytes(rx, s[..|s| - 1]), s[|s| - 1]).1))
  }

  /** One more byte. */
  lemma OneMore(rx: Rx, s: seq<byte>, b: byte)
    requires Sized(rx)
    ensures Bytes(rx, s + [b]) == OnByte(Bytes(rx, s), b).0
    ensures Sum(rx, s + [b]) == Plus(Sum(rx, s), One(OnByte(Bytes(rx, s), b).1))
  {
    hide OnByte, One, Plus;
    assert (s + [b])[..|s|] == s;
  }

  lemma NextByte(rx: Rx, s: seq<byte>, k: nat)
    requires Sized(rx) && 0 < k <= |s|
    ensures Bytes(rx, s[..k]) == OnByte(Bytes(rx, s[..k - 1]), s[k - 1]).0
    ensures Sum(rx, s[..k]) == Plus(Sum(rx, s[..k - 1]), One(OnByte(Bytes(rx, s[..k - 1]), s[k - 1]).1))
  {
    hide OnByte, One, Plus, Bytes, Sum;
    assert s[..k] == s[..k - 1] + [s[k - 1]];
    OneMore(rx, s[..k - 1], s[k - 1]);
  }

  lemma PlusAssociates(a: Totals, b: Totals, c: Totals)
    ensures Plus(Plus(a, b), c) == Plus(a, Plus(b, c))
    ensures Plus(a, NONE) == Plus(NONE, a) == a
  {
  }

  lemma NothingYet(rx: Rx)
    requires Sized(rx)
    ensures Bytes(rx, []) == rx && Sum(rx, []) == NONE
  {
  }

  lemma {:induction false} TwoStrings(rx: Rx, a: seq<byte>, b: seq<byte>)
    requires Sized(rx)
    ensures Bytes(rx, a + b) == Bytes(Bytes(rx, a), b)
    ensures Sum(rx, a + b) == Plus(Sum(rx, a), Sum(Bytes(rx, a), b))
    decreases |b|
  {
    hide OnByte, One, Plus, Bytes, Sum;
    var mid := Bytes(rx, a);
    if b == [] {
      assert a + b == a;
      NothingYet(mid);
      PlusAssociates(Sum(rx, a), NONE, NONE);
    } else {
      var c, x := b[..|b| - 1], b[|b| - 1];
      assert b == c + [x] && a + b == (a + c) + [x];
      TwoStrings(rx, a, c);
      OneMore(rx, a + c, x);
      OneMore(mid, c, x);
      PlusAssociates(Sum(rx, a), Sum(mid, c), One(OnByte(Bytes(mid, c), x).1));
    }
  }

  lemma OneByte(rx: Rx, b: byte)
    requires Sized(rx)
    ensures Bytes(rx, [b]) == OnByte(rx, b).0
    ensures Sum(rx, [b]) == One(OnByte(rx, b).1)
  {
    hide OnByte, One, Plus, Bytes, Sum;
    assert [] + [b] == [b];
    OneMore(rx, [], b);
    NothingYet(rx);
    PlusAssociates(One(OnByte(rx, b).1), NONE, NONE);
  }

  // ----- pieces of a stream

  lemma HeaderByte(rx: Rx, b: byte)
    requires Sized(rx)
    ensures Waiting(rx) && b == SYNC ==> OnByte(rx, b).1 == Started
    ensures rx.state == HEADER && rx.pos + 1 < HDR_SIZE ==> OnByte(rx, b).1 == Taken
  {
    hide HeaderCrcOk, TrailerOk;
  }

  lemma {:induction false} HeaderQuiet(rx: Rx, f: seq<byte>, k: nat)
    requires Sized(rx) && Waiting(rx) && 1 <= k < HDR_SIZE && k <= |f| && f[0] == SYNC
    ensures Sum(rx, f[..k]) == NONE
    decreases k
  {
    hide OnByte, Bytes, Sum, Plus, Waiting;
    if k == 1 {
      assert f[..1] == [f[0]];
      OneByte(rx, f[0]);
      HeaderByte(rx, f[0]);
    } else {
      NextByte(rx, f, k);
      HeaderArrives(rx, f, k - 1);
      HeaderQuiet(rx, f, k - 1);
      HeaderByte(Bytes(rx, f[..k - 1]), f[k - 1]);
      PlusAssociates(NONE, NONE, NONE);
    }
  }

  /** The sixteenth byte. */
  lemma LastOfHeader(was: Rx, h: seq<byte>)
    requires Sized(was) && was.state == HEADER && was.pos == 15 && |h| == HDR_SIZE && was.buf[..15] == h[..15]
    requires !HeaderCrcOk(h) || LengthField(h) > MAX_PAYLOAD
    ensures var (r, e) := OnByte(was, h[15]);
            r.state == ERROR && r.pos == 16 && r.buf[..16] == h && e == if HeaderCrcOk(h) then BadLength else BadHeader
  {
    hide HeaderCrcOk, TrailerOk;
    var buf := was.buf[15 := h[15]];
    assert h == h[..15] + [h[15]];
    assert buf[..16] == was.buf[..15] + [h[15]] == h;
    assert buf[2] == buf[..16][2] && buf[3] == buf[..16][3];
  }

  lemma HeaderEnds(rx: Rx, h: seq<byte>)
    requires Sized(rx) && Waiting(rx) && |h| == HDR_SIZE && h[0] == SYNC
    requires !HeaderCrcOk(h) || LengthField(h) > MAX_PAYLOAD
    ensures var r := Bytes(rx, h); r.state == ERROR && r.pos == 16 && r.buf[..16] == h
    ensures Sum(rx, h) == if HeaderCrcOk(h) then NONE.(len := 1) else NONE.(hdrCrc := 1)
  {
    hide HeaderCrcOk, Bytes, Sum, OnByte, Plus, Waiting;
    HeaderArrives(rx, h, 15);
    HeaderQuiet(rx, h, 15);
    assert h == h[..15] + [h[15]];
    OneMore(rx, h[..15], h[15]);
    LastOfHeader(Bytes(rx, h[..15]), h);
    PlusAssociates(Sum(rx, h), NONE, NONE);
    PlusAssociates(One(OnByte(Bytes(rx, h[..15]), h[15]).1), NONE, NONE);
  }

  lemma {:induction false} FrameQuiet(rx: Rx, f: seq<byte>, k: nat)
    requires Sized(rx) && Waiting(rx) && Framed(f) && 1 <= k < |f|
    ensures Sum(rx, f[..k]) == NONE
    decreases k
  {
    hide HeaderCrcOk, OnByte, Bytes, Sum, Plus, Framed, Trailed, Partial, Waiting;
    FramedParts(f);
    if k < HDR_SIZE {
      HeaderQuiet(rx, f, k);
    } else {
      FrameQuiet(rx, f, k - 1);
      Midway(rx, f, k - 1);
      MidwayStep(f, k, Bytes(rx, f[..k - 1]));
      NextByte(rx, f, k);
      PlusAssociates(NONE, NONE, NONE);
    }
  }

  lemma FramedParts(f: seq<byte>)
    requires Framed(f)
    ensures |f| >= 20 && f[0] == SYNC
  {
  }

  lemma FrameEnds(rx: Rx, f: seq<byte>)
    requires Sized(rx) && Waiting(rx) && Framed(f)
    ensures Sum(rx, f) == if Trailed(f) then NONE.(validated := 1) else NONE.(payCrc := 1)
    ensures Partial(Bytes(rx, f), f, |f|)
  {
    hide HeaderCrcOk, OnByte, Bytes, Sum, Plus, Framed, Trailed, Partial, Waiting;
    FramedParts(f);
    var n := |f|;
    var most := f[..n - 1];
    assert f == most + [f[n - 1]];
    FrameQuiet(rx, f, n - 1);
    Midway(rx, f, n - 1);
    MidwayStep(f, n, Bytes(rx, most));
    OneMore(rx, most, f[n - 1]);
    PlusAssociates(One(OnByte(Bytes(rx, most), f[n - 1]).1), NONE, NONE);
  }

  lemma {:induction false} Dropped(rx: Rx, s: seq<byte>)
    requires Sized(rx) && rx.state == COMPLETE
    ensures Bytes(rx, s) == rx && Sum(rx, s) == NONE.(overflows := |s|)
    decreases |s|
  {
    hide Bytes, Sum;
    NothingYet(rx);
    if s != [] {
      Dropped(rx, s[..|s| - 1]);
      assert s == s[..|s| - 1] + [s[|s| - 1]];
      OneMore(rx, s[..|s| - 1], s[|s| - 1]);
    }
  }

  // ----- the machine against the decoder

  /** The state, the bytes held and the totals are those decoded. */
  predicate Matches(rx: Rx, t: Totals, d: Decoded)
    requires Sized(rx)
  {
    rx.state == d.state && t == d.totals && rx.pos == |d.held| && rx.buf[..rx.pos] == d.held
  }

  /** Waiting, with what was last refused. */
  predicate Left(rx: Rx, refused: seq<byte>)
    requires Sized(rx)
  {
    && rx.state == (if refused == [] then IDLE else ERROR)
    && rx.pos == |refused| && rx.buf[..rx.pos] == refused
  }

  /** From either waiting state, byte by byte comes to the same as all at once. */
  lemma {:induction false} ByteByByte(rx: Rx, s: seq<byte>, refused: seq<byte>)
    requires Sized(rx) && Left(rx, refused)
    ensures Matches(Bytes(rx, s), Sum(rx, s), Decode(s, refused))
    decreases |s|
  {
    hide HeaderCrcOk, Matches, Bytes, Sum, Decode, OnByte, Framed, Trailed;
    if s == [] {
      EmptyStream(rx, refused);
    } else if s[0] != SYNC {
      SkipOne(rx, s[0]);
      assert s[..1] == [s[0]];
      ByteByByte(rx, s[1..], refused);
      DecodeSkips(s, refused);
      Continue(rx, s, 1, if refused == [] then NONE.(sync := 1) else NONE, refused, refused);
    } else if |s| < HDR_SIZE {
      HeaderMatches(rx, s, refused);
    } else {
      var h := s[..16];
      assert h[0] == s[0] && h[2] == s[2] && h[3] == s[3];
      if !HeaderCrcOk(h) || LengthField(h) > MAX_PAYLOAD {
        HeaderEnds(rx, h);
        ByteByByte(Bytes(rx, h), s[16..], h);
        DecodeRefusesHeader(s, refused);
        Continue(rx, s, 16, if HeaderCrcOk(h) then NONE.(len := 1) else NONE.(hdrCrc := 1), refused, h);
      } else if |s| < 20 + LengthField(h) {
        PartMatches(rx, s, refused);
      } else {
        FrameMatches(rx, s, refused);
        var n := 20 + LengthField(h);
        if !Trailed(s[..n]) {
          ByteByByte(Bytes(rx, s[..n]), s[n..], s[..n]);
          Continue(rx, s, n, NONE.(payCrc := 1), refused, s[..n]);
        }
      }
    }
  }

  lemma EmptyStream(rx: Rx, refused: seq<byte>)
    requires Sized(rx) && Left(rx, refused)
    ensures Matches(Bytes(rx, []), Sum(rx, []), Decode([], refused))
  {
  }

  lemma SkipOne(rx: Rx, b: byte)
    requires Sized(rx) && Waiting(rx) && b != SYNC
    ensures Bytes(rx, [b]) == rx && Sum(rx, [b]) == if rx.state == ERROR then NONE else NONE.(sync := 1)
  {
    hide Bytes, Sum;
    OneByte(rx, b);
  }

  lemma DecodeSkips(s: seq<byte>, refused: seq<byte>)
    requires s != [] && s[0] != SYNC
    ensures Decode(s, refused) == Adding(if refused == [] then NONE.(sync := 1) else NONE, Decode(s[1..], refused))
  {
    hide Checksum, Message;
  }

  /** What is skipped or refused only adds to the totals. */
  lemma Continue(rx: Rx, s: seq<byte>, j: nat, t: Totals, before: seq<byte>, behind: seq<byte>)
    requires Sized(rx) && j <= |s| && Sum(rx, s[..j]) == t
    requires var mid, rest := Bytes(rx, s[..j]), s[j..];
             && Matches(Bytes(mid, rest), Sum(mid, rest), Decode(rest, behind))
             && Decode(s, before) == Adding(t, Decode(rest, behind))
    ensures Matches(Bytes(rx, s), Sum(rx, s), Decode(s, before))
  {
    hide Bytes, Sum, Decode;
    TwoStrings(rx, s[..j], s[j..]);
    assert s[..j] + s[j..] == s;
  }

  lemma HeaderMatches(rx: Rx, s: seq<byte>, refused: seq<byte>)
    requires Sized(rx) && Waiting(rx) && 1 <= |s| < HDR_SIZE && s[0] == SYNC
    ensures Matches(Bytes(rx, s), Sum(rx, s), Decode(s, refused))
  {
    hide Bytes, Sum;
    HeaderArrives(rx, s, |s|);
    HeaderQuiet(rx, s, |s|);
    assert s[..|s|] == s;
  }

  lemma HeaderTest(s: seq<byte>)
    requires |s| >= HDR_SIZE
    ensures HeaderCrcOk(s[..16]) <==> Checksum(Crc64, s[..8]) == Message(s[8..16])
    ensures LengthField(s[..16]) == LengthField(s) == s[2] as int + 256 * s[3] as int
  {
    assert s[..16][..8] == s[..8] && s[..16][8..] == s[8..16];
  }

  lemma DecodeRefusesHeader(s: seq<byte>, refused: seq<byte>)
    requires |s| >= HDR_SIZE && s[0] == SYNC && (!HeaderCrcOk(s[..16]) || LengthField(s[..16]) > MAX_PAYLOAD)
    ensures Decode(s, refused)
         == Adding(if HeaderCrcOk(s[..16]) then NONE.(len := 1) else NONE.(hdrCrc := 1), Decode(s[16..], s[..16]))
  {
    hide Checksum, Message, HeaderCrcOk;
    HeaderTest(s);
  }

  /** A prefix of a frame with a good header. */
  lemma PartMatches(rx: Rx, s: seq<byte>, refused: seq<byte>)
    requires Sized(rx) && Waiting(rx) && |s| >= HDR_SIZE && s[0] == SYNC && HeaderCrcOk(s[..16])
    requires LengthField(s[..16]) <= MAX_PAYLOAD && |s| < 20 + LengthField(s[..16])
    ensures Matches(Bytes(rx, s), Sum(rx, s), Decode(s, refused))
  {
    hide Checksum, Message, HeaderCrcOk, Bytes, Sum, Trailed;
    HeaderTest(s);
    var n := 20 + LengthField(s);
    var f := s + Zeros(n - |s|);
    assert f[..16] == s[..16] && f[..|s|] == s;
    Midway(rx, f, |s|);
    FrameQuiet(rx, f, |s|);
  }

  /** A whole frame with a good header and whatever is behind it. */
  lemma FrameMatches(rx: Rx, s: seq<byte>, refused: seq<byte>)
    requires Sized(rx) && Waiting(rx) && |s| >= HDR_SIZE && s[0] == SYNC && HeaderCrcOk(s[..16])
    requires LengthField(s[..16]) <= MAX_PAYLOAD && |s| >= 20 + LengthField(s[..16])
    ensures var n := 20 + LengthField(s[..16]);
            && Framed(s[..n])
            && (if Trailed(s[..n]) then Matches(Bytes(rx, s), Sum(rx, s), Decode(s, refused))
                else
                  && Left(Bytes(rx, s[..n]), s[..n]) && Sum(rx, s[..n]) == NONE.(payCrc := 1)
                  && Decode(s, refused) == Adding(NONE.(payCrc := 1), Decode(s[n..], s[..n])))
  {
    hide HeaderCrcOk, Bytes, Sum, Decode, Trailed, Framed, Partial, Matches;
    HeaderTest(s);
    var n := 20 + LengthField(s);
    var f := s[..n];
    FramedPrefix(s, n);
    FrameEnds(rx, f);
    PartialWhole(Bytes(rx, f), f);
    DecodeFrame(s, n, refused);
    if Trailed(f) { GoodMatches(rx, s, n, refused); }
  }

  lemma FramedPrefix(s: seq<byte>, n: nat)
    requires |s| >= HDR_SIZE && s[0] == SYNC && HeaderCrcOk(s[..16]) && LengthField(s) <= MAX_PAYLOAD
    requires n == 20 + LengthField(s) <= |s|
    ensures Framed(s[..n])
  {
    hide HeaderCrcOk;
    var f := s[..n];
    assert f[..16] == s[..16] && f[2] == s[2] && f[3] == s[3];
  }

  lemma GoodMatches(rx: Rx, s: seq<byte>, n: nat, refused: seq<byte>)
    requires Sized(rx) && n <= |s|
    requires var r := Bytes(rx, s[..n]); r.state == COMPLETE && r.pos == n && r.buf[..n] == s[..n]
    requires Sum(rx, s[..n]) == NONE.(validated := 1)
    requires Decode(s, refused)
          == Decoded(COMPLETE, s[..n], NONE.(validated := 1, overflows := |s| - n))
    ensures Matches(Bytes(rx, s), Sum(rx, s), Decode(s, refused))
  {
    hide Bytes, Sum, Decode;
    var f, rest := s[..n], s[n..];
    assert f + rest == s;
    Dropped(Bytes(rx, f), rest);
    TwoStrings(rx, f, rest);
  }

  lemma PartialWhole(rx: Rx, f: seq<byte>)
    requires Framed(f) && Sized(rx) && Partial(rx, f, |f|)
    ensures rx.pos == |f| && rx.buf[..rx.pos] == f && rx.state == if Trailed(f) then COMPLETE else ERROR
  {
    hide Trailed, HeaderCrcOk;
    assert f[..|f|] == f;
  }

  lemma DecodeFrame(s: seq<byte>, n: nat, refused: seq<byte>)
    requires |s| >= HDR_SIZE && s[0] == SYNC && HeaderCrcOk(s[..16]) && LengthField(s) <= MAX_PAYLOAD
    requires n == 20 + LengthField(s) <= |s| && Framed(s[..n])
    ensures Decode(s, refused)
         == if Trailed(s[..n]) then Decoded(COMPLETE, s[..n], NONE.(validated := 1, overflows := |s| - n))
            else Adding(NONE.(payCrc := 1), Decode(s[n..], s[..n]))
  {
    hide Checksum, Message, HeaderCrcOk, Framed, Trailed;
    HeaderTest(s);
    TrailerTest(s, n);
  }

  lemma TrailerTest(s: seq<byte>, n: nat)
    requires 20 <= n <= |s| && Framed(s[..n])
    ensures Trailed(s[..n]) <==> Checksum(Crc32, s[16..n - 4]) == Message(s[n - 4..n])
  {
    hide Checksum, Message, HeaderCrcOk;
    assert s[..n][16..n - 4] == s[16..n - 4] && s[..n][n - 4..] == s[n - 4..n];
  }

  // ----- whole runs

  /** The bytes since the last release. */
  function Current(actions: seq<Action>): seq<byte> {
    if actions == [] then []
    else
      match actions[|actions| - 1]
      case Byte(b) => Current(actions[..|actions| - 1]) + [b]
      case ReleaseFrame => []
  }

  /** The totals up to the last release: every release starts a stream of its own. */
  function Earlier(actions: seq<Action>): Totals {
    if actions == [] then NONE
    else
      var before := actions[..|actions| - 1];
      match actions[|actions| - 1]
      case Byte(_) => Earlier(before)
      case ReleaseFrame => Plus(Earlier(before), Decode(Current(before), []).totals)
  }

  function Arrived(actions: seq<Action>): nat {
    if actions == [] then 0
    else Arrived(actions[..|actions| - 1]) + if actions[|actions| - 1].Byte? then 1 else 0
  }

  /** The 32-bit counters for given totals. */
  predicate Shows(stats: Stats, t: Totals, bytes: nat) {
    && stats.validated == stats.received == Word(t.validated) && stats.sync == Word(t.sync)
    && stats.hdrCrc == Word(t.hdrCrc) && stats.len == Word(t.len) && stats.payCrc == Word(t.payCrc)
    && stats.overflows == Word(t.overflows) && stats.bytes == Word(bytes)
  }

  /** The machine as the last release left it. */
  function Base(actions: seq<Action>): (rx: Rx)
    ensures Sized(rx)
  {
    if actions == [] then FRESH
    else
      var before := actions[..|actions| - 1];
      match actions[|actions| - 1]
      case Byte(_) => Base(before)
      case ReleaseFrame => Release(After(before).rx)
  }

  lemma ShowsMore(stats: Stats, t: Totals, n: nat, e: Event)
    requires Shows(stats, t, n)
    ensures Shows(Tally(stats, e), Plus(t, One(e)), n + 1)
  {
    hide Word, Inc;
    IncWord(t.validated);
    IncWord(t.sync);
    IncWord(t.hdrCrc);
    IncWord(t.len);
    IncWord(t.payCrc);
    IncWord(t.overflows);
    IncWord(n);
  }

  lemma ReleaseIsIdle(rx: Rx)
    requires Sized(rx)
    ensures Sized(Release(rx)) && Left(Release(rx), [])
  {
  }

  lemma {:induction false} RunFromBase(actions: seq<Action>)
    ensures Left(Base(actions), [])
    ensures After(actions).rx == Bytes(Base(actions), Current(actions))
    ensures Shows(After(actions).stats, Plus(Earlier(actions), Sum(Base(actions), Current(actions))), Arrived(actions))
    decreases |actions|
  {
    hide OnByte, Tally, Decode, Release, Sized, Shows, Bytes, Sum, One, Plus;
    if actions == [] {
      AtStart();
      NothingYet(FRESH);
      PlusAssociates(NONE, NONE, NONE);
    } else {
      var before := actions[..|actions| - 1];
      var base, cur := Base(before), Current(before);
      RunFromBase(before);
      match actions[|actions| - 1] {
        case Byte(b) =>
          ShowsMore(After(before).stats, Plus(Earlier(before), Sum(base, cur)), Arrived(before),
                    OnByte(After(before).rx, b).1);
          OneMore(base, cur, b);
          PlusAssociates(Earlier(before), Sum(base, cur), One(OnByte(After(before).rx, b).1));
        case ReleaseFrame =>
          ReleaseIsIdle(After(before).rx);
          ByteByByte(base, cur, []);
          TotalsOf(Bytes(base, cur), Sum(base, cur), Decode(cur, []));
          NothingYet(Release(After(before).rx));
          PlusAssociates(Earlier(actions), NONE, NONE);
      }
    }
  }

  lemma TotalsOf(rx: Rx, t: Totals, d: Decoded)
    requires Sized(rx) && Matches(rx, t, d)
    ensures t == d.totals
  {
  }

  lemma AtStart()
    ensures Shows(NO_STATS, NONE, 0)
  {
  }

  /** Over every run of bytes and releases: the receiver is in the state, and holds the bytes, that decoding the bytes
      since the last release gives; a frame is ready exactly in COMPLETE; and all its counters are what decoding the
      stretches between releases adds up to, modulo 2^32. */
  lemma RunDecoded(actions: seq<Action>)
    ensures var r, d := After(actions), Decode(Current(actions), []);
            && Matches(r.rx, d.totals, d)
            && (r.rx.ready <==> d.state == COMPLETE)
            && Shows(r.stats, Plus(Earlier(actions), d.totals), Arrived(actions))
  {
    hide OnByte, Tally, Decode, Release, Shows, Bytes, Sum, Plus, After, ValidFrame;
    RunFromBase(actions);
    ByteByByte(Base(actions), Current(actions), []);
    FramesAccountedFor(actions);
  }

  // ----- the counters, state by state

  datatype Kinds = Skipped | HeaderBad | TooLong | PayloadBad | Good | Overflown

  /** What the byte b is to a receiver in the given state. */
  predicate Is(k: Kinds, rx: Rx, b: byte)
    requires Sized(rx)
  {
    var lastOfHeader := rx.state == HEADER && rx.pos == 15;
    var lastOfFrame := rx.state == PAYLOAD && rx.pos == 16 + rx.payloadLen + 3 < BUF_SIZE;
    match k
    case Skipped => rx.state == IDLE && b != 0xAA
    case HeaderBad => lastOfHeader && Checksum(Crc64, rx.buf[..8]) != Message(rx.buf[8..15] + [b])
    case TooLong =>
      && lastOfHeader && Checksum(Crc64, rx.buf[..8]) == Message(rx.buf[8..15] + [b])
      && rx.buf[2] as int + 256 * rx.buf[3] as int > 4092
    case PayloadBad =>
      lastOfFrame && Checksum(Crc32, rx.buf[16..rx.pos - 3]) != Message(rx.buf[rx.pos - 3..rx.pos] + [b])
    case Good =>
      lastOfFrame && Checksum(Crc32, rx.buf[16..rx.pos - 3]) == Message(rx.buf[rx.pos - 3..rx.pos] + [b])
    case Overflown => rx.state == COMPLETE
  }

  /** How many bytes of a run were that. */
  function Number(k: Kinds, actions: seq<Action>): nat {
    if actions == [] then 0
    else
      var before, a := actions[..|actions| - 1], actions[|actions| - 1];
      Number(k, before) + if a.Byte? && Is(k, After(before).rx, a.b) then 1 else 0
  }

  function Field(k: Kinds, t: Totals): nat {
    match k
    case Skipped => t.sync
    case HeaderBad => t.hdrCrc
    case TooLong => t.len
    case PayloadBad => t.payCrc
    case Good => t.validated
    case Overflown => t.overflows
  }

  lemma KindOfByte(rx: Rx, b: byte, k: Kinds)
    requires Isr.Reachable(rx)
    ensures Field(k, One(OnByte(rx, b).1)) == if Is(k, rx, b) then 1 else 0
  {
    hide Checksum, Message;
    if rx.state == HEADER && rx.pos == 15 {
      var buf := rx.buf[15 := b];
      assert buf[..16][..8] == rx.buf[..8] && buf[..16][8..] == rx.buf[8..15] + [b];
    } else if rx.state == PAYLOAD && rx.pos == 16 + rx.payloadLen + 3 {
      var buf := rx.buf[rx.pos := b];
      assert buf[16..rx.pos - 3] == rx.buf[16..rx.pos - 3];
      assert buf[rx.pos - 3..rx.pos + 1] == rx.buf[rx.pos - 3..rx.pos] + [b];
    }
  }

  predicate Numbered(stats: Stats, actions: seq<Action>) {
    && stats.sync == Word(Number(Skipped, actions)) && stats.hdrCrc == Word(Number(HeaderBad, actions))
    && stats.len == Word(Number(TooLong, actions)) && stats.payCrc == Word(Number(PayloadBad, actions))
    && stats.validated == stats.received == Word(Number(Good, actions))
    && stats.overflows == Word(Number(Overflown, actions)) && stats.bytes == Word(Arrived(actions))
  }

  /** Over every run, modulo 2^32: frames_rejected_sync counts the bytes other than a sync byte that met the receiver
      IDLE; frames_rejected_hdr_crc and frames_rejected_len the bytes that ended a header with a wrong CRC-64, or with
      a right one and more than 4092 for a length; frames_rejected_pay_crc and frames_validated the bytes that ended a
      frame with a wrong or right CRC-32; and rx_overflows the bytes that met it COMPLETE. */
  lemma {:induction false} CountersNumber(actions: seq<Action>)
    ensures Numbered(After(actions).stats, actions)
    decreases |actions|
  {
    hide OnByte, One, Is, Tally, Release, Word, Isr.Reachable;
    if actions == [] {
      WordOfNone();
    } else {
      var before := actions[..|actions| - 1];
      CountersNumber(before);
      match actions[|actions| - 1] {
        case Byte(b) =>
          FramesAccountedFor(before);
          var r := After(before);
          NumberedMore(r.stats, before, actions, OnByte(r.rx, b).1);
        case ReleaseFrame =>
      }
    }
  }

  lemma WordOfNone()
    ensures Word(0) == 0
  {
  }

  lemma NumberedMore(stats: Stats, before: seq<Action>, actions: seq<Action>, e: Event)
    requires Numbered(stats, before) && actions != [] && before == actions[..|actions| - 1]
    requires var a, r := actions[|actions| - 1], After(before);
             a.Byte? && Isr.Reachable(r.rx) && e == OnByte(r.rx, a.b).1
    ensures Numbered(Tally(stats, e), actions)
  {
    hide OnByte, One, Is, Tally, Word, Isr.Reachable, After;
    var rx, b := After(before).rx, actions[|actions| - 1].b;
    forall k: Kinds ensures Number(k, actions) == Number(k, before) + Field(k, One(e)) { KindOfByte(rx, b, k); }
    var t := Totals(Number(Skipped, before), Number(HeaderBad, before), Number(TooLong, before),
                    Number(PayloadBad, before), Number(Good, before), Number(Overflown, before));
    ShowsMore(stats, t, Arrived(before), e);
  }
}
