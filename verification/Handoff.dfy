/** The handoff between the SPI interrupt and the main loop: spi0_rx_get_frame and
    spi0_rx_release_frame taken store by store, with interrupts between any two of them. */
module Handoff {
  import opened Bitwise
  import opened Crc
  import opened Frame
  import opened Isr
  import A = Assembler

  type Item = A.Item

  /** Where the main loop is. Holding: get_frame has returned. Wiping(i): about to test and clear byte i.
      The last four are about to make the named store of release_frame. */
  datatype Pc = Polling | SawReady | Holding(len: nat) | Wiping(i: nat) | ClearReady | ClearPos | ClearLen | ClearState

  /** The shared spi0_rx, the main loop, and two histories: the frames the interrupt handler has
      validated and the ones get_frame has returned. */
  datatype Sys = Sys(rx: Rx, pc: Pc, validated: seq<seq<byte>>, handed: seq<seq<byte>>)

  datatype Action = Interrupt(b: byte) | MainStep

  /** The next load or store of the main loop. */
  function Main(s: Sys): (r: Sys)
    requires Sized(s.rx)
    ensures Sized(r.rx)
  {
    var rx := s.rx;
    match s.pc
    case Polling => if rx.ready then s.(pc := SawReady) else s
    case SawReady => s.(pc := Holding(rx.pos), handed := s.handed + [rx.buf[..rx.pos]])
    case Holding(_) => s.(pc := Wiping(0))
    case Wiping(i) =>
      if i < rx.pos then s.(rx := rx.(buf := rx.buf[i := 0]), pc := Wiping(i + 1)) else s.(pc := ClearReady)
    case ClearReady => s.(rx := rx.(ready := false), pc := ClearPos)
    case ClearPos => s.(rx := rx.(pos := 0), pc := ClearLen)
    case ClearLen => s.(rx := rx.(payloadLen := 0), pc := ClearState)
    case ClearState => s.(rx := rx.(state := IDLE), pc := Polling)
  }

  function Next(s: Sys, a: Action): (r: Sys)
    requires Sized(s.rx)
    ensures Sized(r.rx)
  {
    match a
    case MainStep => Main(s)
    case Interrupt(b) =>
      var (rx, e) := OnByte(s.rx, b);
      s.(rx := rx, validated := if e == Validated then s.validated + [rx.buf[..rx.pos]] else s.validated)
  }

  const START := Sys(FRESH, Polling, [], [])

  function Reached(actions: seq<Action>): (r: Sys)
    ensures Sized(r.rx)
    decreases |actions|
  {
    if actions == [] then START else Next(Reached(actions[..|actions| - 1]), actions[|actions| - 1])
  }

  predicate AllZero(s: seq<byte>) { forall i | 0 <= i < |s| :: s[i] == 0 }

  /** The latest validated frame. */
  function Latest(s: Sys): seq<byte>
    requires s.validated != []
  {
    s.validated[|s.validated| - 1]
  }

  /** The invariant, location by location. Until state is stored, it stays COMPLETE, so that the interrupt
      handler only counts overflows and touches none of what the main loop reads or clears. */
  predicate Inv(s: Sys) {
    && Sized(s.rx)
    && (forall f | f in s.validated :: ValidFrame(f))
    && if s.pc == Polling then AtRest(s) else s.rx.state == COMPLETE && s.validated != [] && Engaged(s)
  }

  predicate AtRest(s: Sys)
    requires Sized(s.rx)
  {
    && Isr.Reachable(s.rx)
    && if s.rx.state == COMPLETE
       then s.validated != [] && s.rx.buf[..s.rx.pos] == Latest(s) && s.handed == s.validated[..|s.validated| - 1]
       else s.handed == s.validated
  }

  predicate Engaged(s: Sys)
    requires Sized(s.rx) && s.validated != []
  {
    var rx, n := s.rx, |Latest(s)|;
    && n <= BUF_SIZE
    && match s.pc
       case Polling => false
       case SawReady => rx.ready && rx.buf[..rx.pos] == Latest(s) && s.handed == s.validated[..|s.validated| - 1]
       case Holding(len) => rx.ready && len == rx.pos && rx.buf[..rx.pos] == Latest(s) && s.handed == s.validated
       case Wiping(i) =>
         && rx.ready && i <= rx.pos == n && AllZero(rx.buf[..i]) && rx.buf[i..n] == Latest(s)[i..]
         && s.handed == s.validated
       case ClearReady => rx.ready && rx.pos == n && AllZero(rx.buf[..n]) && s.handed == s.validated
       case ClearPos => !rx.ready && rx.pos == n && AllZero(rx.buf[..n]) && s.handed == s.validated
       case ClearLen => !rx.ready && rx.pos == 0 && AllZero(rx.buf[..n]) && s.handed == s.validated
       case ClearState =>
         !rx.ready && rx.pos == 0 && rx.payloadLen == 0 && AllZero(rx.buf[..n]) && s.handed == s.validated
  }

  lemma InterruptKeepsInv(s: Sys, b: byte)
    requires Inv(s)
    ensures Inv(Next(s, Interrupt(b)))
  {
    hide HeaderCrcOk, TrailerOk, ValidFrame;
    if s.pc == Polling {
      OnByteKeepsReachable(s.rx, b);
    }
  }

  lemma MainKeepsInv(s: Sys)
    requires Inv(s)
    ensures Inv(Main(s))
  {
    hide HeaderCrcOk, TrailerOk, ValidFrame;
    match s.pc
    case Wiping(i) =>
      if i < s.rx.pos {
        assert Latest(s)[i..][1..] == Latest(s)[i + 1..];
        assert s.rx.buf[i..s.rx.pos][1..] == s.rx.buf[i + 1..s.rx.pos];
        assert Main(s).rx.buf[i + 1..s.rx.pos] == s.rx.buf[i + 1..s.rx.pos];
      }
    case SawReady =>
      assert s.validated == s.validated[..|s.validated| - 1] + [Latest(s)];
    case _ =>
  }

  lemma {:induction false} InvAlways(actions: seq<Action>)
    ensures Inv(Reached(actions))
    decreases |actions|
  {
    hide Inv, Next;
    if actions == [] {
      StartInv();
    } else {
      InvAlways(actions[..|actions| - 1]);
      var s := Reached(actions[..|actions| - 1]);
      match actions[|actions| - 1]
      case MainStep => MainKeepsInv(s); NextMain(s);
      case Interrupt(b) => InterruptKeepsInv(s, b);
    }
  }

  lemma StartInv()
    ensures Inv(START)
  {
  }

  lemma NextMain(s: Sys)
    requires Sized(s.rx)
    ensures Next(s, MainStep) == Main(s)
  {
  }

  /** Whatever interrupts arrive and whenever: the bytes get_frame points at are a validated frame, byte
      for byte, as long as the main loop holds them; frame_ready implies COMPLETE; and get_frame returns
      the validated frames once each, in order, all but possibly the last one. */
  lemma HandoffSafe(actions: seq<Action>)
    ensures var s := Reached(actions);
            && (s.rx.ready ==> s.rx.state == COMPLETE)
            && (s.pc.Holding? ==>
                  && s.validated != [] && s.pc.len <= BUF_SIZE
                  && s.rx.buf[..s.pc.len] == Latest(s) && ValidFrame(Latest(s)))
            && s.handed <= s.validated && |s.validated| <= |s.handed| + 1
  {
    hide ValidFrame, HeaderCrcOk, TrailerOk;
    InvAlways(actions);
  }

  /** The last store of a release leaves a machine ready for the next frame, with nothing of the old frame
      in its buffer, whatever arrived during the release. */
  lemma ReleaseLeavesClean(actions: seq<Action>)
    requires Reached(actions).pc == ClearState
    ensures var s := Reached(actions);
            var r := Main(s).rx;
            r.state == IDLE && r.pos == 0 && r.payloadLen == 0 && !r.ready
            && s.validated != [] && |Latest(s)| <= BUF_SIZE && AllZero(r.buf[..|Latest(s)|])
  {
    hide ValidFrame;
    InvAlways(actions);
  }

  /** Interrupts for a byte string, the main loop making no step. */
  function ByteRun(s: Sys, bytes: seq<byte>): (r: Sys)
    requires Sized(s.rx)
    ensures Sized(r.rx)
    decreases |bytes|
  {
    if bytes == [] then s else Next(ByteRun(s, bytes[..|bytes| - 1]), Interrupt(bytes[|bytes| - 1]))
  }

  /** Between the moment get_frame sees the flag and the store of state, any number of interrupts leaves
      the shared memory exactly as it was. */
  lemma {:induction false} InterruptsCannotInterfere(s: Sys, bytes: seq<byte>)
    requires Inv(s) && s.pc != Polling
    ensures ByteRun(s, bytes) == s
    decreases |bytes|
  {
    hide ValidFrame, AllZero;
    if bytes != [] {
      InterruptsCannotInterfere(s, bytes[..|bytes| - 1]);
    }
  }

  // ----- every frame gets through

  lemma {:induction false} NoiseIgnored(s: Sys, gap: seq<byte>)
    requires Sized(s.rx) && Waiting(s.rx) && SYNC !in gap
    ensures ByteRun(s, gap) == s
    decreases |gap|
  {
    if gap != [] {
      NoiseIgnored(s, gap[..|gap| - 1]);
      assert gap[|gap| - 1] in gap;
    }
  }

  lemma {:induction false} FrameReceived(s: Sys, f: seq<byte>, k: nat)
    requires Sized(s.rx) && Waiting(s.rx) && ValidFrame(f) && k <= |f|
    ensures ByteRun(s, f[..k])
            == s.(rx := Bytes(s.rx, f[..k]), validated := if k < |f| then s.validated else s.validated + [f])
    decreases k
  {
    hide HeaderCrcOk, TrailerOk, OnByte;
    if k > 0 {
      FrameReceived(s, f, k - 1);
      Midway(s.rx, f, k - 1);
      assert f[..k][..k - 1] == f[..k - 1];
      var was := Bytes(s.rx, f[..k - 1]);
      if k == 1 {
        FirstByte(was, f[0]);
      } else {
        MidwayStep(f, k, was);
        assert f[..|f|] == f;
      }
    }
  }

  lemma FirstByte(rx: Rx, b: byte)
    requires Sized(rx) && Waiting(rx)
    ensures OnByte(rx, b).1 != Validated
  {
  }

  function MainRun(s: Sys, n: nat): (r: Sys)
    requires Sized(s.rx)
    ensures Sized(r.rx)
  {
    if n == 0 then s else Main(MainRun(s, n - 1))
  }

  lemma {:induction false} MainRunAdd(s: Sys, m: nat, n: nat)
    requires Sized(s.rx)
    ensures MainRun(s, m + n) == MainRun(MainRun(s, m), n)
  {
    hide Main;
    if n > 0 { MainRunAdd(s, m, n - 1); }
  }

  lemma {:induction false} Wipes(s: Sys, n: nat)
    requires Inv(s) && s.pc == Wiping(0) && n <= s.rx.pos
    ensures var r := MainRun(s, n);
            Inv(r) && r.pc == Wiping(n) && r.rx.pos == s.rx.pos && r.handed == s.handed && r.validated == s.validated
  {
    hide Inv;
    InvSized(s);
    if n > 0 {
      Wipes(s, n - 1);
      MainKeepsInv(MainRun(s, n - 1));
    }
  }

  /** The steps from the poll that sees a frame to the store that ends its release. */
  lemma ServesOne(s: Sys)
    requires Inv(s) && s.pc == Polling && s.rx.state == COMPLETE
    ensures var r := MainRun(s, s.rx.pos + 8);
            Inv(r) && r.pc == Polling && r.rx.state == IDLE && r.validated == s.validated && r.handed == s.validated
  {
    hide Inv, Main, MainRun;
    InvSized(s);
    var n := s.rx.pos;
    ThreeSteps(s);
    var t := MainRun(s, 3);
    Wipes(t, n);
    MainRunAdd(s, 3, n);
    FiveSteps(MainRun(s, 3 + n));
    MainRunAdd(s, 3 + n, 5);
  }

  lemma ThreeSteps(s: Sys)
    requires Inv(s) && s.pc == Polling && s.rx.state == COMPLETE
    ensures var t := MainRun(s, 3);
            Inv(t) && t.pc == Wiping(0) && t.rx.pos == s.rx.pos && t.validated == s.validated && t.handed == s.validated
  {
    MainKeepsInv(s);
    var s1 := Main(s);
    MainKeepsInv(s1);
    var s2 := Main(s1);
    MainKeepsInv(s2);
    assert MainRun(s, 3) == Main(MainRun(s, 2)) && MainRun(s, 2) == Main(MainRun(s, 1)) && MainRun(s, 1) == s1;
  }

  lemma FiveSteps(t: Sys)
    requires Inv(t) && t.pc == Wiping(t.rx.pos)
    ensures var r := MainRun(t, 5);
            Inv(r) && r.pc == Polling && r.rx.state == IDLE && r.validated == t.validated && r.handed == t.handed
  {
    MainKeepsInv(t);
    var t1 := Main(t);
    MainKeepsInv(t1);
    var t2 := Main(t1);
    MainKeepsInv(t2);
    var t3 := Main(t2);
    MainKeepsInv(t3);
    var t4 := Main(t3);
    MainKeepsInv(t4);
    assert MainRun(t, 1) == t1;
    assert MainRun(t, 2) == t2;
    assert MainRun(t, 3) == t3;
    assert MainRun(t, 4) == t4;
  }

  lemma InvSized(s: Sys)
    requires Inv(s)
    ensures Sized(s.rx)
  {
  }

  /** One frame and the noise before it arrive; then the main loop polls, takes it and releases it. */
  function Serve(s: Sys, it: Item): (r: Sys)
    requires Sized(s.rx)
    ensures Sized(r.rx)
  {
    MainRun(ByteRun(ByteRun(s, it.gap), Encode(it.m)), |Encode(it.m)| + 8)
  }

  function ServeAll(s: Sys, items: seq<Item>): (r: Sys)
    requires Sized(s.rx)
    ensures Sized(r.rx)
    decreases |items|
  {
    if items == [] then s else ServeAll(Serve(s, items[0]), items[1..])
  }

  function Frames(items: seq<Item>): seq<seq<byte>> {
    if items == [] then [] else [Encode(items[0].m)] + Frames(items[1..])
  }

  lemma ValidMeans(f: seq<byte>)
    requires ValidFrame(f)
    ensures Framed(f) && Trailed(f) && |f| > 1
  {
  }

  lemma ServesItem(s: Sys, it: Item)
    requires Inv(s) && s.pc == Polling && Waiting(s.rx)
    requires SYNC !in it.gap && |it.m.payload| <= MAX_PAYLOAD
    ensures var r := Serve(s, it);
            Inv(r) && r.pc == Polling && r.rx.state == IDLE && r.handed == s.validated + [Encode(it.m)] == r.validated
  {
    hide ValidFrame, Framed, Trailed, Partial, Encode, Main;
    var f := Encode(it.m);
    EncodedIsValid(it.m);
    ValidMeans(f);
    NoiseIgnored(s, it.gap);
    FrameReceived(s, f, |f|);
    assert f[..|f|] == f;
    BytesKeepInv(s, f);
    Midway(s.rx, f, |f|);
    PartialEnd(Bytes(s.rx, f), f);
    ServesOne(ByteRun(s, f));
  }

  lemma PartialEnd(rx: Rx, f: seq<byte>)
    requires ValidFrame(f) && Sized(rx) && Partial(rx, f, |f|)
    ensures rx.state == COMPLETE && rx.pos == |f|
  {
  }

  lemma {:induction false} BytesKeepInv(s: Sys, bytes: seq<byte>)
    requires Inv(s)
    ensures Inv(ByteRun(s, bytes)) && ByteRun(s, bytes).pc == s.pc
    decreases |bytes|
  {
    hide Inv, OnByte;
    InvSized(s);
    if bytes != [] {
      BytesKeepInv(s, bytes[..|bytes| - 1]);
      InterruptKeepsInv(ByteRun(s, bytes[..|bytes| - 1]), bytes[|bytes| - 1]);
    }
  }

  /** Frames from either builder, noise between them, and a main loop that releases each before the next
      begins: get_frame returns every frame, byte for byte, once and in order. */
  lemma {:induction false} EveryFrameHanded(s: Sys, items: seq<Item>)
    requires Inv(s) && s.pc == Polling && Waiting(s.rx) && A.Sendable(items)
    ensures var r := ServeAll(s, items);
            r.handed == r.validated == s.validated + Frames(items) && r.pc == Polling && Waiting(r.rx)
    decreases |items|
  {
    hide Serve, ValidFrame, Encode;
    if items == [] {
      assert s.validated + [] == s.validated;
    } else {
      ServesItem(s, items[0]);
      EveryFrameHanded(Serve(s, items[0]), items[1..]);
      assert (s.validated + [Encode(items[0].m)]) + Frames(items[1..]) == s.validated + Frames(items);
    }
  }

  // ----- the stores of a release against the release as one step

  lemma {:induction false} WipesTo(s: Sys, n: nat)
    requires Inv(s) && s.pc == Wiping(0) && n <= s.rx.pos
    ensures Sized(s.rx)
    ensures MainRun(s, n) == s.(pc := Wiping(n), rx := s.rx.(buf := Zeros(n) + s.rx.buf[n..]))
  {
    hide Zeros, Main, MainRun, Inv;
    InvSized(s);
    if n == 0 {
      NoSteps(s);
    } else {
      WipesTo(s, n - 1);
      OneMoreStep(s, n);
      WipeOne(MainRun(s, n - 1), n - 1);
      ZeroNext(s.rx.buf, n);
    }
  }

  lemma NoSteps(s: Sys)
    requires Sized(s.rx) && s.pc == Wiping(0)
    ensures MainRun(s, 0) == s.(pc := Wiping(0), rx := s.rx.(buf := Zeros(0) + s.rx.buf[0..]))
  {
    assert Zeros(0) + s.rx.buf[0..] == s.rx.buf;
  }

  lemma OneMoreStep(s: Sys, n: nat)
    requires Sized(s.rx) && n > 0
    ensures MainRun(s, n) == Main(MainRun(s, n - 1))
  {
    hide Main;
  }

  lemma ZeroNext(buf: seq<byte>, n: nat)
    requires 0 < n <= |buf|
    ensures (Zeros(n - 1) + buf[n - 1..])[n - 1 := 0] == Zeros(n) + buf[n..]
  {
    hide Zeros;
  }

  lemma WipeOne(t: Sys, i: nat)
    requires Sized(t.rx) && t.pc == Wiping(i) && i < t.rx.pos
    ensures Main(t) == t.(pc := Wiping(i + 1), rx := t.rx.(buf := t.rx.buf[i := 0]))
  {
  }

  /** The main loop's loads and stores from where it holds a frame to the end of its release are the release as one
      step. Interrupts in between make no difference, because until the last of them they change nothing. */
  lemma ReleaseInSteps(s: Sys)
    requires Inv(s) && s.pc.Holding?
    ensures Sized(s.rx)
    ensures var r := MainRun(s, s.rx.pos + 6);
            r.rx == Release(s.rx) && r.pc == Polling && r.validated == s.validated && r.handed == s.handed
  {
    hide Zeros, MainRun, Inv;
    InvSized(s);
    var n := s.rx.pos;
    MainRunAdd(s, 1, n);
    MainRunAdd(s, 1 + n, 5);
    MainKeepsInv(s);
    OneMain(s);
    var t := Main(s);
    WipesTo(t, n);
    LastFive(MainRun(t, n));
  }

  lemma OneMain(s: Sys)
    requires Sized(s.rx)
    ensures MainRun(s, 1) == Main(s)
  {
    assert MainRun(s, 0) == s;
  }

  lemma LastFive(t: Sys)
    requires Sized(t.rx) && t.pc == Wiping(t.rx.pos)
    ensures MainRun(t, 5) == t.(pc := Polling, rx := Rx(t.rx.buf, 0, IDLE, 0, false))
  {
    var t1 := Main(t);
    var t2 := Main(t1);
    var t3 := Main(t2);
    var t4 := Main(t3);
    assert MainRun(t, 1) == t1;
    assert MainRun(t, 2) == t2;
    assert MainRun(t, 3) == t3;
    assert MainRun(t, 4) == t4;
  }

  // ----- every interleaving

  /** The receiver and main loop; how much of the stream has arrived: items before i whole, of item i the first g
      bytes of its noise and the first k of its frame; and two histories: the items whose frame began while the
      receiver was not COMPLETE, and whether item i is one, once k > 0. */
  datatype World = World(s: Sys, i: nat, g: nat, k: nat, kept: seq<Item>, caught: bool)

  /** The next byte of the stream arrives, or the main loop makes its next load or store. */
  datatype Move = Arrive | Step

  function OnArrive(items: seq<Item>, w: World): (r: World)
    requires Sized(w.s.rx)
    ensures Sized(r.s.rx)
  {
    if w.i >= |items| then w
    else
      var gap, f := items[w.i].gap, Encode(items[w.i].m);
      if w.g < |gap| then w.(s := Next(w.s, Interrupt(gap[w.g])), g := w.g + 1)
      else if w.k >= |f| then w
      else
        var caught := if w.k == 0 then w.s.rx.state != COMPLETE else w.caught;
        var kept := if w.k == 0 && caught then w.kept + [items[w.i]] else w.kept;
        var t := Next(w.s, Interrupt(f[w.k]));
        if w.k + 1 < |f| then World(t, w.i, w.g, w.k + 1, kept, caught) else World(t, w.i + 1, 0, 0, kept, caught)
  }

  function Moved(items: seq<Item>, w: World, a: Move): (r: World)
    requires Sized(w.s.rx)
    ensures Sized(r.s.rx)
  {
    if a == Arrive then OnArrive(items, w) else w.(s := Main(w.s))
  }

  const AT_START := World(START, 0, 0, 0, [], false)

  function After(items: seq<Item>, moves: seq<Move>): (w: World)
    ensures Sized(w.s.rx)
    decreases |moves|
  {
    if moves == [] then AT_START
    else Moved(items, After(items, moves[..|moves| - 1]), moves[|moves| - 1])
  }

  /** The items whose frame began while the receiver was not COMPLETE and has arrived whole. */
  function Done(w: World): seq<Item> {
    if w.k > 0 && w.caught && w.kept != [] then w.kept[..|w.kept| - 1] else w.kept
  }

  /** The next byte of the stream is the first of a frame. */
  predicate AtFrame(items: seq<Item>, w: World) { w.i < |items| && w.g == |items[w.i].gap| && w.k == 0 }

  /** No sync byte after the first. */
  predicate QuietFrame(m: Msg) { SYNC !in Encode(m)[1..] }

  predicate LateFrameQuiet(items: seq<Item>, w: World)
    requires Sized(w.s.rx)
  {
    AtFrame(items, w) && w.s.rx.state == COMPLETE ==> QuietFrame(items[w.i].m)
  }

  /** Every frame that begins before the one before it is released is free of sync bytes after its first. */
  predicate Clean(items: seq<Item>, moves: seq<Move>) {
    forall n | 0 <= n < |moves| :: moves[n] == Arrive ==> LateFrameQuiet(items, After(items, moves[..n]))
  }

  /** No frame begins before the one before it is released. */
  predicate InTime(items: seq<Item>, moves: seq<Move>) {
    forall n | 0 <= n < |moves| ::
      var w := After(items, moves[..n]); moves[n] == Arrive && AtFrame(items, w) ==> w.s.rx.state != COMPLETE
  }

  predicate Receiving(s: Sys, f: seq<byte>, k: nat) {
    s.pc == Polling && Sized(s.rx) && 1 <= k < |f| && ValidFrame(f) && Partial(s.rx, f, k)
  }

  predicate WorldInv(items: seq<Item>, w: World) {
    && Inv(w.s) && w.i <= |items|
    && w.s.validated == Frames(Done(w))
    && (w.k == 0 || !w.caught ==> !Busy(w.s.rx))
    && (w.i == |items| ==> w.k == 0)
    && (w.i < |items| ==>
          var gap, f := items[w.i].gap, Encode(items[w.i].m);
          && w.g <= |gap| && w.k < |f|
          && (w.k > 0 ==> w.g == |gap|)
          && (w.k > 0 && w.caught ==> w.kept != [] && w.kept[|w.kept| - 1] == items[w.i] && Receiving(w.s, f, w.k))
          && (w.k > 0 && !w.caught ==> QuietFrame(items[w.i].m)))
  }

  lemma NoiseChangesNothing(s: Sys, b: byte)
    requires Sized(s.rx) && !Busy(s.rx) && (b != SYNC || s.rx.state == COMPLETE)
    ensures Next(s, Interrupt(b)) == s
  {
  }

  lemma FirstOfFrame(s: Sys, f: seq<byte>)
    requires Inv(s) && s.rx.state != COMPLETE && !Busy(s.rx) && ValidFrame(f)
    ensures var r := Next(s, Interrupt(f[0])); r.validated == s.validated && Receiving(r, f, 1)
  {
    hide HeaderCrcOk, Trailed;
    assert s.rx.buf[0 := f[0]][..1] == f[..1];
  }

  lemma MoreOfFrame(s: Sys, f: seq<byte>, k: nat)
    requires Receiving(s, f, k)
    ensures var r := Next(s, Interrupt(f[k]));
            if k + 1 < |f| then r.validated == s.validated && Receiving(r, f, k + 1)
            else r.validated == s.validated + [f] && !Busy(r.rx)
  {
    hide HeaderCrcOk, Trailed, OnByte;
    MidwayStep(f, k + 1, s.rx);
    assert f[..|f|] == f;
  }

  lemma PollingIsBusy(s: Sys, f: seq<byte>, k: nat)
    requires Inv(s) && Receiving(s, f, k)
    ensures Main(s) == s && Busy(s.rx)
  {
    hide HeaderCrcOk, Trailed;
  }

  lemma MainStaysFree(s: Sys)
    requires Inv(s) && !Busy(s.rx)
    ensures !Busy(Main(s).rx) && Main(s).validated == s.validated
  {
    hide ValidFrame;
  }

  lemma {:induction false} FramesAppend(items: seq<Item>, it: Item)
    ensures Frames(items + [it]) == Frames(items) + [Encode(it.m)]
    decreases |items|
  {
    hide Encode;
    if items == [] {
      assert items + [it] == [it] && [it][1..] == [];
      assert Frames([it]) == [Encode(it.m)] + Frames([]);
    } else {
      FramesAppend(items[1..], it);
      assert (items + [it])[1..] == items[1..] + [it];
    }
  }

  lemma ArriveKeepsInv(items: seq<Item>, w: World)
    requires A.Sendable(items) && WorldInv(items, w) && Sized(w.s.rx) && LateFrameQuiet(items, w)
    ensures WorldInv(items, OnArrive(items, w))
  {
    hide Inv, ValidFrame, Receiving, Encode, Next, Frames, Busy, QuietFrame;
    if w.i < |items| {
      var it := items[w.i];
      if w.g < |it.gap| {
        assert it.gap[w.g] in it.gap;
        InterruptKeepsInv(w.s, it.gap[w.g]);
        NoiseChangesNothing(w.s, it.gap[w.g]);
      } else {
        Sizes(items, w.i);
        FrameByteKeepsInv(items, w);
      }
    }
  }

  lemma Sizes(items: seq<Item>, i: nat)
    requires A.Sendable(items) && i < |items|
    ensures ValidFrame(Encode(items[i].m)) && |Encode(items[i].m)| > 1
    ensures i + 1 < |items| ==> |Encode(items[i + 1].m)| > 1
  {
    hide Encode, ValidFrame;
    EncodedIsValid(items[i].m);
    ValidMeans(Encode(items[i].m));
    if i + 1 < |items| {
      EncodedIsValid(items[i + 1].m);
      ValidMeans(Encode(items[i + 1].m));
    }
  }

  lemma FrameByteKeepsInv(items: seq<Item>, w: World)
    requires WorldInv(items, w) && Sized(w.s.rx) && LateFrameQuiet(items, w)
    requires w.i < |items| && w.g == |items[w.i].gap|
    requires ValidFrame(Encode(items[w.i].m)) && |Encode(items[w.i].m)| > 1
    requires w.i + 1 < |items| ==> |Encode(items[w.i + 1].m)| > 1
    ensures WorldInv(items, OnArrive(items, w))
  {
    hide Inv, ValidFrame, Receiving, Encode, Next, Frames, Busy, QuietFrame;
    var it := items[w.i];
    var f := Encode(it.m);
    InterruptKeepsInv(w.s, f[w.k]);
    if w.k == 0 && w.s.rx.state != COMPLETE {
      FirstOfFrame(w.s, f);
      assert (w.kept + [it])[..|w.kept|] == w.kept;
    } else if w.k > 0 && w.caught {
      MoreOfFrame(w.s, f, w.k);
      FramesAppend(Done(w), it);
      assert Done(w) + [it] == w.kept;
    } else {
      if w.k > 0 { LaterBytes(it.m, w.k); }
      NoiseChangesNothing(w.s, f[w.k]);
    }
  }

  lemma LaterBytes(m: Msg, k: nat)
    requires QuietFrame(m) && 1 <= k < |Encode(m)|
    ensures Encode(m)[k] != SYNC
  {
    hide Encode;
    assert Encode(m)[k] == Encode(m)[1..][k - 1];
  }

  lemma StepKeepsInv(items: seq<Item>, w: World)
    requires WorldInv(items, w)
    ensures WorldInv(items, w.(s := Main(w.s)))
  {
    hide Inv, Main, Busy, Frames, Encode, QuietFrame;
    InvSized(w.s);
    MainKeepsInv(w.s);
    if w.k == 0 || !w.caught {
      MainStaysFree(w.s);
    } else {
      PollingIsBusy(w.s, Encode(items[w.i].m), w.k);
    }
  }

  lemma {:induction false} WorldInvAlways(items: seq<Item>, moves: seq<Move>)
    requires A.Sendable(items) && Clean(items, moves)
    ensures WorldInv(items, After(items, moves))
    decreases |moves|
  {
    hide WorldInv, OnArrive, Main, LateFrameQuiet;
    if moves == [] {
      WorldStart(items);
    } else {
      var before := moves[..|moves| - 1];
      assert forall n | 0 <= n < |before| :: before[..n] == moves[..n];
      WorldInvAlways(items, before);
      if moves[|moves| - 1] == Arrive {
        ArriveKeepsInv(items, After(items, before));
      } else {
        StepKeepsInv(items, After(items, before));
      }
    }
  }

  lemma WorldStart(items: seq<Item>)
    ensures WorldInv(items, AT_START)
  {
    hide Encode;
    StartInv();
    NonEmpty(items);
  }

  lemma NonEmpty(items: seq<Item>)
    ensures items != [] ==> |Encode(items[0].m)| > 0
  {
  }

  /** Built frames with sync-free noise between them arrive while the main loop polls, takes and releases, one
      load or store at a time, in any interleaving; a frame may begin before the one before it is released if it
      has no sync byte after its first. Then the handler validates exactly the frames that began while it was not
      COMPLETE, as they become whole; get_frame has returned all of them or all but the last one; what the main loop
      holds is the last one; and when the receiver is not COMPLETE at the end of the stream get_frame has returned
      all of them, once and in order. */
  lemma KeptExactly(items: seq<Item>, moves: seq<Move>)
    requires A.Sendable(items) && Clean(items, moves)
    ensures var w := After(items, moves);
            && w.i <= |items|
            && w.s.validated == Frames(Done(w))
            && w.s.handed <= w.s.validated && |w.s.validated| <= |w.s.handed| + 1
            && (w.s.pc.Holding? ==>
                  && Done(w) != [] && w.s.pc.len <= BUF_SIZE
                  && w.s.rx.buf[..w.s.pc.len] == Encode(Done(w)[|Done(w)| - 1].m))
            && (w.i == |items| && w.s.rx.state != COMPLETE ==> w.s.handed == Frames(w.kept))
  {
    hide Inv, After, Encode, Frames, Receiving, Clean, Done;
    WorldInvAlways(items, moves);
    var w := After(items, moves);
    InvHands(w.s);
    NothingDone();
    WholeStream(w);
    if Done(w) != [] { LastFrame(Done(w)); }
  }

  lemma NothingDone()
    ensures Frames([]) == []
  {
  }

  lemma WholeStream(w: World)
    ensures w.k == 0 ==> Done(w) == w.kept
  {
  }

  lemma LastFrame(items: seq<Item>)
    requires items != []
    ensures Frames(items) != [] && Frames(items)[|Frames(items)| - 1] == Encode(items[|items| - 1].m)
  {
    hide Encode, Frames;
    FramesAppend(items[..|items| - 1], items[|items| - 1]);
    assert items[..|items| - 1] + [items[|items| - 1]] == items;
  }

  lemma InvHands(s: Sys)
    requires Inv(s)
    ensures s.handed <= s.validated && |s.validated| <= |s.handed| + 1
    ensures s.pc.Holding? ==> s.validated != [] && s.pc.len <= BUF_SIZE && s.rx.buf[..s.pc.len] == Latest(s)
    ensures s.rx.state != COMPLETE ==> s.handed == s.validated
  {
    hide ValidFrame, AllZero;
  }

  // ----- releases in time

  lemma InTimeIsClean(items: seq<Item>, moves: seq<Move>)
    requires InTime(items, moves)
    ensures Clean(items, moves)
  {
    hide After, QuietFrame;
  }

  /** Then no frame is missed. */
  lemma {:induction false} InTimeMissesNone(items: seq<Item>, moves: seq<Move>)
    requires A.Sendable(items) && InTime(items, moves)
    ensures MissesNone(items, After(items, moves))
    decreases |moves|
  {
    hide MissesNone, OnArrive, Main, AtFrame;
    if moves == [] {
      assert MissesNone(items, AT_START) by { AtStartMissesNone(items); }
    } else {
      var before := moves[..|moves| - 1];
      assert forall n | 0 <= n < |before| :: before[..n] == moves[..n];
      InTimeMissesNone(items, before);
      var w := After(items, before);
      if moves[|moves| - 1] == Arrive {
        InTimeIsClean(items, before);
        Bounded(items, before);
        ArriveMissesNone(items, w);
      } else {
        StepMissesNone(items, w);
      }
    }
  }

  predicate MissesNone(items: seq<Item>, w: World) {
    && w.i <= |items| && (w.k > 0 ==> w.i < |items| && w.caught)
    && w.kept == items[..w.i] + if w.k > 0 then [items[w.i]] else []
  }

  lemma AtStartMissesNone(items: seq<Item>)
    ensures MissesNone(items, AT_START)
  {
    assert items[..0] + [] == [];
  }

  lemma StepMissesNone(items: seq<Item>, w: World)
    requires MissesNone(items, w) && Sized(w.s.rx)
    ensures MissesNone(items, w.(s := Main(w.s)))
  {
    hide Main;
  }

  lemma ArriveMissesNone(items: seq<Item>, w: World)
    requires A.Sendable(items) && MissesNone(items, w) && Sized(w.s.rx)
    requires w.i < |items| ==> w.g <= |items[w.i].gap|
    requires AtFrame(items, w) ==> w.s.rx.state != COMPLETE
    ensures MissesNone(items, OnArrive(items, w))
  {
    hide Next, Encode;
    if w.i < |items| {
      Sizes(items, w.i);
      assert items[..w.i + 1] == items[..w.i] + [items[w.i]];
      assert items[..w.i] + [] == items[..w.i] && items[..w.i + 1] + [] == items[..w.i + 1];
    }
  }

  lemma Bounded(items: seq<Item>, moves: seq<Move>)
    requires A.Sendable(items) && Clean(items, moves)
    ensures var w := After(items, moves); w.i < |items| ==> w.g <= |items[w.i].gap|
  {
    hide After, Inv, Receiving, Frames, Encode, Clean;
    WorldInvAlways(items, moves);
  }

  /** If no frame begins before the one before it is released, the handler validates exactly the frames that have
      arrived whole; get_frame has returned all of them, or all but the last one; what the main loop holds is the
      last one, byte for byte; and when the receiver is not COMPLETE at the end of the stream every frame has been
      returned, once and in order. */
  lemma InTimeAllHanded(items: seq<Item>, moves: seq<Move>)
    requires A.Sendable(items) && InTime(items, moves)
    ensures var w := After(items, moves);
            && w.i <= |items|
            && w.s.validated == Frames(items[..w.i])
            && w.s.handed <= w.s.validated && |w.s.validated| <= |w.s.handed| + 1
            && (w.s.pc.Holding? ==>
                  && 0 < w.i && w.s.pc.len <= BUF_SIZE
                  && w.s.rx.buf[..w.s.pc.len] == Encode(items[w.i - 1].m))
            && (w.i == |items| && w.s.rx.state != COMPLETE ==> w.s.handed == Frames(items))
  {
    hide After, Encode, Frames, InTime, Clean;
    InTimeIsClean(items, moves);
    InTimeMissesNone(items, moves);
    KeptExactly(items, moves);
    var w := After(items, moves);
    assert items[..|items|] == items;
    assert Done(w) == items[..w.i];
    if w.k == 0 { WholeStream(w); }
  }

  // ----- such runs exist

  lemma Append(items: seq<Item>, moves: seq<Move>, a: Move)
    requires InTime(items, moves)
    requires a == Arrive && AtFrame(items, After(items, moves)) ==> After(items, moves).s.rx.state != COMPLETE
    ensures InTime(items, moves + [a]) && After(items, moves + [a]) == Moved(items, After(items, moves), a)
  {
    hide Moved;
    var more := moves + [a];
    assert more[..|moves|] == moves;
    assert forall n | 0 <= n < |moves| :: more[..n] == moves[..n];
  }

  /** Between items: nothing of item n has arrived, and the main loop polls a receiver without a frame. */
  predicate Ready(items: seq<Item>, moves: seq<Move>, n: nat) {
    var w := After(items, moves);
    InTime(items, moves) && w.i == n && w.g == 0 && w.k == 0 && w.s.pc == Polling && w.s.rx.state != COMPLETE
  }

  /** The rest of item n arrives. */
  lemma {:induction false} ArriveRest(items: seq<Item>, moves: seq<Move>, n: nat) returns (more: seq<Move>)
    requires A.Sendable(items) && n < |items| && InTime(items, moves)
    requires var w := After(items, moves);
             w.i == n && w.s.pc == Polling && (w.k == 0 ==> w.s.rx.state != COMPLETE)
    ensures InTime(items, more)
    ensures var r := After(items, more); r.i == n + 1 && r.g == 0 && r.k == 0 && r.s.pc == Polling
    decreases |items[n].gap| - After(items, moves).g + |Encode(items[n].m)| - After(items, moves).k
  {
    hide After, InTime, Encode, Inv, Frames, Receiving, Clean;
    var w := After(items, moves);
    InTimeIsClean(items, moves);
    WorldInvAlways(items, moves);
    Append(items, moves, Arrive);
    var r := OnArrive(items, w);
    ArriveParts(items, w);
    if r.i == n + 1 {
      more := moves + [Arrive];
    } else {
      more := ArriveRest(items, moves + [Arrive], n);
    }
  }

  lemma ArriveParts(items: seq<Item>, w: World)
    requires A.Sendable(items) && WorldInv(items, w) && w.i < |items| && w.s.pc == Polling
    requires w.k == 0 ==> w.s.rx.state != COMPLETE
    ensures Sized(w.s.rx)
    ensures var r := OnArrive(items, w);
            && r.s.pc == Polling
            && (r.i == w.i ==> r.g + r.k == w.g + w.k + 1 && (r.k == 0 ==> r.s.rx.state != COMPLETE))
            && (r.i != w.i ==> r.i == w.i + 1 && r.g == 0 && r.k == 0)
  {
    hide Inv, Frames, Encode, ValidFrame, Receiving, Busy, OnByte;
    InvSized(w.s);
    if w.g < |items[w.i].gap| {
      assert items[w.i].gap[w.g] in items[w.i].gap;
      NoiseChangesNothing(w.s, items[w.i].gap[w.g]);
    }
  }

  /** The main loop takes and releases the frame that has arrived. */
  lemma {:induction false} StepRun(items: seq<Item>, moves: seq<Move>, n: nat) returns (more: seq<Move>)
    requires InTime(items, moves)
    ensures InTime(items, more)
    ensures After(items, more) == After(items, moves).(s := MainRun(After(items, moves).s, n))
  {
    hide After, InTime, Main;
    if n == 0 {
      more := moves;
    } else {
      var fewer := StepRun(items, moves, n - 1);
      Append(items, fewer, Step);
      more := fewer + [Step];
    }
  }

  /** For every list of built frames with sync-free noise between them some interleaving is in time and finishes,
      and then every frame has been returned: InTimeAllHanded speaks of something. */
  lemma {:induction false} CanServe(items: seq<Item>, n: nat) returns (moves: seq<Move>)
    requires A.Sendable(items) && n <= |items|
    ensures Ready(items, moves, n)
    ensures n == |items| ==> After(items, moves).s.handed == Frames(items)
  {
    hide After, InTime, Inv, Frames, Encode;
    if n == 0 {
      moves := [];
      NothingMoved(items);
    } else {
      var before := CanServe(items, n - 1);
      var arrived := ArriveRest(items, before, n - 1);
      var w := After(items, arrived);
      InTimeIsClean(items, arrived);
      WorldInvAlways(items, arrived);
      if w.s.rx.state == COMPLETE {
        ServesOne(w.s);
        InvSized(w.s);
        moves := StepRun(items, arrived, w.s.rx.pos + 8);
      } else {
        moves := arrived;
      }
    }
    InTimeAllHanded(items, moves);
  }

  lemma NothingMoved(items: seq<Item>)
    ensures After(items, []) == AT_START && InTime(items, [])
  {
  }
}
