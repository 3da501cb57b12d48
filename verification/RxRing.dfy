/** The lock-free byte ring between the SPI interrupt and the main loop: as an object, and as a machine
    that interleaves the loads and stores of both sides with the frame assembler behind it. */
module RxRing {
  import opened Bitwise
  import opened ByteRing
  import opened Frame
  import opened Assembler

  const SIZE := 8192

  type index = x: int | 0 <= x < SIZE

  /** spi_rx_buf, spi_rx_head, spi_rx_tail and spi_rx_overrun. */
  class Ring {
    const buf: array<byte>
    var head: index
    var tail: index
    var overrun: nat

    ghost predicate Valid()
      reads this, buf
    {
      buf.Length == SIZE
    }

    ghost function Contents(): seq<byte>
      reads this, buf
      requires Valid()
    {
      Queued(buf[..], head, tail)
    }

    constructor ()
      ensures Valid() && fresh(buf) && Contents() == [] && overrun == 0
    {
      buf := new byte[SIZE];
      head, tail, overrun := 0, 0, 0;
    }

    /** The body of the loop in the fallback spi0_handler: a byte is queued unless 8191 already are. */
    method Receive(b: byte)
      requires Valid()
      modifies this`head, this`overrun, buf
      ensures Valid() && tail == old(tail)
      ensures if |old(Contents())| < SIZE - 1 then Contents() == old(Contents()) + [b] && overrun == old(overrun)
              else Contents() == old(Contents()) && overrun == Inc(old(overrun))
    {
      IndicesAreModulo(head + 1, head, tail, SIZE);
      var nextHead := (head + 1) % SIZE;
      if nextHead != tail {
        StoreUnseen(buf[..], head, tail, b);
        Publish(buf[..][head := b], head, tail);
        buf[head] := b;
        assert buf[..] == old(buf[..])[head := b];
        head := nextHead;
      } else {
        overrun := Inc(overrun);
      }
    }
  }

  // ----- the two sides interleaved

  /** Fetched: about to compare with the tail. MayStore: about to write the slot. Stored: about to publish
      the new head. */
  datatype Producer =
    | Ready
    | Fetched(b: byte, next: index)
    | MayStore(b: byte, next: index)
    | Stored(b: byte, next: index)

  /** Check: about to compare head and tail. Load: about to read the slot. Advance: about to store the
      tail. Process: about to feed the byte to the assembler. Leaving spi_protocol_process and entering it
      again happens at Check and changes nothing. */
  datatype Consumer = Check | Load | Advance(b: byte) | Process(b: byte)

  /** wire is the whole byte stream, of which the first `arrived` have come out of the SPI FIFO. The last
      three fields are histories: the wire positions of the bytes published so far, the bytes the consumer
      has taken, and the number of bytes dropped. */
  datatype Sys = Sys(wire: seq<byte>, arrived: nat, buf: seq<byte>, head: index, tail: index, overrun: nat,
                     prod: Producer, cons: Consumer, rx: Rx, log: seq<Outcome>,
                     at: seq<int>, taken: seq<byte>, lost: nat)

  predicate Sized(s: Sys) { |s.buf| == SIZE && s.arrived <= |s.wire| && InBounds(s.rx) }

  function ProducerStep(s: Sys): (r: Sys)
    requires Sized(s)
    ensures Sized(r)
  {
    match s.prod
    case Ready =>
      if s.arrived < |s.wire|
      then s.(arrived := s.arrived + 1, prod := Fetched(s.wire[s.arrived], Slot(s.head + 1, SIZE))) else s
    case Fetched(b, next) =>
      if next != s.tail then s.(prod := MayStore(b, next))
      else s.(prod := Ready, overrun := Inc(s.overrun), lost := s.lost + 1)
    case MayStore(b, next) => s.(buf := s.buf[s.head := b], prod := Stored(b, next))
    case Stored(b, next) => s.(head := next, prod := Ready, at := s.at + [s.arrived - 1])
  }

  function ConsumerStep(s: Sys): (r: Sys)
    requires Sized(s)
    ensures Sized(r)
  {
    match s.cons
    case Check => if s.head != s.tail then s.(cons := Load) else s
    case Load => s.(cons := Advance(s.buf[s.tail]))
    case Advance(b) => s.(tail := Slot(s.tail + 1, SIZE), cons := Process(b), taken := s.taken + [b])
    case Process(b) =>
      var (rx, o) := Feed(s.rx, b);
      s.(cons := Check, rx := rx, log := s.log + Note(o))
  }

  datatype Action = Produce | Take

  function Start(wire: seq<byte>, buf: seq<byte>): Sys {
    Sys(wire, 0, buf, 0, 0, 0, Ready, Check, Idle, [], [], [], 0)
  }

  function Next(s: Sys, a: Action): (r: Sys)
    requires Sized(s)
    ensures Sized(r)
  {
    if a == Produce then ProducerStep(s) else ConsumerStep(s)
  }

  function Reached(wire: seq<byte>, buf: seq<byte>, actions: seq<Action>): (r: Sys)
    requires |buf| == SIZE
    ensures Sized(r)
    decreases |actions|
  {
    if actions == [] then Start(wire, buf)
    else Next(Reached(wire, buf, actions[..|actions| - 1]), actions[|actions| - 1])
  }

  function Queue(s: Sys): seq<byte>
    requires Sized(s)
  {
    Queued(s.buf, s.head, s.tail)
  }

  /** 1 while a byte is between the FIFO and the ring. */
  function InFlight(s: Sys): nat { if s.prod == Ready then 0 else 1 }

  /** The bytes the assembler has been fed. */
  function Processed(s: Sys): seq<byte>
    requires s.cons.Process? ==> s.taken != []
  {
    if s.cons.Process? then s.taken[..|s.taken| - 1] else s.taken
  }

  predicate ProducerInv(s: Sys)
    requires Sized(s)
  {
    match s.prod
    case Ready => true
    case Fetched(b, next) => s.arrived > 0 && b == s.wire[s.arrived - 1] && next == Slot(s.head + 1, SIZE)
    case MayStore(b, next) =>
      && s.arrived > 0 && b == s.wire[s.arrived - 1]
      && next == Slot(s.head + 1, SIZE) && Used(s.head, s.tail, SIZE) < SIZE - 1
    case Stored(b, next) =>
      && s.arrived > 0 && b == s.wire[s.arrived - 1]
      && next == Slot(s.head + 1, SIZE) && Used(s.head, s.tail, SIZE) < SIZE - 1 && s.buf[s.head] == b
  }

  predicate ConsumerInv(s: Sys)
    requires Sized(s)
  {
    match s.cons
    case Check => true
    case Load => s.head != s.tail
    case Advance(b) => s.head != s.tail && b == s.buf[s.tail]
    case Process(b) => s.taken != [] && s.taken[|s.taken| - 1] == b
  }

  /** flow is, byte for byte and in order, what was published; `flying` is 1 for a byte under way. */
  predicate Flow(flow: seq<byte>, at: seq<int>, wire: seq<byte>, arrived: nat, flying: nat, lost: nat) {
    && arrived <= |wire| && |flow| == |at|
    && (forall i | 0 <= i < |at| :: 0 <= at[i] < arrived - flying && flow[i] == wire[at[i]])
    && (forall i, j | 0 <= i < j < |at| :: at[i] < at[j])
    && arrived == |at| + lost + flying
    && (lost == 0 ==> flow == wire[..|at|])
  }

  predicate FlowInv(s: Sys)
    requires Sized(s)
  {
    && Flow(s.taken + Queue(s), s.at, s.wire, s.arrived, InFlight(s), s.lost)
    && s.overrun == Word(s.lost)
  }

  lemma FlowMoves(flow: seq<byte>, at: seq<int>, wire: seq<byte>, arrived: nat, lost: nat)
    ensures Flow(flow, at, wire, arrived, 0, lost) && arrived < |wire| ==> Flow(flow, at, wire, arrived + 1, 1, lost)
    ensures Flow(flow, at, wire, arrived, 1, lost) ==> Flow(flow, at, wire, arrived, 0, lost + 1)
    ensures Flow(flow, at, wire, arrived, 1, lost)
            ==> Flow(flow + [wire[arrived - 1]], at + [arrived - 1], wire, arrived, 0, lost)
  {
    if Flow(flow, at, wire, arrived, 1, lost) && lost == 0 {
      assert wire[..|at| + 1] == wire[..|at|] + [wire[|at|]];
    }
  }

  predicate Inv(s: Sys) {
    && Sized(s) && ProducerInv(s) && ConsumerInv(s) && FlowInv(s)
    && FeedAll(Idle, Processed(s)) == (s.rx, s.log)
  }

  lemma ProducerKeepsInv(s: Sys)
    requires Inv(s)
    ensures Inv(ProducerStep(s))
  {
    hide Queued, Slot, FeedAll, InBounds, FlowInv, ConsumerInv;
    NotFull(s.head, s.tail, SIZE);
    ProducerKeepsFlow(s);
    ProducerKeepsConsumer(s);
  }

  lemma ProducerKeepsConsumer(s: Sys)
    requires Sized(s) && ProducerInv(s) && ConsumerInv(s)
    ensures ConsumerInv(ProducerStep(s))
  {
    hide Queued, InBounds;
  }

  lemma ProducerKeepsFlow(s: Sys)
    requires Sized(s) && ProducerInv(s) && FlowInv(s)
    ensures FlowInv(ProducerStep(s))
  {
    hide Queue, Slot, InBounds, Flow, Inc, Word;
    IncWord(s.lost);
    ProducerRefines(s);
    FlowMoves(s.taken + Queue(s), s.at, s.wire, s.arrived, s.lost);
    if s.prod.Stored? {
      assert s.taken + Queue(ProducerStep(s)) == (s.taken + Queue(s)) + [s.prod.b];
    }
  }

  lemma ConsumerKeepsInv(s: Sys)
    requires Inv(s)
    ensures Inv(ConsumerStep(s))
  {
    hide Queued, Slot, FeedAll, InBounds, Feed, Flow;
    var r := ConsumerStep(s);
    match s.cons
    case Check =>
    case Load =>
    case Advance(b) =>
      Consume(s.buf, s.head, s.tail);
      UsedMoves(s.head, s.tail, SIZE);
      assert r.taken + Queue(r) == s.taken + Queue(s);
      assert Processed(r) == s.taken;
    case Process(b) =>
      FedOne(Processed(s), b, s.rx, s.log);
      assert Processed(s) + [b] == s.taken;
  }

  lemma FedOne(s: seq<byte>, b: byte, rx: Rx, log: seq<Outcome>)
    requires FeedAll(Idle, s) == (rx, log) && InBounds(rx)
    ensures FeedAll(Idle, s + [b]) == (Feed(rx, b).0, log + Note(Feed(rx, b).1))
  {
    FeedAppend(Idle, s, [b]);
    var (next, o) := Feed(rx, b);
    assert [b][1..] == [] && FeedAll(next, []) == (next, []);
    assert FeedAll(rx, [b]) == (next, Note(o) + []);
    assert Note(o) + [] == Note(o);
  }

  lemma {:induction false} InvAlways(wire: seq<byte>, buf: seq<byte>, actions: seq<Action>)
    requires |buf| == SIZE
    ensures Inv(Reached(wire, buf, actions))
    decreases |actions|
  {
    hide Inv, ProducerStep, ConsumerStep;
    if actions == [] {
      StartInv(wire, buf);
    } else {
      InvAlways(wire, buf, actions[..|actions| - 1]);
      var s := Reached(wire, buf, actions[..|actions| - 1]);
      InvSized(s);
      ProducerKeepsInv(s);
      ConsumerKeepsInv(s);
    }
  }

  lemma InvSized(s: Sys)
    requires Inv(s)
    ensures Sized(s)
  {
  }

  lemma StartInv(wire: seq<byte>, buf: seq<byte>)
    requires |buf| == SIZE
    ensures Inv(Start(wire, buf))
  {
  }

  lemma ProducerRefines(s: Sys)
    requires Sized(s) && ProducerInv(s)
    ensures Queue(ProducerStep(s)) == if s.prod.Stored? then Queue(s) + [s.prod.b] else Queue(s)
  {
    hide Queued, Slot, InBounds;
    match s.prod
    case MayStore(b, next) => StoreUnseen(s.buf, s.head, s.tail, b);
    case Stored(b, next) => Publish(s.buf, s.head, s.tail);
    case _ =>
  }

  lemma ConsumerRefines(s: Sys)
    requires Sized(s) && ConsumerInv(s)
    ensures Queue(s) == if s.cons.Advance? then [s.cons.b] + Queue(ConsumerStep(s)) else Queue(ConsumerStep(s))
  {
    hide Queued, Slot, InBounds, Feed;
    if s.cons.Advance? {
      Consume(s.buf, s.head, s.tail);
    }
  }

  /** Every store and load of either side is a step of a FIFO queue, or invisible to it: a publication
      appends the byte that was fetched, a tail store removes the byte that was loaded. */
  lemma RefinesFifo(wire: seq<byte>, buf: seq<byte>, actions: seq<Action>, a: Action)
    requires |buf| == SIZE
    ensures var s := Reached(wire, buf, actions);
            var r := Next(s, a);
            if a == Produce && s.prod.Stored? then Queue(r) == Queue(s) + [s.prod.b]
            else if a == Take && s.cons.Advance? then Queue(s) == [s.cons.b] + Queue(r)
            else Queue(r) == Queue(s)
  {
    hide Queue, FeedAll, FlowInv, ProducerInv, ConsumerInv, ProducerStep, ConsumerStep, Reached;
    InvAlways(wire, buf, actions);
    ProducerRefines(Reached(wire, buf, actions));
    ConsumerRefines(Reached(wire, buf, actions));
  }

  /** In every reachable state: at most 8191 bytes are queued; a fetched byte is dropped exactly when that
      many are; every byte that arrived is taken, queued, on its way or counted as lost, in the 32-bit
      counter modulo 2^32; and what has been taken comes from increasing positions of the wire. */
  lemma NothingTwiceNothingChanged(wire: seq<byte>, buf: seq<byte>, actions: seq<Action>)
    requires |buf| == SIZE
    ensures var s := Reached(wire, buf, actions);
            && |Queue(s)| <= SIZE - 1
            && s.arrived == |s.taken| + |Queue(s)| + s.lost + InFlight(s)
            && s.overrun == Word(s.lost)
            && (s.prod.Fetched? ==> (ProducerStep(s).lost > s.lost <==> |Queue(s)| == SIZE - 1))
            && |s.taken| <= |s.at|
            && (forall i | 0 <= i < |s.taken| :: 0 <= s.at[i] < s.arrived <= |wire| && s.taken[i] == wire[s.at[i]])
            && (forall i, j | 0 <= i < j < |s.at| :: s.at[i] < s.at[j])
  {
    hide FeedAll, Queued, Slot;
    InvAlways(wire, buf, actions);
    SameWire(wire, buf, actions);
    var s := Reached(wire, buf, actions);
    NotFull(s.head, s.tail, SIZE);
    var flow := s.taken + Queue(s);
    assert forall i | 0 <= i < |s.taken| :: flow[i] == s.taken[i];
  }

  lemma {:induction false} SameWire(wire: seq<byte>, buf: seq<byte>, actions: seq<Action>)
    requires |buf| == SIZE
    ensures Reached(wire, buf, actions).wire == wire
    decreases |actions|
  {
    if actions != [] { SameWire(wire, buf, actions[..|actions| - 1]); }
  }

  /** The wire is used up, the ring is empty, and the main loop has left its last call. */
  predicate Finished(s: Sys) {
    s.arrived == |s.wire| && s.prod == Ready && s.head == s.tail && s.cons == Check
  }

  /** End to end: frames built by the host, with noise free of sync bytes between them, pushed through the
      ring under any interleaving of the two sides' stores and any number of calls. While no byte is lost,
      the main loop's log is always an initial part of the frames sent, and it is all of them once
      everything has been drained. */
  lemma EndToEnd(items: seq<Item>, gap: seq<byte>, buf: seq<byte>, actions: seq<Action>)
    requires |buf| == SIZE && Sendable(items) && SYNC !in gap
    ensures var s := Reached(Wire(items) + gap, buf, actions);
            s.overrun == 0 && s.lost < 0x1_0000_0000 ==>
              && s.log <= Deliveries(items)
              && (Finished(s) ==> s.log == Deliveries(items) && s.rx == Idle)
  {
    hide FeedAll, Queued, Slot, ProducerInv, Wire, Deliveries;
    var wire := Wire(items) + gap;
    var s := Reached(wire, buf, actions);
    InvAlways(wire, buf, actions);
    SameWire(wire, buf, actions);
    StreamRoundTrip(items, gap);
    if s.lost == 0 {
      var done := Processed(s);
      var rest := wire[|done|..];
      assert done == (s.taken + Queue(s))[..|done|];
      assert wire == done + rest;
      FeedAppend(Idle, done, rest);
      if Finished(s) {
        EmptyQueue(s);
        assert done == wire;
      }
    }
  }

  lemma EmptyQueue(s: Sys)
    requires Sized(s) && s.head == s.tail
    ensures Queue(s) == []
  {
  }

  // ----- such runs exist

  lemma Then(wire: seq<byte>, buf: seq<byte>, actions: seq<Action>, a: Action)
    requires |buf| == SIZE
    ensures Reached(wire, buf, actions + [a]) == Next(Reached(wire, buf, actions), a)
  {
    assert (actions + [a])[..|actions|] == actions;
  }

  predicate Rested(s: Sys, n: nat) {
    s.arrived == n && s.prod == Ready && s.cons == Check && s.head == s.tail && s.lost == 0 && s.overrun == 0
  }

  /** One byte all the way through, from rest to rest. */
  lemma OneByte(wire: seq<byte>, buf: seq<byte>, actions: seq<Action>, n: nat) returns (more: seq<Action>)
    requires |buf| == SIZE && n < |wire|
    requires Rested(Reached(wire, buf, actions), n)
    ensures Rested(Reached(wire, buf, more), n + 1)
  {
    hide Feed, InBounds, Reached;
    SameWire(wire, buf, actions);
    NotFull(Reached(wire, buf, actions).head, Reached(wire, buf, actions).tail, SIZE);
    more := actions;
    Then(wire, buf, more, Produce);
    more := more + [Produce];
    Then(wire, buf, more, Produce);
    more := more + [Produce];
    Then(wire, buf, more, Produce);
    more := more + [Produce];
    Then(wire, buf, more, Produce);
    more := more + [Produce];
    Then(wire, buf, more, Take);
    more := more + [Take];
    Then(wire, buf, more, Take);
    more := more + [Take];
    Then(wire, buf, more, Take);
    more := more + [Take];
    Then(wire, buf, more, Take);
    more := more + [Take];
  }

  /** For every stream some interleaving loses nothing and finishes, so EndToEnd speaks of something. */
  lemma {:induction false} CanFinish(wire: seq<byte>, buf: seq<byte>, n: nat) returns (actions: seq<Action>)
    requires |buf| == SIZE && n <= |wire|
    ensures Rested(Reached(wire, buf, actions), n)
    ensures n == |wire| ==> Finished(Reached(wire, buf, actions))
  {
    if n == 0 {
      actions := [];
    } else {
      var shorter := CanFinish(wire, buf, n - 1);
      actions := OneByte(wire, buf, shorter, n - 1);
    }
    SameWire(wire, buf, actions);
  }
}
