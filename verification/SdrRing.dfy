/** The SDR sample ring of sdr_dma.c: eight blocks filled by DMA, released by the main loop. */
module SdrRing {
  import opened Bitwise

  const BLOCKS := 8
  const BLOCK_SIZE := 512

  type index = x: int | 0 <= x < BLOCKS
  type block = seq<byte>

  /** Block indices and the uint8_t count. */
  function Slot(x: int): index { x % BLOCKS }

  function Count(x: int): byte { x % 256 }

  lemma SlotIs(x: int)
    ensures Slot(x) == x % 8
  {
  }

  lemma SlotNext(x: int)
    ensures Slot(Slot(x) + 1) == Slot(x + 1)
  {
  }

  lemma CountIs(q: int, r: byte)
    ensures Count(256 * q + r) == r
  {
  }

  lemma CountNext(x: int)
    ensures Count(Count(x) + 1) == Count(x + 1) && Count(Count(x) + 255) == Count(x - 1)
  {
    var q, r := x / 256, Count(x);
    assert x == 256 * q + r;
    if r < 255 { CountIs(q, r + 1); CountIs(0, r + 1); } else { CountIs(q + 1, 0); CountIs(1, 0); }
    if r > 0 { CountIs(q, r - 1); CountIs(1, r - 1); } else { CountIs(q - 1, 255); CountIs(0, 255); }
  }

  lemma SmallCount(x: int)
    ensures 0 <= x < 256 ==> Count(x) == x
  {
  }

  lemma SlotDistance(x: int, y: int)
    ensures Slot(Slot(x) - Slot(y)) == Slot(x - y)
    ensures Slot(x) == Slot(y) <==> Slot(x - y) == 0
  {
  }

  lemma SlotBack(x: int, y: int)
    ensures Slot(x - Slot(x - y)) == Slot(y)
  {
  }

  lemma SlotAround(x: int)
    ensures Slot(x + 1) == 0 <==> Slot(x) == 7
    ensures 0 <= x <= 7 ==> Slot(x) == x
    ensures -8 <= x < 0 ==> Slot(x) == x + 8
  {
  }

  lemma SlotsDiffer(x: int, y: int)
    requires x < y < x + BLOCKS
    ensures Slot(x) != Slot(y)
  {
  }

  /** The main loop in sdr_dma_release_block. Claimed: blocks_filled was not 0, about to load the read index.
      Loaded: it has loaded r and is about to store r + 1; since counts the overruns that have moved the
      index meanwhile. Advanced: about to decrement blocks_filled. Subtracted: about to count the block. */
  datatype Pc = Idle | Claimed | Loaded(r: index, since: nat) | Advanced | Subtracted

  /** The three counters sdr_dma_get_stats returns, 32 bits wide; a start does not reset them. */
  datatype Stats = Stats(captured: nat, sent: nat, overruns: nat)

  /** The static state, with histories since the last sdr_dma_start: the blocks captured, in order; how often the
      main loop has moved the read index; how often an overrun has; how many of the overruns' moves the main loop
      has erased by storing over them; and what the counters were. */
  datatype Sys = Sys(buf: seq<block>, write: index, read: index, filled: byte, running: bool, now: Stats, pc: Pc,
                     history: seq<block>, advances: nat, lost: nat, erased: nat, base: Stats)

  /** sdr_dma_start or sdr_dma_stop is called; the hardware stores some bytes into the block it is filling; that
      block is complete and the interrupt handler runs; or the main loop makes its next load or store. */
  datatype Action = Begin | End | DmaStore(b: block) | Irq | Main

  const ZERO_STATS := Stats(0, 0, 0)

  function Blank(): (buf: seq<block>)
    ensures |buf| == BLOCKS
  {
    seq(BLOCKS, _ => Zeros(BLOCK_SIZE))
  }

  /** As sdr_dma_init leaves it. */
  function Start(): Sys { Sys(Blank(), 0, 0, 0, false, ZERO_STATS, Idle, [], 0, 0, 0, ZERO_STATS) }

  predicate Overrun(s: Sys) { Slot(s.write + 1) == s.read }

  lemma OverrunIs(s: Sys)
    ensures Overrun(s) <==> Slot(s.write + 1) == s.read
  {
  }

  /** No effect while running. The buffer, wiped by the last stop, is left alone. */
  function OnBegin(s: Sys): Sys {
    if s.running then s else Sys(s.buf, 0, 0, 0, true, s.now, s.pc, [], 0, 0, 0, s.now)
  }

  /** The buffer is wiped; indices and count are left alone. */
  function OnEnd(s: Sys): Sys { s.(buf := Blank(), running := false) }

  function OnIrq(s: Sys): Sys
    requires |s.buf| == BLOCKS
  {
    var t := s.(write := Slot(s.write + 1), filled := Count(s.filled + 1), history := s.history + [s.buf[s.write]],
                now := s.now.(captured := Inc(s.now.captured)));
    if !Overrun(s) then t
    else
      t.(read := Slot(s.read + 1), lost := s.lost + 1, now := t.now.(overruns := Inc(s.now.overruns)),
         pc := if s.pc.Loaded? then Loaded(s.pc.r, s.pc.since + 1) else s.pc)
  }

  function OnMain(s: Sys): Sys {
    match s.pc
    case Idle => if s.filled > 0 then s.(pc := Claimed) else s
    case Claimed => s.(pc := Loaded(s.read, 0))
    case Loaded(r, since) =>
      s.(read := Slot(r + 1), advances := s.advances + 1, erased := s.erased + since, pc := Advanced)
    case Advanced => s.(filled := Count(s.filled + 255), pc := Subtracted)
    case Subtracted => s.(now := s.now.(sent := Inc(s.now.sent)), pc := Idle)
  }

  /** A start is a call of the main loop, so it falls between releases; a stop may also come from the watchdog's
      handler, at any point of one; and while stopped there are no transfers and no interrupts. */
  function Next(s: Sys, a: Action): (r: Sys)
    requires |s.buf| == BLOCKS
    ensures |r.buf| == BLOCKS
  {
    match a
    case Begin => if s.pc == Idle then OnBegin(s) else s
    case End => OnEnd(s)
    case DmaStore(b) => if s.running then s.(buf := s.buf[s.write := b]) else s
    case Irq => if s.running then OnIrq(s) else s
    case Main => OnMain(s)
  }

  function Reached(actions: seq<Action>): (r: Sys)
    ensures |r.buf| == BLOCKS
    decreases |actions|
  {
    if actions == [] then Start() else Next(Reached(actions[..|actions| - 1]), actions[|actions| - 1])
  }

  /** Blocks the main loop has taken off blocks_filled. */
  function Released(s: Sys): int { s.advances - if s.pc.Advanced? then 1 else 0 }

  /** How often the read index has moved, and how far it is behind the write index. */
  function Position(s: Sys): int { s.advances + s.lost - s.erased }

  function Live(s: Sys): int { |s.history| - Position(s) }

  function Since(s: Sys): nat { if s.pc.Loaded? then s.pc.since else 0 }

  // ----- every run, overruns included

  /** The indices and the published count follow from the numbers of blocks captured, released, overrun and
      erased. */
  predicate Accounts(s: Sys) {
    && s.write == Slot(|s.history|)
    && s.read == Slot(Position(s))
    && (s.pc.Loaded? ==> s.pc.r == Slot(Position(s) - s.pc.since))
    && s.filled == Count(|s.history| - Released(s))
    && s.erased + Since(s) <= s.lost
  }

  /** The main loop never releases more than was captured; while no overrun is erased at most seven blocks are
      live; and there is no overrun before the eighth capture. */
  predicate Ordered(s: Sys) {
    && 0 <= Released(s) && s.advances <= |s.history|
    && (s.pc.Claimed? || s.pc.Loaded? ==> s.advances < |s.history|)
    && (s.erased == 0 ==> Live(s) <= 7)
    && (s.lost > 0 ==> |s.history| > 7)
  }

  /** While running, the last seven blocks captured lie where the hardware put them; while not, the buffer is
      blank. */
  predicate Kept(s: Sys)
    requires |s.buf| == BLOCKS
  {
    if !s.running then s.buf == Blank() else
    forall k | 0 <= k < |s.history| <= k + 7 :: s.buf[Slot(k)] == s.history[k]
  }

  /** Blocks counted as sent. */
  function Sent(s: Sys): int { s.advances - if s.pc.Advanced? || s.pc.Subtracted? then 1 else 0 }

  /** The counters have grown by what happened since the last start. */
  predicate Ties(s: Sys) {
    && s.now.captured == Word(s.base.captured + |s.history|)
    && Sent(s) >= 0 && s.now.sent == Word(s.base.sent + Sent(s))
    && s.now.overruns == Word(s.base.overruns + s.lost)
    && s.base == Stats(Word(s.base.captured), Word(s.base.sent), Word(s.base.overruns))
  }

  lemma TiesStep(s: Sys, a: Action)
    requires |s.buf| == BLOCKS && Ties(s)
    ensures Ties(Next(s, a))
  {
    hide Word, Inc, Slot, Count, Overrun, Blank;
    IncWord(s.base.captured + |s.history|);
    IncWord(s.base.sent + Sent(s));
    IncWord(s.base.overruns + s.lost);
    WordTwice(s.base.captured + |s.history|);
    WordTwice(s.base.sent + Sent(s));
    WordTwice(s.base.overruns + s.lost);
  }

  lemma WordTwice(n: nat)
    ensures Word(Word(n)) == Word(n) && Word(0) == 0
  {
  }

  predicate Inv(s: Sys)
    requires |s.buf| == BLOCKS
  {
    Accounts(s) && Ordered(s) && Kept(s) && Ties(s)
  }

  lemma AccountsStep(s: Sys, a: Action)
    requires |s.buf| == BLOCKS && Accounts(s)
    ensures Accounts(Next(s, a))
  {
    hide Slot, Count;
    SlotNext(|s.history|);
    SlotNext(Position(s));
    SlotNext(Position(s) - Since(s));
    CountNext(|s.history| - Released(s));
    SlotAround(0);
    SmallCount(0);
  }

  lemma OverrunWhenFull(s: Sys)
    requires Accounts(s)
    ensures Overrun(s) <==> Slot(Live(s)) == 7
  {
    hide Slot;
    SlotNext(|s.history|);
    SlotDistance(|s.history| + 1, Position(s));
    SlotAround(Live(s));
    assert |s.history| + 1 - Position(s) == Live(s) + 1;
  }

  lemma FilledMeans(x: int)
    requires x >= 0 && Count(x) > 0
    ensures x > 0
  {
  }

  lemma OrderedStep(s: Sys, a: Action)
    requires |s.buf| == BLOCKS && Accounts(s) && Ordered(s)
    ensures Ordered(Next(s, a))
  {
    hide Slot, Count, Overrun;
    OverrunWhenFull(s);
    SlotAround(Live(s));
    if s.filled > 0 { CountOf(s); FilledMeans(|s.history| - Released(s)); }
  }

  lemma CountOf(s: Sys)
    requires Accounts(s)
    ensures s.filled == Count(|s.history| - Released(s))
    ensures s.erased <= s.lost && (s.lost == s.erased ==> Since(s) == 0)
  {
  }

  lemma KeptStep(s: Sys, a: Action)
    requires |s.buf| == BLOCKS && Accounts(s) && Kept(s)
    ensures Kept(Next(s, a))
  {
    hide Slot, Count, Overrun, Blank;
    var r, n := Next(s, a), |s.history|;
    if r.running && s.running {
      forall k | 0 <= k < |r.history| <= k + 7
        ensures r.buf[Slot(k)] == r.history[k]
      {
        if k < n { SlotsDiffer(k, n); }
      }
    }
  }

  lemma {:induction false} InvAlways(actions: seq<Action>)
    ensures Inv(Reached(actions))
    decreases |actions|
  {
    hide Accounts, Ordered, Kept, Ties, Next;
    if actions == [] {
      StartInv();
    } else {
      var s, a := Reached(actions[..|actions| - 1]), actions[|actions| - 1];
      InvAlways(actions[..|actions| - 1]);
      AccountsStep(s, a);
      OrderedStep(s, a);
      KeptStep(s, a);
      TiesStep(s, a);
    }
  }

  lemma StartInv()
    ensures Inv(Start())
  {
    hide Blank, Zeros, Slot, Count, Word;
    SlotAround(0);
    SmallCount(0);
    WordTwice(0);
    var s := Start();
    assert s.history == [] && Live(s) == Position(s) == Released(s) == Sent(s) == 0;
    assert Accounts(s) && Ordered(s) && Kept(s) && Ties(s);
  }

  /** Over every run, interrupts between any two loads and stores of a release: the read index has moved once
      for every release and every overrun, except for the overruns that fell between a release's load of it
      and its store. So the distance from read to write is captured - released - overruns modulo 8 exactly
      while the number of those is a multiple of 8. The published count is captured - released modulo 256. */
  lemma AccountsAlways(actions: seq<Action>)
    ensures var s := Reached(actions);
            var simple := |s.history| - s.advances - s.lost;
            && Slot(s.write - s.read) == Slot(simple + s.erased)
            && (Slot(s.write - s.read) == Slot(simple) <==> Slot(s.erased) == 0)
            && s.filled == Count(|s.history| - Released(s))
            && s.erased <= s.lost
  {
    hide Slot, Count, Accounts, Ordered, Kept;
    InvAlways(actions);
    CountOf(Reached(actions));
    DistanceOf(Reached(actions));
  }

  lemma DistanceOf(s: Sys)
    requires Accounts(s)
    ensures Slot(s.write - s.read) == Slot(Live(s))
    ensures Slot(Live(s)) == Slot(Live(s) - s.erased) <==> Slot(s.erased) == 0
  {
    hide Slot, Count;
    SlotDistance(|s.history|, Position(s));
    SlotDistance(Live(s), Live(s) - s.erased);
  }

  predicate HandedOut(s: Sys)
    requires |s.buf| == BLOCKS
  {
    var live, n := Live(s), |s.history|;
    && (s.read == s.write <==> Slot(live) == 0)
    && (!s.running ==> s.buf[s.read] == Zeros(BLOCK_SIZE))
    && (s.running && Slot(live) != 0 ==> Slot(live) <= n && s.buf[s.read] == s.history[n - Slot(live)])
    && (s.running && 1 <= live <= 7 ==> 0 <= Position(s) < n && s.buf[s.read] == s.history[Position(s)])
    && (s.running && -7 <= live <= -1 ==> 8 <= Position(s) < n + 8 && s.buf[s.read] == s.history[Position(s) - 8])
  }

  lemma InvHandsOut(s: Sys)
    requires |s.buf| == BLOCKS && Inv(s)
    ensures HandedOut(s)
  {
    hide Slot, Count, Kept, Ordered, Ties;
    SlotDistance(|s.history|, Position(s));
    SlotAround(Live(s));
    if !s.running {
      KeptBlank(s);
    } else if Slot(Live(s)) != 0 {
      EnoughCaptured(s);
      SlotBack(|s.history|, Position(s));
      KeptAt(s, |s.history| - Slot(Live(s)));
    }
  }

  lemma EnoughCaptured(s: Sys)
    requires Accounts(s) && Ordered(s)
    ensures Slot(Live(s)) <= |s.history|
  {
    hide Slot, Count;
    CountOf(s);
    SlotAround(Live(s));
  }

  lemma KeptBlank(s: Sys)
    requires |s.buf| == BLOCKS && Kept(s) && !s.running
    ensures s.buf[s.read] == Zeros(BLOCK_SIZE)
  {
  }

  lemma KeptAt(s: Sys, k: nat)
    requires |s.buf| == BLOCKS && Kept(s) && s.running
    requires k < |s.history| <= k + 7
    ensures s.buf[Slot(k)] == s.history[k]
  {
    hide Slot;
  }

  /** Which block get_block points at, over every run. With live = captured - released - overruns + erased, it
      is the block the hardware is filling if and only if live is a multiple of 8, and otherwise the block
      captured (live modulo 8) ago, unchanged since. So with live from 1 to 7 it is the next block in order, and
      with live from -7 to -1 the one that lay in the slot a lap before, released or discarded already. After a
      stop it is a block of zeros. */
  lemma HandedOutExactly(actions: seq<Action>)
    ensures HandedOut(Reached(actions))
  {
    hide HandedOut, Inv;
    InvAlways(actions);
    InvHandsOut(Reached(actions));
  }

  /** Between releases the published count is live exactly while the overruns not erased are a multiple of 256:
      each of them discards a block and still adds one to the count. */
  lemma CountRightExactly(actions: seq<Action>)
    ensures var s := Reached(actions);
            s.pc.Idle? && 0 <= Live(s) < 256 ==> (s.filled == Live(s) <==> Count(s.lost - s.erased) == 0)
  {
    InvAlways(actions);
    CountRight(Reached(actions));
  }

  lemma CountRight(s: Sys)
    requires Accounts(s)
    ensures s.pc.Idle? && 0 <= Live(s) < 256 ==> (s.filled == Live(s) <==> Count(s.lost - s.erased) == 0)
  {
    hide Slot;
    CountOf(s);
    assert s.pc.Idle? ==> |s.history| - Released(s) == Live(s) + (s.lost - s.erased);
  }

  /** In every reachable state the next interrupt overruns exactly when live is 7 modulo 8, and it then makes
      the block at the read index, which the main loop may be holding, the one the hardware fills next. */
  lemma OverrunExactly(actions: seq<Action>)
    ensures var s := Reached(actions);
            var r := Next(s, Irq);
            && r.lost == s.lost + (if s.running && Slot(Live(s)) == 7 then 1 else 0)
            && (r.lost > s.lost ==> r.write == s.read)
  {
    hide Slot, Accounts;
    InvAlways(actions);
    OverrunWhenFull(Reached(actions));
  }

  /** captured - sent - overruns, as sdr_dma_get_stats shows them. */
  function Shown(t: Stats): int { t.captured - t.sent - t.overruns }

  /** By how much Shown has changed since the last start. */
  function Change(s: Sys): int { Shown(s.now) - Shown(s.base) }

  /** 1 while a block is released but not yet counted as sent. */
  function Lag(s: Sys): nat { if s.pc.Advanced? || s.pc.Subtracted? then 1 else 0 }

  lemma SlotPlus(x: int, m: int)
    ensures Slot(x + 8 * m) == Slot(x)
  {
  }

  lemma WordMultiple(n: nat)
    ensures Word(n) == n - 8 * (0x2000_0000 * (n / 0x1_0000_0000))
  {
  }

  lemma ChangeOf(s: Sys)
    requires Ties(s)
    ensures Slot(Change(s)) == Slot(Live(s) - s.erased + Lag(s))
  {
    hide Slot, Word;
    var c, t, o := s.base.captured + |s.history|, s.base.sent + Sent(s), s.base.overruns + s.lost;
    WordMultiple(c);
    WordMultiple(t);
    WordMultiple(o);
    var m := 0x2000_0000 * (c / 0x1_0000_0000) - 0x2000_0000 * (t / 0x1_0000_0000)
             - 0x2000_0000 * (o / 0x1_0000_0000);
    SlotPlus(Change(s), m);
    assert Change(s) + 8 * m == Live(s) - s.erased + Lag(s);
  }

  /** What the statistics say about the ring, over every run and however often the counters wrap. Only their change
      since the last start counts, because a start does not reset them; inside a release it is one too high until
      the block is counted as sent; and it does not show the overruns erased. So between releases get_block points
      at the block the hardware is filling if and only if that change plus the overruns erased is a multiple of 8;
      and the counters themselves say the same as their change if and only if they said 0 modulo 8 at the start. */
  lemma StatisticsTell(actions: seq<Action>)
    ensures var s := Reached(actions);
            && Slot(Change(s)) == Slot(Live(s) - s.erased + Lag(s))
            && (s.pc.Idle? ==> (s.read == s.write <==> Slot(Change(s) + s.erased) == 0))
            && (Slot(Shown(s.now)) == Slot(Change(s)) <==> Slot(Shown(s.base)) == 0)
  {
    hide Slot, Accounts, Ordered, Kept, Ties, HandedOut;
    InvAlways(actions);
    HandedOutExactly(actions);
    var s := Reached(actions);
    TargetOf(s);
    ChangeOf(s);
    SlotDistance(Shown(s.now), Change(s));
    if s.pc.Idle? { SlotShift(Change(s), Live(s) - s.erased, s.erased); }
  }

  lemma SlotShift(x: int, y: int, z: int)
    requires Slot(x) == Slot(y)
    ensures Slot(x + z) == Slot(y + z)
  {
    hide Slot;
    SlotDistance(x, y);
    SlotDistance(x + z, y + z);
    assert x + z - (y + z) == x - y;
  }

  /** No interrupt falls between a release's load of the read index and its store. */
  predicate Whole(actions: seq<Action>) {
    forall i | 0 <= i < |actions| :: actions[i].Irq? ==> !Reached(actions[..i]).pc.Loaded?
  }

  /** In such a run no overrun is erased: live is captured - released - overruns since the start, at most 7, and
      between releases the change of the statistics alone tells whether the target is handed out. */
  lemma WholeReleases(actions: seq<Action>)
    requires Whole(actions)
    ensures var s := Reached(actions);
            var live := |s.history| - s.advances - s.lost;
            && live == Live(s) <= 7
            && Slot(s.write - s.read) == Slot(live)
            && (s.read == s.write <==> Slot(live) == 0)
            && (s.pc.Idle? ==> Slot(Change(s)) == Slot(live) && (s.read == s.write <==> Slot(Change(s)) == 0))
  {
    hide Slot, Accounts, Kept, Ties, Whole, HandedOut, Change;
    NoneErased(actions);
    InvAlways(actions);
    DistanceOf(Reached(actions));
    HandedOutExactly(actions);
    TargetOf(Reached(actions));
    StatisticsTell(actions);
  }

  lemma TargetOf(s: Sys)
    requires |s.buf| == BLOCKS && HandedOut(s)
    ensures s.read == s.write <==> Slot(Live(s)) == 0
  {
  }

  lemma {:induction false} NoneErased(actions: seq<Action>)
    requires Whole(actions)
    ensures var s := Reached(actions); s.erased == 0 && Since(s) == 0
    decreases |actions|
  {
    if actions != [] {
      var before := actions[..|actions| - 1];
      assert forall i | 0 <= i < |before| :: before[..i] == actions[..i];
      NoneErased(before);
    }
  }

  // ----- while the main loop holds a block

  /** The hardware and the interrupt handler only. */
  predicate Background(more: seq<Action>) { forall a | a in more :: a.DmaStore? || a.Irq? }

  lemma {:induction false} BackgroundKeeps(actions: seq<Action>, more: seq<Action>)
    requires Background(more) && Reached(actions).running
    ensures var s, r := Reached(actions), Reached(actions + more);
            && r.running && s.history <= r.history
    decreases |more|
  {
    hide Reached, Next;
    if more == [] {
      assert actions + more == actions;
    } else {
      var before, a := more[..|more| - 1], more[|more| - 1];
      assert a in more;
      BackgroundKeeps(actions, before);
      assert actions + more == (actions + before) + [a];
      Then(actions + before, a);
      BackgroundStep(Reached(actions + before), a);
    }
  }

  lemma BackgroundStep(s: Sys, a: Action)
    requires |s.buf| == BLOCKS && s.running && (a.DmaStore? || a.Irq?)
    ensures Next(s, a).running && s.history <= Next(s, a).history
  {
    hide Slot, Count, Overrun, Inc;
  }

  /** A block get_block has returned with live from 1 to 7 stays what it was while at most 7 - live further captures
      complete; whatever live was, the hardware is filling it after n captures if and only if live + n is a multiple
      of 8, so for live from 1 to 7 first after 8 - live. */
  lemma HeldBlockExactly(actions: seq<Action>, more: seq<Action>)
    requires Background(more) && Reached(actions).running
    ensures var s, r := Reached(actions), Reached(actions + more);
            var n := |r.history| - |s.history|;
            && n >= 0
            && (r.write == s.read <==> Slot(Live(s) + n) == 0)
            && (1 <= Live(s) && Live(s) + n <= 7 ==>
                  0 <= Position(s) < |s.history| && r.buf[s.read] == s.buf[s.read] == s.history[Position(s)])
  {
    hide Slot, Accounts, Ordered, Kept, Ties, HandedOut, Reached;
    BackgroundKeeps(actions, more);
    InvAlways(actions);
    InvAlways(actions + more);
    HandedOutExactly(actions);
    HeldBlock(Reached(actions), Reached(actions + more));
  }

  lemma HeldBlock(s: Sys, r: Sys)
    requires |s.buf| == |r.buf| == BLOCKS && s.running && r.running
    requires HandedOut(s) && Accounts(s) && Accounts(r) && Kept(r) && s.history <= r.history
    ensures var n := |r.history| - |s.history|;
            && (r.write == s.read <==> Slot(Live(s) + n) == 0)
            && (1 <= Live(s) && Live(s) + n <= 7 ==>
                  0 <= Position(s) < |s.history| && r.buf[s.read] == s.buf[s.read] == s.history[Position(s)])
  {
    hide Slot, Count, Kept;
    var n := |r.history| - |s.history|;
    SlotDistance(|r.history|, Position(s));
    assert |r.history| - Position(s) == Live(s) + n;
    if 1 <= Live(s) && Live(s) + n <= 7 {
      assert Position(s) >= 0 && Position(s) < |s.history|;
      KeptAt(r, Position(s));
    }
  }

  // ----- runs without overrun

  predicate InCaptureOrder(s: Sys)
    requires |s.buf| == BLOCKS
  {
    && 0 <= |s.history| - s.advances <= 7
    && (!s.pc.Advanced? ==> s.filled == |s.history| - s.advances == Slot(s.write - s.read))
    && (s.running && s.pc.Idle? && s.filled > 0 ==> s.buf[s.read] == s.history[s.advances])
    && forall k | s.advances <= k < |s.history| ::
         Slot(k) != s.write && (s.running ==> s.buf[Slot(k)] == s.history[k])
  }

  lemma InvInOrder(s: Sys)
    requires |s.buf| == BLOCKS && Inv(s) && s.lost == 0
    ensures InCaptureOrder(s)
  {
    hide Slot, Count, Kept;
    var n := |s.history|;
    SlotDistance(n, s.advances);
    SlotAround(n - s.advances);
    SmallCount(n - s.advances);
    forall k | s.advances <= k < n ensures Slot(k) != s.write && (s.running ==> s.buf[Slot(k)] == s.history[k]) {
      SlotsDiffer(k, n);
      if s.running { KeptAt(s, k); }
    }
  }

  /** In every run without overrun, the interrupt falling anywhere: at most seven blocks wait; between
      releases the published count is the distance from read to write; the block get_block points at is the
      oldest one not yet released, unchanged since its capture; and the block the hardware is filling is none
      of those waiting. */
  lemma BlocksInCaptureOrder(actions: seq<Action>)
    requires Reached(actions).lost == 0
    ensures InCaptureOrder(Reached(actions))
  {
    hide InCaptureOrder, Inv;
    InvAlways(actions);
    InvInOrder(Reached(actions));
  }

  // ----- two runs

  lemma Then(actions: seq<Action>, a: Action)
    ensures Reached(actions + [a]) == Next(Reached(actions), a)
  {
    hide Next;
    assert (actions + [a])[..|actions|] == actions;
  }

  lemma CaptureOnce(s: Sys)
    requires |s.buf| == BLOCKS && Accounts(s) && s.pc == Idle && 0 <= Live(s) <= 7
    ensures var r := OnIrq(s);
            && r.pc == Idle && r.running == s.running && r.base == s.base
            && |r.history| == |s.history| + 1 && r.advances == s.advances && r.erased == s.erased
            && r.lost == s.lost + if Live(s) == 7 then 1 else 0
  {
    hide Slot, Count;
    OverrunWhenFull(s);
    SlotAround(Live(s));
  }

  predicate Begun(s: Sys) {
    s.pc == Idle && s.running && s.history == [] && s.advances == s.lost == s.erased == 0
  }

  lemma BeginOnce(before: seq<Action>) returns (actions: seq<Action>)
    requires Reached(before).pc == Idle && !Reached(before).running
    ensures Begun(Reached(actions)) && Reached(actions).base == Reached(before).now
  {
    Then(before, Begin);
    actions := before + [Begin];
  }

  lemma {:induction false} CaptureRun(before: seq<Action>, n: nat) returns (actions: seq<Action>)
    requires Begun(Reached(before)) && n <= 8
    ensures var s := Reached(actions);
            && s.pc == Idle && s.running && s.base == Reached(before).base
            && |s.history| == n && s.advances == s.erased == 0
            && s.lost == if n == 8 then 1 else 0
  {
    hide OnIrq, Accounts, Ordered, Kept, Ties;
    if n == 0 {
      actions := before;
    } else {
      var fewer := CaptureRun(before, n - 1);
      InvAlways(fewer);
      CaptureOnce(Reached(fewer));
      Then(fewer, Irq);
      actions := fewer + [Irq];
    }
  }

  /** One release, not interrupted. */
  lemma ReleaseOnce(before: seq<Action>) returns (actions: seq<Action>)
    requires var s := Reached(before); s.pc == Idle && s.filled > 0
    ensures var s, r := Reached(before), Reached(actions);
            && r.pc == Idle && r.running == s.running && r.base == s.base && r.advances == s.advances + 1
            && r.history == s.history && r.lost == s.lost && r.erased == s.erased
  {
    hide Reached, Slot, Count;
    Then(before, Main);
    var a1 := before + [Main];
    Then(a1, Main);
    var a2 := a1 + [Main];
    Then(a2, Main);
    var a3 := a2 + [Main];
    Then(a3, Main);
    var a4 := a3 + [Main];
    Then(a4, Main);
    actions := a4 + [Main];
  }

  lemma {:induction false} ReleaseRun(before: seq<Action>, n: nat) returns (actions: seq<Action>)
    requires var s := Reached(before); s.pc == Idle && s.advances == 0 && n <= |s.history| < 256
    ensures var s, r := Reached(before), Reached(actions);
            && r.pc == Idle && r.running == s.running && r.base == s.base && r.advances == n
            && r.history == s.history && r.lost == s.lost && r.erased == s.erased
  {
    hide Reached, Slot, Count, Accounts, Ordered, Kept, Ties;
    actions := before;
    if n > 0 {
      actions := ReleaseRun(before, n - 1);
      InvAlways(actions);
      CountOf(Reached(actions));
      SmallCount(|Reached(actions).history| - (n - 1));
      actions := ReleaseOnce(actions);
    }
  }

  lemma FirstStart() returns (actions: seq<Action>)
    ensures Begun(Reached(actions)) && Reached(actions).base == ZERO_STATS
  {
    hide Blank, Zeros;
    assert Reached([]) == Start();
    actions := BeginOnce([]);
  }

  lemma TiesSmall(s: Sys)
    requires Ties(s) && s.base.captured + |s.history| < 100 && s.pc == Idle
    requires s.base.sent + s.advances < 100 && s.base.overruns + s.lost < 100
    ensures s.now.captured == s.base.captured + |s.history| && s.now.sent == s.base.sent + s.advances
    ensures s.now.overruns == s.base.overruns + s.lost
  {
  }

  /** Eight captures and seven releases, none of them interrupted, after a start. */
  lemma OverrunRun(before: seq<Action>) returns (actions: seq<Action>)
    requires Begun(Reached(before))
    ensures var s := Reached(actions);
            && |s.history| == 8 && s.advances == 7 && s.lost == 1 && s.erased == 0 && s.pc == Idle && s.running
            && s.filled == 1 && s.read == s.write && s.base == Reached(before).base && Ties(s)
  {
    hide Reached, Slot, Count, Accounts, Ordered, Kept, Ties, HandedOut;
    var captures := CaptureRun(before, 8);
    actions := ReleaseRun(captures, 7);
    InvAlways(actions);
    CountOf(Reached(actions));
    SmallCount(1);
    HandedOutExactly(actions);
    TargetOf(Reached(actions));
    SlotAround(0);
  }

  /** After an overrun the hardware's target is handed out: eight captures and seven releases, none of them
      interrupted, and the one block still published is the block the hardware is filling. */
  lemma OverrunHandsOutTarget()
    ensures exists actions :: var s := Reached(actions);
            s.lost == 1 && s.erased == 0 && s.pc == Idle && s.filled == 1 && s.read == s.write
  {
    hide Reached;
    var start := FirstStart();
    var actions := OverrunRun(start);
    assert Reached(actions).read == Reached(actions).write;
  }

  /** The counters themselves mislead after a restart: one capture, stop, start, eight captures, seven releases.
      They show 9 - 7 - 1 = 1, and the block handed out is the block the hardware is filling. */
  lemma RestartMisleads()
    ensures exists actions :: var s := Reached(actions);
            && s.now == Stats(9, 7, 1) && s.erased == 0 && s.pc == Idle && s.running
            && s.filled == 1 && s.read == s.write
  {
    hide Reached, Slot, Count, Accounts, Ordered, Kept, Blank, Ties;
    var first := FirstStart();
    var one := CaptureRun(first, 1);
    InvAlways(one);
    TiesSmall(Reached(one));
    Then(one, End);
    var again := BeginOnce(one + [End]);
    var actions := OverrunRun(again);
    TiesSmall(Reached(actions));
    assert Reached(actions).now == Stats(9, 7, 1);
  }

  /** A release with one interrupt between its load and store of the read index. */
  lemma TornRelease(before: seq<Action>) returns (actions: seq<Action>)
    requires var s := Reached(before); s.pc == Idle && s.running && s.filled == 7 && Live(s) == 7
    ensures var s, r := Reached(before), Reached(actions);
            && r.pc == Idle && |r.history| == |s.history| + 1 && r.advances == s.advances + 1
            && r.lost == s.lost + 1 && r.erased == s.erased + 1
  {
    hide OnMain, OnIrq, Slot, Accounts, Ordered, Kept;
    InvAlways(before);
    TornSteps(Reached(before));
    Then(before, Main);
    var a1 := before + [Main];
    Then(a1, Main);
    var a2 := a1 + [Main];
    Then(a2, Irq);
    var a3 := a2 + [Irq];
    Then(a3, Main);
    var a4 := a3 + [Main];
    Then(a4, Main);
    var a5 := a4 + [Main];
    Then(a5, Main);
    actions := a5 + [Main];
  }

  lemma TornSteps(s: Sys)
    requires |s.buf| == BLOCKS && Accounts(s) && s.pc == Idle && s.filled == 7 && Live(s) == 7
    ensures OnMain(OnMain(s)).running == s.running
    ensures var r := OnMain(OnMain(OnMain(OnIrq(OnMain(OnMain(s))))));
            && r.pc == Idle && |r.history| == |s.history| + 1 && r.advances == s.advances + 1
            && r.lost == s.lost + 1 && r.erased == s.erased + 1
  {
    hide Slot, Count;
    OverrunWhenFull(s);
    SlotAround(Live(s));
  }

  /** An overrun can be erased: seven captures, and one more between a release's load and store of the read
      index. The distance from read to write is then 7, and captured - released - overruns is 6. */
  lemma OverrunErased()
    ensures exists actions :: var s := Reached(actions);
            && |s.history| == 8 && s.advances == s.lost == s.erased == 1 && s.pc == Idle
            && Slot(s.write - s.read) == 7
  {
    hide Reached, Slot, Accounts, Ordered, Kept;
    var start := FirstStart();
    var captures := CaptureRun(start, 7);
    InvAlways(captures);
    CountOf(Reached(captures));
    SmallCount(7);
    var actions := TornRelease(captures);
    AccountsAlways(actions);
    SlotAround(7);
    assert Reached(actions).pc == Idle;
  }

  // ----- the object

  class Dma {
    const buf: array<block>
    var write: index
    var read: index
    var filled: byte
    var running: bool
    var irqCount: nat
    var captured: nat
    var sent: nat
    var overruns: nat
    var underruns: nat
    /** Histories since the last start, and the statistics then. */
    ghost var history: seq<block>
    ghost var released: nat
    ghost var lost: nat
    ghost var base: Stats

    /** The statistics are those at the last start plus what has happened since. */
    ghost predicate Valid()
      reads this, buf
    {
      buf.Length == BLOCKS && Ties(Abs())
    }

    ghost function Abs(): Sys
      reads this, buf
    {
      Sys(buf[..], write, read, filled, running, Stats(captured, sent, overruns), Idle,
          history, released, lost, 0, base)
    }

    /** The static data after sdr_dma_init. */
    constructor ()
      ensures Valid() && fresh(buf) && underruns == irqCount == captured == sent == overruns == 0
      ensures !running && write == read == filled == 0 && forall i | 0 <= i < 8 :: buf[i] == Zeros(512)
      ensures Abs() == Start()
    {
      hide Zeros, Ties;
      buf := new block[BLOCKS](_ => Zeros(BLOCK_SIZE));
      write, read, filled, running := 0, 0, 0, false;
      irqCount, captured, sent, overruns, underruns := 0, 0, 0, 0, 0;
      history, released, lost, base := [], 0, 0, ZERO_STATS;
      new;
      assert buf[..] == Blank();
      StartInv();
    }

    /** sdr_dma_start. The result is the block the hardware is told to fill. */
    method StartCapture() returns (target: int)
      requires Valid()
      modifies this
      ensures Valid() && Abs() == OnBegin(old(Abs())) && underruns == old(underruns)
      ensures running
      ensures if old(running) then write == old(write) && read == old(read) && filled == old(filled) && target == -1
              else write == read == filled == target == 0
      ensures captured == old(captured) && sent == old(sent) && overruns == old(overruns)
    {
      hide Ties, Slot, Count;
      TiesStep(Abs(), Begin);
      if running {
        return -1;
      }
      write, read, filled := 0, 0, 0;
      running := true;
      history, released, lost, base := [], 0, 0, Stats(captured, sent, overruns);
      return 0;
    }

    /** sdr_dma_stop. */
    method StopCapture()
      requires Valid()
      modifies this`running, buf
      ensures Valid() && Abs() == OnEnd(old(Abs()))
      ensures !running && forall i | 0 <= i < 8 :: buf[i] == Zeros(512)
    {
      TiesStep(Abs(), End);
      hide Zeros;
      running := false;
      var i := 0;
      while i < BLOCKS
        invariant 0 <= i <= BLOCKS && !running
        invariant forall k | 0 <= k < i :: buf[k] == Zeros(BLOCK_SIZE)
      {
        buf[i] := Zeros(BLOCK_SIZE);
        i := i + 1;
      }
      assert buf[..] == Blank();
    }

    /** sdr_dma_irq_handler. The result is the next block to fill, if streaming goes on. */
    method IrqHandler(channel0: bool) returns (target: int)
      requires Valid()
      modifies this
      ensures Valid() && irqCount == Inc(old(irqCount)) && underruns == old(underruns)
      ensures Abs() == if channel0 then OnIrq(old(Abs())) else old(Abs())
      ensures target == if channel0 && running then write else -1
    {
      hide Slot, Count, Inc, Overrun, Ties, OnIrq;
      irqCount := Inc(irqCount);
      target := -1;
      if channel0 {
        BlockDone();
        if running {
          target := write;
        }
      }
    }

    /** The transfer of the block at the write index is complete. */
    method BlockDone()
      requires Valid()
      modifies `write, `read, `filled, `captured, `overruns, `history, `lost
      ensures Valid() && Abs() == OnIrq(old(Abs()))
    {
      hide Slot, Count, Inc, Overrun, Ties;
      OverrunIs(Abs());
      TiesOnIrq(Abs());
      var nextWrite := Slot(write + 1);
      history := history + [buf[write]];
      if nextWrite == read {
        overruns := Inc(overruns);
        read := Slot(read + 1);
        lost := lost + 1;
      }
      write := nextWrite;
      filled := Count(filled + 1);
      captured := Inc(captured);
    }

    /** sdr_dma_get_block: the index and contents of the next block, or -1. */
    method GetBlock() returns (idx: int, b: block)
      requires Valid()
      modifies this`underruns
      ensures if filled == 0 then idx == -1 && underruns == Inc(old(underruns))
              else idx == read && b == buf[idx] && underruns == old(underruns)
    {
      if filled == 0 {
        underruns := Inc(underruns);
        return -1, [];
      }
      return read, buf[read];
    }

    /** sdr_dma_release_block, not interrupted: all five steps of the machine, or the one of an empty ring. */
    method ReleaseBlock()
      requires Valid()
      modifies this
      ensures Valid() && underruns == old(underruns)
      ensures Abs() == if old(filled) > 0 then OnMain(OnMain(OnMain(OnMain(OnMain(old(Abs()))))))
                       else OnMain(old(Abs()))
      ensures if old(filled) > 0
              then read == (old(read) + 1) % 8 && filled == old(filled) - 1 && sent == Inc(old(sent))
              else read == old(read) && filled == 0 && sent == old(sent)
      ensures write == old(write) && running == old(running) && buf[..] == old(buf[..])
      ensures captured == old(captured) && overruns == old(overruns)
    {
      hide Slot, Inc, Ties;
      TiesRelease(Abs());
      SlotIs(read + 1);
      if filled > 0 {
        read := Slot(read + 1);
        released := released + 1;
        filled := filled - 1;
        sent := Inc(sent);
      }
    }

    /** sdr_dma_get_stats. */
    method GetStats() returns (t: Stats, underrunCount: nat)
      requires Valid()
      ensures t == Abs().now && underrunCount == underruns
    {
      return Stats(captured, sent, overruns), underruns;
    }
  }

  lemma TiesOnIrq(s: Sys)
    requires |s.buf| == BLOCKS && Ties(s)
    ensures Ties(OnIrq(s))
  {
    hide Word, Inc, Slot, Count, Overrun;
    IncWord(s.base.captured + |s.history|);
    IncWord(s.base.overruns + s.lost);
  }

  lemma TiesRelease(s: Sys)
    requires |s.buf| == BLOCKS && Ties(s) && s.pc == Idle
    ensures Ties(OnMain(OnMain(OnMain(OnMain(OnMain(s)))))) && Ties(OnMain(s))
  {
    hide Word, Inc, Slot, Count;
    IncWord(s.base.sent + Sent(s));
  }
}
