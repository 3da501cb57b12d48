/** The scatter-gather engine of the kernel driver: the turns of apex_sg_work_handler, with apex_sg_dma_callback,
    from the state apex_sg_engine_start leaves. */
module ScatterGather {
  import opened Bitwise

  const MAX_BUFS := 64
  const SIZE_MIN := 4096
  const SIZE_MAX := 262144

  datatype BufState = FREE | DMA_ACTIVE | READY | USERSPACE
  datatype State = IDLE | RUNNING | ERROR

  datatype Desc = Desc(index: nat, dataLen: nat, timestamp: nat, sequence: nat, state: BufState)

  /** struct apex_sg_engine. */
  datatype Eng = Eng(bufs: seq<Desc>, size: nat, cur: nat, state: State, total: nat, overruns: nat, errors: nat,
                     framesRx: nat, sequence: nat, continuous: bool)

  /** What becomes of a submission: spi_async refuses it; its transfer completes; it never does and the wait times
      out; or it completes after the wait has timed out and before the worker goes on, in which case `unmarked`
      says that the callback's READY comes before the worker's FREE. */
  datatype Submission = Fails | Completes(at: nat) | TimesOut | CompletesLate(at: nat, unmarked: bool)

  predicate Overdue(s: Submission) { s.TimesOut? || s.CompletesLate? }

  predicate Shape(e: Eng) { 2 <= |e.bufs| <= MAX_BUFS && SIZE_MIN <= e.size <= SIZE_MAX && e.cur < |e.bufs| }

  /** A uint64_t byte count. */
  function Total(n: nat): nat { n % 0x1_0000_0000_0000_0000 }

  /** The next index round the ring. */
  function Wrap(x: nat, m: nat): (r: nat)
    requires m > 0
    ensures r < m
  {
    x % m
  }

  /** apex_sg_dma_callback. */
  function Callback(e: Eng, at: nat): (r: Eng)
    requires Shape(e)
    ensures Shape(r)
  {
    var d := e.bufs[e.cur].(dataLen := e.size, timestamp := at, sequence := e.sequence, state := READY);
    e.(bufs := e.bufs[e.cur := d], total := Total(e.total + e.size), framesRx := Inc(e.framesRx),
       sequence := Inc(e.sequence), cur := Wrap(e.cur + 1, |e.bufs|))
  }

  function SetState(e: Eng, s: BufState): (r: Eng)
    requires Shape(e)
    ensures Shape(r)
  {
    e.(bufs := e.bufs[e.cur := e.bufs[e.cur].(state := s)])
  }

  /** The end of a turn: a single batch stops when all buffers have been filled. */
  function Settle(e: Eng): (r: Eng)
    requires Shape(e)
    ensures Shape(r)
  {
    if !e.continuous && e.sequence >= |e.bufs| then e.(state := IDLE) else e
  }

  /** One turn of the loop in apex_sg_work_handler. */
  function Turn(e: Eng, s: Submission): (r: Eng)
    requires Shape(e)
    ensures Shape(r)
  {
    if e.bufs[e.cur].state == USERSPACE then e.(overruns := Inc(e.overruns), cur := Wrap(e.cur + 1, |e.bufs|))
    else
      var active := SetState(e, DMA_ACTIVE);
      match s
      case Fails =>
        var failed := SetState(active, FREE).(errors := Inc(e.errors));
        if failed.errors > 100 then failed.(state := ERROR) else failed
      case Completes(at) => Settle(Callback(active, at))
      case TimesOut => Settle(SetState(active, FREE).(errors := Inc(e.errors)))
      case CompletesLate(at, unmarked) =>
        var late := Callback(active.(errors := Inc(e.errors)), at);
        Settle(if unmarked then late.(bufs := late.bufs[e.cur := late.bufs[e.cur].(state := FREE)]) else late)
  }

  /** The engine as apex_sg_engine_start leaves it. */
  function Started(count: nat, size: nat, continuous: bool): Eng {
    Eng(Fresh(count), size, 0, RUNNING, 0, 0, 0, 0, 0, continuous)
  }

  function Fresh(count: nat): (s: seq<Desc>)
    ensures |s| == count
  {
    if count == 0 then [] else Fresh(count - 1) + [Desc(count - 1, 0, 0, 0, FREE)]
  }

  predicate Configured(count: nat, size: nat) {
    2 <= count <= MAX_BUFS && SIZE_MIN <= size <= SIZE_MAX && size % 4 == 0
  }

  // ----- any run, single-batch or continuous

  /** The engine after the given submissions; it takes no more turns once it has stopped. */
  function Run(count: nat, size: nat, continuous: bool, subs: seq<Submission>): (e: Eng)
    requires Configured(count, size)
    ensures Shape(e)
    decreases |subs|
  {
    if subs == [] then Started(count, size, continuous)
    else
      var e := Run(count, size, continuous, subs[..|subs| - 1]);
      if e.state == RUNNING then Turn(e, subs[|subs| - 1]) else e
  }

  /** Transfers completed, submissions refused, and waits that timed out. */
  function Successes(subs: seq<Submission>): nat {
    if subs == [] then 0
    else
      var s := subs[|subs| - 1];
      Successes(subs[..|subs| - 1]) + if s.Completes? || s.CompletesLate? then 1 else 0
  }

  function Failures(subs: seq<Submission>): nat {
    if subs == [] then 0
    else Failures(subs[..|subs| - 1]) + if subs[|subs| - 1].Fails? then 1 else 0
  }

  function Timeouts(subs: seq<Submission>): nat {
    if subs == [] then 0
    else Timeouts(subs[..|subs| - 1]) + if Overdue(subs[|subs| - 1]) then 1 else 0
  }

  function Errors(subs: seq<Submission>): nat { Failures(subs) + Timeouts(subs) }

  /** Transfers that never completed. */
  function Vanished(subs: seq<Submission>): nat {
    if subs == [] then 0
    else Vanished(subs[..|subs| - 1]) + if subs[|subs| - 1].TimesOut? then 1 else 0
  }

  /** The numbers of the completed transfers whose buffer was marked FREE again. */
  function Unmarked(subs: seq<Submission>): set<nat> {
    if subs == [] then {}
    else
      var before, s := subs[..|subs| - 1], subs[|subs| - 1];
      Unmarked(before) + if s.CompletesLate? && s.unmarked then {Successes(before)} else {}
  }

  /** A submission is refused, and counting it there have been more than 100 errors on the 32-bit counter. */
  predicate Fatal(subs: seq<Submission>, j: nat)
    requires j < |subs|
  {
    subs[j].Fails? && Word(Errors(subs[..j + 1])) > 100
  }

  predicate Patient(subs: seq<Submission>) { forall s | s in subs :: !Overdue(s) }

  /** The latest of transfers 0 to n - 1 that went to buffer i of `count`, or -1. */
  function Latest(i: nat, n: nat, count: nat): int
    requires i < count
    decreases n
  {
    if n == 0 then -1 else if Wrap(n - 1, count) == i then n - 1 else Latest(i, n - 1, count)
  }

  predicate Holds(d: Desc, size: nat, t: int) { t >= 0 && d.dataLen == size && d.sequence == Word(t) }

  /** Buffer i after n transfers. It is READY with the latest transfer that went to it, unless there was none, or
      that was marked FREE again, or it is next and a submission for it has failed or not completed: that marks the
      buffer FREE, read or not. */
  predicate BufferAt(d: Desc, i: nat, size: nat, n: nat, retrying: bool, count: nat, unmarked: set<nat>)
    requires i < count
  {
    var t := Latest(i, n, count);
    && d.index == i
    && (d.state == READY ==> Holds(d, size, t) && t !in unmarked)
    && (d.state != READY ==> d.state == FREE && (retrying || t == -1 || t in unmarked))
  }

  /** The engine after n completed transfers and f errors. */
  predicate Describes(e: Eng, n: nat, f: nat, unmarked: set<nat>) {
    && Shape(e)
    && e.cur == Wrap(n, |e.bufs|)
    && e.sequence == Word(n) && e.framesRx == Word(n) && e.total == Total(n * e.size)
    && e.overruns == 0 && e.errors == Word(f)
    && (e.state == IDLE <==> !e.continuous && n == |e.bufs|)
    && (!e.continuous ==> n <= |e.bufs|)
    && (forall t | t in unmarked :: t < n)
    && forall i | 0 <= i < |e.bufs| ::
         BufferAt(e.bufs[i], i, e.size, n, i == e.cur && e.state != IDLE, |e.bufs|, unmarked)
  }

  // ----- remainders

  lemma Multiple(k: int, m: int)
    requires m >= 0
    ensures k >= 1 ==> k * m >= m
    ensures k <= -1 ==> k * m <= -m
  {
    if k >= 1 {
      assert (k - 1) * m >= 0;
    } else if k <= -1 {
      assert (-k - 1) * m >= 0;
    }
  }

  lemma DivUnique(x: nat, q: int, r: nat, m: nat)
    requires x == q * m + r && r < m
    ensures x / m == q && x % m == r
  {
    assert (x / m - q) * m == r - x % m;
    Multiple(x / m - q, m);
  }

  lemma ModAddMultiple(x: nat, q: nat, m: nat)
    requires m > 0
    ensures q * m >= 0 && (x + q * m) % m == x % m
  {
    Multiple(q, m);
    assert q * m >= 0;
    assert x + q * m == (x / m + q) * m + x % m;
    DivUnique(x + q * m, x / m + q, x % m, m);
  }

  lemma ModNext(n: nat, m: nat)
    requires m > 0
    ensures Wrap(n + 1, m) == (if Wrap(n, m) + 1 == m then 0 else Wrap(n, m) + 1) == Wrap(Wrap(n, m) + 1, m)
  {
    var q, r := n / m, n % m;
    if r + 1 < m {
      DivUnique(n + 1, q, r + 1, m);
    } else {
      assert n + 1 == (q + 1) * m;
      DivUnique(n + 1, q + 1, 0, m);
    }
  }

  /** How long ago, in transfers, buffer i was filled when cur is next. */
  function Age(i: nat, cur: nat, count: nat): int { if cur > i then cur - i else cur - i + count }

  lemma {:induction false} LatestIsRecent(i: nat, n: nat, count: nat)
    requires i < count
    ensures if n <= i then Latest(i, n, count) == -1
            else Latest(i, n, count) == n - Age(i, Wrap(n, count), count) && Latest(i, n, count) >= 0
                 && Wrap(Latest(i, n, count), count) == i
    ensures n <= count ==> Wrap(n, count) == if n == count then 0 else n
    decreases n
  {
    if n > 0 {
      LatestIsRecent(i, n - 1, count);
      ModNext(n - 1, count);
    }
  }

  lemma TotalNext(n: nat, size: nat)
    ensures Total(Total(n * size) + size) == Total((n + 1) * size)
  {
    assert (n + 1) * size == n * size + size;
    TotalAdds(n * size, size);
  }

  lemma TotalAdds(a: nat, b: nat)
    ensures Total(Total(a) + b) == Total(a + b)
  {
    ModAddMultiple(Total(a) + b, a / 0x1_0000_0000_0000_0000, 0x1_0000_0000_0000_0000);
  }

  // ----- invariants of every run

  lemma FailKeeps(e: Eng, n: nat, f: nat, unmarked: set<nat>)
    requires Describes(e, n, f, unmarked) && e.state == RUNNING
    ensures var r := Turn(e, Fails);
            Describes(r, n, f + 1, unmarked) && r.state == if Word(f + 1) > 100 then ERROR else RUNNING
  {
    hide Latest, Total, Word, Inc, Wrap, Holds;
    IncWord(f);
  }

  lemma VanishKeeps(e: Eng, n: nat, f: nat, unmarked: set<nat>)
    requires Describes(e, n, f, unmarked) && e.state == RUNNING
    ensures var r := Turn(e, TimesOut); Describes(r, n, f + 1, unmarked) && r.state == RUNNING
  {
    hide Latest, Total, Word, Inc, Wrap, Holds;
    IncWord(f);
    SmallWord(n);
  }

  lemma {:induction false} LatestBelow(i: nat, n: nat, count: nat)
    requires i < count
    ensures -1 <= Latest(i, n, count) < n
  {
    hide Wrap;
    if n > 0 { LatestBelow(i, n - 1, count); }
  }

  lemma OtherBufferKeeps(d: Desc, i: nat, size: nat, n: nat, count: nat, retrying: bool,
                         unmarked: set<nat>, more: set<nat>)
    requires i < count && i != Wrap(n, count)
    requires BufferAt(d, i, size, n, false, count, unmarked)
    requires unmarked <= more <= unmarked + {n}
    ensures BufferAt(d, i, size, n + 1, retrying, count, more)
  {
    hide Holds, Wrap;
    LatestBelow(i, n, count);
    assert Latest(i, n + 1, count) == Latest(i, n, count);
  }

  lemma FilledBuffer(d: Desc, i: nat, size: nat, n: nat, count: nat, retrying: bool, unmarked: set<nat>)
    requires 0 < count && i == Wrap(n, count)
    requires d.index == i && d.dataLen == size && d.sequence == Word(n)
    requires d.state == if n in unmarked then FREE else READY
    ensures BufferAt(d, i, size, n + 1, retrying, count, unmarked)
  {
    hide Word;
    assert Latest(i, n + 1, count) == n;
  }

  /** The transfers unmarked after one more. */
  function OneMore(unmarked: set<nat>, n: nat, s: Submission): set<nat> {
    unmarked + if s.CompletesLate? && s.unmarked then {n} else {}
  }

  lemma TransferKeeps(e: Eng, s: Submission, n: nat, f: nat, unmarked: set<nat>)
    requires Describes(e, n, f, unmarked) && e.state == RUNNING && (s.Completes? || s.CompletesLate?)
    ensures Describes(Turn(e, s), n + 1, f + if Overdue(s) then 1 else 0, OneMore(unmarked, n, s))
    ensures Turn(e, s).state != ERROR
  {
    hide Total, Inc, Word, BufferAt, Wrap;
    NoUserspace(e, n, unmarked);
    IncWord(n);
    IncWord(f);
    SmallWord(n + 1);
    TotalNext(n, e.size);
    ModNext(n, |e.bufs|);
    var r, count := Turn(e, s), |e.bufs|;
    var more := OneMore(unmarked, n, s);
    forall i | 0 <= i < count
      ensures BufferAt(r.bufs[i], i, r.size, n + 1, i == r.cur && r.state != IDLE, count, more)
    {
      if i == e.cur {
        FilledBuffer(r.bufs[i], i, e.size, n, count, i == r.cur && r.state != IDLE, more);
      } else {
        OtherBufferKeeps(e.bufs[i], i, e.size, n, count, i == r.cur && r.state != IDLE, unmarked, more);
      }
    }
  }

  lemma NoUserspace(e: Eng, n: nat, unmarked: set<nat>)
    requires Shape(e) && BufferAt(e.bufs[e.cur], e.cur, e.size, n, true, |e.bufs|, unmarked)
    ensures e.bufs[e.cur].state == READY || e.bufs[e.cur].state == FREE
    ensures e.bufs[e.cur].index == e.cur
  {
  }

  lemma SmallWord(n: nat)
    ensures n <= MAX_BUFS ==> Word(n) == n
  {
  }

  lemma StartDescribed(count: nat, size: nat, continuous: bool)
    requires Configured(count, size)
    ensures Describes(Started(count, size, continuous), 0, 0, {})
  {
    hide Fresh;
    FreshAre(count);
  }

  lemma {:induction false} FreshAre(count: nat)
    ensures forall i | 0 <= i < count :: Fresh(count)[i] == Desc(i, 0, 0, 0, FREE)
  {
    if count > 0 { FreshAre(count - 1); }
  }

  /** The engine has acted on the first k of the submissions: all of them while it is running. It is in ERROR exactly
      if the last of them was fatal, and none before that was; a single batch has stopped exactly if all its buffers
      are filled, and not before. */
  predicate Explains(e: Eng, subs: seq<Submission>, k: nat)
    requires k <= |subs|
  {
    && Describes(e, Successes(subs[..k]), Errors(subs[..k]), Unmarked(subs[..k]))
    && (e.state == RUNNING ==> k == |subs|)
    && (e.state == ERROR <==> k > 0 && Fatal(subs, k - 1))
    && (forall j | 0 <= j < k - 1 :: !Fatal(subs, j))
    && (!e.continuous ==> forall j | 0 <= j < k :: Successes(subs[..j]) < |e.bufs|)
  }

  lemma {:induction false} RunExplained(count: nat, size: nat, continuous: bool, subs: seq<Submission>) returns (k: nat)
    requires Configured(count, size)
    ensures var e := Run(count, size, continuous, subs);
            k <= |subs| && Explains(e, subs, k) && |e.bufs| == count && e.size == size && e.continuous == continuous
    decreases |subs|
  {
    hide Describes, Turn, Started, Explains, Fatal, Successes, Errors, Unmarked;
    if subs == [] {
      StartExplained(count, size, continuous);
      return 0;
    }
    var before, s := subs[..|subs| - 1], subs[|subs| - 1];
    k := RunExplained(count, size, continuous, before);
    var e := Run(count, size, continuous, before);
    ExplainsMore(e, before, s, k);
    assert before + [s] == subs;
    if e.state == RUNNING {
      TurnParts(e, s);
      TurnExplained(e, before, s);
      k := |subs|;
    }
  }

  lemma StartExplained(count: nat, size: nat, continuous: bool)
    requires Configured(count, size)
    ensures var e := Started(count, size, continuous);
            Explains(e, [], 0) && |e.bufs| == count && e.size == size && e.continuous == continuous
  {
    StartDescribed(count, size, continuous);
    StartedParts(count, size, continuous);
    var none: seq<Submission> := [];
    assert none[..0] == none;
  }

  lemma SameFatal(before: seq<Submission>, s: Submission, j: nat)
    requires j < |before|
    ensures Fatal(before + [s], j) <==> Fatal(before, j)
  {
    hide Errors;
    assert (before + [s])[..j + 1] == before[..j + 1];
  }

  /** What an engine that has stopped makes of more submissions. */
  lemma ExplainsMore(e: Eng, before: seq<Submission>, s: Submission, k: nat)
    requires k <= |before| && Explains(e, before, k)
    ensures e.state != RUNNING ==> Explains(e, before + [s], k)
    ensures e.state == RUNNING ==> k == |before|
  {
    hide Describes, Fatal, Successes, Errors, Unmarked;
    var subs := before + [s];
    forall j | 0 <= j <= k ensures subs[..j] == before[..j] {}
    forall j | 0 <= j < k ensures Fatal(subs, j) <==> Fatal(before, j) { SameFatal(before, s, j); }
  }

  /** And one that runs of the next. */
  lemma TurnExplained(e: Eng, before: seq<Submission>, s: Submission)
    requires Explains(e, before, |before|) && e.state == RUNNING && Shape(e)
    ensures Explains(Turn(e, s), before + [s], |before| + 1)
  {
    hide Describes, Turn, Fatal, Successes, Errors, Unmarked;
    var subs, n := before + [s], |before|;
    assert before[..n] == before && subs[..n] == before && subs[..n + 1] == subs && subs[..|subs| - 1] == before;
    forall j | 0 <= j <= n ensures subs[..j] == before[..j] {}
    forall j | 0 <= j < n ensures Fatal(subs, j) <==> Fatal(before, j) { SameFatal(before, s, j); }
    TurnParts(e, s);
    TurnDescribed(e, before, s);
    NotIdle(e, Successes(before), Errors(before), Unmarked(before));
  }

  lemma NotIdle(e: Eng, n: nat, f: nat, unmarked: set<nat>)
    requires Describes(e, n, f, unmarked) && e.state == RUNNING
    ensures !e.continuous ==> n < |e.bufs|
  {
  }

  lemma TurnDescribed(e: Eng, before: seq<Submission>, s: Submission)
    requires Describes(e, Successes(before), Errors(before), Unmarked(before)) && e.state == RUNNING && Shape(e)
    ensures var subs, r := before + [s], Turn(e, s);
            && Describes(r, Successes(subs), Errors(subs), Unmarked(subs))
            && (r.state == ERROR <==> Fatal(subs, |before|))
  {
    hide Describes, Turn, Word, Successes, Errors, Unmarked;
    var n, f, u := Successes(before), Errors(before), Unmarked(before);
    CountOne(before, s);
    assert (before + [s])[..|before| + 1] == before + [s];
    match s {
      case Fails => FailKeeps(e, n, f, u);
      case TimesOut => VanishKeeps(e, n, f, u);
      case _ => TransferKeeps(e, s, n, f, u);
    }
  }

  lemma CountOne(before: seq<Submission>, s: Submission)
    ensures var subs := before + [s];
            && Successes(subs) == Successes(before) + (if s.Completes? || s.CompletesLate? then 1 else 0)
            && Errors(subs) == Errors(before) + (if s.Completes? then 0 else 1)
            && Unmarked(subs) == OneMore(Unmarked(before), Successes(before), s)
            && (!s.CompletesLate? ==> Unmarked(subs) == Unmarked(before))
  {
    var subs := before + [s];
    assert subs[..|subs| - 1] == before;
    assert Unmarked(before) + {} == Unmarked(before);
  }

  lemma {:induction false} TurnsAreOutcomes(subs: seq<Submission>)
    ensures Successes(subs) + Failures(subs) + Vanished(subs) == |subs|
    ensures Vanished(subs) <= Timeouts(subs)
    decreases |subs|
  {
    if subs != [] { TurnsAreOutcomes(subs[..|subs| - 1]); }
  }

  lemma {:induction false} PatientCounts(subs: seq<Submission>)
    requires Patient(subs)
    ensures Timeouts(subs) == Vanished(subs) == 0 && Unmarked(subs) == {}
    decreases |subs|
  {
    if subs != [] {
      var before := subs[..|subs| - 1];
      assert subs[|subs| - 1] in subs;
      assert forall s | s in before :: s in subs;
      PatientCounts(before);
    }
  }

  lemma {:induction false} StoppedStays(count: nat, size: nat, continuous: bool, subs: seq<Submission>, k: nat)
    requires Configured(count, size) && k <= |subs|
    requires Run(count, size, continuous, subs[..k]).state != RUNNING
    ensures Run(count, size, continuous, subs) == Run(count, size, continuous, subs[..k])
    decreases |subs|
  {
    if k == |subs| {
      assert subs[..k] == subs;
    } else {
      var before := subs[..|subs| - 1];
      assert before[..k] == subs[..k];
      StoppedStays(count, size, continuous, before, k);
    }
  }

  lemma StartedParts(count: nat, size: nat, continuous: bool)
    ensures var e := Started(count, size, continuous);
            && |e.bufs| == count && e.size == size && e.continuous == continuous
            && e.state == RUNNING && e.sequence == e.errors == 0
  {
  }

  lemma TurnParts(e: Eng, s: Submission)
    requires Shape(e)
    ensures var r := Turn(e, s); |r.bufs| == |e.bufs| && r.size == e.size && r.continuous == e.continuous
  {
  }

  // ----- single batch

  /** Every buffer READY, buffer i with transfer i. */
  predicate BatchDone(e: Eng) { BatchFilled(e, {}) }

  /** Every buffer filled, buffer i with transfer i, and READY unless it was marked FREE again. */
  predicate BatchFilled(e: Eng, unmarked: set<nat>) {
    && e.state == IDLE && e.total == |e.bufs| * e.size && e.framesRx == |e.bufs| && e.cur == 0
    && forall i | 0 <= i < |e.bufs| ::
         if i in unmarked then e.bufs[i].state == FREE
         else e.bufs[i].state == READY && e.bufs[i].sequence == i && e.bufs[i].dataLen == e.size
  }

  lemma DoneWhenIdle(e: Eng, f: nat, unmarked: set<nat>)
    requires Describes(e, |e.bufs|, f, unmarked) && e.state == IDLE && Shape(e)
    ensures BatchFilled(e, unmarked)
  {
    hide Word, Total;
    var count := |e.bufs|;
    SmallWord(count);
    SmallTotal(count, e.size);
    LatestIsRecent(0, count, count);
    forall i | 0 <= i < count
      ensures if i in unmarked then e.bufs[i].state == FREE
              else e.bufs[i].state == READY && e.bufs[i].sequence == i && e.bufs[i].dataLen == e.size
    {
      LatestIsRecent(i, count, count);
      SmallWord(i);
    }
  }

  lemma SmallTotal(n: nat, size: nat)
    requires n <= MAX_BUFS && size <= SIZE_MAX
    ensures Total(n * size) == n * size
  {
    hide Total;
    Times(n, size);
    SmallTotals(n * size);
  }

  lemma WordIsItself(n: nat)
    ensures n < 0x1_0000_0000 ==> Word(n) == n
  {
  }

  /** Fewer than 2^32 submissions: a refusal is fatal as soon as there have been 101 errors. */
  lemma FatalHere(subs: seq<Submission>, j: nat)
    requires j < |subs| && Errors(subs[..j + 1]) < 0x1_0000_0000
    ensures Fatal(subs, j) <==> subs[j].Fails? && Errors(subs[..j + 1]) > 100
  {
    hide Errors;
    WordIsItself(Errors(subs[..j + 1]));
  }

  lemma {:induction false} CountsBelow(subs: seq<Submission>)
    ensures Errors(subs) <= |subs| && Failures(subs) <= Errors(subs)
    decreases |subs|
  {
    if subs != [] { CountsBelow(subs[..|subs| - 1]); }
  }

  /** Once 101 submissions have been refused, one of the refusals was fatal: at the latest the 101st. */
  lemma {:induction false} FatalAmong(subs: seq<Submission>) returns (j: nat)
    requires Failures(subs) > 100 && |subs| < 0x1_0000_0000
    ensures j < |subs| && Fatal(subs, j) && Failures(subs[..j]) == 100
    decreases |subs|
  {
    hide Fatal, Errors, Word;
    var before := subs[..|subs| - 1];
    assert subs == before + [subs[|subs| - 1]];
    if Failures(before) > 100 {
      j := FatalAmong(before);
      SameFatal(before, subs[|subs| - 1], j);
      assert before[..j] == subs[..j];
    } else {
      j := |subs| - 1;
      assert subs[..j + 1] == subs;
      CountsBelow(subs);
      FatalHere(subs, j);
    }
  }

  /** Single batch, any pattern of refusals and timeouts: however it has ended, it has ended in ERROR with more than
      100 errors, or in IDLE with every buffer filled in order, those marked FREE again being the ones whose wait
      had timed out. It has ended after at most buf_count + 100 turns besides those of the transfers that never
      completed. */
  lemma BatchEnds(count: nat, size: nat, subs: seq<Submission>)
    requires Configured(count, size) && |subs| < 0x1_0000_0000
    ensures var e := Run(count, size, false, subs);
            && (|subs| >= count + 100 + Vanished(subs) ==> e.state != RUNNING)
            && (e.state == ERROR ==> e.errors > 100)
            && (e.state == IDLE ==>
                  exists k | 0 <= k <= |subs| :: Successes(subs[..k]) == count && BatchFilled(e, Unmarked(subs[..k])))
  {
    hide Turn, BatchFilled, Errors, Fatal, Describes;
    var k := RunExplained(count, size, false, subs);
    var e := Run(count, size, false, subs);
    var did := subs[..k];
    EndOf(e, Successes(did), Errors(did), Unmarked(did));
    if e.state == RUNNING {
      assert did == subs;
      TurnsAreOutcomes(subs);
      if Failures(subs) > 100 { var j := FatalAmong(subs); }
    } else if e.state == ERROR {
      FatalErrors(subs, k - 1);
    } else {
      DoneWhenIdle(e, Errors(did), Unmarked(did));
    }
  }

  lemma EndOf(e: Eng, n: nat, f: nat, unmarked: set<nat>)
    requires Describes(e, n, f, unmarked)
    ensures e.errors == Word(f) && Shape(e)
    ensures !e.continuous ==> e.sequence == n <= |e.bufs| && (e.state == IDLE <==> n == |e.bufs|)
  {
    if !e.continuous { SmallWord(n); }
  }

  lemma FatalErrors(subs: seq<Submission>, j: nat)
    requires j < |subs| && Fatal(subs, j)
    ensures Word(Errors(subs[..j + 1])) > 100
  {
  }

  /** Without timeouts, exactly 101 errors, or every buffer READY. */
  lemma PatientBatchEnds(count: nat, size: nat, subs: seq<Submission>)
    requires Configured(count, size) && Patient(subs) && |subs| >= count + 100
    ensures var e := Run(count, size, false, subs);
            if e.state == ERROR then e.errors == 101 else BatchDone(e) && e.errors <= 100
  {
    hide Turn, BatchFilled, Fatal, Describes, Patient;
    var first := subs[..count + 100];
    PatientPrefix(subs, count + 100);
    PatientCounts(first);
    BatchEnds(count, size, first);
    StoppedStays(count, size, false, subs, count + 100);
    PatientBatch(count, size, first);
  }

  lemma PatientPrefix(subs: seq<Submission>, k: nat)
    requires k <= |subs| && Patient(subs)
    ensures Patient(subs[..k])
  {
    forall s | s in subs[..k] ensures !Overdue(s) { assert s in subs; }
  }

  /** What a batch without timeouts has come to at any time. */
  lemma PatientBatch(count: nat, size: nat, subs: seq<Submission>)
    requires Configured(count, size) && Patient(subs) && |subs| < 0x1_0000_0000
    ensures var e := Run(count, size, false, subs);
            && (e.state == ERROR ==> e.errors == 101)
            && (e.state == IDLE ==> BatchDone(e))
            && (e.state != ERROR ==> e.errors <= 100)
            && (e.state == RUNNING ==> |subs| == e.sequence + e.errors < count + 100)
  {
    hide Turn, BatchFilled, Fatal, Describes, Patient;
    var k := RunExplained(count, size, false, subs);
    var e := Run(count, size, false, subs);
    var did := subs[..k];
    PatientPrefix(subs, k);
    PatientCounts(did);
    CountsBelow(did);
    TurnsAreOutcomes(did);
    WordIsItself(Errors(did));
    EndOf(e, Successes(did), Errors(did), Unmarked(did));
    if Failures(did) > 100 {
      var j := FatalAmong(did);
      assert did[..j + 1] == subs[..j + 1];
      PrefixFatal(subs, k, j);
      assert did[..|did| - 1] == did[..j];
    }
    if e.state == ERROR { PatientFatal(subs, k); }
    if e.state == IDLE { DoneWhenIdle(e, Errors(did), Unmarked(did)); }
    if e.state == RUNNING { assert did == subs; }
  }

  lemma PrefixFatal(subs: seq<Submission>, k: nat, j: nat)
    requires j < k <= |subs|
    ensures Fatal(subs[..k], j) <==> Fatal(subs, j)
  {
    hide Errors;
    assert subs[..k][..j + 1] == subs[..j + 1];
  }

  lemma PatientFatal(subs: seq<Submission>, k: nat)
    requires 0 < k <= |subs| && Fatal(subs, k - 1) && Errors(subs[..k]) < 0x1_0000_0000
    ensures Errors(subs[..k]) > 100
  {
    WordIsItself(Errors(subs[..k]));
  }

  /** Which of the two: the batch is delivered exactly when buf_count transfers complete before a refusal is fatal;
      without timeouts, before the 101st refusal. */
  lemma BatchDeliversExactly(count: nat, size: nat, subs: seq<Submission>)
    requires Configured(count, size)
    ensures Run(count, size, false, subs).state == IDLE
       <==> exists k | 0 <= k <= |subs| :: Successes(subs[..k]) == count && forall j | 0 <= j < k :: !Fatal(subs, j)
    ensures Patient(subs) ==>
              (Run(count, size, false, subs).state == IDLE
               <==> exists k | 0 <= k <= |subs| :: Successes(subs[..k]) == count && Failures(subs[..k]) <= 100)
  {
    hide Turn, Describes, Fatal, Errors, Patient;
    var e := Run(count, size, false, subs);
    if e.state == IDLE {
      var k := RunExplained(count, size, false, subs);
      EndOf(e, Successes(subs[..k]), Errors(subs[..k]), Unmarked(subs[..k]));
      assert forall j | 0 <= j < k :: !Fatal(subs, j);
      if Patient(subs) { FewRefusals(subs, k); }
    }
    forall k | 0 <= k <= |subs| && Successes(subs[..k]) == count && forall j | 0 <= j < k :: !Fatal(subs, j)
      ensures e.state == IDLE
    {
      Delivered(count, size, subs, k);
    }
    if Patient(subs) {
      forall k | 0 <= k <= |subs| && Successes(subs[..k]) == count && Failures(subs[..k]) <= 100
        ensures e.state == IDLE
      {
        FewRefusals(subs, k);
        Delivered(count, size, subs, k);
      }
    }
  }

  lemma Delivered(count: nat, size: nat, subs: seq<Submission>, k: nat)
    requires Configured(count, size) && k <= |subs| && Successes(subs[..k]) == count
    requires forall j | 0 <= j < k :: !Fatal(subs, j)
    ensures Run(count, size, false, subs).state == IDLE
  {
    hide Turn, Describes, Fatal, Errors;
    var first := subs[..k];
    var i := RunExplained(count, size, false, first);
    var e := Run(count, size, false, first);
    EndOf(e, Successes(first[..i]), Errors(first[..i]), Unmarked(first[..i]));
    if e.state == ERROR { PrefixFatal(subs, k, i - 1); }
    if i == k { assert first[..i] == first; }
    StoppedStays(count, size, false, subs, k);
  }

  /** Without timeouts no refusal among the first k is fatal exactly if there are at most 100. */
  lemma FewRefusals(subs: seq<Submission>, k: nat)
    requires k <= |subs| && Patient(subs)
    ensures Failures(subs[..k]) <= 100 <==> forall j | 0 <= j < k :: !Fatal(subs, j)
  {
    hide Fatal, Patient;
    if Failures(subs[..k]) > 100 {
      var j := PatientFatalAmong(subs, k);
    } else {
      forall j | 0 <= j < k ensures !Fatal(subs, j) {
        var did := subs[..j + 1];
        FewerBefore(subs[..k], j + 1);
        assert subs[..k][..j + 1] == did;
        PatientPrefix(subs, j + 1);
        PatientCounts(did);
        FatalHere(subs, j);
      }
    }
  }

  lemma {:induction false} PatientFatalAmong(subs: seq<Submission>, k: nat) returns (j: nat)
    requires k <= |subs| && Patient(subs) && Failures(subs[..k]) > 100
    ensures j < k && Fatal(subs, j)
    decreases k
  {
    hide Fatal, Patient;
    assert subs[..k][..k - 1] == subs[..k - 1];
    if Failures(subs[..k - 1]) > 100 {
      j := PatientFatalAmong(subs, k - 1);
    } else {
      j := k - 1;
      PatientPrefix(subs, k);
      PatientCounts(subs[..k]);
      FatalHere(subs, j);
    }
  }

  lemma {:induction false} FewerBefore(subs: seq<Submission>, k: nat)
    requires k <= |subs|
    ensures Failures(subs[..k]) <= Failures(subs) && Successes(subs[..k]) <= Successes(subs)
    ensures Unmarked(subs[..k]) <= Unmarked(subs)
    decreases |subs|
  {
    if k == |subs| {
      assert subs[..k] == subs;
    } else {
      assert subs[..|subs| - 1][..k] == subs[..k];
      FewerBefore(subs[..|subs| - 1], k);
    }
  }

  /** Two buffers, the first transfer completing just before its timed-out wait is dealt with: the batch ends in IDLE
      although buffer 0, filled, is FREE. */
  lemma LateBatch(size: nat)
    requires Configured(2, size)
    ensures var e := Run(2, size, false, [CompletesLate(0, true), Completes(1)]);
            && e.state == IDLE && e.sequence == 2 && e.errors == 1
            && e.bufs[0] == Desc(0, size, 0, 0, FREE) && e.bufs[1] == Desc(1, size, 1, 1, READY)
  {
    hide Turn;
    var one, two := [CompletesLate(0, true)], [CompletesLate(0, true), Completes(1)];
    assert two[..1] == one && one[..0] == [];
    var e0 := Started(2, size, false);
    assert Run(2, size, false, []) == e0;
    assert Fresh(0) == [] && Fresh(1) == [Desc(0, 0, 0, 0, FREE)];
    assert e0.bufs == [Desc(0, 0, 0, 0, FREE), Desc(1, 0, 0, 0, FREE)];
    FirstIsLate(e0);
    var e1 := Turn(e0, CompletesLate(0, true));
    assert Run(2, size, false, one) == e1;
    SecondCompletes(e1);
  }

  lemma FirstIsLate(e: Eng)
    requires Shape(e) && |e.bufs| == 2 && e.cur == 0 && e.state == RUNNING && !e.continuous && e.sequence == 0
    requires e.bufs[0].state == e.bufs[1].state == FREE && e.errors == 0
    ensures var r := Turn(e, CompletesLate(0, true));
            && r.state == RUNNING && r.cur == r.sequence == 1 && |r.bufs| == 2 && !r.continuous
            && r.errors == 1 && r.size == e.size
            && r.bufs[0] == Desc(e.bufs[0].index, e.size, 0, 0, FREE) && r.bufs[1] == e.bufs[1]
  {
  }

  lemma SecondCompletes(e: Eng)
    requires Shape(e) && |e.bufs| == 2 && e.cur == e.sequence == 1 && e.state == RUNNING && !e.continuous
    requires e.bufs[1].state == FREE
    ensures var r := Turn(e, Completes(1));
            && r.state == IDLE && r.sequence == 2 && r.errors == e.errors && r.bufs[0] == e.bufs[0]
            && |r.bufs| == 2 && r.bufs[1] == Desc(e.bufs[1].index, e.size, 1, 1, READY)
  {
  }

  /** A refusal, or a transfer that never completes, marks the next buffer FREE, whatever it held and whether that
      was read or not, and changes no other; the buffer stays next. */
  lemma RefusalFrees(count: nat, size: nat, continuous: bool, subs: seq<Submission>, s: Submission)
    requires Configured(count, size) && (s.Fails? || s.TimesOut?)
    ensures var e, r := Run(count, size, continuous, subs), Run(count, size, continuous, subs + [s]);
            e.state == RUNNING ==>
              && |r.bufs| == |e.bufs| && r.cur == e.cur && r.sequence == e.sequence && r.errors == Inc(e.errors)
              && r.bufs[e.cur].state == FREE && r.bufs[e.cur].dataLen == e.bufs[e.cur].dataLen
              && forall i | 0 <= i < |e.bufs| && i != e.cur :: r.bufs[i] == e.bufs[i]
  {
    hide Turn, Describes, Fatal, Successes, Errors, Unmarked, Inc, Started;
    var e := Run(count, size, continuous, subs);
    assert (subs + [s])[..|subs|] == subs;
    if e.state == RUNNING {
      var k := RunExplained(count, size, continuous, subs);
      NextIsKernels(e, Successes(subs[..k]), Errors(subs[..k]), Unmarked(subs[..k]));
      FreedTurn(e, s);
    }
  }

  lemma NextIsKernels(e: Eng, n: nat, f: nat, unmarked: set<nat>)
    requires Describes(e, n, f, unmarked)
    ensures e.bufs[e.cur].state != USERSPACE
    ensures !e.continuous && e.state == RUNNING ==> e.sequence < |e.bufs|
  {
    if !e.continuous { SmallWord(n); }
  }

  lemma FreedTurn(e: Eng, s: Submission)
    requires Shape(e) && e.bufs[e.cur].state != USERSPACE && (s.Fails? || s.TimesOut?)
    ensures var r := Turn(e, s);
            && |r.bufs| == |e.bufs| && r.cur == e.cur && r.sequence == e.sequence && r.errors == Inc(e.errors)
            && r.bufs[e.cur].state == FREE && r.bufs[e.cur].dataLen == e.bufs[e.cur].dataLen
            && forall i | 0 <= i < |e.bufs| && i != e.cur :: r.bufs[i] == e.bufs[i]
  {
    hide Inc;
  }

  function Silence(n: nat): (s: seq<Submission>)
    ensures |s| == n
  {
    if n == 0 then [] else Silence(n - 1) + [TimesOut]
  }

  /** A device that has fallen silent is never given up: timeouts count as errors, but 100 of them, or any number,
      do not stop the engine, in either mode. */
  lemma {:induction false} SilenceNeverEnds(count: nat, size: nat, continuous: bool, n: nat)
    requires Configured(count, size)
    ensures var e := Run(count, size, continuous, Silence(n));
            e.state == RUNNING && e.sequence == 0 && e.errors == Word(n)
  {
    hide Turn, Describes, Fatal, Word;
    var k := RunExplained(count, size, continuous, Silence(n));
    var e := Run(count, size, continuous, Silence(n));
    SilenceCounts(n, k);
    if k > 0 { SilenceIs(n, k - 1); FatalIsRefusal(Silence(n), k - 1); }
    var did := Silence(n)[..k];
    EndOf(e, Successes(did), Errors(did), Unmarked(did));
    StateOf(e, Successes(did), Errors(did), Unmarked(did));
    if k == n { assert did == Silence(n); }
  }

  lemma StateOf(e: Eng, n: nat, f: nat, unmarked: set<nat>)
    requires Describes(e, n, f, unmarked) && n == 0
    ensures e.state != IDLE && e.sequence == 0
  {
  }

  lemma FatalIsRefusal(subs: seq<Submission>, j: nat)
    requires j < |subs|
    ensures Fatal(subs, j) ==> subs[j].Fails?
  {
  }

  lemma {:induction false} SilenceIs(n: nat, j: nat)
    requires j < n
    ensures Silence(n)[j] == TimesOut
  {
    if j < n - 1 { SilenceIs(n - 1, j); }
  }

  lemma {:induction false} SilenceCounts(n: nat, k: nat)
    requires k <= n
    ensures var did := Silence(n)[..k]; Successes(did) == 0 && Errors(did) == k
    decreases n
  {
    if k < n {
      assert Silence(n)[..k] == Silence(n - 1)[..k];
      SilenceCounts(n - 1, k);
    } else if n > 0 {
      SilenceCounts(n - 1, n - 1);
      assert Silence(n)[..n] == Silence(n) && Silence(n - 1)[..n - 1] == Silence(n - 1);
      assert Silence(n)[..n - 1] == Silence(n - 1);
    }
  }

  // ----- continuous

  /** Continuous streaming while no counter wraps: the next buffer is the sequence number modulo buf_count;
      bytes are frames times the buffer size; the READY buffers hold distinct transfers out of the last
      buf_count, each congruent to its buffer's index; every other buffer is untouched, next, or filled by a
      transfer whose wait had timed out; the engine stops only at a fatal refusal, without timeouts the 101st; and
      `overruns` never counts, although a transfer replaces the one buf_count before it whether that was read or
      not. */
  lemma ContinuousRun(count: nat, size: nat, subs: seq<Submission>)
    requires Configured(count, size) && |subs| < 0x1_0000_0000
    ensures var e := Run(count, size, true, subs);
            && |e.bufs| == count && e.size == size
            && e.cur == e.sequence % count && e.framesRx == e.sequence && e.total == e.framesRx * size
            && (forall i | 0 <= i < count && e.bufs[i].state == READY ::
                  var t := e.bufs[i].sequence;
                  t % count == i && e.sequence - count <= t < e.sequence && e.bufs[i].dataLen == size)
            && (forall i | 0 <= i < count && e.bufs[i].state != READY ::
                  e.bufs[i].state == FREE
                  && (i == e.cur || i >= e.sequence || Latest(i, e.sequence, count) in Unmarked(subs)))
            && e.overruns == 0
            && (if forall j | 0 <= j < |subs| :: !Fatal(subs, j)
                then e.state == RUNNING && e.errors == Errors(subs) && e.sequence == Successes(subs)
                else e.state == ERROR && e.errors > 100)
    ensures Patient(subs) ==>
              var e := Run(count, size, true, subs);
              if Failures(subs) <= 100
              then e.state == RUNNING && e.errors == Failures(subs) && e.sequence == Successes(subs)
              else e.state == ERROR && e.errors == 101
  {
    hide Turn, Word, Total, Describes, Patient, Fatal, Errors, Unmarked, Explains;
    var k := RunExplained(count, size, true, subs);
    var e := Run(count, size, true, subs);
    ContinuousState(e, subs, k);
    FewerBefore(subs, k);
    ContinuousBuffers(e, Successes(subs[..k]), Errors(subs[..k]), Unmarked(subs[..k]), Unmarked(subs));
    if Patient(subs) { PatientStream(e, subs, k); }
  }

  lemma ContinuousState(e: Eng, subs: seq<Submission>, k: nat)
    requires k <= |subs| < 0x1_0000_0000 && Explains(e, subs, k) && e.continuous
    ensures var did := subs[..k];
            && Describes(e, Successes(did), Errors(did), Unmarked(did)) && Successes(did) < 0x1_0000_0000
            && e.sequence == Successes(did) && e.errors == Errors(did) && e.state != IDLE
            && (if forall j | 0 <= j < |subs| :: !Fatal(subs, j) then e.state == RUNNING && k == |subs|
                else e.state == ERROR && e.errors > 100)
            && (k == |subs| ==> did == subs)
  {
    hide Word, Total, Fatal, Errors, Unmarked, Wrap, BufferAt, Latest;
    var did := subs[..k];
    TurnsAreOutcomes(did);
    CountsBelow(did);
    WordIsItself(Successes(did));
    WordIsItself(Errors(did));
    if e.state == ERROR { FatalErrors(subs, k - 1); assert subs[..k - 1 + 1] == did; }
  }

  lemma PatientStream(e: Eng, subs: seq<Submission>, k: nat)
    requires k <= |subs| < 0x1_0000_0000 && Patient(subs) && Explains(e, subs, k) && e.continuous
    requires e.errors == Errors(subs[..k]) && e.sequence == Successes(subs[..k]) && (k == |subs| ==> subs[..k] == subs)
    requires if forall j | 0 <= j < |subs| :: !Fatal(subs, j) then e.state == RUNNING && k == |subs|
             else e.state == ERROR && e.errors > 100
    ensures if Failures(subs) <= 100
            then e.state == RUNNING && e.errors == Failures(subs) && e.sequence == Successes(subs)
            else e.state == ERROR && e.errors == 101
  {
    hide Fatal, Patient, Describes, Word;
    FewRefusals(subs, |subs|);
    assert subs[..|subs|] == subs;
    PatientPrefix(subs, k);
    PatientCounts(subs[..k]);
    if e.state == ERROR {
      FewRefusals(subs, k - 1);
      assert subs[..k][..k - 1] == subs[..k - 1];
    }
  }

  lemma ContinuousBuffers(e: Eng, n: nat, f: nat, unmarked: set<nat>, all: set<nat>)
    requires Describes(e, n, f, unmarked) && unmarked <= all && n < 0x1_0000_0000 && e.continuous
    ensures e.sequence == n && e.cur == n % |e.bufs| && e.framesRx == n && e.total == n * e.size && e.overruns == 0
    ensures forall i | 0 <= i < |e.bufs| && e.bufs[i].state == READY ::
              var t := e.bufs[i].sequence;
              t % |e.bufs| == i && n - |e.bufs| <= t < n && e.bufs[i].dataLen == e.size
    ensures forall i | 0 <= i < |e.bufs| && e.bufs[i].state != READY ::
              e.bufs[i].state == FREE && (i == e.cur || i >= n || Latest(i, n, |e.bufs|) in all)
  {
    hide Word, Total, Latest;
    var count := |e.bufs|;
    WordIsItself(n);
    ProductBound(n, e.size);
    forall i | 0 <= i < count
      ensures e.bufs[i].state == READY ==>
                && e.bufs[i].sequence % count == i && n - count <= e.bufs[i].sequence < n
                && e.bufs[i].dataLen == e.size
      ensures e.bufs[i].state != READY ==>
                e.bufs[i].state == FREE && (i == e.cur || i >= n || Latest(i, n, count) in all)
    {
      LatestIsRecent(i, n, count);
      if e.bufs[i].state == READY { WordIsItself(Latest(i, n, count)); }
    }
  }

  lemma ProductBound(n: nat, size: nat)
    requires n < 0x1_0000_0000 && size <= SIZE_MAX
    ensures Total(n * size) == n * size
  {
    hide Total;
    Times(n, size);
    SmallTotals(n * size);
  }

  lemma Times(n: nat, size: nat)
    requires size <= SIZE_MAX
    ensures 0 <= n * size <= n * SIZE_MAX
  {
    assert n * (SIZE_MAX - size) == n * SIZE_MAX - n * size;
  }

  lemma SmallTotals(x: nat)
    requires x < 0x1_0000_0000_0000_0000
    ensures Total(x) == x
  {
  }
}
