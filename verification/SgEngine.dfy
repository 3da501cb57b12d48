/** The scatter-gather engine as an object: apex_sg_engine_start, apex_sg_engine_stop, apex_sg_work_handler and
    apex_sg_dma_callback. */
module SgEngine {
  import opened Bitwise
  import opened Frame
  import opened Kernel
  import opened ScatterGather

  const EINVAL := 22
  const EBUSY := 16
  const ENOMEM := 12

  datatype Config = Config(bufCount: nat, bufSize: nat, timeoutMs: nat, continuous: bool, spiSpeedHz: nat)

  const SPEED_MAX := 50_000_000
  const CMD_SDR_STREAM: byte := 0x02

  class Engine {
    var bufs: array<Desc>
    var bufSize: nat
    var currentIdx: nat
    var state: State
    var total: nat
    var overruns: nat
    var errors: nat
    var framesRx: nat
    var sequence: nat
    var timeoutMs: nat
    var continuous: bool
    /** The module parameter spi_speed_hz. */
    var spiSpeedHz: nat

    function Abs(): Eng
      reads this, bufs
    {
      Eng(bufs[..], bufSize, currentIdx, state, total, overruns, errors, framesRx, sequence, continuous)
    }

    /** Running, with the given configuration, all counters zero and all buffers FREE and empty. */
    predicate IsFresh(c: Config)
      reads this, bufs
    {
      && state == RUNNING && bufs.Length == c.bufCount && bufSize == c.bufSize
      && timeoutMs == c.timeoutMs && continuous == c.continuous
      && currentIdx == total == overruns == errors == framesRx == sequence == 0
      && forall i | 0 <= i < bufs.Length :: bufs[i] == Desc(i, 0, 0, 0, FREE)
    }

    /** apex_sg_engine_init: nothing allocated, everything zero. */
    constructor (speed: nat)
      ensures state == IDLE && bufs.Length == 0 && fresh(bufs) && spiSpeedHz == speed
      ensures bufSize == currentIdx == total == overruns == errors == framesRx == sequence == timeoutMs == 0
      ensures !continuous
    {
      bufs := new Desc[0];
      state := IDLE;
      bufSize, currentIdx, total, overruns, errors := 0, 0, 0, 0, 0;
      framesRx, sequence, timeoutMs, continuous := 0, 0, 0, false;
      spiSpeedHz := speed;
    }

    /** apex_sg_engine_start. `arrays` says whether the two descriptor arrays could be allocated, `available`
        how many DMA buffers the allocator can provide, and `frames` whether the two frame buffers could be;
        `held` is how many DMA buffers the engine keeps, and `command` what is sent to the microcontroller. */
    method Start(c: Config, arrays: bool, available: nat, frames: bool)
      returns (ret: int, held: nat, command: seq<byte>)
      modifies this
      ensures var good := 2 <= c.bufCount <= 64 && 4096 <= c.bufSize <= 262144 && c.bufSize % 4 == 0;
              ret == if !good then -22 else if old(state) != IDLE then -16
                     else if !arrays || available < c.bufCount then -12 else 0
      ensures ret == 0 ==>
                && IsFresh(c) && Abs() == Started(c.bufCount, c.bufSize, c.continuous)
                && fresh(bufs) && held == c.bufCount
                && spiSpeedHz == (if 0 < c.spiSpeedHz <= 50_000_000 then c.spiSpeedHz else old(spiSpeedHz))
                && command == if frames then Encode(Msg(0x02, [1])) else []
      ensures ret != 0 ==> state == old(state) && held == 0 && spiSpeedHz == old(spiSpeedHz) && command == []
      ensures ret == -22 || ret == -16 ==> bufs == old(bufs)
      ensures ret == -12 ==> bufs.Length == 0
    {
      hide Fresh, Encode, Started;
      held, command := 0, [];
      if c.bufCount < 2 || c.bufCount > MAX_BUFS {
        return -EINVAL, 0, [];
      }
      if c.bufSize < SIZE_MIN || c.bufSize > SIZE_MAX {
        return -EINVAL, 0, [];
      }
      if c.bufSize % 4 != 0 {
        return -EINVAL, 0, [];
      }
      if state != IDLE {
        return -EBUSY, 0, [];
      }
      if !arrays {
        bufs := new Desc[0];
        return -ENOMEM, 0, [];
      }
      bufs, held := AllocateBuffers(c.bufCount, available);
      if held < c.bufCount {
        return -ENOMEM, 0, [];
      }
      Configure(c);
      if frames {
        command := StreamCommand(1);
      }
      return 0, held, command;
    }

    /** Taking over the configuration and zeroing the counters. */
    method Configure(c: Config)
      requires bufs[..] == Fresh(c.bufCount)
      modifies this
      ensures bufs == old(bufs) && IsFresh(c) && Abs() == Started(c.bufCount, c.bufSize, c.continuous)
      ensures spiSpeedHz == if 0 < c.spiSpeedHz <= 50_000_000 then c.spiSpeedHz else old(spiSpeedHz)
    {
      hide Fresh;
      FreshAre(c.bufCount);
      assert forall i | 0 <= i < bufs.Length :: bufs[i] == bufs[..][i];
      bufSize, timeoutMs, continuous := c.bufSize, c.timeoutMs, c.continuous;
      currentIdx, total, overruns, errors, framesRx, sequence := 0, 0, 0, 0, 0, 0;
      if c.spiSpeedHz > 0 && c.spiSpeedHz <= SPEED_MAX {
        spiSpeedHz := c.spiSpeedHz;
      }
      state := RUNNING;
    }

    /** The command to start or stop streaming, as built in a newly allocated frame buffer. */
    static method StreamCommand(enable: byte) returns (command: seq<byte>)
      ensures command == Encode(Msg(0x02, [enable]))
    {
      hide Encode;
      var frame := new byte[HDR_SIZE + MAX_PAYLOAD + CRC32_SIZE];
      var frameLen := BuildFrame(CMD_SDR_STREAM, Some([enable]), 1, frame);
      EncodedSize(Msg(CMD_SDR_STREAM, [enable]));
      command := frame[..frameLen];
    }

    /** The allocation loop of apex_sg_engine_start: all buffers, or none kept. */
    static method AllocateBuffers(count: nat, available: nat) returns (got: array<Desc>, held: nat)
      ensures fresh(got)
      ensures if available < count then got.Length == 0 && held == 0 else got[..] == Fresh(count) && held == count
    {
      got := new Desc[count](_ => Desc(0, 0, 0, 0, FREE));
      held := 0;
      var i := 0;
      while i < count
        invariant 0 <= i <= count && held == i <= available
        invariant got.Length == count && fresh(got)
        invariant got[..i] == Fresh(i)
      {
        if available == i {
          while i > 0
            invariant 0 <= i && held == i
          {
            i := i - 1;
            held := held - 1;
          }
          got := new Desc[0];
          return;
        }
        held := held + 1;
        got[i] := Desc(i, 0, 0, 0, FREE);
        assert got[..i + 1] == got[..i] + [got[i]];
        i := i + 1;
      }
      assert got[..] == got[..count];
    }

    /** apex_sg_dma_callback. */
    method DmaCallback(at: nat)
      requires Shape(Abs())
      modifies this, bufs
      ensures Abs() == Callback(old(Abs()), at) && bufs == old(bufs)
      ensures var i := old(currentIdx);
              && bufs[i] == Desc(old(bufs[i].index), bufSize, at, old(sequence), READY)
              && (forall j | 0 <= j < bufs.Length && j != i :: bufs[j] == old(bufs[j]))
              && currentIdx == (i + 1) % bufs.Length
      ensures sequence == Inc(old(sequence)) && framesRx == Inc(old(framesRx))
      ensures total == (old(total) + bufSize) % 0x1_0000_0000_0000_0000
      ensures timeoutMs == old(timeoutMs) && spiSpeedHz == old(spiSpeedHz)
    {
      hide Inc;
      var idx := currentIdx;
      ghost var was := bufs[..];
      bufs[idx] := bufs[idx].(dataLen := bufSize, timestamp := at, sequence := sequence, state := READY);
      assert bufs[..] == was[idx := bufs[idx]];
      sequence := Inc(sequence);
      total := Total(total + bufSize);
      framesRx := Inc(framesRx);
      currentIdx := Wrap(currentIdx + 1, bufs.Length);
    }

    /** One turn of the loop in apex_sg_work_handler. Without a timeout the wait lasts until the transfer is
        complete. */
    method TakeTurn(s: Submission)
      requires Shape(Abs())
      requires timeoutMs == 0 ==> !Overdue(s)
      modifies this, bufs
      ensures Abs() == Turn(old(Abs()), s) && bufs == old(bufs)
      ensures old(bufs[currentIdx].state) == USERSPACE ==>
                && bufs[..] == old(bufs[..]) && currentIdx == (old(currentIdx) + 1) % bufs.Length
                && overruns == Inc(old(overruns)) && errors == old(errors) && sequence == old(sequence)
      ensures timeoutMs == old(timeoutMs) && spiSpeedHz == old(spiSpeedHz)
    {
      hide Inc, Callback;
      var idx := currentIdx;
      if bufs[idx].state == USERSPACE {
        overruns := Inc(overruns);
        currentIdx := Wrap(idx + 1, bufs.Length);
        return;
      }
      Mark(idx, DMA_ACTIVE);
      match s {
        case Fails =>
          errors := Inc(errors);
          Mark(idx, FREE);
          if errors > 100 {
            state := ERROR;
          }
          return;
        case Completes(at) =>
          DmaCallback(at);
        case TimesOut =>
          errors := Inc(errors);
          Mark(idx, FREE);
        case CompletesLate(at, unmarked) =>
          errors := Inc(errors);
          LateCallback(at, unmarked);
      }
      if !continuous && sequence >= bufs.Length {
        state := IDLE;
      }
    }

    /** The callback beside the worker's marking the buffer FREE after a timeout. */
    method LateCallback(at: nat, unmarked: bool)
      requires Shape(Abs()) && bufs[currentIdx].state == DMA_ACTIVE
      modifies this, bufs
      ensures var late := Callback(old(Abs()), at);
              Abs() == if unmarked
                       then late.(bufs := late.bufs[old(currentIdx) := late.bufs[old(currentIdx)].(state := FREE)])
                       else late
      ensures bufs == old(bufs) && timeoutMs == old(timeoutMs) && spiSpeedHz == old(spiSpeedHz)
    {
      hide Wrap, Inc, Total;
      var idx := currentIdx;
      if unmarked {
        DmaCallback(at);
        Mark(idx, FREE);
      } else {
        MarkedOver(Abs(), at);
        Mark(idx, FREE);
        DmaCallback(at);
      }
    }

    /** apex_sg_buf_set_state. */
    method Mark(idx: nat, st: BufState)
      requires idx < bufs.Length
      modifies bufs
      ensures bufs[..] == old(bufs[..])[idx := old(bufs[idx]).(state := st)]
    {
      ghost var was := bufs[..];
      bufs[idx] := bufs[idx].(state := st);
      assert bufs[..] == was[idx := bufs[idx]];
    }

    /** apex_sg_work_handler on an engine just started, whatever each submission comes to, until it stops by itself
        or apex_sg_engine_stop, called from another context, has cleared the state by turn stopAt. A single batch
        without timeouts stops by itself, and the number of its turns is the number of buffers filled plus the number
        of refusals. */
    method WorkHandler(outcome: nat -> Submission, stopAt: nat) returns (turns: nat, stopped: bool)
      requires Configured(bufs.Length, bufSize) && Abs() == Started(bufs.Length, bufSize, continuous)
      requires timeoutMs == 0 ==> forall n: nat :: !Overdue(outcome(n))
      modifies this, bufs
      ensures bufs == old(bufs) && turns <= stopAt
      ensures var e := Run(bufs.Length, old(bufSize), old(continuous), Outcomes(outcome, turns));
              if stopped then turns == stopAt && e.state == RUNNING && Abs() == e.(state := IDLE)
              else e.state != RUNNING && Abs() == e
      ensures !old(continuous) && Patient(Outcomes(outcome, turns)) && stopAt >= bufs.Length + 100 ==>
                && !stopped && turns <= bufs.Length + 100 && turns == sequence + errors
                && ((state == IDLE && BatchDone(Abs()) && errors <= 100) || (state == ERROR && errors == 101))
                && (state == IDLE <==> exists k | 0 <= k <= turns ::
                      && Successes(Outcomes(outcome, turns)[..k]) == bufs.Length
                      && Failures(Outcomes(outcome, turns)[..k]) <= 100)
    {
      hide Turn, Run, Outcomes, Describes, BatchFilled, Started, Patient, Overdue, Successes, Failures;
      turns, stopped := 0, false;
      ghost var count, size, mode := bufs.Length, bufSize, continuous;
      StartedParts(count, size, mode);
      RunOfNone(count, size, mode, outcome);
      while state == RUNNING
        invariant bufs == old(bufs) && bufs.Length == count && Configured(count, size) && turns <= stopAt
        invariant timeoutMs == old(timeoutMs)
        invariant turns > 0 ==> Run(count, size, mode, Outcomes(outcome, turns - 1)).state == RUNNING
        invariant var e := Run(count, size, mode, Outcomes(outcome, turns));
                  if stopped then turns == stopAt && e.state == RUNNING && Abs() == e.(state := IDLE) else Abs() == e
        decreases stopAt - turns, !stopped
      {
        if turns == stopAt {
          state := IDLE;
          stopped := true;
        } else {
          RunOfMore(count, size, mode, outcome, turns);
          TakeTurn(outcome(turns));
          turns := turns + 1;
        }
      }
      if turns > 0 { RunOfMore(count, size, mode, outcome, turns - 1); }
      if !mode && Patient(Outcomes(outcome, turns)) && stopAt >= count + 100 {
        PatientWork(count, size, Outcomes(outcome, turns));
        BatchDeliversExactly(count, size, Outcomes(outcome, turns));
      }
    }

    /** apex_sg_engine_stop, once the worker has left its loop. The result is what is sent to the
        microcontroller. */
    method Stop(frames: bool) returns (command: seq<byte>)
      modifies this
      ensures if old(state) == IDLE then Abs() == old(Abs()) && bufs == old(bufs) && command == []
              else state == IDLE && bufs.Length == 0
                   && command == if frames then Encode(Msg(0x02, [0])) else []
    {
      command := [];
      if state == IDLE {
        return;
      }
      state := IDLE;
      if frames {
        command := StreamCommand(0);
      }
      bufs := new Desc[0];
    }
  }

  /** The callback does not look at the state it overwrites. */
  lemma MarkedOver(e: Eng, at: nat)
    requires Shape(e)
    ensures Callback(SetState(e, FREE), at) == Callback(e, at)
  {
    hide Wrap, Inc, Total;
    assert Callback(SetState(e, FREE), at).bufs == Callback(e, at).bufs;
  }

  function Outcomes(outcome: nat -> Submission, n: nat): (s: seq<Submission>)
    ensures |s| == n
  {
    if n == 0 then [] else Outcomes(outcome, n - 1) + [outcome(n - 1)]
  }

  lemma RunOfNone(count: nat, size: nat, continuous: bool, outcome: nat -> Submission)
    requires Configured(count, size)
    ensures Run(count, size, continuous, Outcomes(outcome, 0)) == Started(count, size, continuous)
  {
  }

  lemma RunOfMore(count: nat, size: nat, continuous: bool, outcome: nat -> Submission, n: nat)
    requires Configured(count, size) && Run(count, size, continuous, Outcomes(outcome, n)).state == RUNNING
    ensures Outcomes(outcome, n + 1)[..n] == Outcomes(outcome, n)
    ensures var e := Run(count, size, continuous, Outcomes(outcome, n));
            && |e.bufs| == count && e.size == size && e.continuous == continuous
            && Run(count, size, continuous, Outcomes(outcome, n + 1)) == Turn(e, outcome(n))
  {
    hide Turn, Describes, Started, Explains;
    var subs := Outcomes(outcome, n + 1);
    assert subs[..|subs| - 1] == Outcomes(outcome, n) && subs[|subs| - 1] == outcome(n);
    var k := RunExplained(count, size, continuous, Outcomes(outcome, n));
  }

  /** A batch without timeouts after the turns it has taken. */
  lemma PatientWork(count: nat, size: nat, subs: seq<Submission>)
    requires Configured(count, size) && Patient(subs)
    requires subs != [] ==> Run(count, size, false, subs[..|subs| - 1]).state == RUNNING
    ensures var e := Run(count, size, false, subs);
            && |subs| == e.sequence + e.errors <= count + 100
            && (e.state == RUNNING ==> |subs| < count + 100)
            && (e.state == IDLE ==> BatchDone(e) && e.errors <= 100)
            && (e.state == ERROR ==> e.errors == 101)
  {
    hide Turn, Describes, Fatal, Patient, BatchFilled, Errors, Explains, Started;
    if subs == [] {
      FirstOfAll(count, size);
      StartedParts(count, size, false);
    } else {
      var before, s := subs[..|subs| - 1], subs[|subs| - 1];
      PatientPrefix(subs, |subs| - 1);
      if |before| >= count + 100 { PatientBatchEnds(count, size, before); }
      PatientBatch(count, size, subs);
      assert before + [s] == subs;
      var e := Run(count, size, false, before);
      var k := RunExplained(count, size, false, before);
      ExplainsMore(e, before, s, k);
      TurnExplained(e, before, s);
      TurnParts(e, s);
      WorkCounts(Turn(e, s), subs);
    }
  }

  lemma WorkCounts(e: Eng, subs: seq<Submission>)
    requires Explains(e, subs, |subs|) && !e.continuous && Patient(subs) && |subs| < 0x1_0000_0000
    ensures |subs| == e.sequence + e.errors
  {
    hide Describes, Fatal, Patient, Errors, Word;
    assert subs[..|subs|] == subs;
    PatientCounts(subs);
    TurnsAreOutcomes(subs);
    PatientErrors(subs);
    EndOf(e, Successes(subs), Errors(subs), Unmarked(subs));
  }

  lemma PatientErrors(subs: seq<Submission>)
    requires |subs| < 0x1_0000_0000 && Timeouts(subs) == 0
    ensures Word(Errors(subs)) == Failures(subs)
  {
    CountsBelow(subs);
    WordIsItself(Errors(subs));
  }

  lemma FirstOfAll(count: nat, size: nat)
    requires Configured(count, size)
    ensures Run(count, size, false, []) == Started(count, size, false)
  {
  }
}
