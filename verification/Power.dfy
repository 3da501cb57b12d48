/** The power state machine of battery_monitor.c. */
module Power {

  datatype State = ACTIVE | IDLE | SLEEP | SHUTDOWN

  const BROWNOUT_MV := 2800
  const RECOVERY_MV := 3000

  /** One call of power_state_update: battery voltage, die temperature in tenths of a degree, activity. */
  datatype Sample = Sample(vbat: nat, temp: int, active: bool)

  /** current_power_state and brownout_flag. */
  class Monitor {
    var state: State
    var brownout: bool

    constructor ()
      ensures state == ACTIVE && !brownout
    {
      state, brownout := ACTIVE, false;
    }

    /** battery_is_brownout on the module's own flag. */
    method IsBrownout(vbat: nat) returns (r: bool)
      modifies this`brownout
      ensures r == brownout == if old(brownout) then vbat < 3000 else vbat < 2800
    {
      if brownout {
        if vbat >= BROWNOUT_MV + 200 {
          brownout := false;
        }
      } else {
        if vbat < BROWNOUT_MV {
          brownout := true;
        }
      }
      return brownout;
    }

    /** power_state_update. */
    method Update(s: Sample) returns (r: State)
      modifies this
      ensures (state, brownout) == Next((old(state), old(brownout)), s) && r == state
      ensures old(state) == IDLE ==>
                (state == SHUTDOWN <==> s.vbat < 3000 || brownout || s.temp > 1050)
                && (state == SLEEP <==> 3000 <= s.vbat < 3300 && !brownout && s.temp <= 1050)
                && (state == IDLE <==> s.vbat >= 3300 && !brownout && s.temp <= 1050 && !s.active)
    {
      var isBrownout := IsBrownout(s.vbat);
      var critical := s.vbat < 3000 || isBrownout || s.temp > 1050;
      var low := s.vbat < 3300;
      match state {
        case ACTIVE =>
          if critical {
            state := SHUTDOWN;
          } else if low && !s.active {
            state := SLEEP;
          }
        case IDLE =>
          if critical {
            state := SHUTDOWN;
          } else if low {
            state := SLEEP;
          } else if s.active {
            state := ACTIVE;
          }
        case SLEEP =>
          if critical {
            state := SHUTDOWN;
          } else if s.active {
            state := ACTIVE;
          }
        case SHUTDOWN =>
      }
      return state;
    }
  }

  function Flag(was: bool, vbat: nat): bool { if was then vbat < RECOVERY_MV else vbat < BROWNOUT_MV }

  function Next(s: (State, bool), x: Sample): (State, bool) {
    var flag := Flag(s.1, x.vbat);
    var critical := x.vbat < 3000 || flag || x.temp > 1050;
    match s.0
    case SHUTDOWN => (SHUTDOWN, flag)
    case ACTIVE => (if critical then SHUTDOWN else if x.vbat < 3300 && !x.active then SLEEP else ACTIVE, flag)
    case IDLE =>
      (if critical then SHUTDOWN else if x.vbat < 3300 then SLEEP else if x.active then ACTIVE else IDLE, flag)
    case SLEEP => (if critical then SHUTDOWN else if x.active then ACTIVE else SLEEP, flag)
  }

  /** The machine after a series of samples, from power-on and through updates alone. */
  function After(xs: seq<Sample>): (State, bool) {
    if xs == [] then (ACTIVE, false) else Next(After(xs[..|xs| - 1]), xs[|xs| - 1])
  }

  /** Over every run: SHUTDOWN exactly when some sample was below 3000 mV or above 105 degrees; IDLE is never
      entered; an active brownout implies SHUTDOWN, so testing the flag as well decides nothing. */
  lemma {:induction false} ShutdownExactly(xs: seq<Sample>)
    ensures After(xs).0 == SHUTDOWN <==> exists i | 0 <= i < |xs| :: xs[i].vbat < 3000 || xs[i].temp > 1050
    ensures After(xs).0 != IDLE
    ensures After(xs).1 ==> After(xs).0 == SHUTDOWN
    decreases |xs|
  {
    if xs != [] {
      var before, x := xs[..|xs| - 1], xs[|xs| - 1];
      ShutdownExactly(before);
      assert forall i | 0 <= i < |before| :: xs[i] == before[i];
      assert (exists i | 0 <= i < |xs| :: xs[i].vbat < 3000 || xs[i].temp > 1050)
        <==> (exists i | 0 <= i < |before| :: before[i].vbat < 3000 || before[i].temp > 1050)
             || x.vbat < 3000 || x.temp > 1050;
    }
  }

  /** Sample i was low without activity, and there has been none since. */
  predicate Dozes(xs: seq<Sample>, i: nat)
    requires i < |xs|
  {
    xs[i].vbat < 3300 && forall j | i <= j < |xs| :: !xs[j].active
  }

  predicate Dozing(xs: seq<Sample>) { exists i | 0 <= i < |xs| :: Dozes(xs, i) }

  lemma DozesMore(xs: seq<Sample>, i: nat)
    requires i < |xs|
    ensures var n := |xs| - 1;
            Dozes(xs, i) <==> !xs[n].active && if i < n then Dozes(xs[..n], i) else xs[i].vbat < 3300
  {
    var n := |xs| - 1;
    forall j | i <= j < n ensures xs[..n][j] == xs[j] {}
    if i < n && Dozes(xs[..n], i) {
      forall j | i <= j < n ensures !xs[j].active { assert !xs[..n][j].active; }
    }
  }

  lemma DozingMore(xs: seq<Sample>)
    requires xs != []
    ensures var x := xs[|xs| - 1];
            Dozing(xs) <==> !x.active && (x.vbat < 3300 || Dozing(xs[..|xs| - 1]))
  {
    hide Dozes;
    var n := |xs| - 1;
    forall i | 0 <= i < |xs|
      ensures Dozes(xs, i) <==> !xs[n].active && if i < n then Dozes(xs[..n], i) else xs[i].vbat < 3300
    {
      DozesMore(xs, i);
    }
    assert Dozes(xs, n) <==> !xs[n].active && xs[n].vbat < 3300;
    if !xs[n].active && Dozing(xs[..n]) {
      var i :| 0 <= i < n && Dozes(xs[..n], i);
      assert Dozes(xs, i);
    }
  }

  /** Over every run without a critical sample: SLEEP exactly when some sample was below 3300 mV without activity and
      none from there on has had any; ACTIVE otherwise. */
  lemma {:induction false} SleepExactly(xs: seq<Sample>)
    requires forall i | 0 <= i < |xs| :: xs[i].vbat >= 3000 && xs[i].temp <= 1050
    ensures After(xs).0 == SLEEP <==>
            exists i | 0 <= i < |xs| :: xs[i].vbat < 3300 && forall j | i <= j < |xs| :: !xs[j].active
    ensures After(xs).0 == SLEEP || After(xs).0 == ACTIVE
    decreases |xs|
  {
    hide Dozing;
    DozingIs(xs);
    ShutdownExactly(xs);
    if xs == [] {
      NeverDozing();
    } else {
      var before := xs[..|xs| - 1];
      SleepExactly(before);
      ShutdownExactly(before);
      DozingIs(before);
      DozingMore(xs);
    }
  }

  lemma DozingIs(xs: seq<Sample>)
    ensures Dozing(xs) <==>
            exists i | 0 <= i < |xs| :: xs[i].vbat < 3300 && forall j | i <= j < |xs| :: !xs[j].active
  {
    assert forall i | 0 <= i < |xs| ::
        Dozes(xs, i) <==> xs[i].vbat < 3300 && forall j | i <= j < |xs| :: !xs[j].active;
  }

  lemma NeverDozing()
    ensures !Dozing([])
  {
  }

  /** Sample i was below 2800 mV, and none from there on has reached 3000 mV. */
  predicate Sags(xs: seq<Sample>, i: nat)
    requires i < |xs|
  {
    xs[i].vbat < 2800 && forall j | i <= j < |xs| :: xs[j].vbat < 3000
  }

  lemma SagsMore(xs: seq<Sample>, i: nat)
    requires i < |xs|
    ensures var n := |xs| - 1;
            Sags(xs, i) <==> xs[n].vbat < 3000 && if i < n then Sags(xs[..n], i) else xs[i].vbat < 2800
  {
    var n := |xs| - 1;
    forall j | i <= j < n ensures xs[..n][j] == xs[j] {}
    if i < n && Sags(xs[..n], i) {
      forall j | i <= j < n ensures xs[j].vbat < 3000 { assert xs[..n][j].vbat < 3000; }
    }
  }

  lemma {:induction false} FlagSags(xs: seq<Sample>)
    ensures After(xs).1 <==> exists i | 0 <= i < |xs| :: Sags(xs, i)
    decreases |xs|
  {
    hide Sags;
    if xs != [] {
      var n := |xs| - 1;
      FlagSags(xs[..n]);
      forall i | 0 <= i < |xs|
        ensures Sags(xs, i) <==> xs[n].vbat < 3000 && if i < n then Sags(xs[..n], i) else xs[i].vbat < 2800
      {
        SagsMore(xs, i);
      }
      assert Sags(xs, n) <==> xs[n].vbat < 2800;
      if After(xs[..n]).1 && xs[n].vbat < 3000 {
        var i :| 0 <= i < n && Sags(xs[..n], i);
        assert Sags(xs, i);
      }
    }
  }

  /** Hysteresis over every run: the brownout flag is set exactly when some sample was below 2800 mV and none
      from there on reached 3000 mV. */
  lemma BrownoutExactly(xs: seq<Sample>)
    ensures After(xs).1 <==> exists i | 0 <= i < |xs| ::
              xs[i].vbat < 2800 && forall j | i <= j < |xs| :: xs[j].vbat < 3000
  {
    FlagSags(xs);
    assert forall i | 0 <= i < |xs| ::
        Sags(xs, i) <==> xs[i].vbat < 2800 && forall j | i <= j < |xs| :: xs[j].vbat < 3000;
  }
}
