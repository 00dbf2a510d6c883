/** The charge/discharge state machine of one simulation run, as a pure
    specification: the per-run parameters, the state the loop keeps, one
    1 ms step, the run over a prefix of the trace, and the invariants and
    step properties of that run. `Simulator.Simulate` is proved to compute
    exactly `Run` of this module. */
module Machine {
  import opened Physics

  datatype Option<T> = None | Some(value: T)

  /** The constants of one run, for one capacitance value. The resistances
      only appear through the two per-step factors. */
  datatype Params = Params(
    c: real,                    // capacitance C, in farads
    chargeFactor: real,         // 1 - exp(-0.001 / (R_charging * C))
    decayFactor: real,          // exp(-0.001 / (R_discharging * C))
    vStart: real,               // startup voltage: charging -> discharging
    vCutoff: real,              // minimum operating voltage: settle the cycle
    vCheck: real,               // checkpoint voltage threshold (a square root)
    checkpointEnergy: real,     // checkpoint size * write energy per byte
    restoreEnergy: real,        // restore size * read energy per byte
    energyPerCycle: real,
    totalCyclesRequired: int)

  /** What the abstraction of the exponentials and of the square root
      guarantees for positive resistances and capacitance, with a
      non-negative checkpoint cost. */
  predicate Valid(p: Params)
  {
    && 0.0 < p.c
    && 0.0 < p.chargeFactor < 1.0
    && 0.0 < p.decayFactor < 1.0
    && 0.0 <= p.checkpointEnergy
    && ThresholdFits(p.c, p.vCutoff, p.checkpointEnergy, p.vCheck)
  }

  /** Energy the workload needs: total cycles times energy per cycle. */
  function Required(p: Params): real
  {
    p.totalCyclesRequired as real * p.energyPerCycle
  }

  datatype Mode = Charging | Discharging

  /** The loop's locals. `recorded` is the flag that allows one checkpoint
      time per discharge cycle; `times` holds the step indices at which a
      checkpoint location was recorded (the step index i stands for the
      time i / 1000 seconds). */
  datatype State = State(
    mode: Mode,
    v: real,
    vInitial: real,
    eInitial: real,
    consumed: real,
    checkpoints: nat,
    recorded: bool,
    times: seq<nat>)

  datatype StopReason = Infeasible | Completed

  /** A step either lets the loop go on, or breaks out of it. */
  datatype Outcome = Continue(state: State) | Stop(state: State, reason: StopReason)

  /** Before the first step: charging from 0 V, nothing consumed or recorded.
      The energy at the start of discharge is not yet defined; 0 stands in
      for it and is never read before the first discharge. */
  function Init(): State
  {
    State(Charging, 0.0, 0.0, 0.0, 0.0, 0, false, [])
  }

  /** Step `i` of the run, with ambient voltage `vMax`. */
  function Step(p: Params, vMax: real, i: nat, s: State): Outcome
  {
    match s.mode
    case Charging => ChargingUpdate(p, vMax, s)
    case Discharging => DischargingUpdate(p, vMax, i, s)
  }

  /** A charging step: the capacitor only charges toward a higher ambient
      voltage, and starts discharging once it reaches the startup voltage. */
  function ChargingUpdate(p: Params, vMax: real, s: State): Outcome
  {
    var rising := vMax > s.v;
    var v := if rising then ChargeToward(s.vInitial, vMax, p.chargeFactor) else s.v;
    var vInitial := if rising then v else s.vInitial;
    if v >= p.vStart then
      Continue(s.(mode := Discharging, v := v, vInitial := v, eInitial := Energy(p.c, v), recorded := false))
    else
      Continue(s.(v := v, vInitial := vInitial))
  }

  /** A discharging step: leakage, then replenishment from the ambient
      source; the first time in the cycle at or below the threshold is
      recorded; at the cutoff the cycle's energy is settled. */
  function DischargingUpdate(p: Params, vMax: real, i: nat, s: State): Outcome
  {
    var v := ChargeToward(Decay(s.vInitial, p.decayFactor), vMax, p.chargeFactor);
    var record := v <= p.vCheck && !s.recorded;
    var s1 := s.(v := v, vInitial := v, recorded := s.recorded || record,
                 times := if record then s.times + [i] else s.times);
    if v <= p.vCutoff then
      var consumed := s.consumed + (s.eInitial - Energy(p.c, v) - p.checkpointEnergy - p.restoreEnergy);
      var s2 := s1.(mode := Charging, consumed := consumed);
      if consumed < 0.0 then Stop(s2, Infeasible)
      else if consumed >= Required(p) then Stop(s2, Completed)
      else Continue(s2.(checkpoints := s.checkpoints + 1))
    else
      Continue(s1)
  }

  /** The outcome after the first `n` samples of the trace: a stop is final. */
  function RunTo(p: Params, trace: seq<real>, n: nat): Outcome
    requires n <= |trace|
  {
    if n == 0 then Continue(Init())
    else
      var prev := RunTo(p, trace, n - 1);
      if prev.Stop? then prev else Step(p, trace[n - 1], n - 1, prev.state)
  }

  /** The outcome of the whole run. */
  function Run(p: Params, trace: seq<real>): Outcome
  {
    RunTo(p, trace, |trace|)
  }

  /** The value the run leaves in the voltage series at step `i`: the
      voltage after the step, or the initial 0 when the loop broke at or
      before that step. */
  function VoltageAt(p: Params, trace: seq<real>, i: nat): real
    requires i < |trace|
  {
    match RunTo(p, trace, i + 1)
    case Continue(s) => s.v
    case Stop(_, _) => 0.0
  }

  /** The result the simulator reports for one capacitance value. */
  datatype Report = Report(
    capacitance: real,
    threshold: real,
    consumed: real,
    required: real,
    checkpoints: Option<nat>,   // reported only when the workload completed
    completed: bool,
    checkpointTimes: seq<nat>)

  /** The workload completed when the final balance reaches the required energy. */
  function Verdict(p: Params, o: Outcome): Report
  {
    var completed := o.state.consumed >= Required(p);
    Report(p.c, p.vCheck, o.state.consumed, Required(p),
           if completed then Some(o.state.checkpoints) else None,
           completed, o.state.times)
  }

  // ---------------------------------------------------------------------
  // Invariants of a run

  predicate Increasing(xs: seq<nat>)
  {
    forall j, k :: 0 <= j < k < |xs| ==> xs[j] < xs[k]
  }

  predicate AllBefore(xs: seq<nat>, n: nat)
  {
    forall k :: 0 <= k < |xs| ==> xs[k] < n
  }

  /** What holds of the state after `n` steps while the run goes on. */
  predicate Inv(p: Params, s: State, n: nat)
  {
    && s.vInitial == s.v
    // one recorded time per settled cycle, plus one for the current
    // discharge cycle once its flag is set
    && (s.mode == Charging ==> |s.times| == s.checkpoints)
    && (s.mode == Discharging ==> |s.times| == s.checkpoints + (if s.recorded then 1 else 0))
    // the balance is only touched at cutoffs that let the run go on
    && (s.checkpoints == 0 ==> s.consumed == 0.0)
    && (s.checkpoints > 0 ==> 0.0 <= s.consumed < Required(p))
    && Increasing(s.times)
    && AllBefore(s.times, n)
  }

  /** What holds of the state the run stopped in, `n` steps or more after
      its start. */
  predicate StopInv(p: Params, s: State, r: StopReason, n: nat)
  {
    && s.vInitial == s.v
    && s.mode == Charging
    && |s.times| == s.checkpoints + 1
    && (r == Infeasible <==> s.consumed < 0.0)
    && (r == Completed ==> s.consumed >= Required(p))
    && Increasing(s.times)
    && AllBefore(s.times, n)
  }

  /** The invariant of an outcome after `n` steps. */
  predicate OutcomeInv(p: Params, o: Outcome, n: nat)
  {
    match o
    case Continue(s) => Inv(p, s, n)
    case Stop(s, r) => StopInv(p, s, r, n)
  }

  lemma StepPreservesInv(p: Params, vMax: real, i: nat, s: State)
    requires Valid(p) && Inv(p, s, i)
    ensures OutcomeInv(p, Step(p, vMax, i, s), i + 1)
  {
    if s.mode == Charging {
      assert Inv(p, Step(p, vMax, i, s).state, i + 1);
    } else {
      ThresholdAboveCutoff(p.c, p.vCutoff, p.checkpointEnergy, p.vCheck);
      DischargingPreservesInv(p, vMax, i, s);
    }
  }

  lemma DischargingPreservesInv(p: Params, vMax: real, i: nat, s: State)
    requires Inv(p, s, i) && s.mode == Discharging && p.vCutoff <= p.vCheck
    ensures OutcomeInv(p, Step(p, vMax, i, s), i + 1)
  {
  }

  lemma StopInvLater(p: Params, s: State, r: StopReason, n: nat)
    requires StopInv(p, s, r, n)
    ensures StopInv(p, s, r, n + 1)
  {
  }

  lemma RunStepPreservesInv(p: Params, trace: seq<real>, n: nat)
    requires Valid(p) && 0 < n <= |trace|
    requires RunTo(p, trace, n - 1).Continue? && Inv(p, RunTo(p, trace, n - 1).state, n - 1)
    ensures OutcomeInv(p, RunTo(p, trace, n), n)
  {
    var s := RunTo(p, trace, n - 1).state;
    StepPreservesInv(p, trace[n - 1], n - 1, s);
    SameOutcomeSameInv(p, Step(p, trace[n - 1], n - 1, s), RunTo(p, trace, n), n);
  }

  lemma SameOutcomeSameInv(p: Params, o: Outcome, o': Outcome, n: nat)
    requires o == o' && OutcomeInv(p, o, n)
    ensures OutcomeInv(p, o', n)
  {
  }

  /** Every state a run reaches satisfies its invariant. */
  lemma {:induction false} RunInvariant(p: Params, trace: seq<real>, n: nat)
    requires Valid(p) && n <= |trace|
    ensures OutcomeInv(p, RunTo(p, trace, n), n)
  {
    if n > 0 {
      RunInvariant(p, trace, n - 1);
      var prev := RunTo(p, trace, n - 1);
      if prev.Continue? {
        RunStepPreservesInv(p, trace, n);
      } else {
        StopInvLater(p, prev.state, prev.reason, n - 1);
      }
    }
  }

  /** Once the loop has broken out, nothing more happens. */
  lemma {:induction false} StopIsFinal(p: Params, trace: seq<real>, n: nat, m: nat)
    requires n <= m <= |trace| && RunTo(p, trace, n).Stop?
    ensures RunTo(p, trace, m) == RunTo(p, trace, n)
  {
    if n < m {
      StopIsFinal(p, trace, n, m - 1);
    }
  }

  /** When the loop breaks at step `n`, the run ends in that step's state,
      and the voltage series keeps its initial 0 from slot `n` on. */
  lemma BreakIsFinal(p: Params, trace: seq<real>, n: nat)
    requires n < |trace| && RunTo(p, trace, n + 1).Stop?
    ensures Run(p, trace) == RunTo(p, trace, n + 1)
    ensures forall j :: n <= j < |trace| ==> VoltageAt(p, trace, j) == 0.0
  {
    StopIsFinal(p, trace, n + 1, |trace|);
    forall j | n < j < |trace|
      ensures VoltageAt(p, trace, j) == 0.0
    {
      StopIsFinal(p, trace, n + 1, j + 1);
    }
  }

  // ---------------------------------------------------------------------
  // Properties of one step

  /** A charging step never stops the run. It raises the voltage strictly
      toward a higher ambient voltage and leaves it alone otherwise; it
      switches to discharging exactly when the voltage reaches the startup
      voltage, capturing the stored energy and clearing the recording flag. */
  lemma ChargingStep(p: Params, vMax: real, i: nat, s: State)
    requires Valid(p) && s.mode == Charging && s.vInitial == s.v
    ensures Step(p, vMax, i, s).Continue?
    ensures var s' := Step(p, vMax, i, s).state;
      && (vMax > s.v ==> s.v < s'.v < vMax)
      && (vMax <= s.v ==> s'.v == s.v)
      && s'.vInitial == s'.v
      && (s'.mode == Discharging <==> s'.v >= p.vStart)
      && (s'.mode == Discharging ==> s'.eInitial == Energy(p.c, s'.v) && !s'.recorded)
      && (s'.mode == Charging ==> s'.eInitial == s.eInitial && s'.recorded == s.recorded)
      && s'.consumed == s.consumed && s'.checkpoints == s.checkpoints && s'.times == s.times
  {
  }

  /** A discharging step lets the voltage leak and then replenishes it
      from the ambient source: the new voltage lies between the decayed
      voltage and the ambient voltage, and it falls whenever the ambient
      voltage is not above the current one. The new voltage is also the
      start of the next update. The step returns to charging exactly at the
      cutoff; above it the run goes on with the energy balance and the
      cycle count unchanged. */
  lemma DischargingStep(p: Params, vMax: real, i: nat, s: State)
    requires Valid(p) && s.mode == Discharging && s.vInitial == s.v
    ensures var d := Decay(s.v, p.decayFactor);
      var o := Step(p, vMax, i, s);
      var s' := o.state;
      && (d <= vMax ==> d <= s'.v <= vMax)
      && (vMax <= d ==> vMax <= s'.v <= d)
      && (0.0 < s.v && vMax <= s.v ==> s'.v < s.v)
      && s'.vInitial == s'.v
      && s'.eInitial == s.eInitial
      && (s'.mode == Charging <==> s'.v <= p.vCutoff)
      && (s'.v > p.vCutoff ==> o.Continue? && s'.consumed == s.consumed && s'.checkpoints == s.checkpoints)
  {
  }

  /** A checkpoint time is appended only in a discharging step whose new
      voltage is at or below the threshold while the current cycle has none
      yet; it is the step's own index, and nothing else is ever appended. */
  lemma CheckpointTimeRecording(p: Params, vMax: real, i: nat, s: State)
    ensures var s' := Step(p, vMax, i, s).state;
      var appended := s.mode == Discharging && s'.v <= p.vCheck && !s.recorded;
      && s'.times == (if appended then s.times + [i] else s.times)
      && (s.mode == Discharging ==> s'.recorded == (s.recorded || s'.v <= p.vCheck))
  {
  }

  /** Within a discharge cycle, a time has been recorded exactly when the
      flag is set: so the step that appends is the first step of the cycle
      at or below the threshold, and a cycle gets at most one time. */
  lemma {:induction false} FlagMeansCycleRecorded(p: Params, trace: seq<real>, n: nat)
    requires Valid(p) && n <= |trace|
    ensures var o := RunTo(p, trace, n);
      o.Continue? && o.state.mode == Discharging ==>
        && (o.state.recorded <==> |o.state.times| == o.state.checkpoints + 1)
        && (!o.state.recorded <==> |o.state.times| == o.state.checkpoints)
  {
    RunInvariant(p, trace, n);
  }

  /** At a cutoff the balance moves by exactly the energy drawn in the
      cycle minus the checkpoint and restore costs. The run breaks on a
      negative balance (infeasible) or on one that reaches the requirement
      (completed), without counting the cycle; otherwise the balance lies in
      [0, required) and the cycle is counted. */
  lemma CutoffSettlesBalance(p: Params, vMax: real, i: nat, s: State)
    requires s.mode == Discharging
    requires Step(p, vMax, i, s).state.v <= p.vCutoff
    ensures var o := Step(p, vMax, i, s);
      var b := s.consumed + (s.eInitial - Energy(p.c, o.state.v) - p.checkpointEnergy - p.restoreEnergy);
      && o.state.consumed == b
      && o.state.mode == Charging
      && (b < 0.0 ==> o == Stop(o.state, Infeasible))
      && (0.0 <= b && b >= Required(p) ==> o == Stop(o.state, Completed))
      && (o.Stop? ==> o.state.checkpoints == s.checkpoints)
      && (o.Continue? ==> 0.0 <= b < Required(p) && o.state.checkpoints == s.checkpoints + 1)
  {
  }

  /** The cycle count grows by exactly one at each cutoff that lets the run
      go on, and stays put in every other step. */
  lemma CheckpointCountStep(p: Params, vMax: real, i: nat, s: State)
    ensures var o := Step(p, vMax, i, s);
      var settled := o.Continue? && s.mode == Discharging && o.state.mode == Charging;
      o.state.checkpoints == s.checkpoints + (if settled then 1 else 0)
  {
  }

  /** The loop only breaks at a cutoff step in discharging, and only for
      the two reasons of the balance check. */
  lemma StopOnlyAtCutoff(p: Params, vMax: real, i: nat, s: State)
    requires Step(p, vMax, i, s).Stop?
    ensures var o := Step(p, vMax, i, s);
      && s.mode == Discharging
      && o.state.v <= p.vCutoff
      && (o.reason == Infeasible <==> o.state.consumed < 0.0)
      && (o.reason == Completed <==> 0.0 <= o.state.consumed && o.state.consumed >= Required(p))
  {
  }

  // ---------------------------------------------------------------------
  // Properties of a whole run

  /** Throughout a run, settled cycles and recorded checkpoint times keep
      step: `checkpoints <= |times| <= checkpoints + 1`; the times are
      strictly increasing step indices of steps already taken. */
  lemma {:induction false} CheckpointTimesTrackCycles(p: Params, trace: seq<real>, n: nat)
    requires Valid(p) && n <= |trace|
    ensures var s := RunTo(p, trace, n).state;
      && s.checkpoints <= |s.times| <= s.checkpoints + 1
      && Increasing(s.times)
      && AllBefore(s.times, n)
  {
    RunInvariant(p, trace, n);
  }

  /** The reported verdict: completed exactly when the final balance
      reaches the requirement, and the cycle count is reported exactly then.
      A break on a reached requirement is a completion; with a positive
      requirement, an infeasible break and an exhausted trace are not. */
  lemma {:induction false} VerdictOfRun(p: Params, trace: seq<real>)
    requires Valid(p)
    ensures var o := Run(p, trace);
      var r := Verdict(p, o);
      && (r.completed <==> o.state.consumed >= Required(p))
      && (r.checkpoints.Some? <==> r.completed)
      && (r.completed ==> r.checkpoints == Some(o.state.checkpoints))
      && (o.Stop? && o.reason == Completed ==> r.completed)
      && (0.0 < Required(p) && o.Stop? && o.reason == Infeasible ==> !r.completed)
      && (0.0 < Required(p) && o.Continue? ==> !r.completed)
  {
    RunInvariant(p, trace, |trace|);
  }

  /** When the first cycle cannot pay for its checkpoint and restore, the
      run breaks as infeasible at its first cutoff, with no cycle counted. */
  lemma {:induction false} FirstCycleDeficit(p: Params, trace: seq<real>, n: nat)
    requires Valid(p) && n < |trace|
    ensures var o := RunTo(p, trace, n);
      var o' := RunTo(p, trace, n + 1);
      (&& o.Continue? && o.state.mode == Discharging && o.state.checkpoints == 0
       && o'.state.v <= p.vCutoff
       && o.state.eInitial - Energy(p.c, o'.state.v) < p.checkpointEnergy + p.restoreEnergy)
      ==> o'.Stop? && o'.reason == Infeasible && o'.state.checkpoints == 0 && o'.state.consumed < 0.0
  {
    RunInvariant(p, trace, n);
    if RunTo(p, trace, n).Continue? {
      assert RunTo(p, trace, n + 1) == Step(p, trace[n], n, RunTo(p, trace, n).state);
    }
  }
}
