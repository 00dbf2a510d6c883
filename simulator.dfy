/** The simulation loop for one capacitance value, written as the step-by-step
    loop it is: locals updated in place, checkpoint times appended, the
    voltage series written slot by slot, and an early exit at a settled
    cutoff that is infeasible or completes the workload. Its contract ties
    everything it returns to the state machine of module `Machine`. */
module Simulator {
  import opened Physics
  import opened Machine

  method Simulate(p: Params, trace: seq<real>) returns (report: Report, voltage: array<real>)
    ensures fresh(voltage) && voltage.Length == |trace|
    ensures report == Verdict(p, Run(p, trace))
    ensures forall i :: 0 <= i < |trace| ==> voltage[i] == VoltageAt(p, trace, i)
  {
    voltage := new real[|trace|](_ => 0.0);

    var charging := true;
    var v, vInitial, eInitial := 0.0, 0.0, 0.0;
    var consumed := 0.0;
    var checkpoints: nat := 0;
    var recorded := false;
    var times: seq<nat> := [];
    var stopped := false;

    var i := 0;
    while i < |trace|
      invariant 0 <= i <= |trace|
      invariant RunTo(p, trace, i)
             == Continue(State(if charging then Charging else Discharging,
                               v, vInitial, eInitial, consumed, checkpoints, recorded, times))
      invariant forall j :: 0 <= j < i ==> voltage[j] == VoltageAt(p, trace, j)
      invariant forall j :: i <= j < |trace| ==> voltage[j] == 0.0
    {
      ghost var before := RunTo(p, trace, i).state;
      ghost var after := Step(p, trace[i], i, before);
      assert RunTo(p, trace, i + 1) == after;
      var vMax := trace[i];
      if charging {
        assert after == ChargingUpdate(p, vMax, before);
        if vMax > v {
          v := ChargeToward(vInitial, vMax, p.chargeFactor);
          vInitial := v;
        }
        if v >= p.vStart {
          charging := false;
          vInitial := v;
          eInitial := Energy(p.c, vInitial);
          recorded := false;
        }
      } else {
        assert after == DischargingUpdate(p, vMax, i, before);
        v := Decay(vInitial, p.decayFactor);
        v := ChargeToward(v, vMax, p.chargeFactor);
        vInitial := v;

        if v <= p.vCheck && !recorded {
          times := times + [i];
          recorded := true;
        }

        if v <= p.vCutoff {
          charging := true;
          var eFinal := Energy(p.c, vInitial);
          consumed := consumed + (eInitial - eFinal - p.checkpointEnergy - p.restoreEnergy);
          if consumed < 0.0 {
            stopped := true;
            assert after == Stop(State(Charging, v, vInitial, eInitial, consumed, checkpoints, recorded, times), Infeasible);
            break;
          }
          if consumed >= Required(p) {
            stopped := true;
            assert after == Stop(State(Charging, v, vInitial, eInitial, consumed, checkpoints, recorded, times), Completed);
            break;
          }
          vInitial := v;
          checkpoints := checkpoints + 1;
        }
      }
      assert after == Continue(State(if charging then Charging else Discharging,
                                     v, vInitial, eInitial, consumed, checkpoints, recorded, times));
      assert VoltageAt(p, trace, i) == v;
      voltage[i] := v;
      i := i + 1;
    }

    ghost var last := State(if charging then Charging else Discharging,
                            v, vInitial, eInitial, consumed, checkpoints, recorded, times);
    if stopped {
      assert i < |trace| && RunTo(p, trace, i + 1) == Stop(last, RunTo(p, trace, i + 1).reason);
      BreakIsFinal(p, trace, i);
    }

    var completed := consumed >= Required(p);
    report := Report(p.c, p.vCheck, consumed, Required(p),
                     if completed then Some(checkpoints) else None,
                     completed, times);
  }
}
