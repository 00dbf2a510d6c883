# CapSimu simulation loop, modelled in Dafny

CapSimu simulates an energy-harvesting device. A capacitor charges from an
ambient voltage trace (one sample per millisecond). At the startup voltage the
MCU starts running and draws the capacitor down. At the cutoff voltage the cycle
is settled: the energy drawn since startup, minus the cost of one checkpoint and
one restore, is added to a running balance. The device then either recharges or
stops. It stops when the balance goes negative (infeasible) or reaches the
energy the workload needs (completed). During each discharge cycle, the first
step at or below the checkpoint voltage threshold is recorded as a checkpoint
location.

This project models that loop for one capacitance value
(`simulate_for_capacitor`), and the completion verdict it reports.

- `physics.dfy` (module `Physics`): the charging law, the decay law, the stored
  energy ½·C·V², and the checkpoint threshold `V_check_thres`. The exponentials
  and the square root are given values. The charging factor
  `1 - exp(-0.001/(R_charging·C))` and the decay factor
  `exp(-0.001/(R_discharging·C))` are reals in (0, 1). The threshold is a real
  `vCheck >= 0` whose square is `2·(E_checkpoint + ½·C·V_cutoff²)/C`.
- `machine.dfy` (module `Machine`): the run as a pure state machine. It has the
  loop's state (`State`), one step (`Step`, split into `ChargingUpdate` and
  `DischargingUpdate`) and the run over the first `n` samples (`RunTo`). It also
  has the voltage each slot of the series ends up with (`VoltageAt`), the
  reported result (`Verdict`), and the run's invariants and step properties.
- `simulator.dfy` (module `Simulator`): `Simulate`, the loop itself in
  imperative form. It updates locals in place, appends to the checkpoint list,
  writes a freshly allocated zero-filled `array<real>` slot by slot, and leaves
  the loop with `break`. Its postcondition says that the report and every slot
  of the array are those of the state machine.

Time is the step index `i`. The source's time value is `i/1000` seconds, which
is strictly increasing in `i`. So the recorded checkpoint times are kept as step
indices.

Two behaviours of the code that the model keeps:

- The voltage slot of the step that breaks out of the loop is not written. It
  keeps its initial 0, and so do all later slots.
- No parameter is validated before the loop runs. The model takes any
  parameters. Properties that need positive factors, a positive capacitance, a
  non-negative checkpoint cost or a positive requirement state this in their
  `requires`.

## Model

| member | source | states |
|---|---|---|
| `Physics.ChargeToward` | camsimu.py:75-76 | With a factor in (0,1), one charging step moves the voltage strictly toward the ambient voltage without reaching it. If the two are equal, the voltage does not change. |
| `Physics.Decay` | camsimu.py:87 | With a factor in (0,1), the decay step leaves a positive voltage positive and strictly lower. Zero stays zero. |
| `Physics.Energy` | camsimu.py:83 | Stored energy is non-negative for a non-negative capacitance. |
| `Physics.EnergyStrictlyMonotone` | camsimu.py:99 | For C > 0, stored energy is strictly increasing in a non-negative voltage. |
| `Physics.ThresholdEnergy` | camsimu.py:66 | At the threshold the capacitor holds exactly the checkpoint energy plus the energy it holds at the cutoff voltage. |
| `Physics.ThresholdAboveCutoff` | camsimu.py:66 | With a non-negative checkpoint cost, the threshold is at least the cutoff voltage. It is strictly above the cutoff when the cost is positive. |
| `Physics.ThresholdBelowStart` | camsimu.py:66 | The threshold is below the startup voltage iff checkpoint energy plus cutoff energy is less than the energy at startup. |
| `Physics.ThresholdFits` | camsimu.py:66 | The checkpoint threshold `V_check_thres`: a non-negative real whose square is `2·(E_checkpoint + ½·C·V_cutoff²)/C`, for a positive C. It is the model and has no contract of its own; `ThresholdEnergy`, `ThresholdAboveCutoff` and `ThresholdBelowStart` state its properties. |
| `Machine.Required` | camsimu.py:104 | The energy the workload needs, `total_cycles_required · energy_per_cycle`, used by the completion test at the cutoff and by the reported verdict. It is the model and has no contract of its own; `CutoffSettlesBalance` and `VerdictOfRun` state its properties. |
| `Machine.Init` | camsimu.py:58-68 | The state before the first sample: charging, every voltage and energy 0, empty balance, no checkpoints, flag clear, no times. It is the model and has no contract of its own; `RunInvariant` starts from it. |
| `Machine.ChargingUpdate` | camsimu.py:73-84 | The charging branch of one iteration. It is the model and has no contract of its own; `ChargingStep` states its properties. |
| `Machine.DischargingUpdate` | camsimu.py:85-108 | The discharging branch of one iteration, including the checkpoint recording and the settlement at cutoff. It is the model and has no contract of its own; `DischargingStep`, `CheckpointTimeRecording`, `CutoffSettlesBalance`, `CheckpointCountStep` and `StopOnlyAtCutoff` state its properties. |
| `Machine.Step` | camsimu.py:73-108 | One iteration of the loop, chosen by the mode. It is the model and has no contract of its own; `StepPreservesInv` and the step lemmas above state its properties. |
| `Machine.RunTo` | camsimu.py:70-110 | The state after the first n samples, frozen from the step that breaks out. It is the model and has no contract of its own; `RunInvariant`, `StopIsFinal`, `CheckpointTimesTrackCycles` and `FirstCycleDeficit` state its properties, and `Simulator.Simulate` is proved equal to it. |
| `Machine.Run` | camsimu.py:70-110 | The run over the whole trace. It is the model and has no contract of its own; `BreakIsFinal` and `VerdictOfRun` state its properties. |
| `Machine.VoltageAt` | camsimu.py:110 | The voltage series slot for step i (allocated zero-filled at camsimu.py:56): the step's new V, or 0 from the breaking step on. It is the model and has no contract of its own; `BreakIsFinal` and `Simulator.Simulate` state its properties. |
| `Machine.Verdict` | camsimu.py:113-127 | The reported result: completed iff the balance reaches the requirement, with the count reported only then. It is the model and has no contract of its own; `VerdictOfRun` states its properties. |
| `Machine.ChargingStep` | camsimu.py:73-84 | A charging step never stops the run. If the ambient voltage is higher, V rises strictly but stays below it; otherwise V is unchanged. The mode switches to discharging iff V reaches the startup voltage. At the switch the energy ½·C·V² is captured and the recording flag is cleared. Balance, count and times are unchanged. |
| `Machine.DischargingStep` | camsimu.py:85-90 | From a state whose start voltage is its voltage, a discharging step leaves V between the decayed voltage and the ambient voltage, and V falls strictly whenever the ambient voltage is not above a positive V. The new V is the next update's start voltage, and the energy captured at startup is kept. The mode goes back to charging iff V is at or below the cutoff. Above the cutoff the run goes on with balance and count unchanged. |
| `Machine.CheckpointTimeRecording` | camsimu.py:92-94 | A step appends exactly its own index when it is discharging, its new V is at or below the threshold and the flag is clear. Otherwise it appends nothing. In discharging, the new flag is the old flag or "V at or below the threshold". |
| `Machine.FlagMeansCycleRecorded` | camsimu.py:92-94 | In every reachable discharging state, the flag is set iff the current cycle already has its recorded time. With `CheckpointTimeRecording` (the append and flag rules) and `ChargingStep`'s flag reset at the switch, the recorded time is the first step of the cycle at or below the threshold, and each cycle has at most one. |
| `Machine.CutoffSettlesBalance` | camsimu.py:96-108 | At a cutoff the balance changes by exactly E_initial − ½·C·V² − checkpoint − restore. A negative balance stops the run as infeasible. A balance that reaches the requirement stops it as completed. Neither stop counts the cycle. Otherwise the balance is in [0, required) and the count grows by one. |
| `Machine.CheckpointCountStep` | camsimu.py:108 | The checkpoint count grows by exactly one at a cutoff that lets the run go on. It is unchanged in every other step. |
| `Machine.StopOnlyAtCutoff` | camsimu.py:96-105 | The loop breaks only in a discharging step whose V is at or below the cutoff. The reason is infeasible iff the balance is negative, and completed iff it is non-negative and reaches the requirement. |
| `Machine.StepPreservesInv` | camsimu.py:70-110 | Any step from a state satisfying the run invariant leads to a state satisfying it, or to a stop state satisfying the stop invariant. The invariant covers V_initial = V, the times/count relation, the balance range and increasing times. |
| `Machine.DischargingPreservesInv` | camsimu.py:85-108 | The same for discharging steps, given that the threshold is not below the cutoff. |
| `Machine.RunStepPreservesInv` | camsimu.py:70-110 | The invariant carries over from the run after n−1 samples to the run after n samples. |
| `Machine.RunInvariant` | camsimu.py:59-110 | Every outcome a run reaches satisfies the run invariant or the stop invariant. In particular V_initial = V after every iteration, so the energy taken at cutoff is ½·C·V². |
| `Machine.StopIsFinal` | camsimu.py:101-105 | Once the loop has broken out, later samples change nothing. |
| `Machine.BreakIsFinal` | camsimu.py:101-110 | A break at step n fixes the run's result. Every voltage slot from n on keeps its initial 0. |
| `Machine.CheckpointTimesTrackCycles` | camsimu.py:92-108 | Throughout the run, `checkpoint_count <= |times| <= checkpoint_count + 1`. The times are strictly increasing indices of steps already taken. |
| `Machine.VerdictOfRun` | camsimu.py:118-119 | The run is reported complete iff the final balance reaches the requirement. The count is reported exactly then, and it is the final count. A break on completion is reported complete. With a positive requirement, an infeasible break and an exhausted trace are not. |
| `Machine.FirstCycleDeficit` | camsimu.py:100-103 | If the first cycle's energy is below the checkpoint plus restore cost, the run breaks as infeasible at that cutoff. The balance is then negative and the count is 0. |
| `Simulator.Simulate` | camsimu.py:55-110 | The loop returns exactly the report of the state machine's run: threshold, final balance, requirement, count if completed, verdict and checkpoint times. Every slot of the fresh voltage array holds the state machine's voltage for that step, or 0 from the breaking step on. |

## Left out

- Command-line parsing (camsimu.py:7-24): configuration plumbing. Its values are the fields of `Params`.
- Reading the MCU table and the trace file (camsimu.py:26-49): file input. The trace is a `seq<real>`. The MCU's resistance and per-cycle and per-byte energies enter through `Params`. The checkpoint and restore energies are given as already multiplied out.
- Physics.ChargeToward, Machine.ChargingStep, Machine.DischargingStep: all of the loop's arithmetic is float64 in the source and exact reals in the model. This covers `np.exp` and `np.sqrt` (camsimu.py:66, 76, 87-88), the voltage updates (camsimu.py:76, 88), the energies (camsimu.py:83, 99), the balance sum (camsimu.py:100), the requirement product (camsimu.py:104) and every comparison. The two factors are given, with the bounds they have for positive resistances and capacitance. The threshold is given, constrained by its square. The strict-monotonicity claims hold over reals only: in float64 the voltage stalls near the ambient voltage once `(V_max - V)·a` rounds to 0, and a comparison may go the other way on a rounded value.
- The resistances themselves: they only enter through the two factors.
- Printing and JSON output (camsimu.py:102, 112-131): only the values reported and the completed/checkpoint-count choice are modelled (`Verdict`).
- Plotting (camsimu.py:133-167): presentation only.
- The loop over capacitance values (camsimu.py:169-171): runs are independent. `Simulate` is one run.
- `t_charge_start` and `t_discharge_start` (camsimu.py:61-62, 81, 106): written, never read.
- The energy at the start of discharge before the first discharge: the source leaves it unbound and never reads it. The model starts it at 0.
