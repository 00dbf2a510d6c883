/** The single-RC laws the simulator applies once per 1 ms step, the stored
    energy of the capacitor, and the checkpoint voltage threshold.

    The exponentials of the laws are not computed here: each law takes its
    factor as a real, `1 - exp(-0.001 / (R_charging * C))` for charging and
    `exp(-0.001 / (R_discharging * C))` for decay, both strictly between 0
    and 1 when the resistances and the capacitance are positive. The
    threshold, a square root, is likewise given and constrained by its
    square (`ThresholdFits`). */
module Physics {

  /** One step of the charging law: the voltage moves from `v` toward the
      ambient voltage `target` by the fraction `factor` of the gap. */
  function ChargeToward(v: real, target: real, factor: real): (r: real)
    ensures 0.0 < factor < 1.0 && v < target ==> v < r < target
    ensures 0.0 < factor < 1.0 && target < v ==> target < r < v
    ensures v == target ==> r == v
  {
    var gap := target - v;
    assert 0.0 < factor < 1.0 && 0.0 < gap ==> 0.0 < gap * factor < gap;
    assert 0.0 < factor < 1.0 && gap < 0.0 ==> gap < gap * factor < 0.0;
    v + gap * factor
  }

  /** One step of the leakage law while the MCU runs: exponential decay of `v`. */
  function Decay(v: real, factor: real): (r: real)
    ensures 0.0 < factor < 1.0 && 0.0 < v ==> 0.0 < r < v
    ensures v == 0.0 ==> r == 0.0
  {
    v * factor
  }

  /** Energy stored in a capacitor of capacitance `c` charged to `v`: ½·C·V². */
  function Energy(c: real, v: real): (e: real)
    ensures 0.0 <= c ==> 0.0 <= e
  {
    0.5 * c * v * v
  }

  /** For a positive capacitance, stored energy is strictly increasing in a
      non-negative voltage. */
  lemma EnergyStrictlyMonotone(c: real, u: real, w: real)
    requires 0.0 < c && 0.0 <= u < w
    ensures Energy(c, u) < Energy(c, w)
  {
    SquareStrictlyMonotone(u, w);
  }

  lemma SquareStrictlyMonotone(u: real, w: real)
    requires 0.0 <= u < w
    ensures u * u < w * w
  {
    var d := w - u;
    assert w * w == u * u + 2.0 * u * d + d * d;
    assert 0.0 <= u * d && 0.0 < d * d;
  }

  /** `vCheck` is the square root the simulator computes before its loop:
      `vCheck = sqrt(2 (eCheckpoint + ½·C·vCutoff²) / C)`. */
  predicate ThresholdFits(c: real, vCutoff: real, eCheckpoint: real, vCheck: real)
  {
    0.0 < c && 0.0 <= vCheck && vCheck * vCheck == 2.0 * (eCheckpoint + 0.5 * c * vCutoff * vCutoff) / c
  }

  /** At the threshold the capacitor holds exactly the checkpoint energy on
      top of the energy it holds at the cutoff voltage. */
  lemma ThresholdEnergy(c: real, vCutoff: real, eCheckpoint: real, vCheck: real)
    requires ThresholdFits(c, vCutoff, eCheckpoint, vCheck)
    ensures Energy(c, vCheck) == eCheckpoint + Energy(c, vCutoff)
  {
  }

  /** With a non-negative checkpoint cost the threshold is never below the
      cutoff voltage, and it is strictly above it when the cost is positive. */
  lemma ThresholdAboveCutoff(c: real, vCutoff: real, eCheckpoint: real, vCheck: real)
    requires ThresholdFits(c, vCutoff, eCheckpoint, vCheck) && 0.0 <= eCheckpoint
    ensures vCutoff <= vCheck
    ensures 0.0 < eCheckpoint ==> vCutoff < vCheck
  {
    ThresholdEnergy(c, vCutoff, eCheckpoint, vCheck);
    if 0.0 <= vCutoff && vCheck <= vCutoff {
      if vCheck < vCutoff {
        EnergyStrictlyMonotone(c, vCheck, vCutoff);
      }
    }
  }

  /** The threshold lies below the startup voltage exactly when the
      checkpoint cost plus the cutoff energy is less than the energy stored
      at startup. */
  lemma ThresholdBelowStart(c: real, vCutoff: real, eCheckpoint: real, vCheck: real, vStart: real)
    requires ThresholdFits(c, vCutoff, eCheckpoint, vCheck) && 0.0 <= vStart
    ensures vCheck < vStart <==> eCheckpoint + Energy(c, vCutoff) < Energy(c, vStart)
  {
    ThresholdEnergy(c, vCutoff, eCheckpoint, vCheck);
    if vCheck < vStart {
      EnergyStrictlyMonotone(c, vCheck, vStart);
    } else if vStart < vCheck {
      EnergyStrictlyMonotone(c, vStart, vCheck);
    }
  }
}
