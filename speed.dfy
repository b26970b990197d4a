/**
 * The flat-road speed solver of cycling_training.py: fifty Newton steps on
 * P = Crr * m * g * v + 0.5 * rho * CdA * v^3 from v = 8 m/s, stopping early
 * when the derivative vanishes and resetting v to 1 m/s whenever a step
 * would make it negative. The result is converted to km/h.
 */
module Speed {
  /** Air density, kg/m^3. */
  const Rho: real := 1.2
  /** Gravitational acceleration, m/s^2. */
  const G: real := 9.81
  /** The initial guess, m/s. */
  const V0: real := 8.0
  /** The number of Newton steps. */
  const Iterations: nat := 50
  /** m/s to km/h. */
  const KphPerMps: real := 3.6

  /** The rider and machine the solver is asked about. */
  datatype Rider = Rider(powerW: real, systemKg: real, cda: real, crr: real)

  /** Power needed at speed `v`, minus the power available. */
  function Residual(r: Rider, v: real): real {
    r.crr * r.systemKg * G * v + 0.5 * Rho * r.cda * v * v * v - r.powerW
  }

  /** The derivative of `Residual` in `v`. */
  function Slope(r: Rider, v: real): real {
    r.crr * r.systemKg * G + 1.5 * Rho * r.cda * v * v
  }

  /** One guarded Newton step: a negative result is replaced by 1 m/s. */
  function NewtonStep(r: Rider, v: real): (next: real)
    requires Slope(r, v) != 0.0
    ensures next >= 0.0
    ensures Residual(r, v) == 0.0 && v >= 0.0 ==> next == v
    ensures v - Residual(r, v) / Slope(r, v) < 0.0 ==> next == 1.0
    ensures v - Residual(r, v) / Slope(r, v) >= 0.0 ==> next == v - Residual(r, v) / Slope(r, v)
  {
    var stepped := v - Residual(r, v) / Slope(r, v);
    if stepped < 0.0 then 1.0 else stepped
  }

  /** The speed after at most `n` more steps from `v`, stopping where the slope is zero. */
  function Solve(r: Rider, v: real, n: nat): real
    decreases n
  {
    if n == 0 || Slope(r, v) == 0.0 then v
    else Solve(r, NewtonStep(r, v), n - 1)
  }

  /** `_calc_speed_kph`. */
  method SpeedKph(r: Rider) returns (kph: real)
    ensures kph == Solve(r, V0, Iterations) * KphPerMps
  {
    var v := V0;
    var i := 0;
    while i < Iterations
      invariant 0 <= i <= Iterations
      invariant Solve(r, V0, Iterations) == Solve(r, v, Iterations - i)
    {
      var f := Residual(r, v);
      var fp := Slope(r, v);
      if fp == 0.0 {
        break;
      }
      ghost var next := NewtonStep(r, v);
      v := v - f / fp;
      if v < 0.0 {
        v := 1.0;
      }
      assert v == next;
      i := i + 1;
    }
    kph := v * KphPerMps;
  }

  /** From a non-negative start the solver never returns a negative speed. */
  lemma {:induction false} SolveNonNegative(r: Rider, v: real, n: nat)
    requires v >= 0.0
    ensures Solve(r, v, n) >= 0.0
    decreases n
  {
    if n > 0 && Slope(r, v) != 0.0 {
      SolveNonNegative(r, NewtonStep(r, v), n - 1);
    }
  }

  /** The reported speed is never negative. */
  lemma SpeedNonNegative(r: Rider)
    ensures Solve(r, V0, Iterations) * KphPerMps >= 0.0
  {
    SolveNonNegative(r, V0, Iterations);
  }

  /** A non-negative root of the power balance is a fixed point of the solver. */
  lemma {:induction false} RootIsFixed(r: Rider, v: real, n: nat)
    requires v >= 0.0 && Residual(r, v) == 0.0
    ensures Solve(r, v, n) == v
    decreases n
  {
    if n > 0 && Slope(r, v) != 0.0 {
      RootIsFixed(r, v, n - 1);
    }
  }

  /** Where the slope vanishes the solver stops at once: it returns its current guess. */
  lemma {:induction false} FlatSlopeStops(r: Rider, v: real, n: nat)
    requires Slope(r, v) == 0.0
    ensures Solve(r, v, n) == v
  {
  }

  /** With no drag and no rolling resistance the slope is zero and the answer is the guess, 28.8 km/h. */
  lemma DegenerateRider(powerW: real, systemKg: real)
    ensures Solve(Rider(powerW, systemKg, 0.0, 0.0), V0, Iterations) * KphPerMps == 28.8
  {
    FlatSlopeStops(Rider(powerW, systemKg, 0.0, 0.0), V0, Iterations);
  }

  /**
   * Without aerodynamic drag the balance is linear, so one Newton step lands
   * on the exact root P / (Crr * m * g), and the solver stays there.
   */
  lemma RollingOnly(powerW: real, systemKg: real, crr: real)
    requires powerW >= 0.0 && crr * systemKg > 0.0
    ensures Solve(Rider(powerW, systemKg, 0.0, crr), V0, Iterations) == powerW / (crr * systemKg * G)
    ensures Residual(Rider(powerW, systemKg, 0.0, crr), powerW / (crr * systemKg * G)) == 0.0
  {
    var r := Rider(powerW, systemKg, 0.0, crr);
    var k := crr * systemKg * G;
    var root := powerW / k;
    assert Slope(r, V0) == k;
    assert V0 - Residual(r, V0) / k == root;
    assert NewtonStep(r, V0) == root;
    assert Residual(r, root) == 0.0;
    RootIsFixed(r, root, Iterations - 1);
  }
}
