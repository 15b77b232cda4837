/** `PidController`: the feedback law of one wheel. */
module Pid {
  const PWM_MAX := 255
  const INTEGRAL_MAX := 300.0
  const DEFAULT_FF := 1.5

  function Constrain(x: real, bound: real): (r: real)
    requires bound >= 0.0
    ensures -bound <= r <= bound
    ensures -bound <= x <= bound ==> r == x
    ensures x > bound ==> r == bound
    ensures x < -bound ==> r == -bound
  {
    if x < -bound then -bound else if x > bound then bound else x
  }

  function Gained(gain: real, x: real): real { gain * x }

  /** The proportional, integral, derivative and feed-forward terms together. */
  function Law(p: real, i: real, d: real, f: real): real { Constrain(p + i - d + f, PWM_MAX as real) }

  function Accumulated(integral: real, error: real, dt: real): (r: real)
    ensures -INTEGRAL_MAX <= r <= INTEGRAL_MAX
  {
    Constrain(integral + error * dt, INTEGRAL_MAX)
  }

  function Slope(firstRun: bool, now: real, prev: real, dt: real): real
    requires dt > 0.0
  {
    if firstRun then 0.0 else (now - prev) / dt
  }

  datatype PidState = PidState(kp: real, ki: real, kd: real, ff: real,
                               integral: real, prevMeasurement: real, firstRun: bool)

  /** What a controller in state s puts out. */
  function Output(s: PidState, setpoint: real, measurement: real, dt: real): (output: real)
    ensures -(PWM_MAX as real) <= output <= PWM_MAX as real
  {
    if dt <= 0.0 then 0.0 else
      Law(Gained(s.kp, setpoint - measurement), Gained(s.ki, Accumulated(s.integral, setpoint - measurement, dt)),
          Gained(s.kd, Slope(s.firstRun, measurement, s.prevMeasurement, dt)), Gained(s.ff, setpoint))
  }

  /** And the state it is in then. */
  function Updated(s: PidState, setpoint: real, measurement: real, dt: real): PidState {
    if dt <= 0.0 then s else
      s.(integral := Accumulated(s.integral, setpoint - measurement, dt), prevMeasurement := measurement,
         firstRun := false)
  }

  // ---- What the control law does ----

  /** The output is y, held within the PWM range. */
  predicate IsClamped(output: real, y: real) {
    output == if y > 255.0 then 255.0 else if y < -255.0 then -255.0 else y
  }

  /** The first output after a reset is proportional to the error, and to the setpoint. */
  lemma OutputFromReset(s: PidState, setpoint: real, error: real, dt: real)
    requires s.firstRun && s.integral == 0.0 && dt > 0.0 && -300.0 <= error * dt <= 300.0
    ensures IsClamped(Output(s, setpoint, setpoint - error, dt), (s.kp + s.ki * dt) * error + s.ff * setpoint)
  {
    Distribute(s.kp, s.ki, dt, error);
    assert Accumulated(s.integral, error, dt) == error * dt;
    assert Gained(s.kd, 0.0) == 0.0;
  }

  lemma Distribute(a: real, b: real, c: real, x: real)
    ensures (a + b * c) * x == a * x + b * (x * c)
  {
    assert (a + b * c) * x == a * x + b * c * x;
    assert b * c * x == b * (c * x);
  }

  lemma Grows(a: real, x: real, y: real)
    requires a >= 0.0 && x <= y
    ensures Gained(a, x) <= Gained(a, y)
  {
    assert a * (y - x) >= 0.0;
  }

  lemma ConstrainGrows(x: real, y: real, bound: real)
    requires bound >= 0.0 && x <= y
    ensures Constrain(x, bound) <= Constrain(y, bound)
  {}

  lemma AccumulatedGrows(integral: real, x: real, y: real, dt: real)
    requires dt > 0.0 && x <= y
    ensures Accumulated(integral, x, dt) <= Accumulated(integral, y, dt)
  {
    Grows(dt, x, y);
    ConstrainGrows(integral + x * dt, integral + y * dt, INTEGRAL_MAX);
  }

  lemma LawGrows(p: real, i: real, d: real, f: real, p': real, i': real, d': real, f': real)
    requires p <= p' && i <= i' && d >= d' && f <= f'
    ensures Law(p, i, d, f) <= Law(p', i', d', f')
  {
    ConstrainGrows(p + i - d + f, p' + i' - d' + f', PWM_MAX as real);
  }

  /** A larger setpoint never lowers the output. */
  lemma OutputGrowsWithSetpoint(s: PidState, low: real, high: real, measurement: real, dt: real)
    requires s.kp >= 0.0 && s.ki >= 0.0 && s.ff >= 0.0 && low <= high
    ensures Output(s, low, measurement, dt) <= Output(s, high, measurement, dt)
  {
    if dt > 0.0 {
      var e, f, p := low - measurement, high - measurement, Slope(s.firstRun, measurement, s.prevMeasurement, dt);
      var i, j := Accumulated(s.integral, e, dt), Accumulated(s.integral, f, dt);
      AccumulatedGrows(s.integral, e, f, dt);
      Grows(s.kp, e, f); Grows(s.ki, i, j); Grows(s.ff, low, high);
      LawGrows(Gained(s.kp, e), Gained(s.ki, i), Gained(s.kd, p), Gained(s.ff, low),
               Gained(s.kp, f), Gained(s.ki, j), Gained(s.kd, p), Gained(s.ff, high));
    }
  }

  /** A larger measurement never raises it. */
  lemma OutputFallsWithMeasurement(s: PidState, setpoint: real, low: real, high: real, dt: real)
    requires s.kp >= 0.0 && s.ki >= 0.0 && s.kd >= 0.0 && low <= high
    ensures Output(s, setpoint, low, dt) >= Output(s, setpoint, high, dt)
  {
    if dt > 0.0 {
      var e, f := setpoint - high, setpoint - low;
      var i, j := Accumulated(s.integral, e, dt), Accumulated(s.integral, f, dt);
      var p, q := Slope(s.firstRun, high, s.prevMeasurement, dt), Slope(s.firstRun, low, s.prevMeasurement, dt);
      AccumulatedGrows(s.integral, e, f, dt);
      SlopeGrows(s.firstRun, low, high, s.prevMeasurement, dt);
      Grows(s.kp, e, f); Grows(s.ki, i, j); Grows(s.kd, q, p);
      LawGrows(Gained(s.kp, e), Gained(s.ki, i), Gained(s.kd, p), Gained(s.ff, setpoint),
               Gained(s.kp, f), Gained(s.ki, j), Gained(s.kd, q), Gained(s.ff, setpoint));
    }
  }

  lemma SlopeGrows(firstRun: bool, low: real, high: real, prev: real, dt: real)
    requires dt > 0.0 && low <= high
    ensures Slope(firstRun, low, prev, dt) <= Slope(firstRun, high, prev, dt)
    ensures firstRun || dt * (Slope(firstRun, high, prev, dt) - Slope(firstRun, low, prev, dt)) == high - low
  {
    QuotientsDiffer(low - prev, high - prev, dt);
  }

  lemma QuotientsDiffer(x: real, y: real, dt: real)
    requires dt > 0.0 && x <= y
    ensures x / dt <= y / dt && dt * (y / dt - x / dt) == y - x
  {
    var a, b := x / dt, y / dt;
    assert dt * a == x && dt * b == y;
    assert dt * (b - a) == y - x;
    SignOfProduct(dt, b - a);
  }

  lemma SignOfProduct(x: real, y: real)
    requires x > 0.0
    ensures x * y >= 0.0 <==> y >= 0.0
  {
    if y < 0.0 { assert x * -y > 0.0; }
  }

  /** The derivative acts on the measurement alone: with equal integrals, two outputs within the range differ by kp,
      and by kd / dt after the first run, times the difference of the measurements. */
  lemma OutputsDiffer(s: PidState, setpoint: real, low: real, high: real, dt: real)
    requires dt > 0.0 && low <= high
    requires Updated(s, setpoint, low, dt).integral == Updated(s, setpoint, high, dt).integral
    requires -255.0 < Output(s, setpoint, low, dt) < 255.0 && -255.0 < Output(s, setpoint, high, dt) < 255.0
    ensures (Output(s, setpoint, low, dt) - Output(s, setpoint, high, dt)) * dt
            == (s.kp * dt + (if s.firstRun then 0.0 else s.kd)) * (high - low)
  {
    SlopeGrows(s.firstRun, low, high, s.prevMeasurement, dt);
    var p, q := Slope(s.firstRun, low, s.prevMeasurement, dt), Slope(s.firstRun, high, s.prevMeasurement, dt);
    Subtracted(s.kp, setpoint - low, setpoint - high);
    Subtracted(s.kd, q, p);
    LawsDiffer(Gained(s.kp, setpoint - low), Gained(s.kp, setpoint - high),
               Gained(s.ki, Updated(s, setpoint, low, dt).integral), Gained(s.kd, p), Gained(s.kd, q),
               Gained(s.ff, setpoint));
    Gather(s.kp, s.kd, high - low, q - p, dt, s.firstRun);
  }

  lemma LawsDiffer(p: real, p': real, i: real, d: real, d': real, f: real)
    requires -255.0 < Law(p, i, d, f) < 255.0 && -255.0 < Law(p', i, d', f) < 255.0
    ensures Law(p, i, d, f) - Law(p', i, d', f) == p - p' + (d' - d)
  {}

  lemma Subtracted(a: real, x: real, y: real)
    ensures Gained(a, x) - Gained(a, y) == Gained(a, x - y)
  {}

  lemma Gather(a: real, b: real, x: real, y: real, dt: real, first: bool)
    requires if first then y == 0.0 else dt * y == x
    ensures (Gained(a, x) + Gained(b, y)) * dt == (a * dt + (if first then 0.0 else b)) * x
  {
    assert (a * x + b * y) * dt == a * dt * x + b * (dt * y) by {
      assert (a * x + b * y) * dt == a * x * dt + b * y * dt;
      assert a * x * dt == a * dt * x && b * y * dt == b * (dt * y);
    }
    assert (a * dt + b) * x == a * dt * x + b * x;
  }

  /** A measurement that repeats has no rate of change: the output is that of the other three terms. */
  lemma RepeatedMeasurement(s: PidState, before: real, setpoint: real, measurement: real, dt: real)
    requires dt > 0.0
    ensures var now := Updated(s, before, measurement, dt);
            IsClamped(Output(now, setpoint, measurement, dt),
                      Gained(s.kp, setpoint - measurement) + Gained(s.ff, setpoint)
                      + Gained(s.ki, Updated(now, setpoint, measurement, dt).integral))
  {
    var now := Updated(s, before, measurement, dt);
    NoRate(measurement, dt);
    assert Gained(s.kd, Slope(now.firstRun, measurement, now.prevMeasurement, dt)) == 0.0;
  }

  /** From the second update on, the derivative acts. */
  lemma LaterOutputsDiffer(s: PidState, before: real, measured: real, setpoint: real, low: real, high: real,
                           dt: real, now: PidState)
    requires dt > 0.0 && low <= high && now == Updated(s, before, measured, dt)
    requires Updated(now, setpoint, low, dt).integral == Updated(now, setpoint, high, dt).integral
    requires -255.0 < Output(now, setpoint, low, dt) < 255.0 && -255.0 < Output(now, setpoint, high, dt) < 255.0
    ensures now.prevMeasurement == measured && now.kp == s.kp && now.kd == s.kd
    ensures (Output(now, setpoint, low, dt) - Output(now, setpoint, high, dt)) * dt
            == (now.kp * dt + now.kd) * (high - low)
  {
    OutputsDiffer(now, setpoint, low, high, dt);
  }

  lemma NoRate(x: real, dt: real)
    requires dt > 0.0
    ensures Slope(false, x, x, dt) == 0.0
  {
    QuotientsDiffer(0.0, 0.0, dt);
    assert (x - x) / dt == 0.0 / dt;
  }

  /** The state after a sequence of updates, with a setpoint and a measurement each. */
  function AfterUpdates(s: PidState, inputs: seq<(real, real)>, dt: real): PidState {
    if inputs == [] then s else
      var n := |inputs| - 1;
      Updated(AfterUpdates(s, inputs[..n], dt), inputs[n].0, inputs[n].1, dt)
  }

  /** n steps of a constant error from a reset accumulate n * error * dt, up to 300 in either direction. */
  lemma {:induction false} ConstantErrorAccumulates(s: PidState, inputs: seq<(real, real)>, error: real, dt: real,
                                                    step: real)
    requires s.integral == 0.0 && dt > 0.0 && step == error * dt
    requires forall k :: 0 <= k < |inputs| ==> inputs[k].0 - inputs[k].1 == error
    ensures IsHeld(AfterUpdates(s, inputs, dt).integral, |inputs|, step)
  {
    if inputs == [] {
      assert 0.0 * step == 0.0;
    } else {
      var n := |inputs| - 1;
      ConstantErrorAccumulates(s, inputs[..n], error, dt, step);
      var before := AfterUpdates(s, inputs[..n], dt);
      SameProduct(inputs[n].0 - inputs[n].1, error, dt);
      OneMoreStep(before, inputs[n].0, inputs[n].1, dt, step);
      Saturates(before.integral, n, step);
    }
  }

  lemma SameProduct(x: real, y: real, dt: real)
    requires x == y
    ensures x * dt == y * dt
  {}

  lemma OneMoreStep(s: PidState, setpoint: real, measurement: real, dt: real, step: real)
    requires step == (setpoint - measurement) * dt && dt > 0.0
    ensures Updated(s, setpoint, measurement, dt).integral == Constrain(s.integral + step, INTEGRAL_MAX)
  {}

  /** The sum of n steps, held within 300 in either direction. */
  predicate IsHeld(integral: real, n: nat, step: real) { integral == Held(Total(n, step)) }

  function Total(n: nat, step: real): real { n as real * step }

  function Held(total: real): real { if total > 300.0 then 300.0 else if total < -300.0 then -300.0 else total }

  lemma Saturates(integral: real, n: nat, step: real)
    requires IsHeld(integral, n, step)
    ensures IsHeld(Constrain(integral + step, INTEGRAL_MAX), n + 1, step)
  {
    SumOfSteps(n, step);
    HeldOn(Total(n, step), step);
  }

  lemma SumOfSteps(n: nat, step: real)
    ensures Total(n + 1, step) == Total(n, step) + step
    ensures if step >= 0.0 then Total(n, step) >= 0.0 else Total(n, step) <= 0.0
  {
    if step < 0.0 { assert n as real * -step >= 0.0; }
  }

  lemma HeldOn(total: real, step: real)
    requires if step >= 0.0 then total >= 0.0 else total <= 0.0
    ensures Constrain(Held(total) + step, INTEGRAL_MAX) == Held(total + step)
  {}

  class PidController {
    var kp: real
    var ki: real
    var kd: real
    var ff: real
    var integral: real
    var prevMeasurement: real
    var firstRun: bool

    ghost predicate Valid()
      reads this
    {
      -INTEGRAL_MAX <= integral <= INTEGRAL_MAX
    }

    constructor (kp: real, ki: real, kd: real, ff: real := DEFAULT_FF)
      ensures Valid() && IsReset()
      ensures this.kp == kp && this.ki == ki && this.kd == kd && this.ff == ff
    {
      this.kp, this.ki, this.kd, this.ff := kp, ki, kd, ff;
      integral, prevMeasurement, firstRun := 0.0, 0.0, true;
    }

    method SetGains(kp: real, ki: real, kd: real)
      modifies `kp, `ki, `kd
      ensures this.kp == kp && this.ki == ki && this.kd == kd
    {
      this.kp, this.ki, this.kd := kp, ki, kd;
    }

    ghost predicate IsReset()
      reads this
    {
      integral == 0.0 && prevMeasurement == 0.0 && firstRun
    }

    method Reset()
      modifies `integral, `prevMeasurement, `firstRun
      ensures Valid() && IsReset()
    {
      integral, prevMeasurement, firstRun := 0.0, 0.0, true;
    }

    ghost function State(): PidState
      reads this
    {
      PidState(kp, ki, kd, ff, integral, prevMeasurement, firstRun)
    }

    /** The output is always within the PWM range. Without time passing it is 0 and nothing changes; after a reset the
        derivative has no say. */
    method Update(setpoint: real, measurement: real, dt: real) returns (output: real)
      requires Valid()
      modifies `integral, `prevMeasurement, `firstRun
      ensures Valid() && -(PWM_MAX as real) <= output <= PWM_MAX as real
      ensures output == Output(old(State()), setpoint, measurement, dt)
      ensures State() == Updated(old(State()), setpoint, measurement, dt)
    {
      if dt <= 0.0 {
        return 0.0;
      }
      var error := setpoint - measurement;
      integral := Accumulated(integral, error, dt);
      var dMeasurement := Slope(firstRun, measurement, prevMeasurement, dt);
      prevMeasurement := measurement;
      firstRun := false;
      output := Law(Gained(kp, error), Gained(ki, integral), Gained(kd, dMeasurement), Gained(ff, setpoint));
    }
  }
}
