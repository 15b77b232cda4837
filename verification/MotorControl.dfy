/** The firmware's control step, its callbacks and its loop, over the globals they share. */
module MotorControl {
  import opened Words
  import opened DeadMan
  import opened Pid
  import opened Magnetometer
  import opened Odometry

  const PWM_DEADBAND := 8
  const MIN_PWM_START := 60
  const KICKSTART_DURATION_MS := 200
  const RPM_ESTIMATION_WINDOW_MS := 50
  const RPM_NOISE_EPS := 0.05
  const MAX_PLAUSIBLE_RPM := 700.0
  const SPEED_LPF_ALPHA := 0.3
  const COUNTS_PER_OUTPUT_REV := 11.0 * 18.8
  const CONTROL_PERIOD_MS := 10
  const AGENT_CHECK_MS := 500
  const M1_MOTOR_DIR_INVERTED := true
  const M2_MOTOR_DIR_INVERTED := false

  /** A cast of a float to an integer drops the fraction. */
  function Truncated(x: real): (n: int)
    ensures n as real <= x < n as real + 1.0 || n as real - 1.0 < x <= n as real
    ensures x >= 0.0 ==> 0 <= n && n as real <= x
    ensures x <= 0.0 ==> n <= 0 && x <= n as real
  {
    if x >= 0.0 then x.Floor else -((-x).Floor)
  }

  function AbsInt(n: int): nat { if n < 0 then -n else n }

  /** The signed drive a motor is given for a PWM command: within range, and none inside the dead band. */
  function Drive(pwm: int): (d: int)
    ensures -PWM_MAX <= d <= PWM_MAX
    ensures d == 0 <==> AbsInt(pwm) < PWM_DEADBAND
    ensures PWM_DEADBAND <= AbsInt(pwm) <= PWM_MAX ==> d == pwm
    ensures pwm > PWM_MAX ==> d == PWM_MAX
    ensures pwm < -PWM_MAX ==> d == -PWM_MAX
  {
    var c := if pwm < -PWM_MAX then -PWM_MAX else if pwm > PWM_MAX then PWM_MAX else pwm;
    if AbsInt(c) < PWM_DEADBAND then 0 else c
  }

  /** In the first moments of a new command a motor gets at least the drive that breaks static friction. */
  function Kicked(pwm: int): (k: int)
    ensures AbsInt(k) == if AbsInt(pwm) < MIN_PWM_START then MIN_PWM_START else AbsInt(pwm)
    ensures pwm >= 0 ==> k >= 0
    ensures pwm < 0 ==> k < 0
    ensures AbsInt(pwm) >= MIN_PWM_START ==> k == pwm
  {
    if AbsInt(pwm) < MIN_PWM_START then (if pwm >= 0 then MIN_PWM_START else -MIN_PWM_START) else pwm
  }

  /** The signed drive of a motor whose controller puts out a value, with or without the kickstart. */
  function DriveFor(output: real, kick: bool): (d: int)
    ensures -PWM_MAX <= d <= PWM_MAX
    ensures kick ==> AbsInt(d) >= MIN_PWM_START
    ensures output >= 0.0 ==> d >= 0
    ensures output <= -1.0 ==> d <= 0
  {
    Drive(if kick then Kicked(Truncated(output)) else Truncated(output))
  }

  /** Without the kickstart the drive is the output less its fraction, and none below 8; with it, at least 60. */
  lemma DriveIsOutput(output: real)
    requires -256.0 < output < 256.0
    ensures var d := DriveFor(output, false);
            && (-8.0 < output < 8.0 ==> d == 0)
            && (output >= 8.0 ==> d as real <= output < d as real + 1.0)
            && (output <= -8.0 ==> d as real - 1.0 < output <= d as real)
    ensures var d := DriveFor(output, true);
            && (-1.0 < output < 61.0 ==> d == 60) && (-61.0 < output <= -1.0 ==> d == -60)
            && (output >= 61.0 || output <= -61.0 ==> d == DriveFor(output, false))
  {}

  /** The two PWM channels of one motor. */
  datatype Duty = Duty(r: nat, l: nat)

  const OFF := Duty(0, 0)

  /** In range, and never both directions at once. */
  function Net(d: Duty): int { d.r - d.l }

  predicate Safe(d: Duty) { d.r <= PWM_MAX && d.l <= PWM_MAX && (d.r == 0 || d.l == 0) }

  /** `applyMotorCommand` for one motor. */
  method DutyFor(inverted: bool, pwm: int) returns (d: Duty)
    ensures Safe(d)
    ensures Net(d) == if inverted then -Drive(pwm) else Drive(pwm)
  {
    var c := if pwm < -PWM_MAX then -PWM_MAX else if pwm > PWM_MAX then PWM_MAX else pwm;
    if AbsInt(c) < PWM_DEADBAND {
      c := 0;
    }
    var cmd := if inverted then -c else c;
    var forward := cmd >= 0;
    var duty := AbsInt(cmd);
    d := Duty(if forward then duty else 0, if forward then 0 else duty);
  }

  /** The command of one motor from its controller's output. */
  method DutyOf(inverted: bool, output: real, kick: bool) returns (d: Duty)
    ensures Safe(d)
    ensures Net(d) == if inverted then -DriveFor(output, kick) else DriveFor(output, kick)
  {
    var pwm := Truncated(output);
    if kick {
      pwm := Kicked(pwm);
    }
    d := DutyFor(inverted, pwm);
  }

  /** A measured speed is plausible, and zero if it is next to zero. */
  predicate Plausible(rpm: real) { AbsR(rpm) <= MAX_PLAUSIBLE_RPM && (rpm == 0.0 || AbsR(rpm) >= RPM_NOISE_EPS) }

  /** The most counts that a wheel can make in a step, with a margin of half. */
  function MaxDelta(dtMs: U32): int {
    Truncated(MAX_PLAUSIBLE_RPM / 60.0 * COUNTS_PER_OUTPUT_REV * (dtMs as real / 1000.0) * 1.5 + 1.0)
  }

  /** The counts of a step, too many counting as none. */
  function Counted(count: int, prev: int, dtMs: U32): int {
    if AbsInt(count - prev) > MaxDelta(dtMs) then 0 else count - prev
  }

  /** One window's speed reading, an implausible one counting as none. */
  function WindowRpm(counts: int, dtMs: U32): (raw: real)
    requires dtMs > 0
    ensures AbsR(raw) <= MAX_PLAUSIBLE_RPM
    ensures counts == 0 ==> raw == 0.0
  {
    var rpm := counts as real * ((60.0 / COUNTS_PER_OUTPUT_REV) / (dtMs as real / 1000.0));
    if AbsR(rpm) > MAX_PLAUSIBLE_RPM then 0.0 else rpm
  }

  function Denoised(rpm: real): (r: real)
    ensures r == rpm || (r == 0.0 && AbsR(rpm) < RPM_NOISE_EPS)
    ensures r == 0.0 || AbsR(r) >= RPM_NOISE_EPS
  {
    if AbsR(rpm) < RPM_NOISE_EPS then 0.0 else rpm
  }

  function Smoothed(raw: real, rpm: real): (r: real)
    requires AbsR(raw) <= MAX_PLAUSIBLE_RPM && AbsR(rpm) <= MAX_PLAUSIBLE_RPM
    ensures AbsR(r) <= MAX_PLAUSIBLE_RPM
  {
    SPEED_LPF_ALPHA * raw + (1.0 - SPEED_LPF_ALPHA) * rpm
  }

  /** The speed after a window that read raw. */
  function Filtered(raw: real, rpm: real): (r: real)
    requires AbsR(raw) <= MAX_PLAUSIBLE_RPM && Plausible(rpm)
    ensures Plausible(r)
  {
    Denoised(Smoothed(raw, rpm))
  }

  /** The speed after n windows without a count. */
  function StillWindows(rpm: real, n: nat): (r: real)
    requires Plausible(rpm)
    ensures Plausible(r)
  {
    if n == 0 then rpm else Filtered(0.0, StillWindows(rpm, n - 1))
  }

  lemma ThreeStillWindows(rpm: real, n: nat, bound: real)
    requires Plausible(rpm) && AbsR(StillWindows(rpm, n)) <= bound
    ensures AbsR(StillWindows(rpm, n + 3)) <= 0.343 * bound
  {
    var a, b, c := StillWindows(rpm, n), StillWindows(rpm, n + 1), StillWindows(rpm, n + 2);
    assert AbsR(b) <= 0.7 * AbsR(a) && AbsR(c) <= 0.7 * AbsR(b);
  }

  /** A wheel that stands still is measured at exactly 0 after 27 windows, whatever was measured before. */
  lemma StandstillIsMeasured(rpm: real)
    requires Plausible(rpm)
    ensures StillWindows(rpm, 27) == 0.0
  {
    ThreeStillWindows(rpm, 0, 700.0);
    ThreeStillWindows(rpm, 3, 240.1);
    ThreeStillWindows(rpm, 6, 82.36);
    ThreeStillWindows(rpm, 9, 28.25);
    ThreeStillWindows(rpm, 12, 9.69);
    ThreeStillWindows(rpm, 15, 3.324);
    ThreeStillWindows(rpm, 18, 1.141);
    ThreeStillWindows(rpm, 21, 0.392);
    ThreeStillWindows(rpm, 24, 0.1345);
  }

  // ---- What the measurement measures ----

  /** No step of a wheel that turns at 700 rpm or less is discarded, and what is kept is at most half as much again and
      one count more. */
  lemma PlausibleStepsCount(count: int, prev: int, dtMs: U32)
    ensures 60000.0 * AbsR((count - prev) as real) <= 700.0 * 206.8 * dtMs as real ==>
              Counted(count, prev, dtMs) == count - prev
    ensures Counted(count, prev, dtMs) == count - prev || Counted(count, prev, dtMs) == 0
    ensures 60000.0 * AbsR(Counted(count, prev, dtMs) as real) <= 1.5 * 700.0 * 206.8 * dtMs as real + 60000.0
  {
    var most := MAX_PLAUSIBLE_RPM / 60.0 * COUNTS_PER_OUTPUT_REV * (dtMs as real / 1000.0) * 1.5 + 1.0;
    assert 60000.0 * most == 1.5 * 700.0 * 206.8 * dtMs as real + 60000.0;
    assert MaxDelta(dtMs) as real <= most < MaxDelta(dtMs) as real + 1.0;
  }

  /** A window reads the revolutions per minute of the output shaft, of 11 * 18.8 counts each, if they are plausible. */
  predicate IsSpeed(rpm: real, counts: int, timeMs: nat) { 60000.0 * counts as real == rpm * (206.8 * timeMs as real) }

  lemma WindowReadsSpeed(counts: int, dtMs: U32, rpm: real)
    requires dtMs > 0 && IsSpeed(rpm, counts, dtMs)
    ensures WindowRpm(counts, dtMs) == if -700.0 <= rpm <= 700.0 then rpm else 0.0
  {
    var dt, c := dtMs as real, counts as real;
    var factor := (60.0 / COUNTS_PER_OUTPUT_REV) / (dt / 1000.0);
    FactorOfWindow(dt, factor);
    Exchanged(c, factor, 206.8 * dt);
    CancelProduct(c * factor, rpm, 206.8 * dt);
  }

  lemma FactorOfWindow(dt: real, factor: real)
    requires dt > 0.0 && factor == (60.0 / COUNTS_PER_OUTPUT_REV) / (dt / 1000.0)
    ensures factor * (206.8 * dt) == 60000.0
  {
    assert factor * (dt / 1000.0) == 60.0 / COUNTS_PER_OUTPUT_REV;
    assert factor * (206.8 * dt) == 206800.0 * (factor * (dt / 1000.0));
  }

  lemma Exchanged(a: real, b: real, c: real)
    ensures a * b * c == a * (b * c)
  {}

  lemma CancelProduct(x: real, y: real, c: real)
    requires c > 0.0 && x * c == y * c
    ensures x == y
  {
    assert (x - y) * c == 0.0;
  }

  /** Each window takes three tenths off the distance to its reading; a reading that repeats is kept. */
  lemma FilterConverges(raw: real, rpm: real)
    requires AbsR(raw) <= MAX_PLAUSIBLE_RPM && Plausible(rpm)
    ensures var r := Filtered(raw, rpm);
            && (10.0 * (r - raw) == 7.0 * (rpm - raw) || (r == 0.0 && AbsR(3.0 * raw + 7.0 * rpm) < 0.5))
            && (raw == rpm ==> r == rpm)
  {}

  datatype Step = Step(dtMs: U32, m1Count: int, m2Count: int)

  /** The speeds after a sequence of steps, the last of which comes last. */
  function AfterSteps(s: Speeds, steps: seq<Step>): (r: Speeds)
    requires Plausible(s.m1Rpm) && Plausible(s.m2Rpm)
    ensures Plausible(r.m1Rpm) && Plausible(r.m2Rpm)
  {
    if steps == [] then s else
      var n := |steps| - 1;
      Measured(AfterSteps(s, steps[..n]), steps[n].dtMs, steps[n].m1Count, steps[n].m2Count)
  }

  function TimeOf(steps: seq<Step>): nat {
    if steps == [] then 0 else TimeOf(steps[..|steps| - 1]) + steps[|steps| - 1].dtMs
  }

  /** Every step's counts are plausible after the ones before it. */
  ghost predicate AllCounted(m1: int, m2: int, steps: seq<Step>) {
    steps == [] ||
    (var n := |steps| - 1;
     && AllCounted(m1, m2, steps[..n])
     && Counted(steps[n].m1Count, LastM1(m1, steps[..n]), steps[n].dtMs)
        == steps[n].m1Count - LastM1(m1, steps[..n])
     && Counted(steps[n].m2Count, LastM2(m2, steps[..n]), steps[n].dtMs)
        == steps[n].m2Count - LastM2(m2, steps[..n]))
  }

  function LastM1(m1: int, steps: seq<Step>): int { if steps == [] then m1 else steps[|steps| - 1].m1Count }
  function LastM2(m2: int, steps: seq<Step>): int { if steps == [] then m2 else steps[|steps| - 1].m2Count }

  /** Steps shorter together than a window: nothing is measured yet, and the counts of all of them are held. */
  lemma {:induction false} WindowGathers(s: Speeds, steps: seq<Step>)
    requires Plausible(s.m1Rpm) && Plausible(s.m2Rpm) && s.accumM1 == 0 && s.accumM2 == 0 && s.accumDtMs == 0
    requires TimeOf(steps) < 50 && AllCounted(s.prevM1, s.prevM2, steps)
    ensures var r, m1, m2 := AfterSteps(s, steps), LastM1(s.prevM1, steps), LastM2(s.prevM2, steps);
            r == Speeds(m1, m2, m1 - s.prevM1, m2 - s.prevM2, TimeOf(steps), s.m1Rpm, s.m2Rpm)
  {
    if steps == [] {
    } else {
      var n := |steps| - 1;
      WindowGathers(s, steps[..n]);
      StepInWindow(AfterSteps(s, steps[..n]), steps[n]);
    }
  }

  lemma StepInWindow(s: Speeds, step: Step)
    requires s.accumDtMs + step.dtMs < WRAP
    requires Counted(step.m1Count, s.prevM1, step.dtMs) == step.m1Count - s.prevM1
    requires Counted(step.m2Count, s.prevM2, step.dtMs) == step.m2Count - s.prevM2
    ensures Gathered(s, step.dtMs, step.m1Count, step.m2Count)
            == Speeds(step.m1Count, step.m2Count, s.accumM1 + (step.m1Count - s.prevM1),
                      s.accumM2 + (step.m2Count - s.prevM2), s.accumDtMs + step.dtMs, s.m1Rpm, s.m2Rpm)
  {}

  /** The step that completes a window of 50 ms or more: each wheel's speed is filtered with its average speed over the
      whole window, and the next window begins. */
  lemma WindowMeasuresAverage(s: Speeds, steps: seq<Step>, rpm1: real, rpm2: real)
    requires Plausible(s.m1Rpm) && Plausible(s.m2Rpm) && s.accumM1 == 0 && s.accumM2 == 0 && s.accumDtMs == 0
    requires steps != [] && TimeOf(steps[..|steps| - 1]) < 50 <= TimeOf(steps) < WRAP
    requires AllCounted(s.prevM1, s.prevM2, steps)
    requires IsSpeed(rpm1, LastM1(s.prevM1, steps) - s.prevM1, TimeOf(steps))
    requires IsSpeed(rpm2, LastM2(s.prevM2, steps) - s.prevM2, TimeOf(steps))
    requires -700.0 <= rpm1 <= 700.0 && -700.0 <= rpm2 <= 700.0
    ensures var r, last := AfterSteps(s, steps), steps[|steps| - 1];
            r == Speeds(last.m1Count, last.m2Count, 0, 0, 0, Filtered(rpm1, s.m1Rpm), Filtered(rpm2, s.m2Rpm))
  {
    var n := |steps| - 1;
    var before, last := AfterSteps(s, steps[..n]), steps[n];
    WindowGathers(s, steps[..n]);
    StepInWindow(before, last);
    var g := Gathered(before, last.dtMs, last.m1Count, last.m2Count);
    assert g.accumM1 == last.m1Count - s.prevM1 && g.accumM2 == last.m2Count - s.prevM2;
    assert g.accumDtMs == TimeOf(steps);
    WindowReadsSpeed(g.accumM1, g.accumDtMs, rpm1);
    WindowReadsSpeed(g.accumM2, g.accumDtMs, rpm2);
    WindowIsRead(g, rpm1, rpm2);
  }

  lemma WindowIsRead(s: Speeds, rpm1: real, rpm2: real)
    requires Plausible(s.m1Rpm) && Plausible(s.m2Rpm) && s.accumDtMs > 0
    requires WindowRpm(s.accumM1, s.accumDtMs) == rpm1 && WindowRpm(s.accumM2, s.accumDtMs) == rpm2
    ensures NextWindow(s) == Speeds(s.prevM1, s.prevM2, 0, 0, 0, Filtered(rpm1, s.m1Rpm), Filtered(rpm2, s.m2Rpm))
  {}

  datatype Speeds = Speeds(prevM1: int, prevM2: int, accumM1: int, accumM2: int, accumDtMs: U32,
                           m1Rpm: real, m2Rpm: real)

  /** The counts and the time of a step, added to those of the window. */
  function Gathered(s: Speeds, dtMs: U32, m1Count: int, m2Count: int): Speeds {
    Speeds(m1Count, m2Count, s.accumM1 + Counted(m1Count, s.prevM1, dtMs), s.accumM2 + Counted(m2Count, s.prevM2, dtMs),
           (s.accumDtMs + dtMs) % WRAP, s.m1Rpm, s.m2Rpm)
  }

  /** The end of a window moves the filtered speeds. */
  function NextWindow(s: Speeds): (r: Speeds)
    requires Plausible(s.m1Rpm) && Plausible(s.m2Rpm) && s.accumDtMs > 0
    ensures Plausible(r.m1Rpm) && Plausible(r.m2Rpm)
  {
    Speeds(s.prevM1, s.prevM2, 0, 0, 0, Filtered(WindowRpm(s.accumM1, s.accumDtMs), s.m1Rpm),
           Filtered(WindowRpm(s.accumM2, s.accumDtMs), s.m2Rpm))
  }

  /** A window lasts 50 ms or more. */
  function Measured(s: Speeds, dtMs: U32, m1Count: int, m2Count: int): (r: Speeds)
    requires Plausible(s.m1Rpm) && Plausible(s.m2Rpm)
    ensures Plausible(r.m1Rpm) && Plausible(r.m2Rpm)
  {
    var g := Gathered(s, dtMs, m1Count, m2Count);
    if g.accumDtMs < RPM_ESTIMATION_WINDOW_MS then g else NextWindow(g)
  }

  /** Wheel speeds from encoder counts, as the first part of `runControlStep` keeps them. */
  class SpeedEstimator {
    var prevM1Count: int
    var prevM2Count: int
    var accumM1Delta: int
    var accumM2Delta: int
    var accumDtMs: U32
    var m1Rpm: real
    var m2Rpm: real

    ghost predicate Valid()
      reads this
    {
      Plausible(m1Rpm) && Plausible(m2Rpm)
    }

    constructor ()
      ensures Valid() && m1Rpm == 0.0 && m2Rpm == 0.0
    {
      prevM1Count, prevM2Count, accumM1Delta, accumM2Delta, accumDtMs := 0, 0, 0, 0, 0;
      m1Rpm, m2Rpm := 0.0, 0.0;
    }

    ghost function State(): Speeds
      reads this
    {
      Speeds(prevM1Count, prevM2Count, accumM1Delta, accumM2Delta, accumDtMs, m1Rpm, m2Rpm)
    }

    /** Whatever the encoders read, the speeds stay plausible. */
    method Measure(dtMs: U32, m1Count: int, m2Count: int)
      requires Valid()
      modifies this
      ensures Valid() && State() == Measured(old(State()), dtMs, m1Count, m2Count)
    {
      var m1Delta, m2Delta := Counted(m1Count, prevM1Count, dtMs), Counted(m2Count, prevM2Count, dtMs);
      prevM1Count, prevM2Count := m1Count, m2Count;
      accumM1Delta, accumM2Delta := accumM1Delta + m1Delta, accumM2Delta + m2Delta;
      accumDtMs := (accumDtMs + dtMs) % WRAP;
      if accumDtMs >= RPM_ESTIMATION_WINDOW_MS {
        var m1Raw, m2Raw := WindowRpm(accumM1Delta, accumDtMs), WindowRpm(accumM2Delta, accumDtMs);
        m1Rpm, m2Rpm := Smoothed(m1Raw, m1Rpm), Smoothed(m2Raw, m2Rpm);
        accumM1Delta, accumM2Delta, accumDtMs := 0, 0, 0;
      }
      m1Rpm, m2Rpm := Denoised(m1Rpm), Denoised(m2Rpm);
    }
  }

  datatype Gains = Gains(kp: real, ki: real, kd: real)

  /** The drive of a motor whose controller is in state was. */
  function DriveOf(was: PidState, target: real, rpm: real, dt: real, kick: bool): int {
    DriveFor(Output(was, target, rpm, dt), kick)
  }

  /** The targets, timers, calibration flags and motor outputs of the firmware. The ghost trace is the run so far; the
      fields hold what the machine of module DeadMan says after it. */
  class Controller {
    const setupAt: nat
    const m1Pid: PidController
    const m2Pid: PidController
    const speeds: SpeedEstimator
    const mag: Calibration
    const odom: Odometer
    var targets: Targets
    var lastCmdMs: U32
    var active: bool
    var startMs: U32
    var prevCmdActive: bool
    var kickstartMs: U32
    var m1Duty: Duty
    var m2Duty: Duty
    var lastControlMs: U32
    var lastAgentCheckMs: U32
    var connected: bool
    var storedGains: Gains    // the gains in the non-volatile memory
    ghost var trace: seq<Event>

    ghost predicate Valid()
      reads this, m1Pid, m2Pid, speeds, mag
    {
      && m1Pid != m2Pid && m1Pid.Valid() && m2Pid.Valid() && speeds.Valid() && mag.Valid()
      && Legal(setupAt, trace) && Follows(Run(setupAt, trace))
      && Safe(m1Duty) && Safe(m2Duty)
    }

    ghost predicate Follows(s: Control)
      reads `targets, `lastCmdMs, `active, `startMs
    {
      && targets == s.targets && lastCmdMs == Millis(s.lastTick)
      && active == s.active && (active ==> startMs == Millis(s.startAt))
    }

    ghost predicate MotorsOff()
      reads `m1Duty, `m2Duty
    {
      m1Duty == OFF && m2Duty == OFF
    }

    ghost function Now(): Control
      reads this, m1Pid, m2Pid, speeds, mag
      requires Valid()
    {
      Run(setupAt, trace)
    }

    /** Motors that a step at time at left driven had a tick within the timeout, in a run whose steps are close. */
    ghost predicate DeadManHeld(at: nat)
      reads this, m1Pid, m2Pid, speeds, mag
    {
      Valid() && (MotorsOff() || WatchedAt(setupAt, trace, at))
    }

    /** `setup`, up to the first turn of the loop. */
    constructor (setupAt: nat, firstLoopAt: nat, m1Pid: PidController, m2Pid: PidController,
                 storedGains: Gains, storedOffset: Vector, trig: Trig)
      requires m1Pid != m2Pid && m1Pid.Valid() && m2Pid.Valid()
      ensures Valid() && fresh(speeds) && fresh(mag) && fresh(odom) && MotorsOff() && targets == STILL && trace == []
      ensures mag.offset == storedOffset && this.storedGains == storedGains
      ensures this.setupAt == setupAt && this.m1Pid == m1Pid && this.m2Pid == m2Pid
    {
      this.setupAt, this.m1Pid, this.m2Pid := setupAt, m1Pid, m2Pid;
      speeds := new SpeedEstimator();
      targets, lastCmdMs := STILL, Millis(setupAt);
      active, startMs := false, 0;
      mag := new Calibration(storedOffset);
      odom := new Odometer(trig);
      this.storedGains := storedGains;
      prevCmdActive, kickstartMs := false, 0;
      m1Duty, m2Duty := OFF, OFF;
      lastControlMs, lastAgentCheckMs, connected := Millis(firstLoopAt), 0, false;
      trace := [];
    }

    ghost method Note(e: Event)
      requires Legal(setupAt, trace) && Timely(Run(setupAt, trace), e)
      modifies `trace
      ensures trace == old(trace) + [e] && Legal(setupAt, trace)
      ensures Run(setupAt, trace) == Apply(Run(setupAt, old(trace)), e)
    {
      trace := trace + [e];
      assert trace[..|trace| - 1] == old(trace);
    }

    method StopMotors()
      modifies `m1Duty, `m2Duty
      ensures MotorsOff()
    {
      m1Duty, m2Duty := OFF, OFF;
    }

    method CmdVelCallback(linear: real, angular: real, at: nat)
      requires Valid() && Now().time <= at
      modifies `targets, `lastCmdMs, `trace
      ensures Valid() && trace == old(trace) + [CmdVel(at, linear, angular)]
    {
      Note(CmdVel(at, linear, angular));
      if active {
        return;
      }
      targets := TargetsFromCmdVel(linear, angular);
      lastCmdMs := Millis(at);
    }

    method RpmCmdCallback(data: seq<real>, at: nat)
      requires Valid() && Now().time <= at
      modifies `targets, `lastCmdMs, `trace
      ensures Valid() && trace == old(trace) + [RpmCmd(at, data)]
    {
      Note(RpmCmd(at, data));
      if active {
        return;
      }
      if |data| >= 2 {
        targets := Targets(data[0], data[1]);
        lastCmdMs := Millis(at);
      }
    }

    method ResetControllers()
      requires m1Pid != m2Pid
      modifies m1Pid`integral, m1Pid`prevMeasurement, m1Pid`firstRun
      modifies m2Pid`integral, m2Pid`prevMeasurement, m2Pid`firstRun
      ensures m1Pid.Valid() && m2Pid.Valid() && m1Pid.IsReset() && m2Pid.IsReset()
    {
      m1Pid.Reset();
      m2Pid.Reset();
    }

    /** New gains are stored and take effect on reset controllers, and change neither targets nor outputs. */
    method PidConfigCallback(data: seq<real>)
      requires Valid()
      modifies `storedGains, m1Pid, m2Pid
      ensures Valid()
      ensures storedGains == if |data| >= 3 then Gains(data[0], data[1], data[2]) else old(storedGains)
      ensures |data| >= 3 ==>
        && m1Pid.IsReset() && m1Pid.kp == data[0] && m1Pid.ki == data[1] && m1Pid.kd == data[2]
        && m2Pid.IsReset() && m2Pid.kp == data[0] && m2Pid.ki == data[1] && m2Pid.kd == data[2]
      ensures |data| < 3 ==> unchanged(m1Pid) && unchanged(m2Pid)
    {
      if |data| < 3 {
        return;
      }
      m1Pid.SetGains(data[0], data[1], data[2]);
      m2Pid.SetGains(data[0], data[1], data[2]);
      ResetControllers();
      storedGains := Gains(data[0], data[1], data[2]);
    }

    method StartMagCalibration(at: nat)
      modifies `active, `startMs, `targets, `lastCmdMs, mag
      ensures active && startMs == Millis(at) && mag.Valid() && mag.samples == [] && !mag.done
      ensures targets == SPIN && lastCmdMs == Millis(at)
    {
      active, startMs := true, Millis(at);
      mag.Restart();
      targets := TargetsFromCmdVel(0.0, MAG_CALIBRATION_ANGULAR_RADPS);
      lastCmdMs := Millis(at);
    }

    /** The end of a calibration leaves the centre of the box around its samples as the offset, in use and stored. */
    method FinishMagCalibration(at: nat)
      requires mag.Valid()
      modifies `active, `targets, `lastCmdMs, mag`done, mag`offset, mag`stored
      ensures !active && mag.Valid()
      ensures if old(active) then targets == STILL && lastCmdMs == Millis(at) && Concluded(old(mag.offset))
              else targets == old(targets) && lastCmdMs == old(lastCmdMs) && unchanged(mag)
    {
      if !active {
        return;
      }
      active := false;
      targets := STILL;
      lastCmdMs := Millis(at);
      mag.Finish();
    }

    ghost predicate Concluded(offset: Vector)
      reads this, mag
    {
      && mag.done == (mag.samples != [])
      && (if mag.samples == [] then mag.offset == offset else mag.offset == mag.stored == Centre(BoxOf(mag.samples)))
    }

    /** A magnetometer reading is a sample of the calibration under way; what is left of it is less the offset. */
    method TakeMagReading(v: Vector) returns (corrected: Vector)
      requires Valid()
      modifies mag`hasSamples, mag`box, mag`samples
      ensures Valid() && mag.samples == old(mag.samples) + (if active then [v] else [])
      ensures corrected == Vector(v.x - mag.offset.x, v.y - mag.offset.y, v.z - mag.offset.z)
    {
      if active {
        mag.Take(v);
      }
      assert mag.samples == old(mag.samples) + (if active then [v] else []);
      corrected := Vector(v.x - mag.offset.x, v.y - mag.offset.y, v.z - mag.offset.z);
    }

    method CalibrateMagCallback(start: bool, at: nat)
      requires Valid() && Now().time <= at
      modifies `active, `startMs, `targets, `lastCmdMs, `trace, mag
      ensures Valid() && trace == old(trace) + [CalibrateMag(at, start)]
      ensures start ==> mag.samples == [] && !mag.done
      ensures !start ==> if old(active) then Concluded(old(mag.offset)) else unchanged(mag)
    {
      Note(CalibrateMag(at, start));
      if start {
        StartMagCalibration(at);
        return;
      }
      FinishMagCalibration(at);
    }

    method UpdateMagCalibrationMode(at: nat, end: nat)
      requires Valid() && Now().time <= at <= end
      modifies `active, `targets, `lastCmdMs, `trace, mag`done, mag`offset, mag`stored
      ensures Valid() && trace == old(trace) + [LoopTick(at, end)]
      ensures if old(active) && !active then Concluded(old(mag.offset)) else unchanged(mag)
    {
      Note(LoopTick(at, end));
      if !active {
        return;
      }
      targets := TargetsFromCmdVel(0.0, MAG_CALIBRATION_ANGULAR_RADPS);
      lastCmdMs := Millis(at);
      if Elapsed(Millis(at), startMs) >= MAG_CALIBRATION_DURATION_MS {
        FinishMagCalibration(end);
      }
    }

    /** The branch of the loop that notices a lost agent. */
    method LoseAgent(at: nat)
      requires Valid() && Now().time <= at
      modifies `connected, `targets, `m1Duty, `m2Duty, `trace
      modifies m1Pid`integral, m1Pid`prevMeasurement, m1Pid`firstRun
      modifies m2Pid`integral, m2Pid`prevMeasurement, m2Pid`firstRun
      ensures Valid() && trace == old(trace) + [AgentLost(at)]
      ensures !connected && targets == STILL && MotorsOff() && m1Pid.IsReset() && m2Pid.IsReset()
    {
      Note(AgentLost(at));
      connected, targets := false, STILL;
      assert Follows(Apply(Run(setupAt, old(trace)), AgentLost(at)));
      ResetControllers();
      StopMotors();
    }

    /** `runControlStep`. The clock is read at `at` by the watchdog, then at kickAt and end for the kickstart. Zero
        targets leave the motors off; motors that are driven have watched, non-zero targets. */
    method RunControlStep(dtMs: U32, m1Count: int, m2Count: int, at: nat, kickAt: nat, end: nat)
      requires Valid() && Now().time <= at <= kickAt <= end
      modifies this`targets, this`prevCmdActive, this`kickstartMs, this`m1Duty, this`m2Duty, this`trace
      modifies m1Pid, m2Pid, speeds, odom
      ensures Valid() && trace == old(trace) + [ControlStep(at, end)]
      ensures targets == STILL ==> MotorsOff()
      ensures Small(old(targets)) ==> targets == STILL
      ensures DeadManHeld(at)
      ensures prevCmdActive <==> targets != STILL
      ensures Sensed(old(speeds.State()), old(odom.State()), dtMs, m1Count, m2Count)
      ensures Acted(old(m1Pid.State()), old(m2Pid.State()), old(prevCmdActive), old(kickstartMs),
                    dtMs as real / 1000.0, kickAt, Kicking(end))
    {
      Sense(dtMs, m1Count, m2Count);
      ActOnCommand(dtMs, at, kickAt, end);
      LastStepIsWatched(setupAt, trace);
    }

    /** The step up to the watchdog: the wheel speeds and the pose. */
    method Sense(dtMs: U32, m1Count: int, m2Count: int)
      requires speeds.Valid()
      modifies speeds, odom
      ensures speeds.Valid() && Sensed(old(speeds.State()), old(odom.State()), dtMs, m1Count, m2Count)
    {
      speeds.Measure(dtMs, m1Count, m2Count);
      odom.Advance(speeds.m1Rpm, speeds.m2Rpm, dtMs as real / 1000.0);
    }

    ghost predicate Sensed(was: Speeds, pose: Pose, dtMs: U32, m1Count: int, m2Count: int)
      requires Plausible(was.m1Rpm) && Plausible(was.m2Rpm)
      reads speeds, odom
    {
      && speeds.State() == Measured(was, dtMs, m1Count, m2Count)
      && odom.State() == Moved(odom.trig, pose, speeds.m1Rpm, speeds.m2Rpm, dtMs as real / 1000.0)
    }

    /** The step from the watchdog on. */
    method ActOnCommand(dtMs: U32, at: nat, kickAt: nat, end: nat)
      requires Valid() && Now().time <= at <= kickAt <= end
      modifies this`targets, this`prevCmdActive, this`kickstartMs, this`m1Duty, this`m2Duty, this`trace
      modifies m1Pid, m2Pid
      ensures Valid() && trace == old(trace) + [ControlStep(at, end)]
      ensures targets == STILL ==> MotorsOff()
      ensures Small(old(targets)) ==> targets == STILL
      ensures prevCmdActive <==> targets != STILL
      ensures Acted(old(m1Pid.State()), old(m2Pid.State()), old(prevCmdActive), old(kickstartMs),
                    dtMs as real / 1000.0, kickAt, Kicking(end))
    {
      var stopRequested := CheckCommand(at, end);
      if stopRequested {
        return;
      }
      DriveMotors(!stopRequested, dtMs as real / 1000.0, kickAt, end);
    }

    /** The watchdog and the stop branch. A command is active exactly when no stop is requested. */
    method CheckCommand(at: nat, end: nat) returns (stopRequested: bool)
      requires Legal(setupAt, trace) && Follows(Run(setupAt, trace))
      requires Timely(Run(setupAt, trace), ControlStep(at, end))
      modifies `targets, `prevCmdActive, `m1Duty, `m2Duty, `trace
      ensures trace == old(trace) + [ControlStep(at, end)]
      ensures Legal(setupAt, trace) && Follows(Run(setupAt, trace))
      ensures Small(old(targets)) ==> stopRequested
      ensures if stopRequested then targets == STILL && MotorsOff() && !prevCmdActive
              else targets == old(targets) != STILL && !Small(targets) && prevCmdActive == old(prevCmdActive)
                   && m1Duty == old(m1Duty) && m2Duty == old(m2Duty)
    {
      Note(ControlStep(at, end));
      if Elapsed(Millis(at), lastCmdMs) > CMD_TIMEOUT_MS {
        targets := STILL;
      }
      stopRequested := AbsR(targets.m1) <= ZERO_CMD_RPM_EPS && AbsR(targets.m2) <= ZERO_CMD_RPM_EPS;
      if stopRequested {
        targets := STILL;
        StopMotors();
        prevCmdActive := false;
      }
    }

    /** Zero targets leave the controllers and the kickstart as they were. Otherwise each controller drives its motor,
        and a new command starts the kickstart. */
    ghost predicate Acted(was1: PidState, was2: PidState, active: bool, started: U32, dt: real, kickAt: nat, kick: bool)
      reads `targets, `m1Duty, `m2Duty, `kickstartMs, m1Pid, m2Pid, speeds
    {
      if targets == STILL then m1Pid.State() == was1 && m2Pid.State() == was2 && kickstartMs == started
      else kickstartMs == (if active then started else Millis(kickAt)) && BothDriven(was1, was2, dt, kick)
    }

    /** Each motor is driven in its own direction. */
    ghost predicate BothDriven(was1: PidState, was2: PidState, dt: real, kick: bool)
      reads `targets, `m1Duty, `m2Duty, m1Pid, m2Pid, speeds
    {
      && m1Pid.State() == Updated(was1, targets.m1, speeds.m1Rpm, dt)
      && m2Pid.State() == Updated(was2, targets.m2, speeds.m2Rpm, dt)
      && -Net(m1Duty) == DriveOf(was1, targets.m1, speeds.m1Rpm, dt, kick)
      && Net(m2Duty) == DriveOf(was2, targets.m2, speeds.m2Rpm, dt, kick)
    }

    /** The kickstart lasts 200 ms from the first step of a new command. */
    predicate Kicking(end: nat)
      reads `kickstartMs
    {
      Elapsed(Millis(end), kickstartMs) < KICKSTART_DURATION_MS
    }

    /** Whatever the clock shows, the kickstart that began at start is over 200 ms later. */
    lemma KickstartLasts(start: nat, end: nat)
      requires kickstartMs == Millis(start) && start <= end < start + WRAP
      ensures Kicking(end) <==> end < start + 200
    {
      ElapsedIsModular(end, start);
    }

    /** The part of the step after the stop branch. */
    method DriveMotors(cmdActive: bool, dt: real, kickAt: nat, end: nat)
      requires m1Pid != m2Pid && m1Pid.Valid() && m2Pid.Valid() && cmdActive
      modifies `prevCmdActive, `kickstartMs, `m1Duty, `m2Duty, m1Pid, m2Pid
      ensures m1Pid.Valid() && m2Pid.Valid() && Safe(m1Duty) && Safe(m2Duty) && prevCmdActive
      ensures kickstartMs == (if old(prevCmdActive) then old(kickstartMs) else Millis(kickAt))
      ensures BothDriven(old(m1Pid.State()), old(m2Pid.State()), dt, Kicking(end))
    {
      ghost var was1, was2 := m1Pid.State(), m2Pid.State();
      var out1, out2 := UpdateControllers(dt);
      ApplyOutputs(out1, out2, cmdActive, kickAt, end);
      assert DriveOf(was1, targets.m1, speeds.m1Rpm, dt, Kicking(end)) == DriveFor(out1, Kicking(end));
      assert DriveOf(was2, targets.m2, speeds.m2Rpm, dt, Kicking(end)) == DriveFor(out2, Kicking(end));
    }

    method UpdateControllers(dt: real) returns (out1: real, out2: real)
      requires m1Pid != m2Pid && m1Pid.Valid() && m2Pid.Valid()
      modifies m1Pid, m2Pid
      ensures m1Pid.Valid() && m2Pid.Valid()
      ensures m1Pid.State() == Updated(old(m1Pid.State()), targets.m1, speeds.m1Rpm, dt)
      ensures m2Pid.State() == Updated(old(m2Pid.State()), targets.m2, speeds.m2Rpm, dt)
      ensures out1 == Output(old(m1Pid.State()), targets.m1, speeds.m1Rpm, dt)
      ensures out2 == Output(old(m2Pid.State()), targets.m2, speeds.m2Rpm, dt)
    {
      out1 := m1Pid.Update(targets.m1, speeds.m1Rpm, dt);
      out2 := m2Pid.Update(targets.m2, speeds.m2Rpm, dt);
    }

    method ApplyOutputs(out1: real, out2: real, cmdActive: bool, kickAt: nat, end: nat)
      requires cmdActive
      modifies `prevCmdActive, `kickstartMs, `m1Duty, `m2Duty
      ensures Safe(m1Duty) && Safe(m2Duty) && prevCmdActive
      ensures kickstartMs == (if old(prevCmdActive) then old(kickstartMs) else Millis(kickAt))
      ensures Net(m1Duty) == -DriveFor(out1, Kicking(end)) && Net(m2Duty) == DriveFor(out2, Kicking(end))
    {
      if cmdActive && !prevCmdActive {
        kickstartMs := Millis(kickAt);
      }
      prevCmdActive := cmdActive;
      var kick := cmdActive && Kicking(end);
      m1Duty := DutyOf(M1_MOTOR_DIR_INVERTED, out1, kick);
      m2Duty := DutyOf(M2_MOTOR_DIR_INVERTED, out2, kick);
    }

    /** One turn of `loop`, up to the callbacks. An agent found lost leaves the motors off; a step is run when the
        control period has passed since the last. */
    method Loop(now: nat, tickEnd: nat, pingAt: nat, agentOk: bool, entitiesMade: bool,
                m1Count: int, m2Count: int, stepAt: nat, kickAt: nat, stepEnd: nat)
      requires Valid() && Now().time <= now <= tickEnd <= pingAt <= stepAt <= kickAt <= stepEnd
      modifies this, m1Pid, m2Pid, speeds, mag, odom
      ensures Valid()
      ensures var checked := Elapsed(Millis(now), old(lastAgentCheckMs)) >= 500;
              var lost := checked && old(connected) && !agentOk;
              var due := Elapsed(Millis(now), old(lastControlMs)) >= 10;
              && trace == old(trace) + [LoopTick(now, tickEnd)] + (if lost then [AgentLost(pingAt)] else [])
                          + (if due then [ControlStep(stepAt, stepEnd)] else [])
              && lastControlMs == (if due then Millis(now) else old(lastControlMs))
              && lastAgentCheckMs == (if checked then Millis(now) else old(lastAgentCheckMs))
              && connected == (if checked then agentOk && (old(connected) || entitiesMade) else old(connected))
              && (lost ==> MotorsOff() && targets == STILL)
              && (due ==> DeadManHeld(stepAt))
    {
      TickAndCheck(now, tickEnd, pingAt, agentOk, entitiesMade);
      StepIfDue(now, m1Count, m2Count, stepAt, kickAt, stepEnd);
    }

    method TickAndCheck(now: nat, tickEnd: nat, pingAt: nat, agentOk: bool, entitiesMade: bool)
      requires Valid() && Now().time <= now <= tickEnd <= pingAt
      modifies `active, `targets, `lastCmdMs, `trace, mag`done, mag`offset, mag`stored
      modifies `lastAgentCheckMs, `connected, `m1Duty, `m2Duty, m1Pid, m2Pid
      ensures Valid() && Now().time <= pingAt
      ensures var checked := Elapsed(Millis(now), old(lastAgentCheckMs)) >= AGENT_CHECK_MS;
              var lost := checked && old(connected) && !agentOk;
              && trace == old(trace) + [LoopTick(now, tickEnd)] + (if lost then [AgentLost(pingAt)] else [])
              && lastAgentCheckMs == (if checked then Millis(now) else old(lastAgentCheckMs))
              && connected == (if checked then agentOk && (old(connected) || entitiesMade) else old(connected))
              && (lost ==> MotorsOff() && targets == STILL)
    {
      UpdateMagCalibrationMode(now, tickEnd);
      CheckAgent(now, pingAt, agentOk, entitiesMade);
    }

    method StepIfDue(now: nat, m1Count: int, m2Count: int, at: nat, kickAt: nat, end: nat)
      requires Valid() && Now().time <= at <= kickAt <= end
      modifies this`lastControlMs, this`targets, this`prevCmdActive, this`kickstartMs, this`m1Duty, this`m2Duty
      modifies this`trace, m1Pid, m2Pid, speeds, odom
      ensures Valid()
      ensures var due := Elapsed(Millis(now), old(lastControlMs)) >= CONTROL_PERIOD_MS;
              && trace == old(trace) + (if due then [ControlStep(at, end)] else [])
              && lastControlMs == (if due then Millis(now) else old(lastControlMs))
              && (due ==> DeadManHeld(at))
      ensures old(targets == STILL && MotorsOff()) ==> targets == STILL && MotorsOff()
    {
      if Elapsed(Millis(now), lastControlMs) >= CONTROL_PERIOD_MS {
        var dtMs: U32 := Elapsed(Millis(now), lastControlMs);
        lastControlMs := Millis(now);
        RunControlStep(dtMs, m1Count, m2Count, at, kickAt, end);
      }
    }

    method CheckAgent(now: nat, pingAt: nat, agentOk: bool, entitiesMade: bool)
      requires Valid() && Now().time <= pingAt
      modifies `lastAgentCheckMs, `connected, `targets, `m1Duty, `m2Duty, `trace, m1Pid, m2Pid
      ensures Valid() && Now().time <= pingAt
      ensures var checked := Elapsed(Millis(now), old(lastAgentCheckMs)) >= AGENT_CHECK_MS;
              var lost := checked && old(connected) && !agentOk;
              && trace == old(trace) + (if lost then [AgentLost(pingAt)] else [])
              && lastAgentCheckMs == (if checked then Millis(now) else old(lastAgentCheckMs))
              && connected == (if checked then agentOk && (old(connected) || entitiesMade) else old(connected))
              && (if lost then MotorsOff() && targets == STILL
                  else targets == old(targets) && m1Duty == old(m1Duty) && m2Duty == old(m2Duty))
    {
      if Elapsed(Millis(now), lastAgentCheckMs) >= AGENT_CHECK_MS {
        lastAgentCheckMs := Millis(now);
        if !connected && agentOk {
          connected := entitiesMade;
        } else if connected && !agentOk {
          LoseAgent(pingAt);
        }
      }
    }
  }
}
