/** The timed part of the motor firmware: wheel targets, the command watchdog and the calibration timer, as a machine
    over its events. Time is unbounded; the code sees it only through `Millis`. */
module DeadMan {
  import opened Words

  const CMD_TIMEOUT_MS := 1000
  const MAG_CALIBRATION_DURATION_MS := 15000
  const MAG_CALIBRATION_ANGULAR_RADPS := 1.0
  const ZERO_CMD_RPM_EPS := 0.8
  const ZERO_CMD_MPS_EPS := 0.01
  const ZERO_CMD_RADPS_EPS := 0.05
  const WHEEL_RADIUS_M := 0.0613
  const WHEEL_BASE_M := 0.282
  const PI := 3.14159265
  const WRAP := 0x1_0000_0000

  /** The 32-bit reading of the clock at time t. */
  function Millis(t: nat): U32 { t % WRAP }

  /** Unsigned difference of two readings. */
  function Elapsed(now: U32, since: U32): U32 { (now - since) % WRAP }

  /** The difference of two readings is the time between them, less whole turns of the clock. */
  lemma ElapsedIsModular(now: nat, since: nat)
    requires since <= now
    ensures Elapsed(Millis(now), Millis(since)) == (now - since) % WRAP
    ensures now - since < WRAP ==> Elapsed(Millis(now), Millis(since)) == now - since
  {
    var q, p := now / WRAP, since / WRAP;
    assert now == q * WRAP + Millis(now) && since == p * WRAP + Millis(since);
    assert now - since == (q - p) * WRAP + (Millis(now) - Millis(since));
  }

  datatype Targets = Targets(m1: real, m2: real)

  const STILL := Targets(0.0, 0.0)

  function Snapped(x: real, eps: real): real { if AbsR(x) < eps then 0.0 else x }

  function RpmOf(metresPerSecond: real): real { metresPerSecond / (2.0 * PI * WHEEL_RADIUS_M) * 60.0 }

  /** `setTargetsFromCmdVel`: wheel speeds for a forward speed and a turn rate, small ones counting as none. */
  function TargetsFromCmdVel(linear: real, angular: real): Targets {
    var v, w := Snapped(linear, ZERO_CMD_MPS_EPS), Snapped(angular, ZERO_CMD_RADPS_EPS);
    Targets(RpmOf(v - w * WHEEL_BASE_M * 0.5), RpmOf(v + w * WHEEL_BASE_M * 0.5))
  }

  const SPIN := TargetsFromCmdVel(0.0, MAG_CALIBRATION_ANGULAR_RADPS)

  function MpsOf(rpm: real): real { rpm * 2.0 * PI * WHEEL_RADIUS_M / 60.0 }

  /** The body speeds that `runControlStep` reports for two wheel speeds. */
  function ReportedSpeeds(m1: real, m2: real): (r: (real, real)) {
    (0.5 * (MpsOf(m2) + MpsOf(m1)), (MpsOf(m1) - MpsOf(m2)) / WHEEL_BASE_M)
  }

  /** Wheels that turn at their targets are reported with the commanded forward speed but the opposite turn rate. */
  lemma ReportMirrorsTurn(linear: real, angular: real)
    requires linear == 0.0 || AbsR(linear) >= ZERO_CMD_MPS_EPS
    requires angular == 0.0 || AbsR(angular) >= ZERO_CMD_RADPS_EPS
    ensures var t := TargetsFromCmdVel(linear, angular); ReportedSpeeds(t.m1, t.m2) == (linear, -angular)
  {
    var half := angular * WHEEL_BASE_M * 0.5;
    RpmRoundTrip(linear - half);
    RpmRoundTrip(linear + half);
  }

  /** A wheel makes 60 rpm when it covers its circumference in a second. */
  lemma SixtyRpm()
    ensures MpsOf(60.0) == 2.0 * PI * 0.0613 && RpmOf(2.0 * PI * 0.0613) == 60.0
  {
    RpmRoundTrip(2.0 * PI * 0.0613);
  }

  /** Speeds are proportional to revolutions. */
  lemma MpsIsProportional(a: real, b: real)
    ensures a * MpsOf(b) == b * MpsOf(a)
  {}

  /** The second wheel is the right one: it is faster than the first by the turn rate times the wheel base, and
      together they make the forward speed. Speeds below 0.01 m/s and turn rates below 0.05 rad/s count as none. */
  lemma TargetsMakeMotion(linear: real, angular: real)
    ensures var t := TargetsFromCmdVel(linear, angular);
            && MpsOf(t.m1) + MpsOf(t.m2) == 2.0 * (if -0.01 < linear < 0.01 then 0.0 else linear)
            && MpsOf(t.m2) - MpsOf(t.m1) == 0.282 * (if -0.05 < angular < 0.05 then 0.0 else angular)
  {
    var v, w := Snapped(linear, ZERO_CMD_MPS_EPS), Snapped(angular, ZERO_CMD_RADPS_EPS);
    RpmRoundTrip(v - w * WHEEL_BASE_M * 0.5);
    RpmRoundTrip(v + w * WHEEL_BASE_M * 0.5);
  }

  /** The calibration turns the robot on the spot, at 1 rad/s. */
  lemma SpinTurnsOnTheSpot()
    ensures MpsOf(SPIN.m1) + MpsOf(SPIN.m2) == 0.0 && MpsOf(SPIN.m2) - MpsOf(SPIN.m1) == 0.282
  {
    TargetsMakeMotion(0.0, MAG_CALIBRATION_ANGULAR_RADPS);
  }

  lemma RpmRoundTrip(v: real)
    ensures MpsOf(RpmOf(v)) == v
  {}

  predicate Small(t: Targets) { AbsR(t.m1) <= ZERO_CMD_RPM_EPS && AbsR(t.m2) <= ZERO_CMD_RPM_EPS }

  /** What happens to the controller. `at` and `end` are the true times of the clock readings taken. */
  datatype Event =
    | CmdVel(at: nat, linear: real, angular: real)
    | RpmCmd(at: nat, data: seq<real>)
    | CalibrateMag(at: nat, start: bool)
    | LoopTick(at: nat, end: nat)     // updateMagCalibrationMode; a calibration that finishes reads the clock at end
    | AgentLost(at: nat)
    | ControlStep(at: nat, end: nat)  // the watchdog reads the clock at at, the kickstart timer up to end

  function End(e: Event): nat { if e.LoopTick? || e.ControlStep? then e.end else e.at }

  /** lastTick is the true time behind `g_last_cmd_ms`, startAt the one behind the calibration's `start_ms`. */
  datatype Control = Control(time: nat, targets: Targets, lastTick: nat, lastStep: nat,
                             active: bool, startAt: nat, lastLoop: nat)

  function Initial(t: nat): Control { Control(t, STILL, t, t, false, 0, t) }

  predicate Timely(s: Control, e: Event) { s.time <= e.at <= End(e) }

  function Commanded(s: Control, t: Targets, at: nat): Control { s.(targets := t, lastTick := at) }

  function Finished(s: Control, at: nat): Control { Commanded(s, STILL, at).(active := false) }

  function Apply(s: Control, e: Event): Control
    requires Timely(s, e)
  {
    (match e
     case CmdVel(at, v, w) => if s.active then s else Commanded(s, TargetsFromCmdVel(v, w), at)
     case RpmCmd(at, data) => if s.active || |data| < 2 then s else Commanded(s, Targets(data[0], data[1]), at)
     case CalibrateMag(at, start) =>
       if start then Commanded(s, SPIN, at).(active := true, startAt := at)
       else if s.active then Finished(s, at) else s
     case LoopTick(at, end) =>
       (if !s.active then s
        else if Elapsed(Millis(at), Millis(s.startAt)) >= MAG_CALIBRATION_DURATION_MS then Finished(s, end)
        else Commanded(s, SPIN, at)).(lastLoop := at)
     case AgentLost(at) => s.(targets := STILL)
     case ControlStep(at, end) =>
       var expired := Elapsed(Millis(at), Millis(s.lastTick)) > CMD_TIMEOUT_MS;
       s.(targets := if expired || Small(s.targets) then STILL else s.targets, lastStep := at)
    ).(time := End(e))
  }

  predicate Legal(t0: nat, events: seq<Event>)
    decreases |events|, 0
  {
    events == [] ||
    (var n := |events| - 1; Legal(t0, events[..n]) && Timely(Run(t0, events[..n]), events[n]))
  }

  /** The state after a run that begins with `setup` at time t0. */
  function Run(t0: nat, events: seq<Event>): Control
    requires Legal(t0, events)
    decreases |events|, 1
  {
    if events == [] then Initial(t0) else
      var n := |events| - 1;
      Apply(Run(t0, events[..n]), events[n])
  }

  lemma {:induction false} PrefixIsLegal(t0: nat, events: seq<Event>, k: nat)
    requires k <= |events| && Legal(t0, events)
    ensures Legal(t0, events[..k])
  {
    if k < |events| {
      var n := |events| - 1;
      PrefixIsLegal(t0, events[..n], k);
      assert events[..n][..k] == events[..k];
    } else {
      assert events[..k] == events;
    }
  }

  /** The state before event k. */
  function Before(t0: nat, events: seq<Event>, k: nat): Control
    requires k <= |events| && Legal(t0, events)
  {
    PrefixIsLegal(t0, events, k);
    Run(t0, events[..k])
  }

  lemma BeforeNext(t0: nat, events: seq<Event>, k: nat)
    requires k < |events| && Legal(t0, events)
    ensures Timely(Before(t0, events, k), events[k])
    ensures Before(t0, events, k + 1) == Apply(Before(t0, events, k), events[k])
  {
    PrefixIsLegal(t0, events, k + 1);
    assert events[..k + 1][..k] == events[..k];
  }

  /** The event hands the controller new targets and restarts its watchdog. */
  predicate Ticks(s: Control, e: Event) {
    || (e.CmdVel? && !s.active)
    || (e.RpmCmd? && !s.active && |e.data| >= 2)
    || (e.CalibrateMag? && e.start)
    || (e.LoopTick? && s.active)
  }

  /** Successive control steps are close enough for the watchdog's unsigned difference not to come round. */
  ghost predicate StepsClose(t0: nat, events: seq<Event>)
    requires Legal(t0, events)
  {
    forall k :: 0 <= k < |events| && events[k].ControlStep? ==>
      events[k].at - Before(t0, events, k).lastStep < WRAP - CMD_TIMEOUT_MS
  }

  /** Targets are zero unless the last step came within the timeout of the last tick. */
  predicate Watched(s: Control) {
    && s.lastTick <= s.time && s.lastStep <= s.time
    && (s.targets == STILL || s.lastStep <= s.lastTick + CMD_TIMEOUT_MS)
  }

  lemma EventKeepsWatched(s: Control, e: Event)
    requires Watched(s) && Timely(s, e)
    requires e.ControlStep? ==> e.at - s.lastStep < WRAP - CMD_TIMEOUT_MS
    ensures Watched(Apply(s, e))
    ensures e.ControlStep? && Apply(s, e).targets != STILL ==> e.at <= s.lastTick + CMD_TIMEOUT_MS
  {
    if e.ControlStep? {
      ElapsedIsModular(e.at, s.lastTick);
    }
  }

  lemma {:induction false} RunIsWatched(t0: nat, events: seq<Event>, k: nat)
    requires Legal(t0, events) && StepsClose(t0, events) && k <= |events|
    ensures Watched(Before(t0, events, k))
  {
    if k == 0 {
    } else {
      RunIsWatched(t0, events, k - 1);
      BeforeNext(t0, events, k - 1);
      EventKeepsWatched(Before(t0, events, k - 1), events[k - 1]);
    }
  }

  /** Non-zero targets come from a tick in the run, at time lastTick. */
  lemma {:induction false} TargetsComeFromTick(t0: nat, events: seq<Event>, k: nat) returns (j: nat)
    requires Legal(t0, events) && k <= |events| && Before(t0, events, k).targets != STILL
    ensures j < k && Ticks(Before(t0, events, j), events[j]) && events[j].at == Before(t0, events, k).lastTick
  {
    assert k > 0;
    BeforeNext(t0, events, k - 1);
    var s, e := Before(t0, events, k - 1), events[k - 1];
    if Ticks(s, e) {
      j := k - 1;
    } else {
      j := TargetsComeFromTick(t0, events, k - 1);
    }
  }

  /** Dead-man safety: however the clock wraps, a control step that leaves the motors driven comes at most the timeout
      after a command or calibration tick. */
  lemma DrivenOnlyAfterTick(t0: nat, events: seq<Event>, k: nat) returns (j: nat)
    requires Legal(t0, events) && StepsClose(t0, events)
    requires k < |events| && events[k].ControlStep? && Before(t0, events, k + 1).targets != STILL
    ensures j < k && Ticks(Before(t0, events, j), events[j])
    ensures events[j].at <= events[k].at <= events[j].at + 1000
  {
    RunIsWatched(t0, events, k);
    BeforeNext(t0, events, k);
    EventKeepsWatched(Before(t0, events, k), events[k]);
    j := TargetsComeFromTick(t0, events, k);
  }

  // ---- What a command does ----

  /** A control step keeps the targets unless they are next to zero on both wheels or no tick came in the last second;
      then it zeroes them. */
  lemma StepKeepsTargets(s: Control, e: Event)
    requires Watched(s) && Timely(s, e) && e.ControlStep? && e.at - s.lastTick < WRAP
    ensures Apply(s, e).targets
            == if e.at > s.lastTick + 1000 || (-0.8 <= s.targets.m1 <= 0.8 && -0.8 <= s.targets.m2 <= 0.8) then STILL
               else s.targets
  {
    ElapsedIsModular(e.at, s.lastTick);
  }

  /** The event leaves a command in force: no other command, no calibration, no lost agent. */
  predicate LeavesCommand(e: Event) { !IsCommand(e) && !e.AgentLost? }

  /** The event commands these wheel speeds: the first two numbers of an rpm command, or those that make a motion. */
  predicate Commands(e: Event, m1: real, m2: real) {
    || (e.RpmCmd? && |e.data| >= 2 && e.data[..2] == [m1, m2])
    || (e.CmdVel? && e.linear == 0.5 * (MpsOf(m1) + MpsOf(m2)) && e.angular == (MpsOf(m2) - MpsOf(m1)) / 0.282
        && (e.linear == 0.0 || AbsR(e.linear) >= 0.01) && (e.angular == 0.0 || AbsR(e.angular) >= 0.05))
  }

  lemma CommandIsObeyed(s: Control, e: Event, m1: real, m2: real)
    requires Timely(s, e) && Commands(e, m1, m2) && !s.active
    ensures Apply(s, e).targets == Targets(m1, m2) && Apply(s, e).lastTick == e.at
  {
    if e.CmdVel? {
      var t := TargetsFromCmdVel(e.linear, e.angular);
      TargetsMakeMotion(e.linear, e.angular);
      assert MpsOf(t.m1) == MpsOf(m1) && MpsOf(t.m2) == MpsOf(m2);
    }
  }

  /** Over runs: the wheel speeds commanded are in force up to any step that comes more than a second later, provided
      no calibration is under way and nothing else is commanded. */
  lemma {:induction false} CommandStaysInForce(t0: nat, events: seq<Event>, c: nat, k: nat, m1: real, m2: real)
    requires Legal(t0, events) && c < k <= |events| && Commands(events[c], m1, m2)
    requires !Before(t0, events, c).active && !Small(Targets(m1, m2))
    requires forall j :: c < j < k ==> LeavesCommand(events[j])
    requires forall j :: c < j < k && events[j].ControlStep? ==> events[j].at <= events[c].at + 1000
    ensures var s := Before(t0, events, k); s.targets == Targets(m1, m2) && !s.active && s.lastTick == events[c].at
  {
    BeforeNext(t0, events, k - 1);
    if k - 1 > c {
      CommandStaysInForce(t0, events, c, k - 1, m1, m2);
      TickIsPast(t0, events, k - 1);
      InForce(Before(t0, events, k - 1), events[k - 1]);
    } else {
      CommandIsObeyed(Before(t0, events, c), events[c], m1, m2);
    }
  }

  lemma InForce(s: Control, e: Event)
    requires Timely(s, e) && LeavesCommand(e) && !s.active && !Small(s.targets) && s.lastTick <= s.time
    requires e.ControlStep? ==> e.at <= s.lastTick + 1000
    ensures var r := Apply(s, e); r.targets == s.targets && !r.active && r.lastTick == s.lastTick
  {
    if e.ControlStep? { ElapsedIsModular(e.at, s.lastTick); }
  }

  /** While a calibration is under way no command gets through: the wheels turn on the spot or stand still. Its end
      leaves them still. */
  lemma {:induction false} CalibrationHasTheWheels(t0: nat, events: seq<Event>, k: nat)
    requires Legal(t0, events) && k <= |events|
    ensures var s := Before(t0, events, k); s.active ==> s.targets == SPIN || s.targets == STILL
    ensures k > 0 && Before(t0, events, k - 1).active && !Before(t0, events, k).active ==>
              Before(t0, events, k).targets == STILL
  {
    if k == 0 {
    } else {
      CalibrationHasTheWheels(t0, events, k - 1);
      BeforeNext(t0, events, k - 1);
    }
  }

  lemma {:induction false} TickIsPast(t0: nat, events: seq<Event>, k: nat)
    requires Legal(t0, events) && k <= |events|
    ensures Before(t0, events, k).lastTick <= Before(t0, events, k).time
  {
    if k == 0 {
    } else {
      TickIsPast(t0, events, k - 1);
      BeforeNext(t0, events, k - 1);
    }
  }

  /** A run with close steps has moving targets at time at only within the timeout of the last tick. */
  ghost predicate WatchedAt(t0: nat, events: seq<Event>, at: nat)
    requires Legal(t0, events)
  {
    var s := Run(t0, events);
    StepsClose(t0, events) && s.targets != STILL ==> at <= s.lastTick + CMD_TIMEOUT_MS
  }

  lemma LastStepIsWatched(t0: nat, events: seq<Event>)
    requires Legal(t0, events) && events != [] && events[|events| - 1].ControlStep?
    ensures WatchedAt(t0, events, events[|events| - 1].at)
  {
    var n := |events| - 1;
    if StepsClose(t0, events) {
      RunIsWatched(t0, events, n);
      EventKeepsWatched(Before(t0, events, n), events[n]);
    }
  }

  /** The gap cannot be wider: with a gap of just that length a step drives the motors a whole turn of the clock after
      the only command. */
  lemma GapLimitIsTight(t0: nat)
    ensures var events := [RpmCmd(t0, [100.0, 100.0]), ControlStep(t0 + CMD_TIMEOUT_MS, t0 + CMD_TIMEOUT_MS),
                           ControlStep(t0 + WRAP, t0 + WRAP)];
            && Legal(t0, events)
            && events[2].at - Before(t0, events, 2).lastStep == WRAP - CMD_TIMEOUT_MS
            && Run(t0, events).targets == Targets(100.0, 100.0)
  {
    var a, b, c := RpmCmd(t0, [100.0, 100.0]), ControlStep(t0 + CMD_TIMEOUT_MS, t0 + CMD_TIMEOUT_MS),
                   ControlStep(t0 + WRAP, t0 + WRAP);
    assert [a, b, c][..2] == [a, b] && [a, b][..1] == [a] && [a][..0] == [];
    ElapsedIsModular(t0 + CMD_TIMEOUT_MS, t0);
    ElapsedIsModular(t0 + WRAP, t0);
    assert Legal(t0, []);
    assert Legal(t0, [a]);
    assert Run(t0, [a]) == Apply(Initial(t0), a);
    assert Legal(t0, [a, b]);
    assert Run(t0, [a, b]) == Apply(Run(t0, [a]), b);
  }

  /** Loop turns are close enough for the calibration timer not to come round. */
  ghost predicate LoopsClose(t0: nat, events: seq<Event>)
    requires Legal(t0, events)
  {
    forall k :: 0 <= k < |events| && events[k].LoopTick? ==>
      events[k].at - Before(t0, events, k).lastLoop < WRAP - MAG_CALIBRATION_DURATION_MS
  }

  predicate Calibrating(s: Control) {
    && s.lastLoop <= s.time && s.startAt <= s.time
    && (s.active ==> s.lastLoop < s.startAt + 15000)
  }

  lemma EventKeepsCalibrating(s: Control, e: Event)
    requires Calibrating(s) && Timely(s, e)
    requires e.LoopTick? ==> e.at - s.lastLoop < WRAP - MAG_CALIBRATION_DURATION_MS
    ensures Calibrating(Apply(s, e))
  {
    if e.LoopTick? {
      ElapsedIsModular(e.at, s.startAt);
    }
  }

  /** A calibration outlasts no turn of the loop that begins its duration or more after its start. */
  lemma {:induction false} CalibrationIsBounded(t0: nat, events: seq<Event>, k: nat)
    requires Legal(t0, events) && LoopsClose(t0, events) && k <= |events|
    ensures Calibrating(Before(t0, events, k))
  {
    if k == 0 {
    } else {
      CalibrationIsBounded(t0, events, k - 1);
      BeforeNext(t0, events, k - 1);
      EventKeepsCalibrating(Before(t0, events, k - 1), events[k - 1]);
    }
  }

  /** Losing the agent stops the wheels, and at the next turn of the loop they are still stopped exactly when no
      calibration is under way or it is due to end. */
  lemma AgentLossHolds(s: Control, lost: nat, at: nat, end: nat)
    requires Calibrating(s) && s.time <= lost <= at <= end && (s.active ==> at - s.startAt < WRAP)
    ensures Apply(s, AgentLost(lost)).targets == STILL
    ensures var next := Apply(Apply(s, AgentLost(lost)), LoopTick(at, end));
            && (next.targets == STILL <==> !s.active || at >= s.startAt + 15000)
            && (next.targets != STILL ==> next.targets == SPIN && !Small(SPIN))
  {
    if s.active {
      ElapsedIsModular(at, s.startAt);
    }
  }

  /** The event may hand the controller new targets from outside. */
  predicate IsCommand(e: Event) { e.CmdVel? || (e.RpmCmd? && |e.data| >= 2) || (e.CalibrateMag? && e.start) }

  /** With no calibration under way, stopped wheels stay stopped over every continuation without a command. */
  lemma {:induction false} StillnessLasts(t0: nat, events: seq<Event>, from: nat, k: nat)
    requires Legal(t0, events) && from <= k <= |events|
    requires Before(t0, events, from).targets == STILL && !Before(t0, events, from).active
    requires forall j :: from <= j < k ==> !IsCommand(events[j])
    ensures Before(t0, events, k).targets == STILL && !Before(t0, events, k).active
  {
    if k == from {
    } else {
      BeforeNext(t0, events, k - 1);
      StillnessLasts(t0, events, from, k - 1);
    }
  }

  /** With one under way, they do up to the next turn of the loop. */
  lemma {:induction false} StillUntilTurn(t0: nat, events: seq<Event>, from: nat, k: nat)
    requires Legal(t0, events) && from <= k <= |events| && Before(t0, events, from).targets == STILL
    requires forall j :: from <= j < k ==> !IsCommand(events[j]) && !events[j].LoopTick?
    ensures Before(t0, events, k).targets == STILL
  {
    if k == from {
    } else {
      BeforeNext(t0, events, k - 1);
      StillUntilTurn(t0, events, from, k - 1);
    }
  }

  /** Over runs in which no command follows the loss of the agent: the wheels stand still up to the next turn of the
      loop; after it they do exactly when no calibration is under way or it is due to end; and then they do for good. */
  lemma LossLastsUntilCommand(t0: nat, events: seq<Event>, lost: nat, turn: nat, k: nat)
    requires Legal(t0, events) && LoopsClose(t0, events) && lost < turn < k <= |events|
    requires events[lost].AgentLost? && events[turn].LoopTick?
    requires forall j :: lost < j < k ==> !IsCommand(events[j])
    requires forall j :: lost < j < turn ==> !events[j].LoopTick?
    ensures Before(t0, events, turn).targets == STILL
    ensures var s := Before(t0, events, turn);
            && (Before(t0, events, turn + 1).targets == STILL
                <==> !s.active || events[turn].at >= s.startAt + 15000)
            && (Before(t0, events, turn + 1).targets == STILL ==> Before(t0, events, k).targets == STILL)
  {
    BeforeNext(t0, events, lost);
    StillUntilTurn(t0, events, lost + 1, turn);
    CalibrationIsBounded(t0, events, turn);
    BeforeNext(t0, events, turn);
    TurnAfterLoss(Before(t0, events, turn), events[turn]);
    if Before(t0, events, turn + 1).targets == STILL {
      StillnessLasts(t0, events, turn + 1, k);
    }
  }

  lemma TurnAfterLoss(s: Control, e: Event)
    requires Calibrating(s) && Timely(s, e) && e.LoopTick? && s.targets == STILL
    requires e.at - s.lastLoop < WRAP - MAG_CALIBRATION_DURATION_MS
    ensures Apply(s, e).targets == STILL <==> !s.active || e.at >= s.startAt + 15000
    ensures Apply(s, e).targets == STILL ==> !Apply(s, e).active
  {
    if s.active {
      ElapsedIsModular(e.at, s.startAt);
      assert !Small(SPIN);
    }
  }

  /** It happens that they do not: two turns of the loop, in the first of which the agent is lost. */
  lemma CalibrationOutlivesAgent(t0: nat)
    ensures var events := [CalibrateMag(t0, true), LoopTick(t0 + 1, t0 + 1), AgentLost(t0 + 1),
                           LoopTick(t0 + 2, t0 + 2)];
            Legal(t0, events) && Run(t0, events).targets == SPIN && !Small(SPIN)
  {
    var a, b, c, d := CalibrateMag(t0, true), LoopTick(t0 + 1, t0 + 1), AgentLost(t0 + 1), LoopTick(t0 + 2, t0 + 2);
    assert [a, b, c, d][..3] == [a, b, c] && [a, b, c][..2] == [a, b] && [a, b][..1] == [a] && [a][..0] == [];
    ElapsedIsModular(t0 + 1, t0);
    ElapsedIsModular(t0 + 2, t0);
    assert Legal(t0, []) && Legal(t0, [a]);
    assert Run(t0, [a]) == Apply(Initial(t0), a);
    assert Legal(t0, [a, b]);
    assert Run(t0, [a, b]) == Apply(Run(t0, [a]), b);
    assert Legal(t0, [a, b, c]);
    assert Run(t0, [a, b, c]) == Apply(Run(t0, [a, b]), c);
  }
}
