/** The pose that the firmware integrates from its wheel speeds. */
module Odometry {
  import opened DeadMan

  const TURN := 2.0 * PI

  /** The two angles differ by whole turns. */
  ghost predicate SameDirection(a: real, b: real) {
    exists k: int :: TurnedBy(a, b, k)
  }

  predicate TurnedBy(a: real, b: real, k: int) { b == a + k as real * TURN }

  /** The representative of an angle between minus and plus half a turn. */
  function Normalized(angle: real): (r: real)
    ensures -PI <= r <= PI
    ensures -PI <= angle <= PI ==> r == angle
    ensures angle > PI ==> r > -PI
    ensures angle < -PI ==> r < PI
    decreases if angle > PI then angle.Floor else if angle < -PI then (-angle).Floor else 0
  {
    if angle > PI then Normalized(angle - TURN) else if angle < -PI then Normalized(angle + TURN) else angle
  }

  lemma {:induction false} NormalizedKeepsDirection(angle: real)
    ensures SameDirection(angle, Normalized(angle))
    decreases if angle > PI then angle.Floor else if angle < -PI then (-angle).Floor else 0
  {
    if -PI <= angle <= PI {
      assert TurnedBy(angle, angle, 0);
    } else {
      var sign := if angle > PI then -1 else 1;
      var next := angle + sign as real * TURN;
      NormalizedKeepsDirection(next);
      var k: int :| TurnedBy(next, Normalized(next), k);
      assert TurnedBy(angle, Normalized(angle), k + sign);
    }
  }

  /** `normalizeAngleRad`. */
  method NormalizeAngle(angle: real) returns (r: real)
    ensures r == Normalized(angle)
  {
    r := angle;
    while r > PI
      invariant Normalized(r) == Normalized(angle)
      decreases r + PI
    {
      r := r - TURN;
    }
    while r < -PI
      invariant Normalized(r) == Normalized(angle) && r <= PI
      decreases PI - r
    {
      r := r + TURN;
    }
  }

  /** Cosine and sine, about which nothing is assumed. */
  datatype Trig = Trig(cos: real -> real, sin: real -> real)

  datatype Pose = Pose(x: real, y: real, theta: real, linear: real, angular: real)

  function After(from: real, rate: real, dt: real): real { from + rate * dt }

  /** One step at wheel speeds m1 and m2: the body speeds are those reported, the position moves along the heading at
      the middle of the step, and the heading turns. */
  function Moved(trig: Trig, was: Pose, m1: real, m2: real, dt: real): Pose {
    var (linear, angular) := ReportedSpeeds(m1, m2);
    var middle := After(was.theta, 0.5 * angular, dt);
    Pose(After(was.x, linear * trig.cos(middle), dt), After(was.y, linear * trig.sin(middle), dt),
         Normalized(After(was.theta, angular, dt)), linear, angular)
  }

  /** Equal wheel speeds do not turn the robot, opposite ones do not move it. */
  lemma StraightAndSpin(trig: Trig, was: Pose, m: real, dt: real)
    requires -PI <= was.theta <= PI
    ensures Moved(trig, was, m, m, dt).theta == was.theta
    ensures var now := Moved(trig, was, m, -m, dt); now.x == was.x && now.y == was.y
    ensures var now := Moved(trig, was, m, -m, dt); SameDirection(After(was.theta, now.angular, dt), now.theta)
  {
    NormalizedKeepsDirection(After(was.theta, Moved(trig, was, m, -m, dt).angular, dt));
  }

  /** With true cosine and sine at the heading, the wheels' mean speed is the way made along it and none across it:
      resolved along and across the heading in the middle of the step, which is half way between old and new. */
  lemma MovesAlongHeading(trig: Trig, was: Pose, m1: real, m2: real, dt: real, middle: real)
    requires middle == was.theta + 0.5 * (MpsOf(m1) - MpsOf(m2)) / 0.282 * dt
    requires trig.cos(middle) * trig.cos(middle) + trig.sin(middle) * trig.sin(middle) == 1.0
    ensures var now, c, s := Moved(trig, was, m1, m2, dt), trig.cos(middle), trig.sin(middle);
            && (now.x - was.x) * c + (now.y - was.y) * s == 0.5 * (MpsOf(m1) + MpsOf(m2)) * dt
            && (now.y - was.y) * c - (now.x - was.x) * s == 0.0
            && SameDirection(was.theta + 2.0 * (middle - was.theta), now.theta)
  {
    var (linear, angular) := ReportedSpeeds(m1, m2);
    assert middle == After(was.theta, 0.5 * angular, dt);
    var c, s, way := trig.cos(middle), trig.sin(middle), linear * dt;
    Resolved(way, c, s);
    var now := Moved(trig, was, m1, m2, dt);
    assert now.x - was.x == way * c && now.y - was.y == way * s;
    NormalizedKeepsDirection(After(was.theta, angular, dt));
  }

  lemma Resolved(way: real, c: real, s: real)
    requires c * c + s * s == 1.0
    ensures (way * c) * c + (way * s) * s == way && (way * s) * c - (way * c) * s == 0.0
  {
    assert (way * c) * c + (way * s) * s == way * (c * c + s * s);
  }

  class Odometer {
    const trig: Trig
    var x: real
    var y: real
    var theta: real
    var linear: real
    var angular: real

    constructor (trig: Trig)
      ensures State() == Pose(0.0, 0.0, 0.0, 0.0, 0.0) && this.trig == trig
    {
      this.trig := trig;
      x, y, theta, linear, angular := 0.0, 0.0, 0.0, 0.0, 0.0;
    }

    ghost function State(): Pose
      reads this
    {
      Pose(x, y, theta, linear, angular)
    }

    method Advance(m1Rpm: real, m2Rpm: real, dt: real)
      modifies this
      ensures State() == Moved(trig, old(State()), m1Rpm, m2Rpm, dt)
    {
      var left, right := MpsOf(m1Rpm), MpsOf(m2Rpm);
      linear := 0.5 * (right + left);
      angular := (left - right) / WHEEL_BASE_M;
      var middle := After(theta, 0.5 * angular, dt);
      x := After(x, linear * trig.cos(middle), dt);
      y := After(y, linear * trig.sin(middle), dt);
      theta := NormalizeAngle(After(theta, angular, dt));
    }
  }
}
