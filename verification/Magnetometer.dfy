/** The magnetometer's calibration: the box around the samples, and the offset in its middle. */
module Magnetometer {
  datatype Vector = Vector(x: real, y: real, z: real)

  datatype Box = Box(min: Vector, max: Vector)

  const ORIGIN := Vector(0.0, 0.0, 0.0)

  function MinOf(a: real, b: real): real { if a <= b then a else b }
  function MaxOf(a: real, b: real): real { if a <= b then b else a }

  function Low(a: Vector, b: Vector): Vector { Vector(MinOf(a.x, b.x), MinOf(a.y, b.y), MinOf(a.z, b.z)) }
  function High(a: Vector, b: Vector): Vector { Vector(MaxOf(a.x, b.x), MaxOf(a.y, b.y), MaxOf(a.z, b.z)) }

  /** The smallest box around the samples. */
  function BoxOf(samples: seq<Vector>): Box
    requires samples != []
  {
    var n := |samples| - 1;
    if n == 0 then Box(samples[0], samples[0]) else
      var rest := BoxOf(samples[..n]);
      Box(Low(rest.min, samples[n]), High(rest.max, samples[n]))
  }

  function Centre(box: Box): Vector {
    Vector(0.5 * (box.max.x + box.min.x), 0.5 * (box.max.y + box.min.y), 0.5 * (box.max.z + box.min.z))
  }

  predicate Within(v: Vector, box: Box) {
    && box.min.x <= v.x <= box.max.x && box.min.y <= v.y <= box.max.y && box.min.z <= v.z <= box.max.z
  }

  lemma {:induction false} BoxHoldsSamples(samples: seq<Vector>, k: nat)
    requires k < |samples|
    ensures Within(samples[k], BoxOf(samples))
  {
    var n := |samples| - 1;
    if k < n {
      BoxHoldsSamples(samples[..n], k);
    }
  }

  /** And no smaller box holds them all. */
  lemma {:induction false} BoxIsSmallest(samples: seq<Vector>, other: Box)
    requires samples != [] && forall k :: 0 <= k < |samples| ==> Within(samples[k], other)
    ensures var box := BoxOf(samples);
            && other.min.x <= box.min.x && other.min.y <= box.min.y && other.min.z <= box.min.z
            && box.max.x <= other.max.x && box.max.y <= other.max.y && box.max.z <= other.max.z
  {
    var n := |samples| - 1;
    assert Within(samples[n], other);
    if n == 0 {
    } else {
      BoxIsSmallest(samples[..n], other);
    }
  }

  /** Calibrated with the offset of their own box, readings lie symmetrically about zero: v is within the box exactly
      when v less the offset is no longer in any direction than half the box. */
  lemma OffsetCentres(v: Vector, box: Box)
    ensures var c := Centre(box);
            Within(v, box) <==>
              && -(box.max.x - box.min.x) <= 2.0 * (v.x - c.x) <= box.max.x - box.min.x
              && -(box.max.y - box.min.y) <= 2.0 * (v.y - c.y) <= box.max.y - box.min.y
              && -(box.max.z - box.min.z) <= 2.0 * (v.z - c.z) <= box.max.z - box.min.z
  {}

  class Calibration {
    var hasSamples: bool
    var done: bool
    var box: Box
    var offset: Vector
    var stored: Vector        // the offset in the non-volatile memory
    ghost var samples: seq<Vector>

    /** The box is that of the samples since the start. */
    ghost predicate Valid()
      reads this
    {
      (hasSamples <==> samples != []) && (hasSamples ==> box == BoxOf(samples))
    }

    constructor (stored: Vector)
      ensures Valid() && !hasSamples && !done && offset == this.stored == stored
    {
      hasSamples, done, box, offset, this.stored := false, false, Box(ORIGIN, ORIGIN), stored, stored;
      samples := [];
    }

    method Restart()
      modifies this
      ensures Valid() && samples == [] && !done && offset == old(offset) && stored == old(stored)
    {
      done, hasSamples := false, false;
      samples := [];
    }

    method Take(v: Vector)
      requires Valid()
      modifies `hasSamples, `box, `samples
      ensures Valid() && samples == old(samples) + [v]
    {
      if !hasSamples {
        box := Box(v, v);
        hasSamples := true;
      } else {
        box := Box(Low(box.min, v), High(box.max, v));
      }
      samples := samples + [v];
      assert samples[..|samples| - 1] == old(samples);
    }

    /** Without samples nothing is learnt; with them the offset becomes the centre of their box, and is stored. */
    method Finish()
      requires Valid()
      modifies `done, `offset, `stored
      ensures Valid() && done == hasSamples
      ensures if samples == [] then offset == old(offset) && stored == old(stored)
              else offset == stored == Centre(BoxOf(samples))
    {
      if !hasSamples {
        done := false;
        return;
      }
      offset := Centre(box);
      done := true;
      stored := offset;
    }
  }
}
