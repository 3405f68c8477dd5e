/**
 * The linear rescaling used twice by the poster script: a data value in
 * [inMin, inMax] is carried proportionally onto [outMin, outMax]. There is
 * no clamping, so values outside the input range extrapolate past the
 * output range along the same line.
 */
module LinearMap {

  /** outMin + (outMax - outMin) * ((v - inMin) / (inMax - inMin)), in the script's own grouping. */
  function Rescale(v: real, inMin: real, inMax: real, outMin: real, outMax: real): real
    requires inMax != inMin
  {
    outMin + (outMax - outMin) * ((v - inMin) / (inMax - inMin))
  }

  /** The ends of the input range go to the ends of the output range. */
  lemma RescaleEndpoints(inMin: real, inMax: real, outMin: real, outMax: real)
    requires inMax != inMin
    ensures Rescale(inMin, inMin, inMax, outMin, outMax) == outMin
    ensures Rescale(inMax, inMin, inMax, outMin, outMax) == outMax
  {
    assert (inMax - inMin) / (inMax - inMin) == 1.0;
  }

  /**
   * The map is affine everywhere, inside the input range and outside it:
   * the change in output is the change in input times one fixed slope.
   */
  lemma RescaleAffine(v: real, w: real, inMin: real, inMax: real, outMin: real, outMax: real)
    requires inMax != inMin
    ensures Rescale(w, inMin, inMax, outMin, outMax) - Rescale(v, inMin, inMax, outMin, outMax)
            == (w - v) * ((outMax - outMin) / (inMax - inMin))
  {
    var d := inMax - inMin;
    var k := outMax - outMin;
    calc {
      Rescale(w, inMin, inMax, outMin, outMax) - Rescale(v, inMin, inMax, outMin, outMax);
      k * ((w - inMin) / d) - k * ((v - inMin) / d);
      { assert (w - inMin) / d - (v - inMin) / d == (w - v) / d; }
      k * ((w - v) / d);
      { assert k * ((w - v) / d) == (w - v) * (k / d); }
      (w - v) * (k / d);
    }
  }

  /** With both ranges increasing, the map is strictly increasing. */
  lemma RescaleStrictlyIncreasing(v: real, w: real, inMin: real, inMax: real, outMin: real, outMax: real)
    requires inMin < inMax && outMin < outMax
    requires v < w
    ensures Rescale(v, inMin, inMax, outMin, outMax) < Rescale(w, inMin, inMax, outMin, outMax)
  {
    RescaleAffine(v, w, inMin, inMax, outMin, outMax);
    var slope := (outMax - outMin) / (inMax - inMin);
    assert slope > 0.0;
    assert (w - v) * slope > 0.0;
  }

  /**
   * With both ranges increasing, the input range lands inside the output
   * range, and values below or above it land strictly below or above it:
   * nothing is clamped.
   */
  lemma RescaleUnclamped(v: real, inMin: real, inMax: real, outMin: real, outMax: real)
    requires inMin < inMax && outMin < outMax
    ensures inMin <= v <= inMax ==> outMin <= Rescale(v, inMin, inMax, outMin, outMax) <= outMax
    ensures v < inMin ==> Rescale(v, inMin, inMax, outMin, outMax) < outMin
    ensures v > inMax ==> Rescale(v, inMin, inMax, outMin, outMax) > outMax
  {
    RescaleEndpoints(inMin, inMax, outMin, outMax);
    if v < inMin {
      RescaleStrictlyIncreasing(v, inMin, inMin, inMax, outMin, outMax);
    } else if v > inMax {
      RescaleStrictlyIncreasing(inMax, v, inMin, inMax, outMin, outMax);
    } else {
      if inMin < v { RescaleStrictlyIncreasing(inMin, v, inMin, inMax, outMin, outMax); }
      if v < inMax { RescaleStrictlyIncreasing(v, inMax, inMin, inMax, outMin, outMax); }
    }
  }
}
