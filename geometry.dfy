/**
 * Points in the scene and linear interpolation between them.
 * Coordinates are mathematical reals; the floating-point rounding of the
 * JavaScript numbers behind them is not modelled.
 */
module Geometry {

  /** A point or offset in the scene: an `[x, y, z]` triple, or a `THREE.Vector3`. */
  datatype Vec3 = Vec3(x: real, y: real, z: real)

  function Min(a: real, b: real): (m: real) { if a <= b then a else b }

  function Max(a: real, b: real): (m: real) { if a <= b then b else a }

  /** `THREE.MathUtils.lerp(a, b, t)`: the point a fraction `t` of the way from `a` to `b`. */
  function Lerp(a: real, b: real, t: real): (r: real)
    ensures t == 0.0 ==> r == a
    ensures t == 1.0 ==> r == b
  {
    a + (b - a) * t
  }

  /** Coordinate-wise interpolation, as `Vector3.lerp(target, t)` does it. */
  function LerpVec(a: Vec3, b: Vec3, t: real): (r: Vec3)
    ensures t == 0.0 ==> r == a
    ensures t == 1.0 ==> r == b
  {
    Vec3(Lerp(a.x, b.x, t), Lerp(a.y, b.y, t), Lerp(a.z, b.z, t))
  }

  /** For a fraction in [0, 1] the interpolated value lies between the two ends. */
  lemma LerpBetween(a: real, b: real, t: real)
    requires 0.0 <= t <= 1.0
    ensures Min(a, b) <= Lerp(a, b, t) <= Max(a, b)
  {
    var d := if a <= b then b - a else a - b;
    MulNonNegative(d, t);
    MulNonNegative(d, 1.0 - t);
  }

  lemma MulNonNegative(u: real, v: real)
    requires u >= 0.0 && v >= 0.0
    ensures u * v >= 0.0
  {
  }

  /**
   * After moving a fraction `t` towards `b`, the remaining offset to `b`
   * is the original offset scaled by `1 - t`.
   */
  lemma LerpVecRemaining(a: Vec3, b: Vec3, t: real)
    ensures var p := LerpVec(a, b, t);
      b.x - p.x == (1.0 - t) * (b.x - a.x) &&
      b.y - p.y == (1.0 - t) * (b.y - a.y) &&
      b.z - p.z == (1.0 - t) * (b.z - a.z)
  {
  }
}
