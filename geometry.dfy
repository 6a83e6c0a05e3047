/**
 * Coordinates, axes and the rounding used by grid snapping.
 * Coordinates are exact reals: float behaviour is not modelled.
 */
module Geometry {

  /** The three coordinate axes, in the order X, Y, Z (indices 0, 1, 2). */
  datatype Axis = X | Y | Z

  /** Position of the axis in the order X, Y, Z. */
  function Rank(a: Axis): (n: nat)
    ensures n < 3
  {
    match a
    case X => 0
    case Y => 1
    case Z => 2
  }

  datatype Vec3 = Vec3(x: real, y: real, z: real)

  /** `co[axis]` */
  function Get(v: Vec3, a: Axis): real
  {
    match a
    case X => v.x
    case Y => v.y
    case Z => v.z
  }

  /** `co[axis] = r`: the vector with one coordinate replaced. */
  function With(v: Vec3, a: Axis, r: real): (w: Vec3)
    ensures Get(w, a) == r
    ensures forall b :: b != a ==> Get(w, b) == Get(v, b)
  {
    match a
    case X => v.(x := r)
    case Y => v.(y := r)
    case Z => v.(z := r)
  }

  /** Writing a coordinate's own value back changes nothing. */
  lemma WithOwnValue(v: Vec3, a: Axis)
    ensures With(v, a, Get(v, a)) == v
  {
  }

  function Add(u: Vec3, v: Vec3): Vec3
  {
    Vec3(u.x + v.x, u.y + v.y, u.z + v.z)
  }

  function Scale(v: Vec3, k: real): Vec3
  {
    Vec3(v.x * k, v.y * k, v.z * k)
  }

  function Abs(r: real): (a: real)
    ensures a >= 0.0 && (a == r || a == -r)
  {
    if r < 0.0 then -r else r
  }

  /** Linear interpolation `u.lerp(v, t)`: u*(1-t) + v*t, componentwise. */
  function Lerp(u: Vec3, v: Vec3, t: real): Vec3
  {
    Add(Scale(u, 1.0 - t), Scale(v, t))
  }

  /** Sum of a sequence of points, accumulated from the first to the last. */
  function Sum(ps: seq<Vec3>): Vec3
  {
    if ps == [] then Vec3(0.0, 0.0, 0.0) else Add(Sum(ps[..|ps| - 1]), ps[|ps| - 1])
  }

  /** The "median centre" of a polygon: the arithmetic mean of its vertex positions. */
  function MedianCenter(ps: seq<Vec3>): Vec3
    requires |ps| > 0
  {
    Scale(Sum(ps), 1.0 / |ps| as real)
  }

  /** Sum of the points' coordinates on one axis. */
  function SumOn(ps: seq<Vec3>, a: Axis): real
  {
    if ps == [] then 0.0 else SumOn(ps[..|ps| - 1], a) + Get(ps[|ps| - 1], a)
  }

  /** Halfway interpolation is the midpoint on every axis. */
  lemma LerpHalf(u: Vec3, v: Vec3, a: Axis)
    ensures Get(Lerp(u, v, 0.5), a) == (Get(u, a) + Get(v, a)) / 2.0
  {
  }

  /** A coordinate of the vector sum is the sum of that coordinate. */
  lemma {:induction false} GetSum(ps: seq<Vec3>, a: Axis)
    ensures Get(Sum(ps), a) == SumOn(ps, a)
  {
    if ps != [] {
      GetSum(ps[..|ps| - 1], a);
    }
  }

  /** The median centre's coordinate on an axis is the mean of the points' coordinates on it. */
  lemma MedianCenterIsMean(ps: seq<Vec3>, a: Axis)
    requires |ps| > 0
    ensures Get(MedianCenter(ps), a) == SumOn(ps, a) / |ps| as real
  {
    GetSum(ps, a);
  }

  /** On an axis where every point has coordinate t, the sum is |ps| * t. */
  lemma {:induction false} SumOnConstant(ps: seq<Vec3>, a: Axis, t: real)
    requires forall i :: 0 <= i < |ps| ==> Get(ps[i], a) == t
    ensures SumOn(ps, a) == |ps| as real * t
  {
    if ps != [] {
      SumOnConstant(ps[..|ps| - 1], a, t);
    }
  }

  /** The coordinate sum on an axis depends only on the points' coordinates on that axis. */
  lemma {:induction false} SumOnDependsOnAxisOnly(ps: seq<Vec3>, qs: seq<Vec3>, a: Axis)
    requires |ps| == |qs|
    requires forall i :: 0 <= i < |ps| ==> Get(ps[i], a) == Get(qs[i], a)
    ensures SumOn(ps, a) == SumOn(qs, a)
  {
    if ps != [] {
      SumOnDependsOnAxisOnly(ps[..|ps| - 1], qs[..|qs| - 1], a);
    }
  }

  /** If all points agree on an axis, so does their median centre. */
  lemma MedianCenterOnConstantAxis(ps: seq<Vec3>, a: Axis, t: real)
    requires |ps| > 0
    requires forall i :: 0 <= i < |ps| ==> Get(ps[i], a) == t
    ensures Get(MedianCenter(ps), a) == t
  {
    MedianCenterIsMean(ps, a);
    SumOnConstant(ps, a, t);
  }

  /** The median centre's coordinate on an axis depends only on the points' coordinates on that axis. */
  lemma MedianCenterDependsOnAxisOnly(ps: seq<Vec3>, qs: seq<Vec3>, a: Axis)
    requires |ps| == |qs| > 0
    requires forall i :: 0 <= i < |ps| ==> Get(ps[i], a) == Get(qs[i], a)
    ensures Get(MedianCenter(ps), a) == Get(MedianCenter(qs), a)
  {
    MedianCenterIsMean(ps, a);
    MedianCenterIsMean(qs, a);
    SumOnDependsOnAxisOnly(ps, qs, a);
  }

  /**
   * Python 3's `round` on a number: the nearest integer, ties to the even one.
   */
  function Round(r: real): (n: int)
    ensures -0.5 <= r - n as real <= 0.5
    ensures (r - n as real == 0.5 || n as real - r == 0.5) ==> n % 2 == 0
  {
    var f := r.Floor;
    var d := r - f as real;
    if d < 0.5 then f
    else if d > 0.5 then f + 1
    else if f % 2 == 0 then f
    else f + 1
  }

  /** Round's two properties determine it: any integer within 1/2, and even on a tie, is Round(r). */
  lemma RoundUnique(r: real, n: int)
    requires -0.5 <= r - n as real <= 0.5
    requires (r - n as real == 0.5 || n as real - r == 0.5) ==> n % 2 == 0
    ensures Round(r) == n
  {
    var k := Round(r);
    assert -1.0 <= k as real - n as real <= 1.0;
  }

  /** Rounding an integer gives it back. */
  lemma RoundInteger(n: int)
    ensures Round(n as real) == n
  {
    RoundUnique(n as real, n);
  }
}
