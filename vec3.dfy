/** Three-component vectors over the reals: points, directions and RGB colours alike.
    `f64` arithmetic is idealised as exact `real` arithmetic; the square root, a
    library call, is a parameter `sqrt` that callers constrain with `IsSqrt`. */
module Vectors {

  datatype Vec3 = Vec3(x: real, y: real, z: real)

  /** The zero vector, the one vector that `unit` may not be applied to. */
  const Zero := Vec3(0.0, 0.0, 0.0)

  /** `sqrt` behaves as the square root on the non-negative reals. */
  ghost predicate IsSqrt(sqrt: real -> real)
  {
    forall x :: 0.0 <= x ==> 0.0 <= sqrt(x) && sqrt(x) * sqrt(x) == x
  }

  /** A non-negative number whose square is `x` is the square root of `x`. */
  lemma SqrtOfSquare(sqrt: real -> real, x: real, y: real)
    requires IsSqrt(sqrt)
    requires 0.0 <= y && x == y * y
    ensures sqrt(x) == y
  {
    var s := sqrt(x);
    assert 0.0 <= s && s * s == y * y;
    assert (s - y) * (s + y) == 0.0;
    if s + y == 0.0 {
      assert s == 0.0 && y == 0.0;
    } else {
      assert s - y == 0.0;
    }
  }

  function Neg(v: Vec3): (r: Vec3)
    ensures Add(v, r) == Zero
  {
    Vec3(-v.x, -v.y, -v.z)
  }

  function Add(a: Vec3, b: Vec3): Vec3
  {
    Vec3(a.x + b.x, a.y + b.y, a.z + b.z)
  }

  function Sub(a: Vec3, b: Vec3): (r: Vec3)
    ensures Add(r, b) == a
  {
    Vec3(a.x - b.x, a.y - b.y, a.z - b.z)
  }

  /** Component-wise product (`Mul for Vec3`). */
  function Mul(a: Vec3, b: Vec3): Vec3
  {
    Vec3(a.x * b.x, a.y * b.y, a.z * b.z)
  }

  /** `v * f` (`Mul<f64> for Vec3`). */
  function Scale(v: Vec3, f: real): Vec3
  {
    Vec3(v.x * f, v.y * f, v.z * f)
  }

  /** `f * v` (`Mul<Vec3> for f64`), which the source computes as `v * f`. */
  function ScaleLeft(f: real, v: Vec3): Vec3
  {
    Scale(v, f)
  }

  /** `v / s` (`Div<f64> for Vec3`), computed as `(1 / s) * v`; dividing by zero
      (an IEEE infinity or NaN) is outside the model. */
  function Div(v: Vec3, s: real): (r: Vec3)
    requires s != 0.0
    ensures Scale(r, s) == v
  {
    ScaleLeft(1.0 / s, v)
  }

  function Dot(a: Vec3, b: Vec3): real
  {
    a.x * b.x + a.y * b.y + a.z * b.z
  }

  /** `c * c`, the building block of squared lengths: never negative, and zero only
      for zero. */
  function Square(c: real): (r: real)
    ensures 0.0 <= r
    ensures r == 0.0 <==> c == 0.0
  {
    SameSignProduct(c, c);
    c * c
  }

  /** The product `a * b` named as one term, so that the sign lemma below is stated
      about a single value. */
  function Product(a: real, b: real): real
  {
    a * b
  }

  /** The product of two numbers of the same strict sign is positive. */
  lemma SameSignProduct(a: real, b: real)
    ensures (0.0 < a && 0.0 < b) || (a < 0.0 && b < 0.0) ==> 0.0 < Product(a, b)
  {
  }

  function LengthSquared(v: Vec3): (r: real)
    ensures r == Dot(v, v)
    ensures 0.0 <= r
    ensures r == 0.0 <==> v == Zero
  {
    Square(v.x) + Square(v.y) + Square(v.z)
  }

  function Length(v: Vec3, sqrt: real -> real): (r: real)
    requires IsSqrt(sqrt)
    ensures 0.0 <= r && Square(r) == LengthSquared(v)
    ensures r == 0.0 <==> v == Zero
  {
    var squared := LengthSquared(v);
    assert 0.0 <= sqrt(squared) && sqrt(squared) * sqrt(squared) == squared;
    sqrt(squared)
  }

  function Cross(a: Vec3, b: Vec3): Vec3
  {
    Vec3(a.y * b.z - a.z * b.y,
         a.z * b.x - a.x * b.z,
         a.x * b.y - a.y * b.x)
  }

  /** The unit vector in the direction of `v`; undefined for the zero vector. */
  function Unit(v: Vec3, sqrt: real -> real): (r: Vec3)
    requires IsSqrt(sqrt)
    requires v != Zero
    ensures LengthSquared(r) == 1.0
    ensures Scale(r, Length(v, sqrt)) == v
  {
    var len := Length(v, sqrt);
    LengthSquaredScaled(v, 1.0 / len);
    assert (1.0 / len) * (1.0 / len) * (len * len) == 1.0;
    Div(v, len)
  }

  /** Scaling by `k` scales the squared length by `k * k`. */
  lemma LengthSquaredScaled(v: Vec3, k: real)
    ensures LengthSquared(Scale(v, k)) == k * k * LengthSquared(v)
  {
    assert (v.x * k) * (v.x * k) == k * k * (v.x * v.x);
    assert (v.y * k) * (v.y * k) == k * k * (v.y * v.y);
    assert (v.z * k) * (v.z * k) == k * k * (v.z * v.z);
  }

  /** Expanding `|u + t d|^2` by the parameter `t`. */
  lemma LengthSquaredAlong(u: Vec3, d: Vec3, t: real)
    ensures LengthSquared(Add(u, Scale(d, t))) == Dot(u, u) + 2.0 * t * Dot(u, d) + t * t * Dot(d, d)
  {
    assert Square(u.x + d.x * t) == u.x * u.x + 2.0 * t * (u.x * d.x) + t * t * (d.x * d.x);
    assert Square(u.y + d.y * t) == u.y * u.y + 2.0 * t * (u.y * d.y) + t * t * (d.y * d.y);
    assert Square(u.z + d.z * t) == u.z * u.z + 2.0 * t * (u.z * d.z) + t * t * (d.z * d.z);
  }

  lemma NegInvolutive(v: Vec3)
    ensures Neg(Neg(v)) == v
  {
  }

  /** Addition, the component-wise product and the scalar product commute. */
  lemma Commutative(a: Vec3, b: Vec3, f: real)
    ensures Add(a, b) == Add(b, a)
    ensures Mul(a, b) == Mul(b, a)
    ensures ScaleLeft(f, a) == Scale(a, f) == Vec3(f * a.x, f * a.y, f * a.z)
  {
  }

  lemma NegPreservesLength(v: Vec3)
    ensures LengthSquared(Neg(v)) == LengthSquared(v)
  {
  }

  lemma SubIsAddNeg(a: Vec3, b: Vec3)
    ensures Sub(a, b) == Add(a, Neg(b))
  {
  }

  lemma DotProperties(a: Vec3, b: Vec3)
    ensures Dot(a, b) == Dot(b, a)
    ensures Dot(a, Neg(b)) == -Dot(a, b)
  {
  }

  /** The cross product is orthogonal to both factors and anticommutes. */
  lemma CrossProperties(a: Vec3, b: Vec3)
    ensures Dot(Cross(a, b), a) == 0.0
    ensures Dot(Cross(a, b), b) == 0.0
    ensures Cross(b, a) == Neg(Cross(a, b))
  {
  }

  /** Each component of a unit vector lies in [-1, 1]. */
  lemma UnitComponentsBounded(v: Vec3, sqrt: real -> real)
    requires IsSqrt(sqrt)
    requires v != Zero
    ensures -1.0 <= Unit(v, sqrt).x <= 1.0
    ensures -1.0 <= Unit(v, sqrt).y <= 1.0
    ensures -1.0 <= Unit(v, sqrt).z <= 1.0
  {
    var u := Unit(v, sqrt);
    SquareAtMostOne(u.x, u.y * u.y + u.z * u.z);
    SquareAtMostOne(u.y, u.x * u.x + u.z * u.z);
    SquareAtMostOne(u.z, u.x * u.x + u.y * u.y);
  }

  /** The unit vector has length exactly 1. */
  lemma UnitHasLengthOne(v: Vec3, sqrt: real -> real)
    requires IsSqrt(sqrt)
    requires v != Zero
    ensures Length(Unit(v, sqrt), sqrt) == 1.0
  {
    SqrtOfSquare(sqrt, 1.0, 1.0);
  }

  lemma SquareAtMostOne(c: real, rest: real)
    requires 0.0 <= rest && c * c + rest == 1.0
    ensures -1.0 <= c <= 1.0
  {
  }

  /** A place holding a `Vec3` that the compound-assignment operators overwrite
      (`*self = *self + rhs` and its siblings). */
  class Vec3Cell {
    var value: Vec3

    constructor (v: Vec3)
      ensures value == v
    {
      value := v;
    }

    method AddAssign(rhs: Vec3)
      modifies this
      ensures value == Add(old(value), rhs)
    {
      value := Add(value, rhs);
    }

    method SubAssign(rhs: Vec3)
      modifies this
      ensures value == Sub(old(value), rhs)
      ensures Add(value, rhs) == old(value)
    {
      value := Sub(value, rhs);
    }

    method MulAssign(rhs: real)
      modifies this
      ensures value == Scale(old(value), rhs)
    {
      value := Scale(value, rhs);
    }

    method DivAssign(rhs: real)
      requires rhs != 0.0
      modifies this
      ensures value == Div(old(value), rhs)
      ensures Scale(value, rhs) == old(value)
    {
      value := Div(value, rhs);
    }
  }
}
