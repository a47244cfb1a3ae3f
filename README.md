# Ray/geometry intersection of weekend-raytracing, in Dafny

This project models the intersection layer of the *weekend-raytracing* renderer and
the vector and ray algebra under it. It covers:

- the three-component vector `Vec3` with its operators and their compound-assignment
  forms, the dot and cross products, lengths and the unit vector (`vec3.dfy`,
  module `Vectors`);
- the ray `origin + t * direction`, its evaluation `at`, the test `hit_sphere` and
  `color`, which draws the fixed test sphere (centre (0, 0, -1), radius 0.5) in red
  (`ray.dfy`, module `Rays`);
- hit records and their front-face orientation, the `(Bound, Bound)` parameter range
  with the `RangeBounds::contains` semantics, the sphere intersection, and the
  closest-hit search over a list of hittables (`hittable.dfy`, module `Hittables`).

`f64` arithmetic is modelled as exact `real` arithmetic. The square root is a
library call, so it is a function parameter `sqrt`. Callers constrain it with
`Vectors.IsSqrt`: on the non-negative reals it is non-negative and squares back to its
argument. The material a hit carries is a type parameter `M`.

`Vec3::new`, `Ray::new`, `HitRecord::new` and `Sphere::new` only store their
arguments, so they are the datatype constructors `Vec3`, `Ray`, `HitRecord` and
`Sphere`. The compound-assignment operators overwrite a `Vec3` in place, so they are
the methods of a class `Vectors.Vec3Cell` that holds one `Vec3`.

`hit_list` is imperative. A loop visits the children, narrows the end bound to
`Excluded(record.t)` after each hit, and remembers the latest record. It appears
twice in the model:

- `Hittables.HitListLoop` is that loop.
- `Hittables.Scan` and `Hittables.HitList` are the same fold written as functions.
  The mutually recursive `Hittables.Hit` needs them, because a function cannot call a
  method.

The loop is proved equal to the function. The function is proved to return the
nearest hit, and on a tie the first child to report it.

The code resolves equal-parameter ties deterministically: the earlier child wins,
because a later hit must be strictly below the excluded bound. The model follows the
code here, though one could read this tie-break as unspecified.

## Model

| member | source | states |
|---|---|---|
| Vectors.SqrtOfSquare | src/vec3.rs:106-108 | the square-root parameter returns the one non-negative number whose square is its argument |
| Vectors.Neg | src/vec3.rs:8-17 | `v + (-v)` is the zero vector |
| Vectors.Sub | src/vec3.rs:36-45 | subtraction undoes addition: `(a - b) + b == a` |
| Vectors.Div | src/vec3.rs:88-93 | for a non-zero divisor, `(v / s) * s == v` |
| Vectors.LengthSquared | src/vec3.rs:110-116 | `length_squared(v) == dot(v, v)`, it is non-negative, and it is zero exactly for the zero vector |
| Vectors.Length | src/vec3.rs:106-108 | the length is non-negative, its square is `length_squared`, and it is zero exactly for the zero vector |
| Vectors.Unit | src/vec3.rs:126-128 | for a non-zero `v`, `unit(v)` has squared length 1 and `unit(v) * length(v) == v` |
| Vectors.UnitHasLengthOne | src/vec3.rs:126-128 | the length of `unit(v)` is exactly 1 for non-zero `v` |
| Vectors.UnitComponentsBounded | src/vec3.rs:126-128 | every component of a unit vector lies in [-1, 1] |
| Vectors.LengthSquaredScaled | src/vec3.rs:64-73 | scaling by `k` multiplies the squared length by `k * k` |
| Vectors.LengthSquaredAlong | src/vec3.rs:110-116 | the squared length of `u + t d` is `dot(u, u) + 2 t dot(u, d) + t^2 dot(d, d)` |
| Vectors.NegInvolutive | src/vec3.rs:8-17 | negation is an involution: `-(-v) == v` |
| Vectors.NegPreservesLength | src/vec3.rs:8-17 | negation keeps the squared length |
| Vectors.Commutative | src/vec3.rs:19-80 | addition, the component-wise product and the scalar product commute, and `f * v == v * f` |
| Vectors.SubIsAddNeg | src/vec3.rs:8-45 | `a - b == a + (-b)` |
| Vectors.DotProperties | src/vec3.rs:114-116 | `dot` is symmetric and `dot(a, -b) == -dot(a, b)` |
| Vectors.CrossProperties | src/vec3.rs:118-124 | `cross(a, b)` is orthogonal to `a` and to `b`, and `cross(b, a) == -cross(a, b)` |
| Vectors.Vec3Cell.AddAssign | src/vec3.rs:30-34 | the held vector becomes `old + rhs` |
| Vectors.Vec3Cell.SubAssign | src/vec3.rs:47-51 | the held vector becomes `old - rhs`; adding `rhs` back restores the old value |
| Vectors.Vec3Cell.MulAssign | src/vec3.rs:82-86 | the held vector becomes `old * rhs` |
| Vectors.Vec3Cell.DivAssign | src/vec3.rs:95-99 | the held vector becomes `old / rhs`; multiplying by `rhs` restores the old value |
| Rays.At | src/ray.rs:14-16 | `at(t) - origin == t * direction`, so `at(0) == origin` |
| Rays.AtAffine | src/ray.rs:14-16 | `at(s + t) == at(s) + t * direction` |
| Rays.Color | src/ray.rs:18-25 | a ray that hits the sphere of radius 0.5 at (0, 0, -1) is red `(1, 0, 0)`; otherwise blue is exactly 1, red lies in [0.5, 1] and green in [0.7, 1] |
| Hittables.HitSphereAgrees | src/ray.rs:27-34 | `hit_sphere`'s discriminant `b*b - 4ac` with `b = 2 half_b` is four times the sphere hit's `half_b^2 - ac`, and `hit_sphere` holds exactly when the latter is positive |
| Hittables.TangentRayMisses | src/ray.rs:27-34 | for every tangent ray (discriminant 0) whose touching parameter `-half_b / a` is in range, `hit_sphere` reports a miss but `Sphere::hit` returns the hit at that parameter |
| Hittables.TangentRay | src/ray.rs:27-34 | for the one ray from (0.5, 0, 0) with direction (0, 0, -1), tangent to the sphere of radius 0.5 at (0, 0, -1), over the range `(Included(0), Unbounded)`: `hit_sphere` reports a miss but `Sphere::hit` returns the touching point (0.5, 0, -1) at `t = 1` |
| Hittables.FromOutwardNormalAndRay | src/hittable.rs:15-38 | `front_face` holds exactly when `dot(direction, outward) < 0`; the normal is the outward normal or its negation accordingly, so `dot(direction, normal) <= 0`; its squared length is kept; `point == at(t)`; `t` and the material are copied |
| Hittables.ExcludedBelow | src/hittable.rs:106-111 | the new end bound `Excluded(record.t)` admits only parameters the old end bound admits |
| Hittables.SphereRecord | src/hittable.rs:97-101 | the record at `t` has `point == at(t)`, the sphere's material and a normal facing the ray |
| Hittables.SphereHit | src/hittable.rs:74-102 | a negative discriminant gives no hit; a hit lies in the range; it is the near root whenever that root is in range, otherwise the far root; no hit means neither root is in range |
| Hittables.QuadraticRoots | src/hittable.rs:80-96 | the quadratic's roots are exactly `(-half_b - sqrtd) / a` and `(-half_b + sqrtd) / a` |
| Hittables.NoRealRoot | src/hittable.rs:80-83 | a negative discriminant leaves the quadratic without real roots |
| Hittables.RootsOrdered | src/hittable.rs:86-96 | for `a > 0` the near root is at most the far root |
| Hittables.NearNotAfterFar | src/hittable.rs:85-96 | whenever the roots exist, the near root tried first is at most the far root |
| Hittables.SurfaceEquation | src/hittable.rs:75-78 | `at(t)` lies on the sphere exactly when `t` solves `a t^2 + 2 half_b t + c == 0` |
| Hittables.SurfaceAtRoots | src/hittable.rs:80-96 | with real roots, the ray meets the surface exactly at the near and the far root |
| Hittables.NoSurfacePoint | src/hittable.rs:80-83 | with a negative discriminant the ray meets the surface nowhere |
| Hittables.SphereHitNearest | src/hittable.rs:74-102 | for a non-zero direction the sphere hit is the least parameter in range at which the ray meets the surface; no hit means the ray meets the surface nowhere in range |
| Hittables.SphereHitSurface | src/hittable.rs:97-101 | a reported point lies on the sphere and its normal has squared length 1 and faces the ray |
| Hittables.SphereNarrowed | src/hittable.rs:86-96 | searching a sphere with a tighter end bound gives the same hit, kept only when the tighter bound admits it |
| Hittables.Hit | src/hittable.rs:50-55 | a reported hit lies in the requested range |
| Hittables.HitNarrowed | src/hittable.rs:50-55 | searching any hittable with a tighter end bound gives the same hit, kept only when the tighter bound admits it |
| Hittables.Scan | src/hittable.rs:105-113 | after any prefix of children, no record means the end bound is the original one; otherwise the bound is `Excluded(record.t)` and `record.t` lies in the range |
| Hittables.HitList | src/hittable.rs:105-115 | the record returned lies in the range |
| Hittables.HitListLoop | src/hittable.rs:105-115 | the loop returns exactly the fold `HitList`, and its record lies in the range |
| Hittables.ScanNarrowed | src/hittable.rs:105-113 | a scan over a tighter end bound gives the record of the looser scan, kept only when the tighter bound admits it |
| Hittables.ScanNearest | src/hittable.rs:105-113 | after a prefix of children, the record is absent exactly when every child of the prefix misses; otherwise it is the hit of a child `k`, no farther than any child's hit and strictly nearer than the hit of any earlier child |
| Hittables.HitListNearest | src/hittable.rs:105-115 | `hit_list` returns none exactly when every child misses on the original range (so an empty list returns none); otherwise it returns child `k`'s own hit, which is no farther than any child's hit and strictly nearer than that of any earlier child |

## Left out

- src/lib.rs is not part of this model. It holds per-pixel random sampling, the gamma correction, the float-to-integer colour conversion and the text output.
- src/camera.rs is not part of this model. It uses trigonometry and random lens jitter.
- src/material.rs is not part of this model. Scattering draws random vectors. A material appears only as the opaque value `M` that a hit record carries.
- src/main.rs is not part of this model. It only reports errors and exits.
- IEEE-754 effects are not modelled: rounding, NaN, infinities, signed zero and the accuracy of `sqrt`. All numbers are exact reals.
- The square root is a parameter. Properties that need it assume `IsSqrt`. The tangent-ray example assumes only `sqrt(0) == 0`.
- SphereHit: a ray with a zero direction (`a == 0`) returns no hit. In the source both roots are `0 / 0 = NaN`. No range with a finite bound contains NaN, but the fully unbounded range `(Unbounded, Unbounded)` does, so there the source returns a record with `t = NaN`. The model does not.
- SphereHit: the sphere's radius must be non-zero. The source divides by the radius to get the outward normal, and radius zero gives a NaN normal. `Hittables.Hit` and `hit_list` therefore require `WellFormed`: no sphere of the scene has radius zero.
- Div: the divisor must be non-zero. The same holds for `Vec3Cell.DivAssign`. Dividing by zero gives infinities or NaN in the source.
- Unit: the vector must be non-zero. In the source the unit of the zero vector is NaN.
- Color: for the same reason, the ray's direction must be non-zero.
- SphereHitNearest: for the same reason, it is stated for rays with a non-zero direction.
- The derived traits (`Debug`, `Clone`, `Copy`, `PartialEq`, `PartialOrd`) are not modelled. Structural equality of datatypes stands in for `PartialEq`.
