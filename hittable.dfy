/** Ray/object intersection: hit records, the `(Bound, Bound)` parameter range, spheres
    and lists of hittables searched for the nearest hit. */
module Hittables {
  import opened Vectors
  import opened Rays

  datatype Option<T> = None | Some(value: T)

  /** `std::ops::Bound<f64>`. */
  datatype Bound = Included(at: real) | Excluded(at: real) | Unbounded

  /** `RangeF64`: a start bound and an end bound on the ray parameter. */
  type RangeF64 = (Bound, Bound)

  /** `RangeBounds::contains`, start side: an included bound admits equality,
      an excluded one is strict, an unbounded one admits everything. */
  predicate StartAllows(start: Bound, t: real)
  {
    match start
    case Included(s) => s <= t
    case Excluded(s) => s < t
    case Unbounded => true
  }

  /** `RangeBounds::contains`, end side. */
  predicate EndAllows(end: Bound, t: real)
  {
    match end
    case Included(e) => t <= e
    case Excluded(e) => t < e
    case Unbounded => true
  }

  predicate Contains(range: RangeF64, t: real)
  {
    StartAllows(range.0, t) && EndAllows(range.1, t)
  }

  /** An end bound admits every number below a number it admits. */
  lemma EndAllowsDownward(end: Bound, s: real, t: real)
    requires s <= t
    ensures EndAllows(end, t) ==> EndAllows(end, s)
  {
  }

  /** Every parameter that `tight` admits, `loose` admits too. */
  ghost predicate Below(tight: Bound, loose: Bound)
  {
    forall t :: EndAllows(tight, t) ==> EndAllows(loose, t)
  }

  /** An excluded bound at a parameter the end bound admits is tighter than it. */
  lemma ExcludedBelow(t0: real, end: Bound)
    requires EndAllows(end, t0)
    ensures Below(Excluded(t0), end)
  {
    forall t | EndAllows(Excluded(t0), t)
      ensures EndAllows(end, t)
    {
      EndAllowsDownward(end, t, t0);
    }
  }

  /** What a successful intersection reports. The material is opaque here. */
  datatype HitRecord<M> = HitRecord(point: Vec3, normal: Vec3, t: real, frontFace: bool, material: M)

  /** Orients the normal against the incoming ray and records whether the ray
      struck the outside of the surface. */
  function FromOutwardNormalAndRay<M>(ray: Ray, t: real, outwardNormal: Vec3, material: M): (rec: HitRecord<M>)
    ensures rec.frontFace <==> Dot(ray.direction, outwardNormal) < 0.0
    ensures rec.frontFace ==> rec.normal == outwardNormal
    ensures !rec.frontFace ==> rec.normal == Neg(outwardNormal)
    ensures Dot(ray.direction, rec.normal) <= 0.0
    ensures LengthSquared(rec.normal) == LengthSquared(outwardNormal)
    ensures rec.point == At(ray, t) && rec.t == t && rec.material == material
  {
    var frontFace := Dot(ray.direction, outwardNormal) < 0.0;
    DotProperties(ray.direction, outwardNormal);
    NegPreservesLength(outwardNormal);
    var normal := if frontFace then outwardNormal else Neg(outwardNormal);
    HitRecord(At(ray, t), normal, t, frontFace, material)
  }

  datatype Sphere<M> = Sphere(center: Vec3, radius: real, material: M)

  /** A scene: a sphere or a list of hittables. */
  datatype Hittable<M> = SphereObject(sphere: Sphere<M>) | HittableList(list: seq<Hittable<M>>)

  /** No sphere in the scene has radius zero (its outward normal would divide by zero). */
  predicate WellFormed<M>(h: Hittable<M>)
  {
    match h
    case SphereObject(s) => s.radius != 0.0
    case HittableList(list) => forall i :: 0 <= i < |list| ==> WellFormed(list[i])
  }

  // The coefficients of `A t^2 + 2 HalfB t + C == 0`, whose roots are where the ray
  // meets the sphere.

  function A(ray: Ray): real
  {
    Dot(ray.direction, ray.direction)
  }

  function HalfB<M>(sphere: Sphere<M>, ray: Ray): real
  {
    Dot(Sub(ray.origin, sphere.center), ray.direction)
  }

  function C<M>(sphere: Sphere<M>, ray: Ray): real
  {
    var oc := Sub(ray.origin, sphere.center);
    Dot(oc, oc) - sphere.radius * sphere.radius
  }

  function Discriminant<M>(sphere: Sphere<M>, ray: Ray): real
  {
    HalfB(sphere, ray) * HalfB(sphere, ray) - A(ray) * C(sphere, ray)
  }

  /** The roots are defined: a non-zero direction and a non-negative discriminant. */
  predicate HasRoots<M>(sphere: Sphere<M>, ray: Ray)
  {
    A(ray) != 0.0 && 0.0 <= Discriminant(sphere, ray)
  }

  function NearRoot<M>(sphere: Sphere<M>, ray: Ray, sqrt: real -> real): real
    requires HasRoots(sphere, ray)
  {
    (-HalfB(sphere, ray) - sqrt(Discriminant(sphere, ray))) / A(ray)
  }

  function FarRoot<M>(sphere: Sphere<M>, ray: Ray, sqrt: real -> real): real
    requires HasRoots(sphere, ray)
  {
    (-HalfB(sphere, ray) + sqrt(Discriminant(sphere, ray))) / A(ray)
  }

  /** The record for a hit at parameter `t`, with outward normal `(p - center) / radius`. */
  function SphereRecord<M>(sphere: Sphere<M>, ray: Ray, t: real): (rec: HitRecord<M>)
    requires sphere.radius != 0.0
    ensures rec.t == t && rec.point == At(ray, t) && rec.material == sphere.material
    ensures Dot(ray.direction, rec.normal) <= 0.0
  {
    var p := At(ray, t);
    FromOutwardNormalAndRay(ray, t, Div(Sub(p, sphere.center), sphere.radius), sphere.material)
  }

  /** `Sphere::hit`: rejects a negative discriminant, then tries the near root before
      the far one. A zero direction (`A == 0`) yields no hit. */
  function SphereHit<M>(sphere: Sphere<M>, ray: Ray, range: RangeF64, sqrt: real -> real): (r: Option<HitRecord<M>>)
    requires sphere.radius != 0.0
    ensures Discriminant(sphere, ray) < 0.0 ==> r == None
    ensures r.Some? ==> HasRoots(sphere, ray) && Contains(range, r.value.t)
    ensures r.Some? ==> r.value == SphereRecord(sphere, ray, r.value.t)
    ensures r.Some? ==>
              r.value.t == NearRoot(sphere, ray, sqrt) ||
              (r.value.t == FarRoot(sphere, ray, sqrt) && !Contains(range, NearRoot(sphere, ray, sqrt)))
    ensures HasRoots(sphere, ray) && Contains(range, NearRoot(sphere, ray, sqrt)) ==>
              r == Some(SphereRecord(sphere, ray, NearRoot(sphere, ray, sqrt)))
    ensures r.None? && HasRoots(sphere, ray) ==>
              !Contains(range, NearRoot(sphere, ray, sqrt)) && !Contains(range, FarRoot(sphere, ray, sqrt))
  {
    if Discriminant(sphere, ray) < 0.0 || A(ray) == 0.0 then
      None
    else
      var near := NearRoot(sphere, ray, sqrt);
      var far := FarRoot(sphere, ray, sqrt);
      if Contains(range, near) then Some(SphereRecord(sphere, ray, near))
      else if Contains(range, far) then Some(SphereRecord(sphere, ray, far))
      else None
  }

  /** `Hittable::hit`. A hit always lies in the requested range. */
  function Hit<M>(h: Hittable<M>, ray: Ray, range: RangeF64, sqrt: real -> real): (r: Option<HitRecord<M>>)
    requires WellFormed(h)
    ensures r.Some? ==> Contains(range, r.value.t)
    decreases h
  {
    match h
    case SphereObject(s) => SphereHit(s, ray, range, sqrt)
    case HittableList(list) => HitList(list, ray, range, sqrt)
  }

  /** The two variables `hit_list` updates: the shrinking end bound and the best record. */
  datatype ListState<M> = ListState(closestSoFar: Bound, hitRecord: Option<HitRecord<M>>)

  /** The state of `hit_list` after visiting the first `n` children. */
  function Scan<M>(list: seq<Hittable<M>>, ray: Ray, range: RangeF64, n: nat, sqrt: real -> real): (state: ListState<M>)
    requires n <= |list|
    requires forall i :: 0 <= i < |list| ==> WellFormed(list[i])
    ensures state.hitRecord.None? ==> state.closestSoFar == range.1
    ensures state.hitRecord.Some? ==>
              state.closestSoFar == Excluded(state.hitRecord.value.t) &&
              Contains(range, state.hitRecord.value.t)
    decreases list, n
  {
    if n == 0 then
      ListState(range.1, None)
    else
      var previous := Scan(list, ray, range, n - 1, sqrt);
      match Hit(list[n - 1], ray, (range.0, previous.closestSoFar), sqrt)
      case Some(record) =>
        ListState(Excluded(record.t), Some(record))
      case None => previous
  }

  /** `hit_list`, as the fold over every child. */
  function HitList<M>(list: seq<Hittable<M>>, ray: Ray, range: RangeF64, sqrt: real -> real): (r: Option<HitRecord<M>>)
    requires forall i :: 0 <= i < |list| ==> WellFormed(list[i])
    ensures r.Some? ==> Contains(range, r.value.t)
    decreases list, |list| + 1
  {
    Scan(list, ray, range, |list|, sqrt).hitRecord
  }

  /** `hit_list` as the source writes it: a loop over the children that narrows the
      end bound to `Excluded(t)` after every hit. */
  method HitListLoop<M>(list: seq<Hittable<M>>, ray: Ray, range: RangeF64, sqrt: real -> real)
      returns (hitRecord: Option<HitRecord<M>>)
    requires forall i :: 0 <= i < |list| ==> WellFormed(list[i])
    ensures hitRecord == HitList(list, ray, range, sqrt)
    ensures hitRecord.Some? ==> Contains(range, hitRecord.value.t)
  {
    var closestSoFar := range.1;
    hitRecord := None;
    for i := 0 to |list|
      invariant ListState(closestSoFar, hitRecord) == Scan(list, ray, range, i, sqrt)
    {
      var record := Hit(list[i], ray, (range.0, closestSoFar), sqrt);
      if record.Some? {
        closestSoFar := Excluded(record.value.t);
        hitRecord := record;
      }
    }
  }

  /** Keeps a hit only when the end bound `end` also admits it. */
  function Within<M>(hit: Option<HitRecord<M>>, end: Bound): Option<HitRecord<M>>
  {
    if hit.Some? && EndAllows(end, hit.value.t) then hit else None
  }

  /** An end bound that refuses `t0` admits only parameters below `t0`. */
  lemma BelowRefused(end: Bound, t0: real)
    requires !EndAllows(end, t0)
    ensures Below(end, Excluded(t0))
  {
    forall t | EndAllows(end, t)
      ensures t < t0
    {
    }
  }

  // Real arithmetic about `a t^2 + 2 h t + c`, the quadratic the sphere test solves.

  lemma ZeroProduct(p: real, q: real)
    ensures p * q == 0.0 <==> p == 0.0 || q == 0.0
  {
  }

  lemma DivNonNegative(p: real, a: real)
    requires 0.0 <= p && 0.0 < a
    ensures 0.0 <= p / a
  {
    assert a * (p / a) == p;
  }

  /** `t` is the quotient `p / a` exactly when `a * t == p`. */
  lemma Quotient(a: real, t: real, p: real)
    requires a != 0.0
    ensures t == p / a <==> a * t == p
  {
  }

  /** Completing the square: `a (a t^2 + 2 h t + c) == (a t + h)^2 - (h^2 - a c)`. */
  lemma QuadraticFactored(a: real, h: real, c: real, sd: real, t: real)
    requires Square(sd) == h * h - a * c
    ensures a * (a * t * t + 2.0 * h * t + c) == (a * t + h - sd) * (a * t + h + sd)
  {
  }

  /** With `sd` the square root of the discriminant `h * h - a * c`, the roots are
      exactly `(-h - sd) / a` and `(-h + sd) / a`. */
  lemma QuadraticRoots(a: real, h: real, c: real, sd: real, t: real)
    requires 0.0 < a && 0.0 <= sd && Square(sd) == h * h - a * c
    ensures a * t * t + 2.0 * h * t + c == 0.0 <==> t == (-h - sd) / a || t == (-h + sd) / a
  {
    QuadraticFactored(a, h, c, sd, t);
    ZeroProduct(a, a * t * t + 2.0 * h * t + c);
    ZeroProduct(a * t + h - sd, a * t + h + sd);
    Quotient(a, t, -h + sd);
    Quotient(a, t, -h - sd);
  }

  /** A negative discriminant leaves the quadratic without real roots. */
  lemma NoRealRoot(a: real, h: real, c: real, t: real)
    requires 0.0 < a && h * h - a * c < 0.0
    ensures a * t * t + 2.0 * h * t + c != 0.0
  {
    var u := a * t + h;
    assert a * (a * t * t + 2.0 * h * t + c) == Square(u) - (h * h - a * c);
    ZeroProduct(a, a * t * t + 2.0 * h * t + c);
  }

  lemma RootsOrdered(a: real, h: real, sd: real)
    requires 0.0 < a && 0.0 <= sd
    ensures (-h - sd) / a <= (-h + sd) / a
  {
    DivNonNegative(2.0 * sd, a);
    assert (-h + sd) / a - (-h - sd) / a == (2.0 * sd) / a;
  }

  /** The near root never exceeds the far one once the direction is non-zero. */
  lemma NearNotAfterFar<M>(sphere: Sphere<M>, ray: Ray, sqrt: real -> real)
    requires IsSqrt(sqrt) && HasRoots(sphere, ray)
    ensures NearRoot(sphere, ray, sqrt) <= FarRoot(sphere, ray, sqrt)
  {
    assert A(ray) == LengthSquared(ray.direction);
    RootsOrdered(A(ray), HalfB(sphere, ray), sqrt(Discriminant(sphere, ray)));
  }

  /** Searching a sphere over a tighter end bound finds the same hit, kept only if the
      tighter bound admits it: the near-root-first rule picks the least root in range. */
  lemma SphereNarrowed<M>(sphere: Sphere<M>, ray: Ray, lo: Bound, hi: Bound, b: Bound, sqrt: real -> real)
    requires IsSqrt(sqrt) && sphere.radius != 0.0 && Below(b, hi)
    ensures SphereHit(sphere, ray, (lo, b), sqrt) == Within(SphereHit(sphere, ray, (lo, hi), sqrt), b)
  {
    if HasRoots(sphere, ray) {
      var near := NearRoot(sphere, ray, sqrt);
      var far := FarRoot(sphere, ray, sqrt);
      NearNotAfterFar(sphere, ray, sqrt);
      EndAllowsDownward(b, near, far);
      EndAllowsDownward(hi, near, far);
      assert EndAllows(b, near) ==> EndAllows(hi, near);
      assert EndAllows(b, far) ==> EndAllows(hi, far);
    }
  }

  /** Searching any hittable over a tighter end bound finds the same hit, kept only if
      the tighter bound admits it. */
  lemma {:induction false} HitNarrowed<M>(h: Hittable<M>, ray: Ray, lo: Bound, hi: Bound, b: Bound, sqrt: real -> real)
    requires IsSqrt(sqrt) && WellFormed(h) && Below(b, hi)
    ensures Hit(h, ray, (lo, b), sqrt) == Within(Hit(h, ray, (lo, hi), sqrt), b)
    decreases h
  {
    match h
    case SphereObject(s) =>
      SphereNarrowed(s, ray, lo, hi, b, sqrt);
    case HittableList(list) =>
      ScanNarrowed(list, ray, lo, hi, b, |list|, sqrt);
  }

  lemma {:induction false} ScanNarrowed<M>(list: seq<Hittable<M>>, ray: Ray, lo: Bound, hi: Bound, b: Bound, n: nat, sqrt: real -> real)
    requires IsSqrt(sqrt) && n <= |list| && Below(b, hi)
    requires forall i :: 0 <= i < |list| ==> WellFormed(list[i])
    ensures Scan(list, ray, (lo, b), n, sqrt).hitRecord == Within(Scan(list, ray, (lo, hi), n, sqrt).hitRecord, b)
    decreases list, n
  {
    if n > 0 {
      ScanNarrowed(list, ray, lo, hi, b, n - 1, sqrt);
      var loose := Scan(list, ray, (lo, hi), n - 1, sqrt);
      var tight := Scan(list, ray, (lo, b), n - 1, sqrt);
      var child := list[n - 1];
      if loose.hitRecord.Some? {
        var t1 := loose.hitRecord.value.t;
        if EndAllows(b, t1) {
          assert tight == loose;
          var next := Hit(child, ray, (lo, loose.closestSoFar), sqrt);
          if next.Some? {
            EndAllowsDownward(b, next.value.t, t1);
          }
        } else {
          BelowRefused(b, t1);
          HitNarrowed(child, ray, lo, Excluded(t1), b, sqrt);
        }
      } else {
        HitNarrowed(child, ray, lo, hi, b, sqrt);
      }
    }
  }

  /** After `n` children, `hit_list` holds the first of the nearest hits that the
      children report on the original range, and holds nothing exactly when none of
      them hits. */
  lemma {:induction false} ScanNearest<M>(list: seq<Hittable<M>>, ray: Ray, range: RangeF64, n: nat, sqrt: real -> real)
      returns (k: nat)
    requires IsSqrt(sqrt) && n <= |list|
    requires forall i :: 0 <= i < |list| ==> WellFormed(list[i])
    ensures var r := Scan(list, ray, range, n, sqrt).hitRecord;
      (r.None? <==> forall i :: 0 <= i < n ==> Hit(list[i], ray, range, sqrt).None?) &&
      (r.Some? ==>
         k < n && Hit(list[k], ray, range, sqrt) == r &&
         (forall i :: 0 <= i < n && Hit(list[i], ray, range, sqrt).Some? ==>
            r.value.t <= Hit(list[i], ray, range, sqrt).value.t) &&
         (forall i :: 0 <= i < k && Hit(list[i], ray, range, sqrt).Some? ==>
            r.value.t < Hit(list[i], ray, range, sqrt).value.t))
    decreases n
  {
    if n == 0 {
      k := 0;
    } else {
      var kPrevious := ScanNearest(list, ray, range, n - 1, sqrt);
      var previous := Scan(list, ray, range, n - 1, sqrt);
      var child := list[n - 1];
      if previous.hitRecord.Some? {
        ExcludedBelow(previous.hitRecord.value.t, range.1);
      }
      HitNarrowed(child, ray, range.0, range.1, previous.closestSoFar, sqrt);
      var full := Hit(child, ray, range, sqrt);
      if Within(full, previous.closestSoFar).Some? {
        k := n - 1;
      } else {
        k := kPrevious;
      }
    }
  }

  /** `hit_list` returns nothing exactly when every child misses on the original range
      (in particular for an empty list); otherwise it returns the hit of child `k`,
      which is no farther than any child's hit and strictly nearer than the hit of any
      earlier child, so later children win only when strictly closer. */
  lemma HitListNearest<M>(list: seq<Hittable<M>>, ray: Ray, range: RangeF64, sqrt: real -> real)
      returns (k: nat)
    requires IsSqrt(sqrt)
    requires forall i :: 0 <= i < |list| ==> WellFormed(list[i])
    ensures var r := HitList(list, ray, range, sqrt);
      (r.None? <==> forall i :: 0 <= i < |list| ==> Hit(list[i], ray, range, sqrt).None?) &&
      (r.Some? ==>
         k < |list| && Hit(list[k], ray, range, sqrt) == r &&
         (forall i :: 0 <= i < |list| && Hit(list[i], ray, range, sqrt).Some? ==>
            r.value.t <= Hit(list[i], ray, range, sqrt).value.t) &&
         (forall i :: 0 <= i < k && Hit(list[i], ray, range, sqrt).Some? ==>
            r.value.t < Hit(list[i], ray, range, sqrt).value.t))
  {
    k := ScanNearest(list, ray, range, |list|, sqrt);
  }

  /** `p` lies on the sphere's surface. */
  predicate OnSphere<M>(sphere: Sphere<M>, p: Vec3)
  {
    LengthSquared(Sub(p, sphere.center)) == sphere.radius * sphere.radius
  }

  /** The ray meets the surface at parameter `t` exactly when `t` solves
      `A t^2 + 2 HalfB t + C == 0`. */
  lemma SurfaceEquation<M>(sphere: Sphere<M>, ray: Ray, t: real)
    ensures OnSphere(sphere, At(ray, t)) <==>
              A(ray) * t * t + 2.0 * HalfB(sphere, ray) * t + C(sphere, ray) == 0.0
  {
    var oc := Sub(ray.origin, sphere.center);
    assert Sub(At(ray, t), sphere.center) == Add(oc, Scale(ray.direction, t));
    LengthSquaredAlong(oc, ray.direction, t);
  }

  /** With real roots, the ray meets the surface exactly at the near and the far root. */
  lemma SurfaceAtRoots<M>(sphere: Sphere<M>, ray: Ray, sqrt: real -> real, t: real)
    requires IsSqrt(sqrt) && HasRoots(sphere, ray)
    ensures OnSphere(sphere, At(ray, t)) <==>
              t == NearRoot(sphere, ray, sqrt) || t == FarRoot(sphere, ray, sqrt)
  {
    var a, h, c, disc := A(ray), HalfB(sphere, ray), C(sphere, ray), Discriminant(sphere, ray);
    var sd := sqrt(disc);
    assert 0.0 <= sd && Square(sd) == h * h - a * c;
    assert 0.0 < a by {
      assert a == LengthSquared(ray.direction);
    }
    SurfaceEquation(sphere, ray, t);
    QuadraticRoots(a, h, c, sd, t);
    assert NearRoot(sphere, ray, sqrt) == (-h - sd) / a;
    assert FarRoot(sphere, ray, sqrt) == (-h + sd) / a;
  }

  /** With a negative discriminant the ray meets the surface nowhere. */
  lemma NoSurfacePoint<M>(sphere: Sphere<M>, ray: Ray, t: real)
    requires ray.direction != Zero && Discriminant(sphere, ray) < 0.0
    ensures !OnSphere(sphere, At(ray, t))
  {
    assert A(ray) == LengthSquared(ray.direction);
    SurfaceEquation(sphere, ray, t);
    NoRealRoot(A(ray), HalfB(sphere, ray), C(sphere, ray), t);
  }

  /** For a ray with a non-zero direction, `Sphere::hit` returns the least parameter in
      the range at which the ray meets the surface, and nothing when the ray meets the
      surface nowhere in the range. */
  lemma SphereHitNearest<M>(sphere: Sphere<M>, ray: Ray, range: RangeF64, sqrt: real -> real)
    requires IsSqrt(sqrt) && sphere.radius != 0.0 && ray.direction != Zero
    ensures var r := SphereHit(sphere, ray, range, sqrt);
      (r.Some? ==>
         (OnSphere(sphere, r.value.point) &&
          forall t :: Contains(range, t) && OnSphere(sphere, At(ray, t)) ==> r.value.t <= t)) &&
      (r.None? ==> forall t :: Contains(range, t) ==> !OnSphere(sphere, At(ray, t)))
  {
    var r := SphereHit(sphere, ray, range, sqrt);
    assert A(ray) == LengthSquared(ray.direction);
    if !HasRoots(sphere, ray) {
      forall t | Contains(range, t)
        ensures !OnSphere(sphere, At(ray, t))
      {
        NoSurfacePoint(sphere, ray, t);
      }
    } else {
      NearNotAfterFar(sphere, ray, sqrt);
      forall t | Contains(range, t) && OnSphere(sphere, At(ray, t))
        ensures r.Some? && r.value.t <= t
      {
        SurfaceAtRoots(sphere, ray, sqrt, t);
      }
      if r.Some? {
        SurfaceAtRoots(sphere, ray, sqrt, r.value.t);
      }
    }
  }

  /** A hit reported by `Sphere::hit` lies on the surface and carries a unit normal
      facing the ray. */
  lemma SphereHitSurface<M>(sphere: Sphere<M>, ray: Ray, range: RangeF64, sqrt: real -> real)
    requires IsSqrt(sqrt) && sphere.radius != 0.0
    ensures var r := SphereHit(sphere, ray, range, sqrt);
      r.Some? ==> OnSphere(sphere, r.value.point) &&
                  LengthSquared(r.value.normal) == 1.0 &&
                  Dot(ray.direction, r.value.normal) <= 0.0
  {
    var r := SphereHit(sphere, ray, range, sqrt);
    if r.Some? {
      SphereHitNearest(sphere, ray, range, sqrt);
      var q := Sub(r.value.point, sphere.center);
      var k := 1.0 / sphere.radius;
      LengthSquaredScaled(q, k);
      assert k * k * (sphere.radius * sphere.radius) == 1.0;
    }
  }

  /** `Ray::hit_sphere` uses the full coefficient `b = 2 * HalfB`, so its discriminant is
      four times the one `Sphere::hit` computes, and it reports a hit exactly when that
      discriminant is positive. */
  lemma HitSphereAgrees<M>(ray: Ray, sphere: Sphere<M>)
    ensures var b := 2.0 * HalfB(sphere, ray);
            b * b - 4.0 * A(ray) * C(sphere, ray) == 4.0 * Discriminant(sphere, ray)
    ensures HitSphere(ray, sphere.center, sphere.radius) <==> 0.0 < Discriminant(sphere, ray)
  {
    var b := 2.0 * HalfB(sphere, ray);
    assert b * b - 4.0 * A(ray) * C(sphere, ray) == 4.0 * Discriminant(sphere, ray);
  }

  /** Any tangent ray (discriminant zero) whose touching parameter lies in the range:
      `hit_sphere` reports a miss, while `Sphere::hit` returns the touching point, the
      double root `-HalfB / A`. */
  lemma TangentRayMisses<M>(sphere: Sphere<M>, ray: Ray, range: RangeF64, sqrt: real -> real)
    requires IsSqrt(sqrt) && sphere.radius != 0.0 && A(ray) != 0.0
    requires Discriminant(sphere, ray) == 0.0
    requires Contains(range, -HalfB(sphere, ray) / A(ray))
    ensures !HitSphere(ray, sphere.center, sphere.radius)
    ensures SphereHit(sphere, ray, range, sqrt).Some?
    ensures SphereHit(sphere, ray, range, sqrt).value.t == -HalfB(sphere, ray) / A(ray)
  {
    HitSphereAgrees(ray, sphere);
    SqrtOfSquare(sqrt, 0.0, 0.0);
    assert NearRoot(sphere, ray, sqrt) == -HalfB(sphere, ray) / A(ray);
  }

  /** One tangent ray, from (0.5, 0, 0) straight down the -z axis past the sphere of
      radius 0.5 at (0, 0, -1): the discriminant is zero, so `hit_sphere` reports a miss while
      `Sphere::hit` returns the touching point. Only the square root of 0 is needed. */
  lemma TangentRay<M>(material: M, sqrt: real -> real)
    requires sqrt(0.0) == 0.0
    ensures var sphere := Sphere(Vec3(0.0, 0.0, -1.0), 0.5, material);
            var ray := Ray(Vec3(0.5, 0.0, 0.0), Vec3(0.0, 0.0, -1.0));
            var r := SphereHit(sphere, ray, (Included(0.0), Unbounded), sqrt);
      !HitSphere(ray, sphere.center, sphere.radius) &&
      r.Some? && r.value.t == 1.0 && r.value.point == Vec3(0.5, 0.0, -1.0)
  {
    var sphere := Sphere(Vec3(0.0, 0.0, -1.0), 0.5, material);
    var ray := Ray(Vec3(0.5, 0.0, 0.0), Vec3(0.0, 0.0, -1.0));
    assert A(ray) == 1.0;
    assert HalfB(sphere, ray) == -1.0;
    assert C(sphere, ray) == 1.0;
    assert Discriminant(sphere, ray) == 0.0;
    assert NearRoot(sphere, ray, sqrt) == 1.0;
    HitSphereAgrees(ray, sphere);
  }
}
