/** A ray `origin + t * direction`; the direction need not be normalised. */
module Rays {
  import opened Vectors

  datatype Ray = Ray(origin: Vec3, direction: Vec3)

  /** The point at parameter `t` along the ray. */
  function At(ray: Ray, t: real): (p: Vec3)
    ensures t == 0.0 ==> p == ray.origin
    ensures Sub(p, ray.origin) == ScaleLeft(t, ray.direction)
  {
    Add(ray.origin, ScaleLeft(t, ray.direction))
  }

  /** Moving the parameter by `t` moves the point by `t * direction`. */
  lemma AtAffine(ray: Ray, s: real, t: real)
    ensures At(ray, s + t) == Add(At(ray, s), ScaleLeft(t, ray.direction))
  {
  }

  /** The test for the fixed sphere that `Ray::color` draws in red: the full quadratic
      discriminant `b * b - 4 * a * c` with `b = 2 * (oc . direction)`. */
  function HitSphere(ray: Ray, center: Vec3, radius: real): bool
  {
    var oc := Sub(ray.origin, center);
    var a := Dot(ray.direction, ray.direction);
    var b := 2.0 * Dot(oc, ray.direction);
    var c := Dot(oc, oc) - radius * radius;
    var discriminant := b * b - 4.0 * a * c;
    discriminant > 0.0
  }

  /** `Ray::color`: red on the fixed test sphere (centre (0, 0, -1), radius 0.5),
      otherwise a vertical blend from white to sky blue. */
  function Color(ray: Ray, sqrt: real -> real): (color: Vec3)
    requires IsSqrt(sqrt)
    requires ray.direction != Zero
    ensures HitSphere(ray, Vec3(0.0, 0.0, -1.0), 0.5) ==> color == Vec3(1.0, 0.0, 0.0)
    ensures !HitSphere(ray, Vec3(0.0, 0.0, -1.0), 0.5) ==>
              color.z == 1.0 && 0.5 <= color.x <= 1.0 && 0.7 <= color.y <= 1.0
  {
    if HitSphere(ray, Vec3(0.0, 0.0, -1.0), 0.5) then
      Vec3(1.0, 0.0, 0.0)
    else
      var unit := Unit(ray.direction, sqrt);
      UnitComponentsBounded(ray.direction, sqrt);
      var t := 0.5 * (unit.y + 1.0);
      Add(ScaleLeft(1.0 - t, Vec3(1.0, 1.0, 1.0)), ScaleLeft(t, Vec3(0.5, 0.7, 1.0)))
  }
}
