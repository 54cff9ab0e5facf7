/**
 The sphere of src/sphere.rs and its intersection test. The test solves
 |origin + t direction - location|^2 = radius^2 exactly over the reals and
 returns the nearest root inside a closed parameter interval.
 */
module Spheres {
  import opened Options
  import opened Vectors
  import opened Rays
  import opened Hittable

  /** An upper bound on the ray parameter, possibly infinite (f64::INFINITY). */
  datatype Bound = Infinity | Finite(value: real) {
    /** `t` does not exceed the bound: the source's `!(t > maximum)`. */
    predicate Admits(t: real) {
      Infinity? || t <= value
    }
  }

  datatype SphereShape = SphereShape(location: Point3, radius: real, material: Material, oneOverRadius: real)

  /**
   A sphere as `Sphere::new` builds it: the cached reciprocal of a non-zero
   radius (a negative radius turns the normals inward), and a material whose
   scattering is defined.
   */
  type Sphere = s: SphereShape | s.radius != 0.0 && s.oneOverRadius * s.radius == 1.0 && s.material.Valid()
    witness SphereShape(Zero, 1.0, Diffuse(Zero), 1.0)

  /** `Sphere::new`: keeps the arguments and caches the reciprocal of the radius. */
  function NewSphere(location: Point3, radius: real, material: Material): (s: Sphere)
    requires radius != 0.0
    requires material.Valid()
    ensures s.location == location && s.radius == radius && s.material == material
    ensures s.oneOverRadius * radius == 1.0
  {
    SphereShape(location, radius, material, 1.0 / radius)
  }

  /** The ray meets the sphere's surface at parameter `t`. */
  ghost predicate IsRoot(s: Sphere, ray: Ray, t: real) {
    ray.At(t).Sub(s.location).Magnitude2() == s.radius * s.radius
  }

  /** a t^2 + 2 halfB t + c, the half-b form of the intersection equation. */
  datatype Quadratic = Quadratic(a: real, halfB: real, c: real) {
    function Discriminant(): real {
      halfB * halfB - a * c
    }

    function Value(t: real): real {
      a * t * t + 2.0 * halfB * t + c
    }
  }

  /**
   The coefficients the intersection test computes, with p = origin - location:
   a = direction . direction, halfB = p . direction, c = p . p - radius^2. The
   self dot products are written as squared lengths (`Magnitude2IsDot`). The
   leading coefficient is positive for a ray that moves; `SurfaceEquation`
   shows the roots are the surface points.
   */
  function QuadraticOf(s: Sphere, ray: Ray): (q: Quadratic)
    ensures q.a == ray.direction.Magnitude2()
    ensures q.halfB == ray.origin.Sub(s.location).Dot(ray.direction)
    ensures q.c == ray.origin.Sub(s.location).Magnitude2() - s.radius * s.radius
    ensures ray.direction != Zero ==> 0.0 < q.a
  {
    var p := ray.origin.Sub(s.location);
    Quadratic(ray.direction.Magnitude2(), p.Dot(ray.direction), p.Magnitude2() - s.radius * s.radius)
  }

  /** The roots of `QuadraticOf` are exactly the parameters at which the ray meets the surface. */
  lemma SurfaceEquation(s: Sphere, ray: Ray)
    ensures forall t :: IsRoot(s, ray, t) <==> QuadraticOf(s, ray).Value(t) == 0.0
  {
    forall t
      ensures IsRoot(s, ray, t) <==> QuadraticOf(s, ray).Value(t) == 0.0
    {
      SurfacePoint(s, ray, t);
    }
  }

  /** At one parameter: expanding |p + d t|^2 with p = origin - location gives the quadratic's value plus radius^2. */
  lemma SurfacePoint(s: Sphere, ray: Ray, t: real)
    ensures IsRoot(s, ray, t) <==> QuadraticOf(s, ray).Value(t) == 0.0
  {
    RelativePoint(ray, s.location, t);
    OffsetEquation(ray.origin.Sub(s.location), ray.direction, s.radius * s.radius, t);
  }

  /** Seen from `c`, the point at `t` is the origin's offset from `c` plus `t` directions. */
  lemma RelativePoint(ray: Ray, c: Point3, t: real)
    ensures ray.At(t).Sub(c) == ray.origin.Sub(c).Add(ray.direction.Scale(t))
  {
  }

  /** |p + d t|^2 = r2 holds exactly when the quadratic with a = |d|^2, halfB = p.d and c = |p|^2 - r2 vanishes at t. */
  lemma OffsetEquation(p: Vec3, d: Vec3, r2: real, t: real)
    ensures p.Add(d.Scale(t)).Magnitude2() == r2 <==> Quadratic(d.Magnitude2(), p.Dot(d), p.Magnitude2() - r2).Value(t) == 0.0
  {
    MagnitudeOfSum(p, d, t);
    ExpansionMatches(p.Add(d.Scale(t)).Magnitude2(), p.Magnitude2(), p.Dot(d), d.Magnitude2(), r2, t);
  }

  /** Moving r2 across: p2 + 2 t pd + t^2 dd = r2 is the quadratic equation in t. */
  lemma ExpansionMatches(m: real, p2: real, pd: real, dd: real, r2: real, t: real)
    requires m == p2 + 2.0 * t * pd + t * t * dd
    ensures m == r2 <==> Quadratic(dd, pd, p2 - r2).Value(t) == 0.0
  {
  }

  lemma RootScaled(a: real, x: real, r: real)
    requires 0.0 < a && r == x * (1.0 / a)
    ensures r * a == x
  {
    var k := 1.0 / a;
    assert k * a == 1.0;
    assert r * a == x * (k * a);
  }

  lemma Factorisation(q: Quadratic, d: real, t: real)
    requires 0.0 < q.a && 0.0 <= d && d * d == q.Discriminant()
    ensures var near := (-q.halfB - d) * (1.0 / q.a);
            var far := (-q.halfB + d) * (1.0 / q.a);
            q.a * q.Value(t) == (q.a * t - q.a * near) * (q.a * t - q.a * far)
  {
    var near := (-q.halfB - d) * (1.0 / q.a);
    var far := (-q.halfB + d) * (1.0 / q.a);
    RootScaled(q.a, -q.halfB - d, near);
    RootScaled(q.a, -q.halfB + d, far);
    assert (q.a * t - q.a * near) * (q.a * t - q.a * far)
        == (q.a * t + q.halfB + d) * (q.a * t + q.halfB - d);
    assert (q.a * t + q.halfB + d) * (q.a * t + q.halfB - d)
        == (q.a * t + q.halfB) * (q.a * t + q.halfB) - d * d;
  }

  /**
   With a non-negative discriminant whose square root is `d`, the two
   candidates the source computes are ordered and are the only roots.
   */
  lemma Roots(q: Quadratic, d: real, t: real)
    requires 0.0 < q.a && 0.0 <= d && d * d == q.Discriminant()
    ensures var near := (-q.halfB - d) * (1.0 / q.a);
            var far := (-q.halfB + d) * (1.0 / q.a);
            near <= far && (q.Value(t) == 0.0 <==> t == near || t == far)
  {
    var near := (-q.halfB - d) * (1.0 / q.a);
    var far := (-q.halfB + d) * (1.0 / q.a);
    RootScaled(q.a, -q.halfB - d, near);
    RootScaled(q.a, -q.halfB + d, far);
    MulNonNegative(d + d, 1.0 / q.a, far - near);
    Factorisation(q, d, t);
    var u, v := q.a * t - q.a * near, q.a * t - q.a * far;
    assert u == q.a * (t - near);
    assert v == q.a * (t - far);
    if q.Value(t) == 0.0 {
      assert u * v == 0.0;
      if t != near {
        assert u != 0.0;
        ZeroProduct(v, u);
      }
    }
    if t == near || t == far {
      assert u * v == 0.0;
      ZeroProduct(q.Value(t), q.a);
    }
  }

  /** A negative discriminant leaves no real root. */
  lemma NoRoots(q: Quadratic, t: real)
    requires 0.0 < q.a && q.Discriminant() < 0.0
    ensures q.Value(t) != 0.0
  {
    var w := q.a * t + q.halfB;
    var w2 := w * w;
    SquareNonNegative(w, w2);
    assert q.a * q.Value(t) == w2 - q.Discriminant();
    assert 0.0 < q.a * q.Value(t);
  }

  /**
   The record for an intersection at `t`: the point on the ray, the outward
   normal `(point - location) / radius`, flipped when the ray leaves the
   surface from inside so that it always opposes the ray.
   */
  function HitAt(s: Sphere, ray: Ray, t: real): (h: Hit)
    ensures h.point == ray.At(t) && h.solution == t && h.material == s.material
    ensures var outward := h.point.Sub(s.location).Scale(s.oneOverRadius);
            && h.front == (ray.direction.Dot(outward) < 0.0)
            && h.normal == (if h.front then outward else outward.Neg())
    ensures ray.direction.Dot(h.normal) <= 0.0
    ensures IsRoot(s, ray, t) ==> h.normal.Magnitude2() == 1.0
  {
    var point := ray.At(t);
    var normal := point.Sub(s.location).Scale(s.oneOverRadius);
    var front := ray.direction.Dot(normal) < 0.0;
    UnitNormal(s, ray, t);
    Hit(point, if front then normal else normal.Neg(), t, front, s.material)
  }

  lemma UnitNormal(s: Sphere, ray: Ray, t: real)
    ensures var normal := ray.At(t).Sub(s.location).Scale(s.oneOverRadius);
            && (IsRoot(s, ray, t) ==> normal.Magnitude2() == 1.0 && normal.Neg().Magnitude2() == 1.0)
            && ray.direction.Dot(normal.Neg()) == -ray.direction.Dot(normal)
  {
    var v := ray.At(t).Sub(s.location);
    var k := s.oneOverRadius;
    MagnitudeOfScale(v, k);
    assert v.Scale(k).Neg().Magnitude2() == v.Scale(k).Magnitude2();
    if IsRoot(s, ray, t) {
      assert k * k * v.Magnitude2() == (k * s.radius) * (k * s.radius);
    }
  }

  /**
   The root the intersection test keeps, given the two candidate roots
   `near <= far`: the nearer when it lies in [minimum, maximum], otherwise
   the farther when it does, otherwise none.
   */
  function ChooseRoot(near: real, far: real, minimum: real, maximum: Bound): (r: Option<real>)
    requires near <= far
    ensures r.Some? ==> (r.value == near || r.value == far) && minimum <= r.value && maximum.Admits(r.value)
    ensures forall t :: (t == near || t == far) && minimum <= t && maximum.Admits(t) ==> r.Some? && r.value <= t
  {
    if near < minimum || !maximum.Admits(near) then
      if far < minimum || !maximum.Admits(far) then None else Some(far)
    else
      Some(near)
  }

  /** Every root of a quadratic with negative discriminant is absent. */
  lemma NoRootsAnywhere(q: Quadratic)
    requires 0.0 < q.a && q.Discriminant() < 0.0
    ensures forall t :: q.Value(t) != 0.0
  {
    forall t
      ensures q.Value(t) != 0.0
    {
      NoRoots(q, t);
    }
  }

  lemma BothRoots(q: Quadratic, d: real)
    requires 0.0 < q.a && 0.0 <= d && d * d == q.Discriminant()
    ensures var near := (-q.halfB - d) * (1.0 / q.a);
            var far := (-q.halfB + d) * (1.0 / q.a);
            && near <= far
            && forall t :: q.Value(t) == 0.0 <==> t == near || t == far
  {
    Roots(q, d, 0.0);
    forall t
      ensures q.Value(t) == 0.0 <==> t == (-q.halfB - d) * (1.0 / q.a) || t == (-q.halfB + d) * (1.0 / q.a)
    {
      Roots(q, d, t);
    }
  }

  /**
   The root selection of `Sphere::hit` on the coefficients alone: with a
   negative discriminant there is nothing; otherwise the nearer root
   (-halfB - sqrt(disc)) / a if it lies in [minimum, maximum], else the
   farther root (-halfB + sqrt(disc)) / a if it does. The result is the
   smallest root in the interval.
   */
  function SolveQuadratic(q: Quadratic, minimum: real, maximum: Bound, sqrt: real -> real): (r: Option<real>)
    requires IsSqrt(sqrt)
    requires 0.0 < q.a
    ensures q.Discriminant() < 0.0 ==> r.None?
    ensures r.Some? ==> minimum <= r.value && maximum.Admits(r.value) && q.Value(r.value) == 0.0
    ensures forall t :: minimum <= t && maximum.Admits(t) && q.Value(t) == 0.0 ==> r.Some? && r.value <= t
  {
    var discriminant := q.Discriminant();
    if discriminant < 0.0 then
      NoRootsAnywhere(q);
      None
    else
      var aReciprocal := 1.0 / q.a;
      var dRoot := sqrt(discriminant);
      var near := (-q.halfB - dRoot) * aReciprocal;
      var far := (-q.halfB + dRoot) * aReciprocal;
      BothRoots(q, dRoot);
      ChooseRoot(near, far, minimum, maximum)
  }

  /**
   `Hittable::hit` for a sphere. The result is the nearest intersection whose
   parameter lies in the closed interval [minimum, maximum], and there is a
   result whenever the ray meets the surface in that interval.
   */
  function HitSphere(s: Sphere, ray: Ray, minimum: real, maximum: Bound, sqrt: real -> real): (r: Option<Hit>)
    requires IsSqrt(sqrt)
    requires ray.direction != Zero
    ensures QuadraticOf(s, ray).Discriminant() < 0.0 ==> r.None?
    ensures r.Some? ==> && minimum <= r.value.solution
                        && maximum.Admits(r.value.solution)
                        && IsRoot(s, ray, r.value.solution)
    ensures forall t :: minimum <= t && maximum.Admits(t) && IsRoot(s, ray, t) ==>
                          r.Some? && r.value.solution <= t
    ensures r.Some? ==> r.value == HitAt(s, ray, r.value.solution)
  {
    SurfaceEquation(s, ray);
    match SolveQuadratic(QuadraticOf(s, ray), minimum, maximum, sqrt)
    case None => None
    case Some(t) => Some(HitAt(s, ray, t))
  }
}
