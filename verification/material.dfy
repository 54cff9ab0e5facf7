/**
 The scattering rules of src/material.rs. Each rule either absorbs the ray
 (`None`) or returns an attenuation colour and the ray that leaves the hit
 point. The unit-ball sample that the diffuse and metallic rules draw is a
 parameter.
 */
module Materials {
  import opened Options
  import opened Vectors
  import opened Rays
  import opened Hittable

  /** The attenuation and the outgoing ray of a scattering event. */
  datatype Scattered = Scattered(attenuation: Color, ray: Ray)

  const White: Color := Vec3(1.0, 1.0, 1.0)

  /**
   `diffuse_scatter`: never absorbs; leaves the hit point along the hemisphere
   sample, or along the normal when the sample is nearly zero.
   */
  function DiffuseScatter(hit: Hit, albedo: Color, sample: Vec3): (r: Option<Scattered>)
    ensures r.Some?
    ensures r.value.attenuation == albedo && r.value.ray.origin == hit.point
    ensures 0.0 <= r.value.ray.direction.Dot(hit.normal)
    ensures hit.normal != Zero ==> r.value.ray.direction != Zero
    ensures var toward := RandomInHemisphere(sample, hit.normal);
            r.value.ray.direction == if toward.NearlyZero() then hit.normal else toward
  {
    var toward := RandomInHemisphere(sample, hit.normal);
    var direction := if toward.NearlyZero() then hit.normal else toward;
    Some(Scattered(albedo, NewRay(hit.point, direction)))
  }

  /** The direction a metallic surface sends the ray: the mirror image of its unit direction, blurred by the scaled sample. */
  function FuzzedReflection(ray: Ray, hit: Hit, fuzziness: real, sample: Vec3, sqrt: real -> real): Vec3
    requires IsSqrt(sqrt)
    requires ray.direction != Zero
  {
    ray.direction.Unit(sqrt).Reflect(hit.normal).Add(sample.Scale(Abs(fuzziness)))
  }

  /**
   `metalic_scatter`: scatters exactly when the blurred reflection leaves on the
   normal's side of the surface, and absorbs otherwise.
   */
  function MetalicScatter(ray: Ray, hit: Hit, albedo: Color, fuzziness: real, sample: Vec3, sqrt: real -> real): (r: Option<Scattered>)
    requires IsSqrt(sqrt)
    requires ray.direction != Zero
    ensures r.Some? <==> 0.0 < FuzzedReflection(ray, hit, fuzziness, sample, sqrt).Dot(hit.normal)
    ensures r.Some? ==> && r.value.attenuation == albedo
                        && r.value.ray.origin == hit.point
                        && r.value.ray.direction == FuzzedReflection(ray, hit, fuzziness, sample, sqrt)
                        && r.value.ray.direction != Zero
  {
    var reflected := FuzzedReflection(ray, hit, fuzziness, sample, sqrt);
    if reflected.Dot(hit.normal) > 0.0 then
      assert reflected != Zero;
      Some(Scattered(albedo, NewRay(hit.point, reflected)))
    else
      None
  }

  /** The ratio of refractive indices: entering the surface divides by the index, leaving multiplies. */
  function RefractionRatio(front: bool, refractionIndex: real): (r: real)
    requires refractionIndex != 0.0
    ensures front ==> r * refractionIndex == 1.0
    ensures !front ==> r == refractionIndex
  {
    if front then 1.0 / refractionIndex else refractionIndex
  }

  /** The cosine of the angle between the reversed unit direction and the normal, capped at one. */
  function CosTheta(unitDirection: Vec3, normal: Vec3): real {
    Min(-unitDirection.Dot(normal), 1.0)
  }

  /** The matching sine. */
  function SinTheta(cosTheta: real, sqrt: real -> real): real
    requires IsSqrt(sqrt)
  {
    sqrt(1.0 - cosTheta * cosTheta)
  }

  /**
   Whether Snell's law has no solution for the unit direction `u`, so the
   dielectric reflects instead of refracting.
   */
  predicate TotalInternalReflection(u: Vec3, normal: Vec3, ratio: real, sqrt: real -> real)
    requires IsSqrt(sqrt)
  {
    ratio * SinTheta(CosTheta(u, normal), sqrt) > 1.0
  }

  /**
   `dielectric_scatter`: never absorbs and never tints. The unit direction is
   reflected about the normal under total internal reflection and refracted
   with the ratio otherwise (the decomposition the source writes out inline
   is the one of `Vec3::refract`). About a unit normal the outgoing direction
   is never zero.
   */
  function DielectricScatter(ray: Ray, hit: Hit, refractionIndex: real, sqrt: real -> real): (r: Option<Scattered>)
    requires IsSqrt(sqrt)
    requires ray.direction != Zero
    requires refractionIndex != 0.0
    ensures r.Some?
    ensures r.value.attenuation == White && r.value.ray.origin == hit.point
    ensures var u := ray.direction.Unit(sqrt);
            r.value.ray.direction ==
              if TotalInternalReflection(u, hit.normal, RefractionRatio(hit.front, refractionIndex), sqrt) then u.Reflect(hit.normal)
              else u.Refract(hit.normal, RefractionRatio(hit.front, refractionIndex), sqrt)
    ensures hit.normal.Magnitude2() == 1.0 ==> r.value.ray.direction != Zero
  {
    var ratio := RefractionRatio(hit.front, refractionIndex);
    var u := ray.direction.Unit(sqrt);
    var direction := if TotalInternalReflection(u, hit.normal, ratio, sqrt) then u.Reflect(hit.normal)
                     else u.Refract(hit.normal, ratio, sqrt);
    assert hit.normal.Magnitude2() == 1.0 ==> 1.0 <= direction.Magnitude2();
    Some(Scattered(White, NewRay(hit.point, direction)))
  }

  /**
   `Material::scatter`: dispatches on the hit's material. Every scattered ray
   starts at the hit point; diffuse and dielectric surfaces never absorb; the
   attenuation is the albedo, or white for a dielectric; and about a unit
   normal the scattered direction is never zero.
   */
  function Scatter(ray: Ray, hit: Hit, sample: Vec3, sqrt: real -> real): (r: Option<Scattered>)
    requires IsSqrt(sqrt)
    requires ray.direction != Zero
    requires hit.material.Valid()
    ensures r.Some? ==> r.value.ray.origin == hit.point
    ensures hit.material.Diffuse? ==> r.Some? && r.value.attenuation == hit.material.albedo
    ensures hit.material.Metalic? && r.Some? ==> r.value.attenuation == hit.material.albedo
    ensures hit.material.Dielectric? ==> r.Some? && r.value.attenuation == White
    ensures r.Some? && hit.normal.Magnitude2() == 1.0 ==> r.value.ray.direction != Zero
  {
    match hit.material
    case Diffuse(albedo) => DiffuseScatter(hit, albedo, sample)
    case Metalic(albedo, fuzziness) => MetalicScatter(ray, hit, albedo, fuzziness, sample, sqrt)
    case Dielectric(index) => DielectricScatter(ray, hit, index, sqrt)
  }

  /** Only the size of the fuzziness matters: its sign never changes the outcome. */
  lemma MetalicFuzzSign(ray: Ray, hit: Hit, albedo: Color, fuzziness: real, sample: Vec3, sqrt: real -> real)
    requires IsSqrt(sqrt)
    requires ray.direction != Zero
    ensures MetalicScatter(ray, hit, albedo, fuzziness, sample, sqrt) == MetalicScatter(ray, hit, albedo, -fuzziness, sample, sqrt)
  {
    assert Abs(fuzziness) == Abs(-fuzziness);
  }

  /**
   A polished metal (zero fuzziness) about a unit normal is a mirror: it
   scatters exactly when the ray arrives against the normal, and then along
   the reflected unit direction.
   */
  lemma MetalicMirror(ray: Ray, hit: Hit, albedo: Color, sample: Vec3, sqrt: real -> real)
    requires IsSqrt(sqrt)
    requires ray.direction != Zero
    requires hit.normal.Magnitude2() == 1.0
    ensures var r := MetalicScatter(ray, hit, albedo, 0.0, sample, sqrt);
            && (r.Some? <==> ray.direction.Dot(hit.normal) < 0.0)
            && (r.Some? ==> r.value.ray.direction == ray.direction.Unit(sqrt).Reflect(hit.normal))
  {
    var u := ray.direction.Unit(sqrt);
    assert sample.Scale(Abs(0.0)) == Zero;
    assert u.Reflect(hit.normal).Add(Zero) == u.Reflect(hit.normal);
    assert FuzzedReflection(ray, hit, 0.0, sample, sqrt) == u.Reflect(hit.normal);
    UnitKeepsSide(ray.direction, hit.normal, sqrt);
  }

  /**
   Entering a medium at least as dense as the outside (ratio `1 / index` with
   the index at least one), a unit direction arriving against the normal never
   totally reflects: the dielectric always refracts.
   */
  lemma EnteringNeverReflects(u: Vec3, normal: Vec3, refractionIndex: real, sqrt: real -> real)
    requires IsSqrt(sqrt)
    requires 1.0 <= refractionIndex
    requires u.Dot(normal) <= 0.0
    ensures !TotalInternalReflection(u, normal, RefractionRatio(true, refractionIndex), sqrt)
  {
    var ratio := RefractionRatio(true, refractionIndex);
    ReciprocalAtMostOne(refractionIndex, ratio);
    SineAtMostOne(CosTheta(u, normal), sqrt);
    NotAboveOne(ratio, SinTheta(CosTheta(u, normal), sqrt));
  }

  /** The unit direction points to the same side of a surface as the direction it normalises. */
  lemma UnitKeepsSide(v: Vec3, normal: Vec3, sqrt: real -> real)
    requires IsSqrt(sqrt)
    requires v != Zero
    ensures v.Unit(sqrt).Dot(normal) < 0.0 <==> v.Dot(normal) < 0.0
    ensures v.Unit(sqrt).Dot(normal) <= 0.0 <==> v.Dot(normal) <= 0.0
  {
    var u := v.Unit(sqrt);
    var m := v.Magnitude(sqrt);
    DotScale(u, m, normal);
    assert v.Dot(normal) == m * u.Dot(normal);
    if 0.0 < u.Dot(normal) {
      MulPositive(m, u.Dot(normal), v.Dot(normal));
    } else if u.Dot(normal) < 0.0 {
      MulPositive(m, -u.Dot(normal), -v.Dot(normal));
    }
  }

  /** A sine obtained from a cosine in [0, 1] is at most one. */
  lemma SineAtMostOne(cosTheta: real, sqrt: real -> real)
    requires IsSqrt(sqrt)
    requires 0.0 <= cosTheta <= 1.0
    ensures 0.0 <= SinTheta(cosTheta, sqrt) <= 1.0
  {
    var c2 := cosTheta * cosTheta;
    MulNonNegative(cosTheta, 1.0 - cosTheta, cosTheta - c2);
    var s := sqrt(1.0 - c2);
    assert 0.0 <= s && s * s == 1.0 - c2;
    SquareNonNegative(cosTheta, c2);
    if 1.0 < s {
      MulPositive(s - 1.0, s + 1.0, s * s - 1.0);
    }
  }

  /** The reciprocal of a number at least one lies in (0, 1]. */
  lemma ReciprocalAtMostOne(x: real, r: real)
    requires 1.0 <= x && r * x == 1.0
    ensures 0.0 < r <= 1.0
  {
    if r <= 0.0 {
      MulNonNegative(-r, x, -(r * x));
    }
    if 1.0 < r {
      MulPositive(r - 1.0, x, r * x - x);
    }
  }

  /** A product of a number in (0, 1] and a number in [0, 1] is at most one. */
  lemma NotAboveOne(ratio: real, s: real)
    requires 0.0 < ratio <= 1.0 && 0.0 <= s <= 1.0
    ensures !(ratio * s > 1.0)
  {
    MulNonNegative(ratio, 1.0 - s, ratio - ratio * s);
  }
}
