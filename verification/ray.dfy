/** The ray of src/ray.rs: an origin and a direction of any length. */
module Rays {
  import opened Vectors

  datatype Ray = Ray(origin: Point3, direction: Vec3) {

    /** The point at parameter `t`; `t` may be any real, negative included. */
    function At(t: real): (p: Point3)
      ensures p.Sub(origin) == direction.Scale(t)
    {
      origin.Add(direction.Scale(t))
    }
  }

  /** `Ray::new` stores both of its arguments unchanged. */
  function NewRay(origin: Point3, direction: Vec3): (r: Ray)
    ensures r.origin == origin && r.direction == direction
  {
    Ray(origin, direction)
  }

  lemma AtZero(ray: Ray)
    ensures ray.At(0.0) == ray.origin
  {
  }

  lemma AtOne(ray: Ray)
    ensures ray.At(1.0) == ray.origin.Add(ray.direction)
  {
  }

  /** The parametrisation is affine: moving from `s` to `t` moves by `direction * (t - s)`. */
  lemma AtDifference(ray: Ray, t: real, s: real)
    ensures ray.At(t).Sub(ray.At(s)) == ray.direction.Scale(t - s)
  {
  }
}
