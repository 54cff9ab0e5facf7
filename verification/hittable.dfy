/**
 The intersection record of src/hittable.rs, and the material it carries by
 value. `Material` is declared here rather than beside the scattering rules of
 src/material.rs because a hit record holds a material and the scattering
 rules take a hit record; Dafny modules cannot import each other in a cycle.
 The `Hittable` trait itself becomes the sphere intersection function, the one
 implementation the source has.
 */
module Hittable {
  import opened Vectors

  /** The closed set of surface materials. */
  datatype Material =
    | Diffuse(albedo: Color)
    | Metalic(albedo: Color, fuzziness: real)
    | Dielectric(refractionIndex: real)
  {
    /** A dielectric's index must be non-zero: its reciprocal is taken on entry. */
    predicate Valid() {
      Dielectric? ==> refractionIndex != 0.0
    }
  }

  /**
   A ray/surface intersection: the point, the normal turned against the
   incoming ray, the ray parameter `solution`, whether the ray arrived from
   outside (`front`), and the surface's material.
   */
  datatype Hit = Hit(point: Point3, normal: Vec3, solution: real, front: bool, material: Material)
}
