/**
 The pinhole camera of src/camera.rs: an orthogonal frame built with cross
 products, and the map from image-plane coordinates to a primary ray.
 */
module Cameras {
  import opened Vectors
  import opened Rays

  /** The value of `std::f64::consts::PI` to the digits an `f64` holds. */
  const Pi: real := 3.141592653589793

  datatype Camera = Camera(origin: Point3, front: Vec3, right: Vec3, up: Vec3, aspectRatio: real, fovFactor: real)

  /**
   `Camera::new`. The camera looks from `position` towards `lookAt`; `front`
   is the unit vector pointing back from the target, `right` is perpendicular
   to the world's up and to `front`, and `up` to `front` and `right`. The
   field-of-view factor is the tangent of half the angle `fov`, given in
   degrees. Square root and tangent are parameters.
   */
  function NewCamera(position: Point3, lookAt: Point3, worldUp: Vec3, aspectRatio: real, fov: real,
                     sqrt: real -> real, tan: real -> real): (c: Camera)
    requires IsSqrt(sqrt)
    requires position != lookAt
    ensures c.origin == position && c.aspectRatio == aspectRatio
    ensures c.front.Magnitude2() == 1.0
    ensures c.front.Scale(position.Sub(lookAt).Magnitude(sqrt)) == position.Sub(lookAt)
    ensures c.right.Dot(c.front) == 0.0 && c.right.Dot(worldUp) == 0.0
    ensures c.up.Dot(c.front) == 0.0 && c.up.Dot(c.right) == 0.0
    ensures c.fovFactor == tan(fov * Pi / 360.0)
  {
    var front := position.Sub(lookAt).Unit(sqrt);
    var right := worldUp.Cross(front);
    var up := front.Cross(right);
    assert fov * 0.5 * Pi / 180.0 == fov * Pi / 360.0;
    Camera(position, front, right, up, aspectRatio, tan(fov * 0.5 * Pi / 180.0))
  }

  /** The horizontal and vertical offsets of the image-plane point `(x, y)`. */
  function Horizontal(c: Camera, x: real): Vec3 {
    c.right.Scale(x).Scale(c.aspectRatio).Scale(c.fovFactor)
  }

  function Vertical(c: Camera, y: real): Vec3 {
    c.up.Scale(y).Scale(c.fovFactor)
  }

  /**
   `Camera::cast_ray`: the ray leaves the camera position. Its direction is the
   image-plane offset minus `front` and, as the source writes it, minus the
   camera position as well.
   */
  function CastRay(c: Camera, x: real, y: real): (r: Ray)
    ensures r.origin == c.origin
    ensures r.direction.Add(c.front).Add(c.origin) == Horizontal(c, x).Add(Vertical(c, y))
  {
    NewRay(c.origin, Horizontal(c, x).Add(Vertical(c, y)).Sub(c.front).Sub(c.origin))
  }

  /** The centre of the image looks along `-front - origin`. */
  lemma CastRayCenter(c: Camera)
    ensures CastRay(c, 0.0, 0.0).direction == c.front.Neg().Sub(c.origin)
  {
  }

  /**
   The direction is affine in the image coordinates: the centre direction
   plus `x` times the scaled right vector plus `y` times the scaled up vector.
   */
  lemma CastRayAffine(c: Camera, x: real, y: real)
    ensures CastRay(c, x, y).direction ==
              CastRay(c, 0.0, 0.0).direction
                .Add(c.right.Scale(c.aspectRatio * c.fovFactor * x))
                .Add(c.up.Scale(c.fovFactor * y))
  {
    HorizontalLinear(c, x);
    HorizontalLinear(c, 0.0);
    VerticalLinear(c, y);
    VerticalLinear(c, 0.0);
  }

  lemma HorizontalLinear(c: Camera, x: real)
    ensures Horizontal(c, x) == c.right.Scale(c.aspectRatio * c.fovFactor * x)
  {
    ScaleScale(c.right, x, c.aspectRatio);
    ScaleScale(c.right, x * c.aspectRatio, c.fovFactor);
    assert x * c.aspectRatio * c.fovFactor == c.aspectRatio * c.fovFactor * x;
  }

  lemma VerticalLinear(c: Camera, y: real)
    ensures Vertical(c, y) == c.up.Scale(c.fovFactor * y)
  {
    ScaleScale(c.up, y, c.fovFactor);
    assert y * c.fovFactor == c.fovFactor * y;
  }

  /**
   Whether every primary ray has a direction. The right and up vectors are
   perpendicular to the unit `front`, so a direction's component along `front`
   is `-(1 + origin . front)` whatever the image coordinates; it vanishes only
   for positions with `origin . front == -1`.
   */
  predicate CastsRays(c: Camera) {
    && c.front.Magnitude2() == 1.0
    && c.right.Dot(c.front) == 0.0
    && c.up.Dot(c.front) == 0.0
    && c.origin.Dot(c.front) != -1.0
  }

  lemma CastRayNonZero(c: Camera, x: real, y: real)
    requires CastsRays(c)
    ensures CastRay(c, x, y).direction != Zero
  {
    var h := Horizontal(c, x);
    var v := Vertical(c, y);
    HorizontalLinear(c, x);
    VerticalLinear(c, y);
    DotScale(c.right, c.aspectRatio * c.fovFactor * x, c.front);
    DotScale(c.up, c.fovFactor * y, c.front);
    var d := CastRay(c, x, y).direction;
    assert d == h.Add(v).Sub(c.front).Sub(c.origin);
    assert d.Dot(c.front) == h.Dot(c.front) + v.Dot(c.front) - c.front.Dot(c.front) - c.origin.Dot(c.front);
    assert d.Dot(c.front) == -1.0 - c.origin.Dot(c.front);
  }

  /**
   A sufficient condition for a built camera to cast rays: the position
   is not at `-1` along `front`. It says nothing about `right` and `up`; see
   `AxialCameraCastsOneDirection` for a camera whose whole image shares one
   direction.
   */
  lemma NewCameraCastsRays(position: Point3, lookAt: Point3, worldUp: Vec3, aspectRatio: real, fov: real,
                           sqrt: real -> real, tan: real -> real)
    requires IsSqrt(sqrt)
    requires position != lookAt
    requires position.Dot(position.Sub(lookAt).Unit(sqrt)) != -1.0
    ensures CastsRays(NewCamera(position, lookAt, worldUp, aspectRatio, fov, sqrt, tan))
  {
    var c := NewCamera(position, lookAt, worldUp, aspectRatio, fov, sqrt, tan);
    DotSymmetric(c.up, c.front);
    DotSymmetric(c.right, c.front);
  }

  /** A camera without `right` and `up` casts every image point in the direction of the image centre. */
  lemma FlatCameraCastsOneDirection(c: Camera, x: real, y: real)
    requires c.right == Zero && c.up == Zero
    ensures CastRay(c, x, y).direction == CastRay(c, 0.0, 0.0).direction
  {
    HorizontalLinear(c, x);
    HorizontalLinear(c, 0.0);
    VerticalLinear(c, y);
    VerticalLinear(c, 0.0);
  }

  /**
   A world up along the view axis makes `right` and hence `up` zero, so the
   built camera casts one direction for the whole image.
   */
  lemma AxialCameraIsFlat(position: Point3, lookAt: Point3, worldUp: Vec3, aspectRatio: real, fov: real,
                          sqrt: real -> real, tan: real -> real)
    requires IsSqrt(sqrt)
    requires position != lookAt
    requires worldUp.Cross(position.Sub(lookAt).Unit(sqrt)) == Zero
    ensures NewCamera(position, lookAt, worldUp, aspectRatio, fov, sqrt, tan).right == Zero
    ensures NewCamera(position, lookAt, worldUp, aspectRatio, fov, sqrt, tan).up == Zero
  {
    var c := NewCamera(position, lookAt, worldUp, aspectRatio, fov, sqrt, tan);
    assert c.up == c.front.Cross(Zero);
  }

  /**
   A camera placed at a unit vector `u`, looking further along `u` with `u`
   as its world up (for instance from `(0, 1, 0)` towards `(0, 2, 0)` with
   world up `(0, 1, 0)`), casts the zero direction at every image point.
   */
  lemma AxialCameraExample(u: Vec3, aspectRatio: real, fov: real, sqrt: real -> real, tan: real -> real, x: real, y: real)
    requires IsSqrt(sqrt)
    requires u.Magnitude2() == 1.0
    ensures CastRay(NewCamera(u, u.Add(u), u, aspectRatio, fov, sqrt, tan), x, y).direction == Zero
  {
    var axis := u.Sub(u.Add(u));
    assert axis == u.Neg();
    assert axis.Magnitude2() == 1.0;
    UnitOfUnit(axis, sqrt);
    OppositeCross(u);
    AxialCameraIsFlat(u, u.Add(u), u, aspectRatio, fov, sqrt, tan);
    var c := NewCamera(u, u.Add(u), u, aspectRatio, fov, sqrt, tan);
    FlatCameraCastsOneDirection(c, x, y);
    CastRayCenter(c);
    assert c.front == u.Neg() && c.origin == u;
    BackThroughOrigin(u);
  }

  lemma OppositeCross(v: Vec3)
    ensures v.Cross(v.Neg()) == Zero
  {
  }

  lemma BackThroughOrigin(v: Vec3)
    ensures v.Neg().Neg().Sub(v) == Zero
  {
  }
}
