/**
 Exact-real model of the vector type of src/vec3.rs, used as point, direction
 and color alike. Floating point becomes `real`; the square root is a
 parameter constrained only by `IsSqrt`.
 */
module Vectors {
  import opened Options

  /** f64::EPSILON, the machine epsilon of binary64: 2^-52. */
  const MachineEpsilon: real := 1.0 / 4503599627370496.0

  /** Tolerance of `NearlyZero` and `NearlyEq`: ten machine epsilons. */
  const Epsilon: real := MachineEpsilon * 10.0

  /** f64::abs */
  function Abs(a: real): (r: real)
    ensures 0.0 <= r
    ensures r == a || r == -a
  {
    if a < 0.0 then -a else a
  }

  /** f64::min on non-NaN arguments. */
  function Min(a: real, b: real): (r: real)
    ensures r <= a && r <= b
    ensures r == a || r == b
  {
    if a <= b then a else b
  }

  /**
   `sqrt` is a square root on the non-negative reals. What it returns for a
   negative argument is left open (f64::sqrt returns NaN there).
   */
  ghost predicate IsSqrt(sqrt: real -> real) {
    forall d :: 0.0 <= d ==> 0.0 <= sqrt(d) && sqrt(d) * sqrt(d) == d
  }

  lemma ZeroProduct(a: real, b: real)
    requires a * b == 0.0 && b != 0.0
    ensures a == 0.0
  {
    assert a == (a * b) / b;
  }

  // Facts about a square `s == a * a` are stated about the name `s`: the
  // solver rewrites a comparison of `a * a` with zero into a statement about
  // `a` and then loses the link to `s`.

  lemma MulPositive(a: real, b: real, s: real)
    requires 0.0 < a && 0.0 < b && s == a * b
    ensures 0.0 < s
  {
  }

  lemma MulNonNegative(a: real, b: real, s: real)
    requires 0.0 <= a && 0.0 <= b && s == a * b
    ensures 0.0 <= s
  {
  }

  lemma SquarePositive(a: real, s: real)
    requires a != 0.0 && s == a * a
    ensures 0.0 < s
  {
    if 0.0 < a {
      MulPositive(a, a, s);
    } else {
      assert s == (-a) * (-a);
      MulPositive(-a, -a, s);
    }
  }

  lemma SquareNonNegative(a: real, s: real)
    requires s == a * a
    ensures 0.0 <= s
    ensures s == 0.0 ==> a == 0.0
  {
    if a != 0.0 { SquarePositive(a, s); }
  }

  /** A sum of three squares is non-negative, and positive unless all three roots are zero. */
  lemma SumOfSquares(x: real, y: real, z: real, a: real, b: real, c: real)
    requires a == x * x && b == y * y && c == z * z
    ensures 0.0 <= a + b + c
    ensures x != 0.0 || y != 0.0 || z != 0.0 ==> 0.0 < a + b + c
  {
    SquareNonNegative(x, a);
    SquareNonNegative(y, b);
    SquareNonNegative(z, c);
    if x != 0.0 {
      SquarePositive(x, a);
    } else if y != 0.0 {
      SquarePositive(y, b);
    } else if z != 0.0 {
      SquarePositive(z, c);
    }
  }

  lemma SqrtPositive(sqrt: real -> real, d: real)
    requires IsSqrt(sqrt)
    requires 0.0 < d
    ensures 0.0 < sqrt(d)
  {
    assert 0.0 <= sqrt(d) && sqrt(d) * sqrt(d) == d;
  }

  datatype Vec3 = Vec3(x: real, y: real, z: real) {

    /** Unary minus; `NegInverse` shows it is the additive inverse. */
    function Neg(): Vec3 {
      Vec3(-x, -y, -z)
    }

    function Add(other: Vec3): Vec3 {
      Vec3(x + other.x, y + other.y, z + other.z)
    }

    /** Subtraction; `AddSubRoundTrip` and `SubIsAddNeg` relate it to addition. */
    function Sub(other: Vec3): Vec3 {
      Vec3(x - other.x, y - other.y, z - other.z)
    }

    /** `Vec3 * f64` */
    function Scale(k: real): Vec3 {
      Vec3(x * k, y * k, z * k)
    }

    /** `Vec3 * Vec3`, the componentwise product used to attenuate colors. */
    function Mul(other: Vec3): Vec3 {
      Vec3(x * other.x, y * other.y, z * other.z)
    }

    /** `Vec3 / f64`: multiplication by the reciprocal, undone by `Scale(k)`. */
    function Div(k: real): (r: Vec3)
      requires k != 0.0
      ensures r.Scale(k) == this
      ensures r == this.Scale(1.0 / k)
    {
      var factor := 1.0 / k;
      Vec3(x * factor, y * factor, z * factor)
    }

    function Dot(other: Vec3): real {
      x * other.x + y * other.y + z * other.z
    }

    /** The cross product is orthogonal to both of its factors; its length
        is given by `Lagrange` below. */
    function Cross(other: Vec3): (r: Vec3)
      ensures r.Dot(this) == 0.0
      ensures r.Dot(other) == 0.0
    {
      Vec3(y * other.z - z * other.y,
           z * other.x - x * other.z,
           x * other.y - y * other.x)
    }

    /** The squared length is non-negative and vanishes only on the zero vector. */
    function Magnitude2(): (r: real)
      ensures 0.0 <= r
      ensures this != Zero ==> 0.0 < r
      ensures this == Zero ==> r == 0.0
    {
      var a, b, c := x * x, y * y, z * z;
      SumOfSquares(x, y, z, a, b, c);
      a + b + c
    }

    function Magnitude(sqrt: real -> real): (r: real)
      requires IsSqrt(sqrt)
      ensures 0.0 <= r && r * r == Magnitude2()
      ensures this != Zero ==> 0.0 < r
      ensures this == Zero ==> r == 0.0
    {
      var d := Magnitude2();
      var r := sqrt(d);
      assert 0.0 <= r && r * r == d;
      if this != Zero then
        SqrtPositive(sqrt, d);
        r
      else
        SquareNonNegative(r, d);
        r
    }

    /**
     The unit vector in the direction of a non-zero vector. The source's
     guard `magnitude >= 0.0` is always true, so a zero input divides by
     zero; the model requires a non-zero input instead.
     */
    function Unit(sqrt: real -> real): (r: Vec3)
      requires IsSqrt(sqrt)
      requires this != Zero
      ensures r.Magnitude2() == 1.0
      ensures r.Scale(Magnitude(sqrt)) == this
    {
      var m := Magnitude(sqrt);
      var r := Scale(1.0 / m);
      MagnitudeOfScale(this, 1.0 / m);
      assert (1.0 / m) * (1.0 / m) * (m * m) == 1.0;
      r
    }

    /** Mirror image about a unit normal: keeps the length, flips the normal component. */
    function Reflect(normal: Vec3): (r: Vec3)
      ensures normal.Magnitude2() == 1.0 ==> r.Dot(normal) == -Dot(normal)
      ensures normal.Magnitude2() == 1.0 ==> r.Magnitude2() == Magnitude2()
    {
      var r := Sub(normal.Scale(2.0).Scale(Dot(normal)));
      ReflectForm(this, normal);
      r
    }

    /**
     Snell refraction: the part perpendicular to the normal scaled by `ratio`
     plus a part along the inward normal. For unit vectors the result points
     into the surface and is at least unit length, so never zero.
     */
    function Refract(normal: Vec3, ratio: real, sqrt: real -> real): (r: Vec3)
      requires IsSqrt(sqrt)
      ensures Magnitude2() == 1.0 && normal.Magnitude2() == 1.0 ==>
                r.Dot(normal) <= 0.0 && 1.0 <= r.Magnitude2()
    {
      var cosTheta := Min(-Dot(normal), 1.0);
      var perpendicular := Add(normal.Scale(cosTheta)).Scale(ratio);
      var parallel := normal.Scale(-sqrt(Abs(1.0 - perpendicular.Magnitude2())));
      RefractBounds(this, normal, ratio, sqrt);
      perpendicular.Add(parallel)
    }

    /** Every component within `Epsilon` of zero. */
    function NearlyZero(): (r: bool)
      ensures r <==> NearlyEq(Zero)
      ensures this == Zero ==> r
    {
      Abs(x) <= Epsilon && Abs(y) <= Epsilon && Abs(z) <= Epsilon
    }

    /** Componentwise within `Epsilon`; reflexive. */
    function NearlyEq(other: Vec3): (r: bool)
      ensures this == other ==> r
    {
      Abs(x - other.x) <= Epsilon && Abs(y - other.y) <= Epsilon && Abs(z - other.z) <= Epsilon
    }
  }

  const Zero: Vec3 := Vec3(0.0, 0.0, 0.0)

  type Point3 = Vec3
  type Color = Vec3

  /**
   The rejection loop of `random_in_unit_sphere`, run over a finite stream of
   draws: the first draw strictly inside the unit ball is returned. The source
   loops until it finds one; on a stream with none the model reports `None`.
   */
  method RandomInUnitSphere(draws: seq<Vec3>) returns (r: Option<Vec3>)
    ensures r.Some? ==> r.value.Magnitude2() < 1.0
    ensures r.Some? ==> exists i :: 0 <= i < |draws| && draws[i] == r.value &&
                                   forall j :: 0 <= j < i ==> 1.0 <= draws[j].Magnitude2()
    ensures r.None? <==> forall i :: 0 <= i < |draws| ==> 1.0 <= draws[i].Magnitude2()
  {
    var i := 0;
    while i < |draws|
      invariant 0 <= i <= |draws|
      invariant forall j :: 0 <= j < i ==> 1.0 <= draws[j].Magnitude2()
    {
      if draws[i].Magnitude2() < 1.0 {
        return Some(draws[i]);
      }
      i := i + 1;
    }
    return None;
  }

  /**
   `random_in_hemisphere`, given the unit-ball sample it draws: the sample,
   flipped when it does not point strictly into the normal's half-space.
   */
  function RandomInHemisphere(sample: Vec3, normal: Vec3): (r: Vec3)
    ensures 0.0 <= r.Dot(normal)
    ensures r.Magnitude2() == sample.Magnitude2()
    ensures 0.0 < sample.Dot(normal) ==> r == sample
    ensures sample.Dot(normal) <= 0.0 ==> r == sample.Neg()
  {
    if sample.Dot(normal) > 0.0 then sample else sample.Neg()
  }

  // Algebraic facts, all exact over the reals.

  lemma AddSubRoundTrip(a: Vec3, b: Vec3)
    ensures a.Add(b).Sub(b) == a
    ensures a.Sub(b).Add(b) == a
  {
  }

  lemma NegInverse(a: Vec3)
    ensures a.Neg().Add(a) == Zero
    ensures a.Neg().Neg() == a
  {
  }

  lemma SubIsAddNeg(a: Vec3, b: Vec3)
    ensures a.Sub(b) == a.Add(b.Neg())
  {
  }

  lemma AddCommutative(a: Vec3, b: Vec3)
    ensures a.Add(b) == b.Add(a)
  {
  }

  lemma DotSymmetric(a: Vec3, b: Vec3)
    ensures a.Dot(b) == b.Dot(a)
  {
  }

  lemma CrossAntiCommutative(a: Vec3, b: Vec3)
    ensures a.Cross(b) == b.Cross(a).Neg()
  {
  }

  /** Lagrange's identity: the cross product's length is fixed by the
      lengths of its factors and their dot product, so it is zero only
      for parallel (or zero) factors. */
  lemma Lagrange(a: Vec3, b: Vec3)
    ensures a.Cross(b).Magnitude2() == a.Magnitude2() * b.Magnitude2() - a.Dot(b) * a.Dot(b)
  {
    Magnitude2Form(a.Cross(b));
    Magnitude2Form(a);
    Magnitude2Form(b);
    LagrangeComponents(a.x, a.y, a.z, b.x, b.y, b.z);
  }

  /** Lagrange's identity on components. */
  lemma LagrangeComponents(a1: real, a2: real, a3: real, b1: real, b2: real, b3: real)
    ensures (a2 * b3 - a3 * b2) * (a2 * b3 - a3 * b2)
          + (a3 * b1 - a1 * b3) * (a3 * b1 - a1 * b3)
          + (a1 * b2 - a2 * b1) * (a1 * b2 - a2 * b1)
         == (a1 * a1 + a2 * a2 + a3 * a3) * (b1 * b1 + b2 * b2 + b3 * b3)
          - (a1 * b1 + a2 * b2 + a3 * b3) * (a1 * b1 + a2 * b2 + a3 * b3)
  {
  }

  /** The cross product of two unit vectors is no longer than a unit vector. */
  lemma UnitCrossAtMostOne(a: Vec3, b: Vec3)
    requires a.Magnitude2() == 1.0 && b.Magnitude2() == 1.0
    ensures a.Cross(b).Magnitude2() <= 1.0
  {
    Lagrange(a, b);
    var d := a.Dot(b);
    SquareNonNegative(d, d * d);
  }

  lemma MulCommutative(a: Vec3, b: Vec3)
    ensures a.Mul(b) == b.Mul(a)
  {
  }

  lemma MulAssociative(a: Vec3, b: Vec3, c: Vec3)
    ensures a.Mul(b).Mul(c) == a.Mul(b.Mul(c))
  {
    assert a.x * b.x * c.x == a.x * (b.x * c.x);
    assert a.y * b.y * c.y == a.y * (b.y * c.y);
    assert a.z * b.z * c.z == a.z * (b.z * c.z);
  }

  lemma MagnitudeOfScale(v: Vec3, k: real)
    ensures v.Scale(k).Magnitude2() == k * k * v.Magnitude2()
  {
  }

  /** Scaling twice is scaling by the product. */
  lemma ScaleScale(v: Vec3, a: real, b: real)
    ensures v.Scale(a).Scale(b) == v.Scale(a * b)
  {
    assert v.x * a * b == v.x * (a * b);
    assert v.y * a * b == v.y * (a * b);
    assert v.z * a * b == v.z * (a * b);
  }

  lemma DotAdd(a: Vec3, b: Vec3, n: Vec3)
    ensures a.Add(b).Dot(n) == a.Dot(n) + b.Dot(n)
  {
  }

  lemma DotScale(a: Vec3, k: real, n: Vec3)
    ensures a.Scale(k).Dot(n) == k * a.Dot(n)
  {
  }

  /** |v + n k|^2 expanded. */
  lemma MagnitudeOfSum(v: Vec3, n: Vec3, k: real)
    ensures v.Add(n.Scale(k)).Magnitude2() == v.Magnitude2() + 2.0 * k * v.Dot(n) + k * k * n.Magnitude2()
  {
    var s := v.Add(n.Scale(k));
    Magnitude2IsDot(s);
    Magnitude2IsDot(v);
    Magnitude2IsDot(n);
    DotOfSum(v, n, k);
    SubstituteSquares(s.Magnitude2(), s.Dot(s), v.Magnitude2(), v.Dot(v), n.Magnitude2(), n.Dot(n), v.Dot(n), k);
  }

  /** Rewriting the expansion of the dot products with the squared lengths they equal. */
  lemma SubstituteSquares(m: real, ss: real, v2: real, vv: real, n2: real, nn: real, vn: real, k: real)
    requires m == ss && v2 == vv && n2 == nn
    requires ss == vv + 2.0 * k * vn + k * k * nn
    ensures m == v2 + 2.0 * k * vn + k * k * n2
  {
  }

  /** The squared length is the vector's dot product with itself. */
  lemma Magnitude2IsDot(v: Vec3)
    ensures v.Magnitude2() == v.Dot(v)
  {
  }

  /** (v + n k).(v + n k) expanded by bilinearity. */
  lemma DotOfSum(v: Vec3, n: Vec3, k: real)
    ensures v.Add(n.Scale(k)).Dot(v.Add(n.Scale(k))) == v.Dot(v) + 2.0 * k * v.Dot(n) + k * k * n.Dot(n)
  {
    SumOfSquaresOfSums(v.x, v.y, v.z, n.x, n.y, n.z, k);
  }

  /** The squared length as the sum of the squared components. */
  lemma Magnitude2Form(v: Vec3)
    ensures v.Magnitude2() == v.x * v.x + v.y * v.y + v.z * v.z
  {
  }

  /** The component form of the expansion above. */
  lemma SumOfSquaresOfSums(a: real, b: real, c: real, d: real, e: real, f: real, k: real)
    ensures (a + d * k) * (a + d * k) + (b + e * k) * (b + e * k) + (c + f * k) * (c + f * k)
            == (a * a + b * b + c * c) + 2.0 * k * (a * d + b * e + c * f) + k * k * (d * d + e * e + f * f)
  {
  }

  /** Reflection written as `v + n * (-2 (v . n))`, and its two invariants. */
  lemma ReflectForm(v: Vec3, n: Vec3)
    ensures v.Sub(n.Scale(2.0).Scale(v.Dot(n))) == v.Add(n.Scale(-2.0 * v.Dot(n)))
    ensures n.Magnitude2() == 1.0 ==> v.Sub(n.Scale(2.0).Scale(v.Dot(n))).Dot(n) == -v.Dot(n)
    ensures n.Magnitude2() == 1.0 ==>
              v.Sub(n.Scale(2.0).Scale(v.Dot(n))).Magnitude2() == v.Magnitude2()
  {
    var d := v.Dot(n);
    var k := -2.0 * d;
    ReflectAsSum(v, n, d);
    if n.Magnitude2() == 1.0 {
      var s := v.Add(n.Scale(k));
      DotAdd(v, n.Scale(k), n);
      DotScale(n, k, n);
      Magnitude2Form(n);
      MagnitudeOfSum(v, n, k);
      ReflectCancels(d, k, n.Magnitude2());
      assert s.Dot(n) == d + k * n.Magnitude2();
    }
  }

  /** Subtracting `n 2 d` is adding `n (-2 d)`. */
  lemma ReflectAsSum(v: Vec3, n: Vec3, d: real)
    ensures v.Sub(n.Scale(2.0).Scale(d)) == v.Add(n.Scale(-2.0 * d))
  {
    assert v.x - n.x * 2.0 * d == v.x + n.x * (-2.0 * d);
    assert v.y - n.y * 2.0 * d == v.y + n.y * (-2.0 * d);
    assert v.z - n.z * 2.0 * d == v.z + n.z * (-2.0 * d);
  }

  /** With `k = -2 d` and a unit `nn`, the cross terms of a reflection cancel. */
  lemma ReflectCancels(d: real, k: real, nn: real)
    requires k == -2.0 * d && nn == 1.0
    ensures 2.0 * k * d + k * k * nn == 0.0
    ensures d + k * nn == -d
  {
  }

  /** `Unit` leaves a unit vector unchanged. */
  lemma UnitOfUnit(v: Vec3, sqrt: real -> real)
    requires IsSqrt(sqrt)
    requires v.Magnitude2() == 1.0
    ensures v.Unit(sqrt) == v
  {
    var m := v.Magnitude(sqrt);
    OneRoot(m, m * m);
    assert v.Unit(sqrt).Scale(1.0) == v;
  }

  /** The only non-negative square root of one is one. */
  lemma OneRoot(m: real, s: real)
    requires 0.0 <= m && s == m * m && s == 1.0
    ensures m == 1.0
  {
    assert (m - 1.0) * (m + 1.0) == s - 1.0;
    ZeroProduct(m - 1.0, m + 1.0);
  }

  /** Two unit vectors have a dot product of at least -1. */
  lemma UnitDotLowerBound(v: Vec3, n: Vec3)
    requires v.Magnitude2() == 1.0 && n.Magnitude2() == 1.0
    ensures -1.0 <= v.Dot(n)
  {
    MagnitudeOfSum(v, n, 1.0);
    assert n.Scale(1.0) == n;
  }

  lemma RefractBounds(v: Vec3, n: Vec3, ratio: real, sqrt: real -> real)
    requires IsSqrt(sqrt)
    ensures var cosTheta := Min(-v.Dot(n), 1.0);
            var perpendicular := v.Add(n.Scale(cosTheta)).Scale(ratio);
            var parallel := n.Scale(-sqrt(Abs(1.0 - perpendicular.Magnitude2())));
            var r := perpendicular.Add(parallel);
            v.Magnitude2() == 1.0 && n.Magnitude2() == 1.0 ==> r.Dot(n) <= 0.0 && 1.0 <= r.Magnitude2()
  {
    if v.Magnitude2() == 1.0 && n.Magnitude2() == 1.0 {
      var cosTheta := Min(-v.Dot(n), 1.0);
      UnitDotLowerBound(v, n);
      assert cosTheta == -v.Dot(n);
      var perpendicular := v.Add(n.Scale(cosTheta)).Scale(ratio);
      PerpendicularPart(v, n, cosTheta, ratio);
      var p2 := perpendicular.Magnitude2();
      var q := sqrt(Abs(1.0 - p2));
      assert 0.0 <= q && q * q == Abs(1.0 - p2);
      AddAlongNormal(perpendicular, n, q);
      AtLeastOne(p2, q * q);
    }
  }

  /** Removing the normal component `-c n` of `v` (with `v . n = -c`) leaves a vector perpendicular to the unit normal. */
  lemma PerpendicularPart(v: Vec3, n: Vec3, c: real, ratio: real)
    requires n.Magnitude2() == 1.0 && v.Dot(n) == -c
    ensures v.Add(n.Scale(c)).Scale(ratio).Dot(n) == 0.0
  {
    DotAdd(v, n.Scale(c), n);
    DotScale(n, c, n);
    DotScale(v.Add(n.Scale(c)), ratio, n);
    Magnitude2Form(n);
  }

  /** Adding `-q n` to a vector perpendicular to the unit normal `n` points it inward by `q` and adds `q^2` to its squared length. */
  lemma AddAlongNormal(p: Vec3, n: Vec3, q: real)
    requires n.Magnitude2() == 1.0 && p.Dot(n) == 0.0
    ensures p.Add(n.Scale(-q)).Dot(n) == -q
    ensures p.Add(n.Scale(-q)).Magnitude2() == p.Magnitude2() + q * q
  {
    DotAdd(p, n.Scale(-q), n);
    DotScale(n, -q, n);
    Magnitude2Form(n);
    var k := -q;
    MagnitudeOfSum(p, n, k);
    CrossTermVanishes(p.Add(n.Scale(k)).Magnitude2(), p.Magnitude2(), p.Dot(n), n.Magnitude2(), k, q);
  }

  /** The expansion of |p + k n|^2 with k = -q, p.n = 0 and |n|^2 = 1 leaves |p|^2 + q^2. */
  lemma CrossTermVanishes(m: real, p2: real, pn: real, nn: real, k: real, q: real)
    requires m == p2 + 2.0 * k * pn + k * k * nn
    requires k == -q && pn == 0.0 && nn == 1.0
    ensures m == p2 + q * q
  {
  }

  /** A non-negative `p2` plus `|1 - p2|` is at least one. */
  lemma AtLeastOne(p2: real, q2: real)
    requires 0.0 <= p2 && q2 == Abs(1.0 - p2)
    ensures 1.0 <= p2 + q2
  {
  }

  /** Reflecting twice about the same unit normal restores the vector. */
  lemma ReflectInvolutive(v: Vec3, n: Vec3)
    requires n.Magnitude2() == 1.0
    ensures v.Reflect(n).Reflect(n) == v
  {
    var d := v.Dot(n);
    var r := v.Reflect(n);
    ReflectForm(v, n);
    ReflectForm(r, n);
    assert r == v.Add(n.Scale(-2.0 * d));
    assert -2.0 * r.Dot(n) == 2.0 * d;
    AddScaleCancel(v, n, -2.0 * d);
  }

  /** Adding `n k` and then `n (-k)` restores the vector. */
  lemma AddScaleCancel(v: Vec3, n: Vec3, k: real)
    ensures v.Add(n.Scale(k)).Add(n.Scale(-k)) == v
  {
    assert v.x + n.x * k + n.x * -k == v.x;
    assert v.y + n.y * k + n.y * -k == v.y;
    assert v.z + n.z * k + n.z * -k == v.z;
  }

  lemma NearlyEqSymmetric(a: Vec3, b: Vec3)
    ensures a.NearlyEq(b) <==> b.NearlyEq(a)
  {
  }

  /** The cases of the unit tests in src/vec3.rs, over exact reals. */
  lemma ArithmeticExamples()
    ensures Vec3(10.0, 25.0, 3.0).Add(Vec3(12.0, 10.0, 7.0)) == Vec3(22.0, 35.0, 10.0)
    ensures Vec3(22.0, 35.0, 10.0).Sub(Vec3(12.0, 10.0, 7.0)) == Vec3(10.0, 25.0, 3.0)
    ensures Vec3(1.0, 2.0, 3.0).Scale(5.0) == Vec3(5.0, 10.0, 15.0)
    ensures Vec3(1.0, 2.0, 3.0).Div(2.0) == Vec3(0.5, 1.0, 1.5)
  {
  }
}
