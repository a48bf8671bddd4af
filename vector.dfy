/** The `Vector` class of lib.js:1-57: an immutable triple of reals used both
    as a point and as a direction. Every operation builds a new value. */
module Vectors {
  import opened Numeric

  /** Components below this bound in absolute value count as zero (`nearZero`). */
  const NearZeroBound: real := 0.00000001

  datatype Vector = Vector(x: real, y: real, z: real) {

    /** `lengthSquared`: the squared Euclidean norm. */
    function LengthSquared(): (r: real)
      ensures 0.0 <= r
    {
      SumOfSquaresNonNegative(x, y, z);
      x * x + y * y + z * z
    }

    /** `length`: the non-negative square root of `lengthSquared`. */
    function Length(sqrt: real -> real): (l: real)
      requires SqrtSpec(sqrt)
      ensures 0.0 <= l && l * l == LengthSquared()
      ensures 0.0 < LengthSquared() ==> 0.0 < l
    {
      var l := sqrt(LengthSquared());
      PositiveFromSquare(l);
      l
    }

    /** `unit`: this vector divided by its length. A vector of length zero
        has no direction (the division would be by zero), so callers must
        not ask. */
    function Unit(sqrt: real -> real): (u: Vector)
      requires SqrtSpec(sqrt) && 0.0 < LengthSquared()
      ensures u.LengthSquared() == 1.0
      ensures u.Dot(this) == Length(sqrt) && 0.0 < u.Dot(this)
    {
      var l := Length(sqrt);
      ScaleLengthSquared(this, 1.0 / l);
      assert (1.0 / l) * (1.0 / l) * (l * l) == 1.0;
      Divide(l)
    }

    /** `nearZero`: every component is within 1e-8 of zero. */
    predicate NearZero() {
      Abs(x) < NearZeroBound && Abs(y) < NearZeroBound && Abs(z) < NearZeroBound
    }

    /** `addVector`. */
    function AddVector(v: Vector): Vector {
      Vector(v.x + x, v.y + y, v.z + z)
    }

    /** `subtractVector`. */
    function SubtractVector(v: Vector): Vector {
      Vector(x - v.x, y - v.y, z - v.z)
    }

    /** `scale`. */
    function Scale(f: real): Vector {
      Vector(x * f, y * f, z * f)
    }

    /** `divide`: scaling by the reciprocal; JavaScript would yield infinities
        for a zero divisor, so the model demands a non-zero one. */
    function Divide(f: real): Vector
      requires f != 0.0
    {
      Scale(1.0 / f)
    }

    /** `dot`. */
    function Dot(v: Vector): real {
      v.x * x + v.y * y + v.z * z
    }

    /** `cross`, right-handed. */
    function Cross(v: Vector): Vector {
      Vector(y * v.z - z * v.y, z * v.x - x * v.z, x * v.y - y * v.x)
    }

    /** `reflect`: mirror this direction about the plane with normal `normal`. */
    function Reflect(normal: Vector): Vector {
      SubtractVector(normal.Scale(Dot(normal) * 2.0))
    }

    /** `refract`: Snell's law by the perpendicular/parallel decomposition. */
    function Refract(normal: Vector, refractionRatio: real, sqrt: real -> real): Vector
      requires SqrtSpec(sqrt)
    {
      var cosTheta := Min(Scale(-1.0).Dot(normal), 1.0);
      var rOutPerp := AddVector(normal.Scale(cosTheta)).Scale(refractionRatio);
      var rOutParallel := normal.Scale(-sqrt(Abs(1.0 - rOutPerp.LengthSquared())));
      rOutPerp.AddVector(rOutParallel)
    }
  }

  function Zero(): Vector {
    Vector(0.0, 0.0, 0.0)
  }

  /** A sum of three squares is non-negative. */
  lemma SumOfSquaresNonNegative(a: real, b: real, c: real)
    ensures 0.0 <= a * a + b * b + c * c
  {
    SquareNonNegative(a);
    SquareNonNegative(b);
    SquareNonNegative(c);
  }

  lemma SquareNonNegative(a: real)
    ensures 0.0 <= a * a
  {
    if a < 0.0 {
      MulPositive(-a, -a);
      assert (-a) * (-a) == a * a;
    }
  }

  // ---------------------------------------------------------------------
  // Algebraic laws

  /** The cross product of a vector with itself is the zero vector. */
  lemma CrossSelfZero(v: Vector)
    ensures v.Cross(v) == Zero()
  {
  }

  /** The cross product is orthogonal to both operands and anti-commutative. */
  lemma CrossOrthogonal(u: Vector, v: Vector)
    ensures u.Cross(v).Dot(u) == 0.0 && u.Cross(v).Dot(v) == 0.0
    ensures v.Cross(u) == u.Cross(v).Scale(-1.0)
  {
  }

  /** The dot product of a vector with itself is its squared length, and the
      dot product is symmetric. */
  lemma DotSelf(u: Vector, v: Vector)
    ensures v.Dot(v) == v.LengthSquared()
    ensures u.Dot(v) == v.Dot(u)
  {
  }

  /** Scaling multiplies the squared length by the square of the factor. */
  lemma ScaleLengthSquared(v: Vector, f: real)
    ensures v.Scale(f).LengthSquared() == f * f * v.LengthSquared()
  {
    var w := v.Scale(f);
    assert w.x * w.x == f * f * (v.x * v.x);
    assert w.y * w.y == f * f * (v.y * v.y);
    assert w.z * w.z == f * f * (v.z * v.z);
  }

  /** Dot product with `u + w*t` is linear in `t`. */
  lemma DotAddScaled(u: Vector, w: Vector, t: real, n: Vector)
    ensures u.AddVector(w.Scale(t)).Dot(n) == u.Dot(n) + t * w.Dot(n)
  {
  }

  lemma SquareOfSum(a: real, b: real, t: real)
    ensures (b * t + a) * (b * t + a) == a * a + 2.0 * t * (a * b) + t * t * (b * b)
  {
  }

  /** Squared length of `u + w*t` expands as a quadratic in `t`. */
  lemma LengthSquaredAddScaled(u: Vector, w: Vector, t: real)
    ensures u.AddVector(w.Scale(t)).LengthSquared()
         == u.LengthSquared() + 2.0 * t * u.Dot(w) + t * t * w.LengthSquared()
  {
    var p := u.AddVector(w.Scale(t));
    assert p == Vector(w.x * t + u.x, w.y * t + u.y, w.z * t + u.z);
    SquareOfSum(u.x, w.x, t);
    SquareOfSum(u.y, w.y, t);
    SquareOfSum(u.z, w.z, t);
    assert t * t * w.LengthSquared() == t * t * (w.x * w.x) + t * t * (w.y * w.y) + t * t * (w.z * w.z);
    assert 2.0 * t * u.Dot(w) == 2.0 * t * (u.x * w.x) + 2.0 * t * (u.y * w.y) + 2.0 * t * (u.z * w.z);
  }

  /** The same expansion for a unit `w`. */
  lemma LengthSquaredAddScaledUnit(u: Vector, w: Vector, t: real)
    requires w.LengthSquared() == 1.0
    ensures u.AddVector(w.Scale(t)).LengthSquared() == u.LengthSquared() + 2.0 * t * u.Dot(w) + t * t
  {
    LengthSquaredAddScaled(u, w, t);
    TimesOne(t * t, w.LengthSquared());
  }

  lemma AtMost(a: real, b: real, c: real)
    requires a == b && b <= c
    ensures a <= c
  {
  }

  lemma TimesOne(t: real, w: real)
    requires w == 1.0
    ensures t * w == t
  {
  }

  /** Lagrange's identity, and from it Cauchy-Schwarz: `(u.v)^2 <= |u|^2 |v|^2`. */
  lemma CauchySchwarz(u: Vector, v: Vector)
    ensures u.Dot(v) * u.Dot(v) <= u.LengthSquared() * v.LengthSquared()
  {
    assert u.LengthSquared() * v.LengthSquared() - u.Dot(v) * u.Dot(v)
        == u.Cross(v).LengthSquared();
  }

  /** For two unit vectors the dot product (the cosine of their angle) lies in [-1, 1]. */
  lemma UnitDotBounds(u: Vector, v: Vector)
    requires u.LengthSquared() == 1.0 && v.LengthSquared() == 1.0
    ensures -1.0 <= u.Dot(v) <= 1.0
  {
    var d := u.Dot(v);
    CauchySchwarz(u, v);
    assert d * d <= 1.0;
    if d > 1.0 {
      MulPositive(d - 1.0, d + 1.0);
      assert false;
    } else if d < -1.0 {
      MulPositive(-1.0 - d, 1.0 - d);
      assert false;
    }
  }

  /** Reflection about a unit normal negates the normal component. */
  lemma ReflectNormalComponent(v: Vector, n: Vector)
    requires n.LengthSquared() == 1.0
    ensures v.Reflect(n).Dot(n) == -v.Dot(n)
  {
    var k := -(v.Dot(n) * 2.0);
    assert v.Reflect(n) == v.AddVector(n.Scale(k));
    DotAddScaled(v, n, k, n);
    DotSelf(n, n);
    TimesOne(k, n.Dot(n));
  }

  /** Reflecting twice about the same unit normal gives back the original vector. */
  lemma ReflectInvolution(v: Vector, n: Vector)
    requires n.LengthSquared() == 1.0
    ensures v.Reflect(n).Reflect(n) == v
  {
    var w := v.Reflect(n);
    ReflectNormalComponent(v, n);
    var k := v.Dot(n) * 2.0;
    assert w == v.SubtractVector(n.Scale(k));
    assert w.Dot(n) * 2.0 == -k;
    assert w.Reflect(n) == w.SubtractVector(n.Scale(-k));
  }

  /** Reflection about a unit normal preserves the squared length. */
  lemma ReflectPreservesLength(v: Vector, n: Vector)
    requires n.LengthSquared() == 1.0
    ensures v.Reflect(n).LengthSquared() == v.LengthSquared()
  {
    var d := v.Dot(n);
    var k := -(d * 2.0);
    assert v.Reflect(n) == v.AddVector(n.Scale(k));
    LengthSquaredAddScaledUnit(v, n, k);
    var dd := d * d;
    assert k * k == 4.0 * dd;
    assert 2.0 * k * d == -4.0 * dd;
  }

  /** A `nearZero` vector is shorter than a unit vector; in particular no
      unit vector (such as a surface normal) is `nearZero`. */
  lemma NearZeroIsShort(v: Vector)
    requires v.NearZero()
    ensures v.LengthSquared() < 1.0
  {
    SquareBelowBound(v.x);
    SquareBelowBound(v.y);
    SquareBelowBound(v.z);
  }

  lemma SquareBelowBound(a: real)
    requires Abs(a) < NearZeroBound
    ensures a * a < NearZeroBound
  {
    var b := Abs(a);
    assert a * a == b * b;
    assert b * b <= b by {
      assert 0.0 <= b <= 1.0;
      assert b * b <= b * 1.0;
    }
  }

  /** The part of a unit vector `v` perpendicular to a unit normal `n`:
      `v + n*c` with `c == -v.n` is orthogonal to `n` and has squared
      length `1 - c^2`. */
  lemma PerpendicularPart(v: Vector, n: Vector, c: real)
    requires v.LengthSquared() == 1.0 && n.LengthSquared() == 1.0
    requires c == -v.Dot(n)
    ensures v.AddVector(n.Scale(c)).LengthSquared() == 1.0 - c * c
    ensures v.AddVector(n.Scale(c)).Dot(n) == 0.0
  {
    LengthSquaredAddScaledUnit(v, n, c);
    assert 2.0 * c * v.Dot(n) == -2.0 * (c * c);
    DotAddScaled(v, n, c, n);
    DotSelf(n, n);
    TimesOne(c, n.Dot(n));
  }

  /** Refraction of a unit direction about a unit normal: when refraction is
      possible (`ratio * sin(theta) <= 1`, written as the square inequality
      `ratio^2 * (1 - cos^2) <= 1`) the refracted direction is again a unit
      vector. */
  lemma RefractUnit(v: Vector, n: Vector, ratio: real, sqrt: real -> real)
    requires SqrtSpec(sqrt)
    requires v.LengthSquared() == 1.0 && n.LengthSquared() == 1.0
    requires ratio * ratio * (1.0 - v.Dot(n) * v.Dot(n)) <= 1.0
    ensures v.Refract(n, ratio, sqrt).LengthSquared() == 1.0
  {
    var b := ratio * ratio * (1.0 - v.Dot(n) * v.Dot(n));
    assert b <= 1.0;
    UnitDotBounds(v, n);
    var c := Min(v.Scale(-1.0).Dot(n), 1.0);
    assert c == -v.Dot(n);
    var q := v.AddVector(n.Scale(c));
    PerpendicularPart(v, n, c);
    var perp := q.Scale(ratio);
    ScaleLengthSquared(q, ratio);
    var p2 := perp.LengthSquared();
    var d := v.Dot(n);
    assert c * c == d * d;
    assert q.LengthSquared() == 1.0 - d * d;
    assert p2 == ratio * ratio * (1.0 - d * d);
    AtMost(p2, b, 1.0);
    assert perp.Dot(n) == ratio * q.Dot(n) == 0.0;
    var m := 1.0 - p2;
    var s := sqrt(Abs(m));
    assert s * s == m;
    assert v.Refract(n, ratio, sqrt) == perp.AddVector(n.Scale(-s));
    LengthSquaredAddScaledUnit(perp, n, -s);
    assert -s * -s == s * s;
  }
}
