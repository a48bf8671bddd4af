/** Spheres and hit records (lib.js:113-149). `Sphere.hit` solves the
    quadratic `|origin + t * direction - center|^2 = radius^2` for the
    nearest admissible `t` and fills the caller's hit record. The record is
    a mutable object shared between `Sphere.hit`, `Scene.hit` and the
    materials' `scatter` methods, so it is a class here. */
module Hittables {
  import opened Numeric
  import opened Options
  import opened Vectors
  import opened Colors
  import opened Rays
  import opened Materials

  /** The part of a hit record that `hit` writes: where the ray met the
      surface and how the surface faces it. */
  datatype Intersection = Intersection(t: real, p: Vector, normal: Vector, frontFace: bool, material: Material)

  /** The record object `rec` passed to `hit` and `scatter`. JavaScript
      starts it as `{}`; the constructor gives the fields neutral values. */
  class HitRecord {
    var t: real
    var p: Vector
    var normal: Vector
    var frontFace: bool
    var material: Material
    var scatteredRay: Ray
    var attenuation: Color

    constructor ()
      ensures t == 0.0 && p == Zero() && normal == Zero() && !frontFace
      ensures material == Diffuse(Black())
      ensures scatteredRay == Ray(Zero(), Zero()) && attenuation == Black()
    {
      t := 0.0;
      p := Zero();
      normal := Zero();
      frontFace := false;
      material := Diffuse(Black());
      scatteredRay := Ray(Zero(), Zero());
      attenuation := Black();
    }

    /** The fields written by `hit`, as one value. */
    function Written(): Intersection
      reads this
    {
      Intersection(t, p, normal, frontFace, material)
    }

    /** `rec.material.scatter(ray, rec)`: the material writes the scattered
        ray and the attenuation into the record and says whether the ray
        goes on; the fields written by `hit` are left alone. */
    method Scatter(rayIn: Ray, draws: Draws, sqrt: real -> real) returns (scatters: bool)
      requires SqrtSpec(sqrt)
      requires material.Diffuse? || 0.0 < rayIn.direction.LengthSquared()
      requires material.Refracting? ==> 0.0 < material.ir
      modifies this
      ensures Written() == old(Written())
      ensures var s := Materials.Scatter(material, rayIn, p, normal, frontFace, draws, sqrt);
        scatteredRay == s.ray && attenuation == s.attenuation && scatters == s.scatters
      ensures scatteredRay.origin == p
    {
      var s := Materials.Scatter(material, rayIn, p, normal, frontFace, draws, sqrt);
      scatteredRay := s.ray;
      attenuation := s.attenuation;
      scatters := s.scatters;
    }
  }

  datatype Sphere = Sphere(center: Vector, radius: real, material: Material) {

    /** `p` lies on the sphere's surface. */
    predicate OnSurface(p: Vector) {
      p.SubtractVector(center).LengthSquared() == radius * radius
    }

    /** The parameter `root` that `hit` settles on, if any: the smaller
        solution of the quadratic when it lies in [tMin, tMax], else the
        larger one when that does; `None` when `hit` returns false. */
    function Root(ray: Ray, tMin: real, tMax: real, sqrt: real -> real): (r: Option<real>)
      requires SqrtSpec(sqrt) && 0.0 < ray.direction.LengthSquared()
      ensures r.Some? ==> tMin <= r.value <= tMax
    {
      var oc := ray.origin.SubtractVector(center);
      var a := ray.direction.LengthSquared();
      var halfb := oc.Dot(ray.direction);
      var c := oc.LengthSquared() - radius * radius;
      QuadraticRoot(a, halfb, c, tMin, tMax, sqrt)
    }

    /** The record `hit` writes for parameter `t`: the point, the outward
        normal `(p - center) / radius` turned to face the ray, and the
        material. */
    function Record(ray: Ray, t: real): (h: Intersection)
      requires radius != 0.0
      ensures h.t == t && h.p == ray.At(t) && h.material == material
      ensures var outward := ray.At(t).SubtractVector(center).Divide(radius);
        h.frontFace == FrontFace(ray, outward) && h.normal == SetFaceNormal(ray, outward)
    {
      var p := ray.At(t);
      var outwardNormal := p.SubtractVector(center).Divide(radius);
      var frontFace := ray.direction.Dot(outwardNormal) < 0.0;
      Intersection(t, p, if frontFace then outwardNormal else outwardNormal.Scale(-1.0), frontFace, material)
    }

    /** What `hit` reports: the record at `Root`, or nothing. A reported
        hit lies in [tMin, tMax], at the point of the ray there, which is on
        the sphere; its normal is a unit vector facing the incoming ray, and
        it carries the sphere's material. (`RootNearest` shows that `Root`
        is the nearest such point and that a miss means there is none.) */
    function Intersect(ray: Ray, tMin: real, tMax: real, sqrt: real -> real): (r: Option<Intersection>)
      requires SqrtSpec(sqrt) && 0.0 < ray.direction.LengthSquared() && radius != 0.0
      ensures r.Some? <==> Root(ray, tMin, tMax, sqrt).Some?
      ensures r.Some? ==>
        && tMin <= r.value.t <= tMax
        && r.value.p == ray.At(r.value.t)
        && OnSurface(r.value.p)
        && r.value.normal.LengthSquared() == 1.0
        && ray.direction.Dot(r.value.normal) <= 0.0
        && r.value.material == material
    {
      RootNearest(this, ray, tMin, tMax, sqrt);
      match Root(ray, tMin, tMax, sqrt)
      case None => None
      case Some(t) =>
        OutwardNormalUnit(ray.At(t).SubtractVector(center), radius);
        SetFaceNormalProperties(ray, ray.At(t).SubtractVector(center).Divide(radius));
        Some(Record(ray, t))
    }

    /** `hit(ray, tMin, tMax, rec)`: on a hit, fills `t`, `p`, `normal`,
        `frontFace` and `material` of `rec` and returns true; on a miss
        leaves `rec` untouched and returns false. */
    method Hit(ray: Ray, tMin: real, tMax: real, rec: HitRecord, sqrt: real -> real) returns (hit: bool)
      requires SqrtSpec(sqrt) && 0.0 < ray.direction.LengthSquared() && radius != 0.0
      modifies rec
      ensures hit <==> Intersect(ray, tMin, tMax, sqrt).Some?
      ensures hit ==> rec.Written() == Intersect(ray, tMin, tMax, sqrt).value
      ensures !hit ==> unchanged(rec)
      ensures rec.scatteredRay == old(rec.scatteredRay) && rec.attenuation == old(rec.attenuation)
    {
      var oc := ray.origin.SubtractVector(center);
      var a := ray.direction.LengthSquared();
      var halfb := oc.Dot(ray.direction);
      var c := oc.LengthSquared() - radius * radius;
      var d := halfb * halfb - a * c;
      assert Root(ray, tMin, tMax, sqrt) == QuadraticRoot(a, halfb, c, tMin, tMax, sqrt);
      if d < 0.0 {
        return false;
      }
      var sqrtd := sqrt(d);
      QuadraticRootUnfold(a, halfb, c, tMin, tMax, sqrt);
      var root := (-halfb - sqrtd) / a;
      if root < tMin || root > tMax {
        ghost var first := root;
        root := (-halfb + sqrtd) / a;
        if root < tMin || root > tMax {
          assert PickRoot(halfb, sqrtd, a, tMin, tMax) == None;
          return false;
        }
      }
      assert PickRoot(halfb, sqrtd, a, tMin, tMax) == Some(root);
      rec.t := root;
      rec.p := ray.At(rec.t);
      var outwardNormal := rec.p.SubtractVector(center).Divide(radius);
      rec.frontFace := ray.direction.Dot(outwardNormal) < 0.0;
      rec.normal := if rec.frontFace then outwardNormal else outwardNormal.Scale(-1.0);
      rec.material := material;
      return true;
    }
  }

  /** The root of `a t^2 + 2 halfb t + c` that `hit` settles on: none when
      the discriminant is negative, else the choice of `PickRoot`. */
  function QuadraticRoot(a: real, halfb: real, c: real, tMin: real, tMax: real, sqrt: real -> real): (r: Option<real>)
    requires SqrtSpec(sqrt) && 0.0 < a
    ensures r.Some? ==> tMin <= r.value <= tMax
  {
    var d := halfb * halfb - a * c;
    if d < 0.0 then None else PickRoot(halfb, sqrt(d), a, tMin, tMax)
  }

  lemma QuadraticRootUnfold(a: real, halfb: real, c: real, tMin: real, tMax: real, sqrt: real -> real)
    requires SqrtSpec(sqrt) && 0.0 < a
    ensures var d := halfb * halfb - a * c;
      !(d < 0.0) ==> QuadraticRoot(a, halfb, c, tMin, tMax, sqrt) == PickRoot(halfb, sqrt(d), a, tMin, tMax)
  {
  }

  /** The choice `hit` makes between the roots `(-halfb -+ sqrtd) / a`:
      the smaller one when it lies in [tMin, tMax], else the larger one
      when that does. */
  function PickRoot(halfb: real, sqrtd: real, a: real, tMin: real, tMax: real): (r: Option<real>)
    requires a != 0.0
    ensures r.Some? ==> tMin <= r.value <= tMax
    ensures r.Some? ==> r.value == (-halfb - sqrtd) / a || r.value == (-halfb + sqrtd) / a
  {
    var root := (-halfb - sqrtd) / a;
    if !(root < tMin || root > tMax) then Some(root)
    else
      var root2 := (-halfb + sqrtd) / a;
      if !(root2 < tMin || root2 > tMax) then Some(root2) else None
  }

  // ---------------------------------------------------------------------
  // The quadratic behind `Sphere.hit`

  /** A product is zero exactly when a factor is. */
  lemma ZeroProduct(x: real, y: real)
    ensures x * y == 0.0 <==> x == 0.0 || y == 0.0
  {
    if x != 0.0 && y != 0.0 {
      MulPositive(Abs(x), Abs(y));
      assert Abs(x) * Abs(y) == x * y || Abs(x) * Abs(y) == -(x * y);
    }
  }

  /** `a * (a t^2 + 2 h t + c)` factors as `(a t + h - s)(a t + h + s)`
      when `s^2 = h^2 - a c`. */
  lemma QuadraticFactor(a: real, h: real, c: real, s: real, t: real)
    requires s * s == h * h - a * c
    ensures a * (a * t * t + 2.0 * h * t + c) == (a * t + h - s) * (a * t + h + s)
  {
  }

  /** With a negative discriminant the quadratic has no real root. */
  lemma QuadraticNoRoot(a: real, h: real, c: real, t: real)
    requires 0.0 < a && h * h - a * c < 0.0
    ensures a * t * t + 2.0 * h * t + c != 0.0
  {
    var u := a * t + h;
    assert a * (a * t * t + 2.0 * h * t + c) == u * u + (a * c - h * h);
    SquareNonNegative(u);
  }

  /** With a non-negative discriminant `s^2` the roots are exactly
      `(-h - s)/a <= (-h + s)/a`. */
  lemma QuadraticRoots(a: real, h: real, c: real, s: real, t: real)
    requires 0.0 < a && 0.0 <= s && s * s == h * h - a * c
    ensures a * t * t + 2.0 * h * t + c == 0.0 <==> (t == (-h - s) / a || t == (-h + s) / a)
    ensures (-h - s) / a <= (-h + s) / a
  {
    QuadraticFactor(a, h, c, s, t);
    var u := a * t + h;
    var q := a * t * t + 2.0 * h * t + c;
    assert a * q == (u - s) * (u + s);
    if q == 0.0 {
      assert (u - s) * (u + s) == 0.0;
      ZeroProduct(u - s, u + s);
    }
    if u == s || u == -s {
      assert (u - s) * (u + s) == 0.0;
      ZeroProduct(a, q);
    }
    assert t == (-h - s) / a <==> u == -s;
    assert t == (-h + s) / a <==> u == s;
  }

  /** `a t^2 + 2 h t + c`, the quadratic whose roots `hit` looks for. */
  function Quadratic(a: real, h: real, c: real, t: real): real {
    a * t * t + 2.0 * h * t + c
  }

  /** `QuadraticRoot` returns a root in [tMin, tMax], and no root in
      [tMin, tMax] lies before it; when it returns nothing there is no root
      in [tMin, tMax] at all. */
  lemma {:induction false} QuadraticRootNearest(a: real, h: real, c: real, tMin: real, tMax: real, sqrt: real -> real)
    requires SqrtSpec(sqrt) && 0.0 < a
    ensures var r := QuadraticRoot(a, h, c, tMin, tMax, sqrt);
      r.Some? ==> Quadratic(a, h, c, r.value) == 0.0
    ensures forall t :: tMin <= t <= tMax && Quadratic(a, h, c, t) == 0.0 ==>
      var r := QuadraticRoot(a, h, c, tMin, tMax, sqrt);
      r.Some? && r.value <= t
  {
    var r := QuadraticRoot(a, h, c, tMin, tMax, sqrt);
    var d := h * h - a * c;
    if d < 0.0 {
      forall t | tMin <= t <= tMax
        ensures Quadratic(a, h, c, t) != 0.0
      {
        QuadraticNoRoot(a, h, c, t);
      }
    } else {
      var s := sqrt(d);
      assert 0.0 <= s && s * s == d;
      QuadraticRootUnfold(a, h, c, tMin, tMax, sqrt);
      assert r == PickRoot(h, s, a, tMin, tMax);
      if r.Some? {
        QuadraticRoots(a, h, c, s, r.value);
      }
      forall t | tMin <= t <= tMax && Quadratic(a, h, c, t) == 0.0
        ensures r.Some? && r.value <= t
      {
        QuadraticRoots(a, h, c, s, t);
      }
    }
  }

  /** A point of the ray lies on the sphere exactly when its parameter is
      a root of the quadratic that `hit` sets up. */
  lemma SurfaceQuadratic(sphere: Sphere, ray: Ray, t: real)
    ensures var oc := ray.origin.SubtractVector(sphere.center);
      var c := oc.LengthSquared() - sphere.radius * sphere.radius;
      sphere.OnSurface(ray.At(t)) <==>
        Quadratic(ray.direction.LengthSquared(), oc.Dot(ray.direction), c, t) == 0.0
  {
    var oc := ray.origin.SubtractVector(sphere.center);
    assert ray.At(t).SubtractVector(sphere.center) == oc.AddVector(ray.direction.Scale(t));
    LengthSquaredAddScaled(oc, ray.direction, t);
  }

  lemma RootIsQuadraticRoot(sphere: Sphere, ray: Ray, tMin: real, tMax: real, sqrt: real -> real)
    requires SqrtSpec(sqrt) && 0.0 < ray.direction.LengthSquared()
    ensures sphere.Root(ray, tMin, tMax, sqrt) == QuadraticRoot(ray.direction.LengthSquared(),
      ray.origin.SubtractVector(sphere.center).Dot(ray.direction),
      ray.origin.SubtractVector(sphere.center).LengthSquared() - sphere.radius * sphere.radius, tMin, tMax, sqrt)
  {
    assert sphere.Root(ray, tMin, tMax, sqrt) == QuadraticRoot(ray.direction.LengthSquared(),
      ray.origin.SubtractVector(sphere.center).Dot(ray.direction),
      ray.origin.SubtractVector(sphere.center).LengthSquared() - sphere.radius * sphere.radius, tMin, tMax, sqrt);
  }

  /** `Root` is the nearest parameter in [tMin, tMax] at which the ray
      meets the sphere; `None` means the ray does not meet it in that
      range. */
  lemma RootNearest(sphere: Sphere, ray: Ray, tMin: real, tMax: real, sqrt: real -> real)
    requires SqrtSpec(sqrt) && 0.0 < ray.direction.LengthSquared()
    ensures var r := sphere.Root(ray, tMin, tMax, sqrt);
      r.Some? ==> tMin <= r.value <= tMax && sphere.OnSurface(ray.At(r.value))
    ensures forall t :: tMin <= t <= tMax && sphere.OnSurface(ray.At(t)) ==>
      var r := sphere.Root(ray, tMin, tMax, sqrt);
      r.Some? && r.value <= t
  {
    var r := sphere.Root(ray, tMin, tMax, sqrt);
    RootIsQuadraticRoot(sphere, ray, tMin, tMax, sqrt);
    QuadraticRootNearest(ray.direction.LengthSquared(),
      ray.origin.SubtractVector(sphere.center).Dot(ray.direction),
      ray.origin.SubtractVector(sphere.center).LengthSquared() - sphere.radius * sphere.radius, tMin, tMax, sqrt);
    if r.Some? {
      SurfaceQuadratic(sphere, ray, r.value);
    }
    forall t | tMin <= t <= tMax && sphere.OnSurface(ray.At(t))
      ensures r.Some? && r.value <= t
    {
      SurfaceQuadratic(sphere, ray, t);
    }
  }

  /** Dividing a vector of squared length `r^2` by `r` gives a unit vector. */
  lemma OutwardNormalUnit(v: Vector, r: real)
    requires r != 0.0 && v.LengthSquared() == r * r
    ensures v.Divide(r).LengthSquared() == 1.0
  {
    ScaleLengthSquared(v, 1.0 / r);
    var k := 1.0 / r;
    assert k * r == 1.0;
    assert k * k * (r * r) == (k * r) * (k * r);
  }

  /** What `frontFace` means. For a positive radius the outward normal
      `(p - center) / radius` points away from the centre, so a front face
      is one the ray reaches from outside. A negative radius turns the
      normal inwards (a hollow shell), and a front face is then one the ray
      reaches from inside. */
  lemma IntersectFrontFace(sphere: Sphere, ray: Ray, tMin: real, tMax: real, sqrt: real -> real)
    requires SqrtSpec(sqrt) && 0.0 < ray.direction.LengthSquared() && sphere.radius != 0.0
    ensures var r := sphere.Intersect(ray, tMin, tMax, sqrt);
      r.Some? ==>
        && (0.0 < sphere.radius ==>
              (r.value.frontFace <==> ray.direction.Dot(r.value.p.SubtractVector(sphere.center)) < 0.0))
        && (sphere.radius < 0.0 ==>
              (r.value.frontFace <==> 0.0 < ray.direction.Dot(r.value.p.SubtractVector(sphere.center))))
  {
    var r := sphere.Intersect(ray, tMin, tMax, sqrt);
    if r.Some? {
      var t := sphere.Root(ray, tMin, tMax, sqrt).value;
      assert r.value == sphere.Record(ray, t);
      FrontFaceSign(ray, ray.At(t).SubtractVector(sphere.center), sphere.radius);
    }
  }

  /** The face rule applied to `v / radius` in terms of `v` itself. */
  lemma FrontFaceSign(ray: Ray, v: Vector, radius: real)
    requires radius != 0.0
    ensures 0.0 < radius ==> (FrontFace(ray, v.Divide(radius)) <==> ray.direction.Dot(v) < 0.0)
    ensures radius < 0.0 ==> (FrontFace(ray, v.Divide(radius)) <==> 0.0 < ray.direction.Dot(v))
  {
    FacingScaled(ray.direction, v, 1.0 / radius);
  }

  /** A ray that starts strictly inside a sphere of positive radius and is
      followed forwards (`0 <= tMin`) can only meet the surface from inside:
      the hit it reports is a back face. */
  lemma InsideHitIsBackFace(sphere: Sphere, ray: Ray, tMin: real, tMax: real, sqrt: real -> real)
    requires SqrtSpec(sqrt) && 0.0 < ray.direction.LengthSquared() && 0.0 < sphere.radius
    requires ray.origin.SubtractVector(sphere.center).LengthSquared() < sphere.radius * sphere.radius
    requires 0.0 <= tMin
    ensures var r := sphere.Intersect(ray, tMin, tMax, sqrt);
      r.Some? ==> !r.value.frontFace
  {
    var r := sphere.Intersect(ray, tMin, tMax, sqrt);
    if r.Some? {
      IntersectFrontFace(sphere, ray, tMin, tMax, sqrt);
      SurfaceQuadratic(sphere, ray, r.value.t);
      assert ray.At(r.value.t).SubtractVector(sphere.center)
        == ray.origin.SubtractVector(sphere.center).AddVector(ray.direction.Scale(r.value.t));
      InsideLeaving(ray.origin.SubtractVector(sphere.center), ray.direction,
        ray.origin.SubtractVector(sphere.center).LengthSquared() - sphere.radius * sphere.radius, r.value.t);
    }
  }

  /** From inside (`c < 0`), at a forward root of the ray's quadratic the
      ray is moving away from the centre. */
  lemma InsideLeaving(oc: Vector, d: Vector, c: real, t: real)
    requires 0.0 < d.LengthSquared() && c < 0.0 && 0.0 <= t
    requires Quadratic(d.LengthSquared(), oc.Dot(d), c, t) == 0.0
    ensures 0.0 < d.Dot(oc.AddVector(d.Scale(t)))
  {
    DotAddScaled(oc, d, t, d);
    DotSelf(oc.AddVector(d.Scale(t)), d);
    ForwardRootRising(d.LengthSquared(), oc.Dot(d), c, t);
  }

  /** At a root `t >= 0` of `a t^2 + 2 h t + c` with `a > 0` and `c < 0`
      the quadratic is rising: `h + a t > 0`. */
  lemma ForwardRootRising(a: real, h: real, c: real, t: real)
    requires 0.0 < a && c < 0.0 && 0.0 <= t && Quadratic(a, h, c, t) == 0.0
    ensures 0.0 < h + t * a
  {
    assert t * (a * t + 2.0 * h) == -c;
    PositiveFactor(t, a * t + 2.0 * h);
    MulPositive(t, a);
  }

  /** A positive product with a non-negative first factor has both factors
      positive. */
  lemma PositiveFactor(x: real, y: real)
    requires 0.0 <= x && 0.0 < x * y
    ensures 0.0 < x && 0.0 < y
  {
    if y <= 0.0 {
      MulNonNegative(x, -y);
    }
  }

  /** Scaling by a positive factor keeps the sign of a dot product, scaling
      by a negative one flips it. */
  lemma FacingScaled(d: Vector, v: Vector, k: real)
    requires k != 0.0
    ensures d.Dot(v.Scale(k)) == k * d.Dot(v)
    ensures 0.0 < k ==> (d.Dot(v.Scale(k)) < 0.0 <==> d.Dot(v) < 0.0)
    ensures k < 0.0 ==> (d.Dot(v.Scale(k)) < 0.0 <==> 0.0 < d.Dot(v))
  {
    var e := d.Dot(v);
    assert d.Dot(v.Scale(k)) == k * e;
    if 0.0 < k {
      if e < 0.0 { MulPositive(k, -e); }
      if 0.0 < e { MulPositive(k, e); }
    } else {
      if e < 0.0 { MulPositive(-k, -e); }
      if 0.0 < e { MulPositive(-k, e); }
    }
  }

  /** Narrowing the upper bound from `tMax` to `b` keeps the nearest hit
      when it lies at or before `b`, and loses it otherwise. */
  lemma RootRestrict(sphere: Sphere, ray: Ray, tMin: real, b: real, tMax: real, sqrt: real -> real)
    requires SqrtSpec(sqrt) && 0.0 < ray.direction.LengthSquared() && b <= tMax
    ensures var wide, narrow := sphere.Root(ray, tMin, tMax, sqrt), sphere.Root(ray, tMin, b, sqrt);
      && (narrow.Some? ==> wide == narrow)
      && (wide.Some? && wide.value <= b ==> narrow == wide)
      && (wide.Some? && b < wide.value ==> narrow.None?)
      && (wide.None? ==> narrow.None?)
  {
    RootNearest(sphere, ray, tMin, tMax, sqrt);
    RootNearest(sphere, ray, tMin, b, sqrt);
  }

  /** With a non-negative discriminant the two candidates are ordered, and
      the nearer one is taken whenever it lies in [tMin, tMax]. */
  lemma NearerRootFirst(a: real, h: real, c: real, tMin: real, tMax: real, sqrt: real -> real)
    requires SqrtSpec(sqrt) && 0.0 < a && 0.0 <= h * h - a * c
    ensures var s := sqrt(h * h - a * c);
      && (-h - s) / a <= (-h + s) / a
      && (tMin <= (-h - s) / a <= tMax ==> QuadraticRoot(a, h, c, tMin, tMax, sqrt) == Some((-h - s) / a))
  {
    var s := sqrt(h * h - a * c);
    QuadraticRoots(a, h, c, s, 0.0);
    QuadraticRootUnfold(a, h, c, tMin, tMax, sqrt);
  }

  /** A negative discriminant means the ray's line misses the sphere
      altogether, so `hit` rightly reports no hit. */
  lemma NegativeDiscriminantMisses(sphere: Sphere, ray: Ray, tMin: real, tMax: real, sqrt: real -> real)
    requires SqrtSpec(sqrt) && 0.0 < ray.direction.LengthSquared()
    requires var oc := ray.origin.SubtractVector(sphere.center);
      var h := oc.Dot(ray.direction);
      h * h - ray.direction.LengthSquared() * (oc.LengthSquared() - sphere.radius * sphere.radius) < 0.0
    ensures sphere.Root(ray, tMin, tMax, sqrt) == None
    ensures forall t :: !sphere.OnSurface(ray.At(t))
  {
    RootIsQuadraticRoot(sphere, ray, tMin, tMax, sqrt);
    forall t
      ensures !sphere.OnSurface(ray.At(t))
    {
      SurfaceQuadratic(sphere, ray, t);
      QuadraticNoRoot(ray.direction.LengthSquared(),
        ray.origin.SubtractVector(sphere.center).Dot(ray.direction),
        ray.origin.SubtractVector(sphere.center).LengthSquared() - sphere.radius * sphere.radius, t);
    }
  }
}
