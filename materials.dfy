/** The three materials of lib.js:276-337 and what their `scatter` methods
    compute. Math.random is not modelled: every random quantity a scatter
    draws is an input (`Draws`). The methods' writes into the hit record
    are done by `Hittables.HitRecord.Scatter`; here each scatter is a pure
    function of the incoming ray and the hit point, normal and face. */
module Materials {
  import opened Numeric
  import opened Options
  import opened Vectors
  import opened Colors
  import opened Rays

  datatype Material =
    | Diffuse(color: Color)
    | Metal(color: Color, fuzz: real)
    | Refracting(ir: real)

  /** The random quantities one call of `scatter` consumes: a point from
      `getRandomVectorInUnitSphere` and a number from `Math.random`. */
  datatype Draws = Draws(inUnitSphere: Vector, uniform: real)

  /** What `scatter` leaves in the hit record, and its return value. */
  datatype Scattered = Scattered(ray: Ray, attenuation: Color, scatters: bool)

  /** `new MetalMaterial(color, fuzz)`: a fuzz of 1 or more is capped at 1. */
  function MetalMaterial(color: Color, fuzz: real): (m: Material)
    ensures m.Metal? && m.color == color
    ensures m.fuzz == Min(fuzz, 1.0) && m.fuzz <= 1.0
  {
    Metal(color, if fuzz < 1.0 then fuzz else 1.0)
  }

  // ---------------------------------------------------------------------
  // Diffuse

  /** The scatter direction of `DiffuseMaterial.scatter` as written: when
      `normal + draw` is `nearZero` the code assigns to a `const`, which
      throws a TypeError; `None` stands for that exception. */
  function DiffuseDirectionAsWritten(normal: Vector, draw: Vector): (d: Option<Vector>)
    ensures d.Some? <==> !normal.AddVector(draw).NearZero()
    ensures d.Some? ==> d.value == normal.AddVector(draw)
  {
    var scatterDirection := normal.AddVector(draw);
    if scatterDirection.NearZero() then None else Some(scatterDirection)
  }

  /** The evidently intended diffuse direction: `normal + draw`, replaced by
      the normal itself when that sum is degenerate. */
  function DiffuseDirection(normal: Vector, draw: Vector): (d: Vector)
    ensures d == normal || d == normal.AddVector(draw)
    ensures DiffuseDirectionAsWritten(normal, draw).Some? ==>
      d == DiffuseDirectionAsWritten(normal, draw).value
    ensures normal.LengthSquared() == 1.0 ==> !d.NearZero()
  {
    var scatterDirection := normal.AddVector(draw);
    if scatterDirection.NearZero() then
      NearZeroIsShortContra(normal);
      normal
    else scatterDirection
  }

  lemma NearZeroIsShortContra(v: Vector)
    ensures v.LengthSquared() == 1.0 ==> !v.NearZero()
  {
    if v.NearZero() {
      NearZeroIsShort(v);
    }
  }

  /** A unit normal and a draw from inside the unit sphere whose sum is
      `nearZero`: `DiffuseMaterial.scatter` as written throws here, the
      intended version scatters along the normal. */
  lemma DiffuseAsWrittenThrows()
    ensures Vector(1.0, 0.0, 0.0).LengthSquared() == 1.0
    ensures Vector(-0.999999995, 0.0, 0.0).LengthSquared() < 1.0
    ensures DiffuseDirectionAsWritten(Vector(1.0, 0.0, 0.0), Vector(-0.999999995, 0.0, 0.0)) == None
    ensures DiffuseDirection(Vector(1.0, 0.0, 0.0), Vector(-0.999999995, 0.0, 0.0)) == Vector(1.0, 0.0, 0.0)
  {
    ThrowingInputs();
    ThrowingSum();
  }

  /** The inputs of `DiffuseAsWrittenThrows` are admissible: a unit normal
      and a draw inside the unit ball. */
  lemma ThrowingInputs()
    ensures Vector(1.0, 0.0, 0.0).LengthSquared() == 1.0
    ensures Vector(-0.999999995, 0.0, 0.0).LengthSquared() < 1.0
  {
    DrawInsideBall(Vector(-0.999999995, 0.0, 0.0));
  }

  /** On the inputs of `DiffuseAsWrittenThrows` the code as written throws
      and the corrected code falls back to the normal. */
  lemma ThrowingSum()
    ensures DiffuseDirectionAsWritten(Vector(1.0, 0.0, 0.0), Vector(-0.999999995, 0.0, 0.0)) == None
    ensures DiffuseDirection(Vector(1.0, 0.0, 0.0), Vector(-0.999999995, 0.0, 0.0)) == Vector(1.0, 0.0, 0.0)
  {
    SumNearZero(Vector(1.0, 0.0, 0.0), Vector(-0.999999995, 0.0, 0.0));
  }

  /** The sum of the normal and the draw of `DiffuseAsWrittenThrows` is
      (5e-9, 0, 0), below the `nearZero` bound. */
  lemma SumNearZero(n: Vector, d: Vector)
    requires n == Vector(1.0, 0.0, 0.0) && d == Vector(-0.999999995, 0.0, 0.0)
    ensures DiffuseDirectionAsWritten(n, d) == None && DiffuseDirection(n, d) == n
  {
    assert n.AddVector(d).x == 0.000000005;
  }

  lemma DrawInsideBall(d: Vector)
    requires d == Vector(-0.999999995, 0.0, 0.0)
    ensures d.LengthSquared() < 1.0
  {
    var a := d.x;
    MulPositive(1.0 + a, 1.0 - a);
    assert 1.0 - a * a == (1.0 + a) * (1.0 - a);
    assert d.LengthSquared() == a * a;
  }

  /** Diffuse scattering leaves on the side the normal points to: for a unit
      normal and a draw strictly inside the unit sphere the direction has a
      positive component along the normal. */
  lemma DiffuseLeavesSurface(normal: Vector, draw: Vector)
    requires normal.LengthSquared() == 1.0 && draw.LengthSquared() < 1.0
    ensures 0.0 < DiffuseDirection(normal, draw).Dot(normal)
  {
    DotSelf(draw, normal);
    var d := DiffuseDirection(normal, draw);
    if d == normal {
      assert d.Dot(normal) == normal.LengthSquared();
    } else {
      var k := draw.Dot(normal);
      CauchySchwarz(draw, normal);
      assert k * k <= draw.LengthSquared() * normal.LengthSquared();
      TimesOne(draw.LengthSquared(), normal.LengthSquared());
      assert k * k < 1.0;
      AboveMinusOne(k);
      DotAddScaled(normal, draw, 1.0, normal);
      assert draw.Scale(1.0) == draw;
      assert d.Dot(normal) == normal.Dot(normal) + k;
    }
  }

  lemma AboveMinusOne(k: real)
    requires k * k < 1.0
    ensures -1.0 < k
  {
  }

  /** `DiffuseMaterial.scatter` (with the intended direction): always
      scatters, from the hit point, attenuated by the material's colour. */
  function DiffuseScatter(color: Color, p: Vector, normal: Vector, draws: Draws): (s: Scattered)
    ensures s.scatters && s.attenuation == color && s.ray.origin == p
    ensures s.ray.direction == DiffuseDirection(normal, draws.inUnitSphere)
  {
    Scattered(Ray(p, DiffuseDirection(normal, draws.inUnitSphere)), color, true)
  }

  // ---------------------------------------------------------------------
  // Metal

  /** `MetalMaterial.scatter`: mirror the unit incoming direction about the
      normal, perturb it by `fuzz` times a random point of the unit ball,
      and absorb the ray when the result points into the surface. */
  function MetalScatter(color: Color, fuzz: real, rayIn: Ray, p: Vector, normal: Vector,
                        draws: Draws, sqrt: real -> real): (s: Scattered)
    requires SqrtSpec(sqrt) && 0.0 < rayIn.direction.LengthSquared()
    ensures s.attenuation == color && s.ray.origin == p
    ensures s.scatters <==> 0.0 < s.ray.direction.Dot(normal)
  {
    var reflected := rayIn.direction.Unit(sqrt).Reflect(normal);
    var scattered := Ray(p, reflected.AddVector(draws.inUnitSphere.Scale(fuzz)));
    Scattered(scattered, color, 0.0 < scattered.direction.Dot(normal))
  }

  /** A perfect mirror (fuzz 0) returns a unit-length ray that makes the
      same angle with the unit normal as the incoming ray, on the other
      side; so a ray arriving against the normal is always scattered. */
  lemma MetalMirror(color: Color, rayIn: Ray, p: Vector, normal: Vector,
                    draws: Draws, sqrt: real -> real)
    requires SqrtSpec(sqrt) && 0.0 < rayIn.direction.LengthSquared()
    requires normal.LengthSquared() == 1.0
    ensures var s := MetalScatter(color, 0.0, rayIn, p, normal, draws, sqrt);
      && s.ray.direction.LengthSquared() == 1.0
      && s.ray.direction.Dot(normal) == -rayIn.direction.Unit(sqrt).Dot(normal)
      && (rayIn.direction.Dot(normal) < 0.0 ==> s.scatters)
  {
    var u := rayIn.direction.Unit(sqrt);
    var reflected := u.Reflect(normal);
    assert reflected.AddVector(draws.inUnitSphere.Scale(0.0)) == reflected;
    ReflectPreservesLength(u, normal);
    ReflectNormalComponent(u, normal);
    if rayIn.direction.Dot(normal) < 0.0 {
      UnitSameSide(rayIn.direction, normal, sqrt);
    }
  }

  /** The unit vector of `v` has a negative component along `n` exactly
      when `v` has. */
  lemma UnitSameSide(v: Vector, n: Vector, sqrt: real -> real)
    requires SqrtSpec(sqrt) && 0.0 < v.LengthSquared()
    ensures v.Unit(sqrt).Dot(n) < 0.0 <==> v.Dot(n) < 0.0
  {
    var l := v.Length(sqrt);
    var f := 1.0 / l;
    assert 0.0 < f;
    assert v.Unit(sqrt) == v.Scale(f);
    assert v.Scale(f).Dot(n) == f * v.Dot(n);
    var d := v.Dot(n);
    if d < 0.0 {
      MulPositive(f, -d);
    } else if 0.0 < d {
      MulPositive(f, d);
    }
  }

  // ---------------------------------------------------------------------
  // Refracting (dielectric)

  /** `refractionRatio`: 1/ir entering through a front face, ir leaving. */
  function RefractionRatio(frontFace: bool, ir: real): (ratio: real)
    requires ir != 0.0
    ensures frontFace ==> ratio * ir == 1.0
    ensures !frontFace ==> ratio == ir
    ensures 0.0 < ir ==> 0.0 < ratio
  {
    if frontFace then 1.0 / ir else ir
  }

  /** `reflectance(cosine, refIdx)`: Schlick's approximation of the
      fraction of light reflected. */
  function Reflectance(cosine: real, refIdx: real): real
    requires refIdx != -1.0
  {
    var r0 := (1.0 - refIdx) / (1.0 + refIdx);
    var r0sq := r0 * r0;
    r0sq + (1.0 - r0sq) * Pow(1.0 - cosine, 5)
  }

  /** At normal incidence Schlick's formula gives exactly `r0^2`. */
  lemma ReflectanceNormalIncidence(refIdx: real)
    requires refIdx != -1.0
    ensures var r0 := (1.0 - refIdx) / (1.0 + refIdx);
      Reflectance(1.0, refIdx) == r0 * r0
  {
    assert Pow(0.0, 5) == 0.0;
  }

  /** For a positive index ratio and a cosine in [0, 1] the reflectance is
      a probability, and never below its normal-incidence value. */
  lemma ReflectanceIsProbability(cosine: real, refIdx: real)
    requires 0.0 < refIdx && 0.0 <= cosine <= 1.0
    ensures var r0 := (1.0 - refIdx) / (1.0 + refIdx);
      r0 * r0 <= Reflectance(cosine, refIdx) <= 1.0
  {
    var r0 := (1.0 - refIdx) / (1.0 + refIdx);
    R0Bounds(refIdx);
    var q := r0 * r0;
    SquareUnitInterval(r0);
    var p := Pow(1.0 - cosine, 5);
    PowUnitInterval(1.0 - cosine, 5);
    ConvexStep(q, p);
  }

  /** `r0 = (1 - k)/(1 + k)` lies strictly between -1 and 1 for `k > 0`. */
  lemma R0Bounds(k: real)
    requires 0.0 < k
    ensures -1.0 < (1.0 - k) / (1.0 + k) < 1.0
  {
    var r0 := (1.0 - k) / (1.0 + k);
    assert r0 * (1.0 + k) == 1.0 - k;
  }

  /** `q + (1 - q) p` lies between `q` and 1 when `q` and `p` are in [0, 1]. */
  lemma ConvexStep(q: real, p: real)
    requires 0.0 <= q <= 1.0 && 0.0 <= p <= 1.0
    ensures q <= q + (1.0 - q) * p <= 1.0
  {
    MulNonNegative(1.0 - q, p);
    MulNonNegative(1.0 - q, 1.0 - p);
    assert (1.0 - q) * p + (1.0 - q) * (1.0 - p) == 1.0 - q;
  }

  /** `sinTheta = Math.sqrt(1 - cosTheta^2)` and `cannotRefract =
      refractionRatio * sinTheta > 1`. A negative radicand gives NaN, and
      every comparison with NaN is false, so refraction is then allowed. */
  predicate CannotRefract(ratio: real, cosTheta: real, sqrt: real -> real)
    requires SqrtSpec(sqrt)
  {
    var radicand := 1.0 - cosTheta * cosTheta;
    !(radicand < 0.0) && ratio * sqrt(radicand) > 1.0
  }

  /** Where the radicand is not negative, refraction is possible exactly
      when `ratio * sinTheta <= 1`. */
  lemma CanRefract(ratio: real, cosTheta: real, sqrt: real -> real)
    requires SqrtSpec(sqrt)
    requires cosTheta * cosTheta <= 1.0
    ensures !CannotRefract(ratio, cosTheta, sqrt) <==> ratio * sqrt(1.0 - cosTheta * cosTheta) <= 1.0
  {
  }

  /** When refraction is possible, `ratio^2 * (1 - cos^2) <= 1`: Snell's
      law has a solution. */
  lemma RefractionPossible(ratio: real, cosTheta: real, sqrt: real -> real)
    requires SqrtSpec(sqrt) && 0.0 < ratio
    requires cosTheta * cosTheta <= 1.0
    requires !CannotRefract(ratio, cosTheta, sqrt)
    ensures ratio * ratio * (1.0 - cosTheta * cosTheta) <= 1.0
  {
    var m := 1.0 - cosTheta * cosTheta;
    var s := sqrt(m);
    CanRefract(ratio, cosTheta, sqrt);
    assert 0.0 <= s && s * s == m;
    MulNonNegative(ratio, s);
    MulUnitInterval(ratio * s, ratio * s);
    assert (ratio * s) * (ratio * s) == ratio * ratio * (s * s);
  }

  /** The cosine of the angle between the reversed unit direction and the
      normal, capped at 1. */
  function CosTheta(unitDirection: Vector, normal: Vector): real {
    Min(unitDirection.Scale(-1.0).Dot(normal), 1.0)
  }

  /** `RefractingMaterial.scatter`: reflect when refraction is impossible or
      when the uniform draw falls below the reflectance, refract otherwise;
      the attenuation is white and the ray always scatters. */
  function RefractingScatter(ir: real, rayIn: Ray, p: Vector, normal: Vector, frontFace: bool,
                             draws: Draws, sqrt: real -> real): (s: Scattered)
    requires SqrtSpec(sqrt) && 0.0 < rayIn.direction.LengthSquared() && 0.0 < ir
    ensures s.scatters && s.attenuation == White() && s.ray.origin == p
    ensures var u := rayIn.direction.Unit(sqrt);
      s.ray.direction == u.Reflect(normal) || s.ray.direction == u.Refract(normal, RefractionRatio(frontFace, ir), sqrt)
  {
    var ratio := RefractionRatio(frontFace, ir);
    var unitDirection := rayIn.direction.Unit(sqrt);
    var cosTheta := CosTheta(unitDirection, normal);
    var direction :=
      if CannotRefract(ratio, cosTheta, sqrt) || Reflectance(cosTheta, ratio) > draws.uniform
      then unitDirection.Reflect(normal)
      else unitDirection.Refract(normal, ratio, sqrt);
    Scattered(Ray(p, direction), White(), true)
  }

  /** Entering a denser medium (front face, `ir >= 1`) light can always
      refract, and so can light arriving along the normal. */
  lemma NoTotalInternalReflection(ir: real, unitDirection: Vector, normal: Vector,
                                  frontFace: bool, sqrt: real -> real)
    requires SqrtSpec(sqrt) && 0.0 < ir
    requires unitDirection.LengthSquared() == 1.0 && normal.LengthSquared() == 1.0
    requires (frontFace && 1.0 <= ir) || unitDirection.Dot(normal) == -1.0
    ensures !CannotRefract(RefractionRatio(frontFace, ir), CosTheta(unitDirection, normal), sqrt)
  {
    var ratio := RefractionRatio(frontFace, ir);
    var c := CosTheta(unitDirection, normal);
    UnitDotBounds(unitDirection, normal);
    assert unitDirection.Scale(-1.0).Dot(normal) == -unitDirection.Dot(normal);
    assert -1.0 <= c <= 1.0;
    var m := 1.0 - c * c;
    if 0.0 <= m {
      SquareUnitInterval(c);
      SqrtAtMostOne(sqrt, m);
      var s := sqrt(m);
      if unitDirection.Dot(normal) == -1.0 {
        assert c == 1.0;
        assert m == 0.0;
        SqrtUnique(sqrt, 0.0, 0.0);
        assert s == 0.0;
      } else {
        assert ratio * ir == 1.0;
        assert ratio <= 1.0 by {
          if 1.0 < ratio {
            MulPositive(ratio - 1.0, ir);
            assert false;
          }
        }
        MulUnitInterval(ratio, s);
      }
    }
  }

  /** With a unit normal every scattered dielectric ray is a unit vector:
      reflection preserves length, and refraction is only taken when it is
      possible, where it yields a unit vector. */
  lemma RefractingScatterUnit(ir: real, rayIn: Ray, p: Vector, normal: Vector, frontFace: bool,
                              draws: Draws, sqrt: real -> real)
    requires SqrtSpec(sqrt) && 0.0 < rayIn.direction.LengthSquared() && 0.0 < ir
    requires normal.LengthSquared() == 1.0
    ensures RefractingScatter(ir, rayIn, p, normal, frontFace, draws, sqrt).ray.direction.LengthSquared() == 1.0
  {
    var ratio := RefractionRatio(frontFace, ir);
    var u := rayIn.direction.Unit(sqrt);
    var c := CosTheta(u, normal);
    var d := RefractingScatter(ir, rayIn, p, normal, frontFace, draws, sqrt).ray.direction;
    ReflectPreservesLength(u, normal);
    if d != u.Reflect(normal) {
      assert !CannotRefract(ratio, c, sqrt);
      UnitDotBounds(u, normal);
      assert u.Scale(-1.0).Dot(normal) == -u.Dot(normal);
      assert c == -u.Dot(normal);
      SquareUnitInterval(c);
      RefractionPossible(ratio, c, sqrt);
      assert c * c == u.Dot(normal) * u.Dot(normal);
      RefractUnit(u, normal, ratio, sqrt);
    }
  }

  // ---------------------------------------------------------------------
  // Dispatch

  /** `rec.material.scatter(ray, rec)` for each kind of material. Metal and
      dielectric scattering normalise the incoming direction, so that
      direction must not be the zero vector. */
  function Scatter(m: Material, rayIn: Ray, p: Vector, normal: Vector, frontFace: bool,
                   draws: Draws, sqrt: real -> real): (s: Scattered)
    requires SqrtSpec(sqrt)
    requires m.Diffuse? || 0.0 < rayIn.direction.LengthSquared()
    requires m.Refracting? ==> 0.0 < m.ir
    ensures s.ray.origin == p
    ensures !m.Metal? ==> s.scatters
    ensures m.Refracting? ==> s.attenuation == White()
    ensures !m.Refracting? ==> s.attenuation == m.color
  {
    match m
    case Diffuse(color) => DiffuseScatter(color, p, normal, draws)
    case Metal(color, fuzz) => MetalScatter(color, fuzz, rayIn, p, normal, draws, sqrt)
    case Refracting(ir) => RefractingScatter(ir, rayIn, p, normal, frontFace, draws, sqrt)
  }
}
