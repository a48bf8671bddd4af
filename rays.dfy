/** Rays (lib.js:90-99) and the face-normal rule of `setFaceNormal`
    (lib.js:101-106), which `Sphere.hit` repeats inline. */
module Rays {
  import opened Vectors

  /** A half-line `origin + t * direction`. */
  datatype Ray = Ray(origin: Vector, direction: Vector) {

    /** `at(t)`: the point reached after parameter `t`. */
    function At(t: real): (p: Vector)
      ensures p.SubtractVector(origin) == direction.Scale(t)
    {
      origin.AddVector(direction.Scale(t))
    }
  }

  /** `At` is affine: it starts at the origin, and moving the origin along
      the ray by `s` shifts the parameter by `s`. */
  lemma AtAffine(r: Ray, s: real, t: real)
    ensures r.At(0.0) == r.origin
    ensures Ray(r.At(s), r.direction).At(t) == r.At(s + t)
  {
  }

  /** A ray meets a surface from the front when its direction points
      against the outward normal. */
  predicate FrontFace(r: Ray, outwardNormal: Vector) {
    r.direction.Dot(outwardNormal) < 0.0
  }

  /** `setFaceNormal(r, outwardNormal)`: the outward normal on a front
      face, its negation on a back face. Either way the result faces the
      incoming ray. */
  function SetFaceNormal(r: Ray, outwardNormal: Vector): (n: Vector)
    ensures FrontFace(r, outwardNormal) ==> n == outwardNormal
    ensures !FrontFace(r, outwardNormal) ==> n == outwardNormal.Scale(-1.0)
    ensures r.direction.Dot(n) <= 0.0
  {
    if FrontFace(r, outwardNormal) then outwardNormal else outwardNormal.Scale(-1.0)
  }

  /** The face normal has the length of the outward normal, and the face
      normal of a reversed ray is the opposite one unless the ray grazes
      the surface. */
  lemma SetFaceNormalProperties(r: Ray, outwardNormal: Vector)
    ensures SetFaceNormal(r, outwardNormal).LengthSquared() == outwardNormal.LengthSquared()
    ensures r.direction.Dot(outwardNormal) != 0.0 ==>
      SetFaceNormal(Ray(r.origin, r.direction.Scale(-1.0)), outwardNormal)
        == SetFaceNormal(r, outwardNormal).Scale(-1.0)
  {
    ScaleLengthSquared(outwardNormal, -1.0);
    var back := Ray(r.origin, r.direction.Scale(-1.0));
    assert back.direction.Dot(outwardNormal) == -r.direction.Dot(outwardNormal);
    assert outwardNormal.Scale(-1.0).Scale(-1.0) == outwardNormal;
  }
}
