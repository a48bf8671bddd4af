/** The scene of lib.js:151-177: a list of spheres that a ray is tested
    against in order, keeping the nearest hit. */
module Scenes {
  import opened Numeric
  import opened Options
  import opened Rays
  import opened Hittables

  /** Every sphere has a non-zero radius (`hit` divides by it). */
  predicate Proper(objects: seq<Sphere>) {
    forall i :: 0 <= i < |objects| ==> objects[i].radius != 0.0
  }

  /** The upper bound `closestSoFar` while scanning: the parameter of the
      hit found so far, or `tMax` before any. */
  function ClosestSoFar(found: Option<Intersection>, tMax: real): real {
    if found.Some? then found.value.t else tMax
  }

  /** What `Scene.hit` has recorded after testing `objects` in order: each
      sphere is asked for a hit no farther than the best one so far and,
      when it has one, that hit replaces the best. */
  function ClosestHit(objects: seq<Sphere>, ray: Ray, tMin: real, tMax: real, sqrt: real -> real): (r: Option<Intersection>)
    requires SqrtSpec(sqrt) && 0.0 < ray.direction.LengthSquared() && Proper(objects)
    ensures r.Some? ==> tMin <= r.value.t <= tMax
    decreases |objects|
  {
    if objects == [] then None
    else
      var earlier := ClosestHit(objects[..|objects| - 1], ray, tMin, tMax, sqrt);
      var last := objects[|objects| - 1].Intersect(ray, tMin, ClosestSoFar(earlier, tMax), sqrt);
      if last.Some? then last else earlier
  }

  /** One more object: the scan of the first `i + 1` objects extends the
      scan of the first `i`. */
  lemma ClosestHitStep(objects: seq<Sphere>, i: nat, ray: Ray, tMin: real, tMax: real, sqrt: real -> real)
    requires SqrtSpec(sqrt) && 0.0 < ray.direction.LengthSquared() && Proper(objects) && i < |objects|
    ensures Proper(objects[..i]) && Proper(objects[..i + 1])
    ensures var earlier := ClosestHit(objects[..i], ray, tMin, tMax, sqrt);
      var next := objects[i].Intersect(ray, tMin, ClosestSoFar(earlier, tMax), sqrt);
      ClosestHit(objects[..i + 1], ray, tMin, tMax, sqrt) == if next.Some? then next else earlier
  {
    assert objects[..i + 1][..i] == objects[..i];
  }

  class Scene {
    var sceneObjects: seq<Sphere>

    /** `new Scene()`: no objects. */
    constructor ()
      ensures sceneObjects == []
    {
      sceneObjects := [];
    }

    /** `add(object)`: appends the sphere. */
    method Add(sphere: Sphere)
      modifies this
      ensures sceneObjects == old(sceneObjects) + [sphere]
    {
      sceneObjects := sceneObjects + [sphere];
    }

    /** `hit(ray, tMin, tMax, rec)`: tests every object against the ray
        with the nearest hit so far as upper bound, copying each new hit
        from a scratch record into `rec`. Returns whether anything was
        hit; `rec` is left untouched otherwise. */
    method Hit(ray: Ray, tMin: real, tMax: real, rec: HitRecord, sqrt: real -> real) returns (hitAnything: bool)
      requires SqrtSpec(sqrt) && 0.0 < ray.direction.LengthSquared() && Proper(sceneObjects)
      modifies rec
      ensures hitAnything <==> ClosestHit(sceneObjects, ray, tMin, tMax, sqrt).Some?
      ensures hitAnything ==> rec.Written() == ClosestHit(sceneObjects, ray, tMin, tMax, sqrt).value
      ensures !hitAnything ==> unchanged(rec)
      ensures rec.scatteredRay == old(rec.scatteredRay) && rec.attenuation == old(rec.attenuation)
    {
      var tempRec := new HitRecord();
      hitAnything := false;
      var closestSoFar := tMax;
      for i := 0 to |sceneObjects|
        invariant hitAnything <==> ClosestHit(sceneObjects[..i], ray, tMin, tMax, sqrt).Some?
        invariant closestSoFar == ClosestSoFar(ClosestHit(sceneObjects[..i], ray, tMin, tMax, sqrt), tMax)
        invariant hitAnything ==> rec.Written() == ClosestHit(sceneObjects[..i], ray, tMin, tMax, sqrt).value
        invariant !hitAnything ==> unchanged(rec)
        invariant rec.scatteredRay == old(rec.scatteredRay) && rec.attenuation == old(rec.attenuation)
      {
        ClosestHitStep(sceneObjects, i, ray, tMin, tMax, sqrt);
        var obj := sceneObjects[i];
        var hit := obj.Hit(ray, tMin, closestSoFar, tempRec, sqrt);
        if hit {
          hitAnything := true;
          closestSoFar := tempRec.t;
          rec.t := tempRec.t;
          rec.p := tempRec.p;
          rec.normal := tempRec.normal;
          rec.frontFace := tempRec.frontFace;
          rec.material := tempRec.material;
          assert rec.Written() == tempRec.Written();
        }
      }
      assert sceneObjects[..|sceneObjects|] == sceneObjects;
    }
  }

  /** The scan reports a hit of one of the objects within [tMin, tMax],
      as that object alone would report it, and no object meets the ray
      in [tMin, tMax] before it. */
  lemma {:induction false} ClosestHitNearest(objects: seq<Sphere>, ray: Ray, tMin: real, tMax: real, sqrt: real -> real)
    requires SqrtSpec(sqrt) && 0.0 < ray.direction.LengthSquared() && Proper(objects)
    ensures var r := ClosestHit(objects, ray, tMin, tMax, sqrt);
      r.Some? ==> (tMin <= r.value.t <= tMax &&
        exists k :: 0 <= k < |objects| && objects[k].Intersect(ray, tMin, tMax, sqrt) == r)
    ensures forall k :: 0 <= k < |objects| && objects[k].Root(ray, tMin, tMax, sqrt).Some? ==>
      var r := ClosestHit(objects, ray, tMin, tMax, sqrt);
      r.Some? && r.value.t <= objects[k].Root(ray, tMin, tMax, sqrt).value
    decreases |objects|
  {
    if objects != [] {
      var n := |objects| - 1;
      ClosestHitStep(objects, n, ray, tMin, tMax, sqrt);
      assert objects[..n + 1] == objects;
      var init := objects[..n];
      ClosestHitNearest(init, ray, tMin, tMax, sqrt);
      var earlier := ClosestHit(init, ray, tMin, tMax, sqrt);
      var b := ClosestSoFar(earlier, tMax);
      var last := objects[n];
      RootRestrict(last, ray, tMin, b, tMax, sqrt);
      var r := ClosestHit(objects, ray, tMin, tMax, sqrt);
      if earlier.Some? {
        var k :| 0 <= k < |init| && init[k].Intersect(ray, tMin, tMax, sqrt) == earlier;
        assert objects[k] == init[k];
      }
      forall k | 0 <= k < n && objects[k].Root(ray, tMin, tMax, sqrt).Some?
        ensures r.Some? && r.value.t <= objects[k].Root(ray, tMin, tMax, sqrt).value
      {
        assert objects[k] == init[k];
      }
    }
  }

  /** `Scene.hit` finds the nearest point at which the ray meets any of
      the spheres within [tMin, tMax], and reports a miss exactly when
      there is no such point. */
  lemma SceneHitNearest(objects: seq<Sphere>, ray: Ray, tMin: real, tMax: real, sqrt: real -> real)
    requires SqrtSpec(sqrt) && 0.0 < ray.direction.LengthSquared() && Proper(objects)
    ensures var r := ClosestHit(objects, ray, tMin, tMax, sqrt);
      r.Some? ==> (tMin <= r.value.t <= tMax && r.value.p == ray.At(r.value.t) &&
        exists k :: 0 <= k < |objects| && objects[k].OnSurface(r.value.p) && r.value.material == objects[k].material)
    ensures forall k, t :: 0 <= k < |objects| && tMin <= t <= tMax && objects[k].OnSurface(ray.At(t)) ==>
      var r := ClosestHit(objects, ray, tMin, tMax, sqrt);
      r.Some? && r.value.t <= t
  {
    var r := ClosestHit(objects, ray, tMin, tMax, sqrt);
    ClosestHitNearest(objects, ray, tMin, tMax, sqrt);
    if r.Some? {
      var k :| 0 <= k < |objects| && objects[k].Intersect(ray, tMin, tMax, sqrt) == r;
    }
    forall k, t | 0 <= k < |objects| && tMin <= t <= tMax && objects[k].OnSurface(ray.At(t))
      ensures r.Some? && r.value.t <= t
    {
      RootNearest(objects[k], ray, tMin, tMax, sqrt);
    }
  }
}
