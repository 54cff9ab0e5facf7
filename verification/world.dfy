/**
 The scene of src/world.rs: a list of spheres and the search for the
 nearest intersection along a ray.
 */
module Worlds {
  import opened Options
  import opened Vectors
  import opened Rays
  import opened Hittable
  import opened Spheres

  /** Intersections closer than this are ignored, so that a scattered ray does not hit its own origin. */
  const MinimumSolution: real := 0.0001

  datatype World = World(objects: seq<Sphere>)

  /** `World::new`: a scene without objects. */
  function NewWorld(): (w: World)
    ensures |w.objects| == 0
  {
    World([])
  }

  /** `World::add_object`: the sphere goes last and the others keep their places. */
  function AddObject(w: World, sphere: Sphere): (r: World)
    ensures |r.objects| == |w.objects| + 1
    ensures r.objects[|w.objects|] == sphere
    ensures forall i :: 0 <= i < |w.objects| ==> r.objects[i] == w.objects[i]
  {
    World(w.objects + [sphere])
  }

  /** One sphere's answer to a camera ray with no upper bound on the parameter. */
  function ObjectHit(sphere: Sphere, ray: Ray, sqrt: real -> real): (r: Option<Hit>)
    requires IsSqrt(sqrt)
    requires ray.direction != Zero
    ensures r.Some? ==> && r.value == HitAt(sphere, ray, r.value.solution)
                        && MinimumSolution <= r.value.solution
                        && IsRoot(sphere, ray, r.value.solution)
                        && r.value.normal.Magnitude2() == 1.0
                        && r.value.material.Valid()
    ensures forall t :: MinimumSolution <= t && IsRoot(sphere, ray, t) ==> r.Some? && r.value.solution <= t
  {
    HitSphere(sphere, ray, MinimumSolution, Infinity, sqrt)
  }

  /** Every sphere's answer, in scene order. */
  function ObjectHits(objects: seq<Sphere>, ray: Ray, sqrt: real -> real): (r: seq<Option<Hit>>)
    requires IsSqrt(sqrt)
    requires ray.direction != Zero
    ensures |r| == |objects|
    ensures forall i :: 0 <= i < |objects| ==> r[i] == ObjectHit(objects[i], ray, sqrt)
    decreases |objects|
  {
    if |objects| == 0 then []
    else ObjectHits(objects[..|objects| - 1], ray, sqrt) + [ObjectHit(objects[|objects| - 1], ray, sqrt)]
  }

  /**
   The candidate replaces the best so far when it exists and is not
   farther: bounds are inclusive, so on a tie the later sphere wins.
   */
  function Closer(best: Option<Hit>, candidate: Option<Hit>): (r: Option<Hit>)
    ensures r == best || r == candidate
    ensures r.None? <==> best.None? && candidate.None?
    ensures r.Some? && best.Some? ==> r.value.solution <= best.value.solution
    ensures r.Some? && candidate.Some? ==> r.value.solution <= candidate.value.solution
    ensures best.Some? && candidate.Some? && candidate.value.solution == best.value.solution ==> r == candidate
  {
    if candidate.Some? && (best.None? || candidate.value.solution <= best.value.solution) then candidate
    else best
  }

  /** The nearest of a sequence of answers, folding `Closer` from the front. */
  function Nearest(hits: seq<Option<Hit>>): Option<Hit>
    decreases |hits|
  {
    if |hits| == 0 then None
    else Closer(Nearest(hits[..|hits| - 1]), hits[|hits| - 1])
  }

  /**
   What the fold computes: none exactly when every answer is none; otherwise
   one of the answers, no farther than any other, and strictly nearer than
   every later one.
   */
  lemma {:induction false} NearestSpec(hits: seq<Option<Hit>>)
    ensures Nearest(hits).None? <==> forall i :: 0 <= i < |hits| ==> hits[i].None?
    ensures Nearest(hits).Some? ==>
              forall i :: 0 <= i < |hits| && hits[i].Some? ==> Nearest(hits).value.solution <= hits[i].value.solution
    ensures Nearest(hits).Some? ==>
              exists j :: && 0 <= j < |hits| && hits[j] == Nearest(hits)
                          && forall i :: j < i < |hits| && hits[i].Some? ==> Nearest(hits).value.solution < hits[i].value.solution
    decreases |hits|
  {
    if |hits| > 0 {
      var init := hits[..|hits| - 1];
      var best := Nearest(init);
      NearestSpec(init);
      assert forall i :: 0 <= i < |init| ==> init[i] == hits[i];
      var r := Nearest(hits);
      assert r == Closer(best, hits[|hits| - 1]);
      if r.Some? && r != best {
        assert hits[|hits| - 1] == r;
      } else if best.Some? {
        var j :| && 0 <= j < |init| && init[j] == best
                 && forall i :: j < i < |init| && init[i].Some? ==> best.value.solution < init[i].value.solution;
        assert hits[j] == r;
      }
    }
  }

  /** `World::test_camera_ray` as a function: the nearest of the objects' answers. */
  function NearestHit(w: World, ray: Ray, sqrt: real -> real): (r: Option<Hit>)
    requires IsSqrt(sqrt)
    requires ray.direction != Zero
    ensures r.Some? ==> && MinimumSolution <= r.value.solution
                        && r.value.normal.Magnitude2() == 1.0
                        && r.value.material.Valid()
                        && r.value.point == ray.At(r.value.solution)
                        && ray.direction.Dot(r.value.normal) <= 0.0
  {
    NearestOfObjects(w.objects, ray, sqrt);
    Nearest(ObjectHits(w.objects, ray, sqrt))
  }

  /** The nearest answer is some object's answer, so it carries that answer's guarantees. */
  lemma NearestOfObjects(objects: seq<Sphere>, ray: Ray, sqrt: real -> real)
    requires IsSqrt(sqrt)
    requires ray.direction != Zero
    ensures var r := Nearest(ObjectHits(objects, ray, sqrt));
            r.Some? ==> && MinimumSolution <= r.value.solution
                        && r.value.normal.Magnitude2() == 1.0
                        && r.value.material.Valid()
                        && r.value.point == ray.At(r.value.solution)
                        && ray.direction.Dot(r.value.normal) <= 0.0
  {
    var hits := ObjectHits(objects, ray, sqrt);
    var r := Nearest(hits);
    NearestSpec(hits);
    if r.Some? {
      var j :| 0 <= j < |hits| && hits[j] == r;
      assert r == ObjectHit(objects[j], ray, sqrt);
    }
  }

  /**
   Narrowing the upper bound to a finite `maximum` keeps the unbounded answer
   when it is within the bound and otherwise leaves nothing.
   */
  lemma BoundedHit(sphere: Sphere, ray: Ray, maximum: real, sqrt: real -> real)
    requires IsSqrt(sqrt)
    requires ray.direction != Zero
    ensures var open := ObjectHit(sphere, ray, sqrt);
            HitSphere(sphere, ray, MinimumSolution, Finite(maximum), sqrt) ==
              if open.Some? && open.value.solution <= maximum then open else None
  {
    var open := ObjectHit(sphere, ray, sqrt);
    var bounded := HitSphere(sphere, ray, MinimumSolution, Finite(maximum), sqrt);
    if bounded.Some? {
      assert open.Some? && open.value.solution <= bounded.value.solution;
      assert bounded.value.solution <= open.value.solution;
    } else if open.Some? && open.value.solution <= maximum {
      assert Finite(maximum).Admits(open.value.solution);
    }
  }

  /**
   The state of the scan in `TestCameraRay` after the objects `done`: the best
   hit so far is the fold over them, and the upper bound is its parameter, or
   unbounded while nothing has been hit.
   */
  predicate Scanned(done: seq<Sphere>, ray: Ray, out: Option<Hit>, maximum: Bound, sqrt: real -> real)
    requires IsSqrt(sqrt)
    requires ray.direction != Zero
  {
    && out == Nearest(ObjectHits(done, ray, sqrt))
    && (out.None? ==> maximum == Infinity)
    && (out.Some? ==> maximum == Finite(out.value.solution))
  }

  /** One turn of the loop in `TestCameraRay` extends the fold by one object. */
  lemma ScanStep(done: seq<Sphere>, sphere: Sphere, ray: Ray, out: Option<Hit>, maximum: Bound, sqrt: real -> real)
    requires IsSqrt(sqrt)
    requires ray.direction != Zero
    requires Scanned(done, ray, out, maximum, sqrt)
    ensures var answer := HitSphere(sphere, ray, MinimumSolution, maximum, sqrt);
            Nearest(ObjectHits(done + [sphere], ray, sqrt)) == if answer.Some? then answer else out
  {
    var all := done + [sphere];
    assert all[..|all| - 1] == done;
    var hits := ObjectHits(all, ray, sqrt);
    assert hits == ObjectHits(done, ray, sqrt) + [ObjectHit(sphere, ray, sqrt)];
    assert hits[..|hits| - 1] == ObjectHits(done, ray, sqrt);
    if out.Some? {
      BoundedHit(sphere, ray, out.value.solution, sqrt);
    }
  }

  /**
   One turn of the loop in `TestCameraRay`: ask the next object within the
   current bound, and on a hit keep it and narrow the bound to its parameter.
   */
  method ScanObject(objects: seq<Sphere>, i: nat, ray: Ray, out: Option<Hit>, maximum: Bound, sqrt: real -> real)
    returns (next: Option<Hit>, narrowed: Bound)
    requires IsSqrt(sqrt)
    requires ray.direction != Zero
    requires i < |objects|
    requires Scanned(objects[..i], ray, out, maximum, sqrt)
    ensures Scanned(objects[..i + 1], ray, next, narrowed, sqrt)
  {
    var answer := HitSphere(objects[i], ray, MinimumSolution, maximum, sqrt);
    ScanStep(objects[..i], objects[i], ray, out, maximum, sqrt);
    assert objects[..i + 1] == objects[..i] + [objects[i]];
    match answer {
      case Some(hit) =>
        next, narrowed := Some(hit), Finite(hit.solution);
      case None =>
        next, narrowed := out, maximum;
    }
  }

  /**
   `World::test_camera_ray`: asks every object in turn, narrowing the upper
   bound to the best parameter found so far; the answer is the fold `Nearest`.
   */
  method TestCameraRay(w: World, ray: Ray, sqrt: real -> real) returns (out: Option<Hit>)
    requires IsSqrt(sqrt)
    requires ray.direction != Zero
    ensures out == NearestHit(w, ray, sqrt)
  {
    var maximum := Infinity;
    out := None;
    var i := 0;
    while i < |w.objects|
      invariant 0 <= i <= |w.objects|
      invariant Scanned(w.objects[..i], ray, out, maximum, sqrt)
    {
      out, maximum := ScanObject(w.objects, i, ray, out, maximum, sqrt);
      i := i + 1;
    }
    assert w.objects[..i] == w.objects;
  }

  /**
   The answer is the nearest point of the whole scene: no object meets the ray
   at a parameter of at least `MinimumSolution` before it, and there is no
   answer only when no object meets the ray there at all.
   */
  lemma NearestInScene(w: World, ray: Ray, sqrt: real -> real)
    requires IsSqrt(sqrt)
    requires ray.direction != Zero
    ensures var r := NearestHit(w, ray, sqrt);
            forall i, t :: 0 <= i < |w.objects| && MinimumSolution <= t && IsRoot(w.objects[i], ray, t) ==>
              r.Some? && r.value.solution <= t
    ensures var r := NearestHit(w, ray, sqrt);
            r.Some? ==> exists i :: 0 <= i < |w.objects| && r.value == HitAt(w.objects[i], ray, r.value.solution)
  {
    var hits := ObjectHits(w.objects, ray, sqrt);
    NearestSpec(hits);
    var r := NearestHit(w, ray, sqrt);
    forall i, t | 0 <= i < |w.objects| && MinimumSolution <= t && IsRoot(w.objects[i], ray, t)
      ensures r.Some? && r.value.solution <= t
    {
      assert hits[i].Some?;
    }
    if r.Some? {
      var j :| 0 <= j < |hits| && hits[j] == r;
      assert r == ObjectHit(w.objects[j], ray, sqrt);
    }
  }
}
