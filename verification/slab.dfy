/** The ray/box slab test of the acceleration structure (`intersectAABB`). */
module Slab {
  import opened Geometry

  datatype Ray = Ray(origin: Vec3, direction: Vec3) {
    /** The point `origin + t * direction`. */
    function At(t: real): Vec3
    {
      Vec3(origin.x + t * direction.x, origin.y + t * direction.y, origin.z + t * direction.z)
    }

    /** Every direction component is non-zero, so every slab division is defined. */
    predicate Oblique()
    {
      direction.x != 0.0 && direction.y != 0.0 && direction.z != 0.0
    }
  }

  /** Near and far crossing of one slab `[lo, hi]` by the coordinate `o + t d`. */
  function SlabNear(lo: real, hi: real, o: real, d: real): real
    requires d != 0.0
  {
    Min((lo - o) / d, (hi - o) / d)
  }

  function SlabFar(lo: real, hi: real, o: real, d: real): real
    requires d != 0.0
  {
    Max((lo - o) / d, (hi - o) / d)
  }

  /** Entry distance: the largest near crossing over the three axes. */
  function EntryDistance(b: Bounds, ray: Ray): real
    requires b.Box? && ray.Oblique()
  {
    var o, d := ray.origin, ray.direction;
    Max(Max(SlabNear(b.lo.x, b.hi.x, o.x, d.x), SlabNear(b.lo.y, b.hi.y, o.y, d.y)),
        SlabNear(b.lo.z, b.hi.z, o.z, d.z))
  }

  /** Exit distance: the smallest far crossing over the three axes. */
  function ExitDistance(b: Bounds, ray: Ray): real
    requires b.Box? && ray.Oblique()
  {
    var o, d := ray.origin, ray.direction;
    Min(Min(SlabFar(b.lo.x, b.hi.x, o.x, d.x), SlabFar(b.lo.y, b.hi.y, o.y, d.y)),
        SlabFar(b.lo.z, b.hi.z, o.z, d.z))
  }

  /** The slab test. A miss (exit before entry, or the whole box behind
      `epsilon`) is +inf; otherwise the entry distance, which may be negative
      when the origin is inside the box. For the empty box the IEEE
      computation yields entry -inf and exit +inf, so it is always entered. */
  function IntersectAABB(b: Bounds, ray: Ray, epsilon: real): (r: Ext)
    requires ray.Oblique()
    ensures b.Empty? <==> r.NegInf?
    ensures b.Box? && r.Fin? ==> r.v == EntryDistance(b, ray)
  {
    if b.Empty? then NegInf
    else
      var tNear, tFar := EntryDistance(b, ray), ExitDistance(b, ray);
      if tFar < tNear then PosInf
      else if tFar < epsilon then PosInf
      else Fin(tNear)
  }

  /** Per-axis fact: a ray coordinate `c = o + t d` inside the slab lies
      between the two crossings. */
  lemma InsideSlab(lo: real, hi: real, o: real, d: real, t: real, c: real)
    requires d != 0.0 && lo <= hi && c == o + t * d
    ensures lo <= c <= hi <==> SlabNear(lo, hi, o, d) <= t <= SlabFar(lo, hi, o, d)
  {
    var t1, t2 := (lo - o) / d, (hi - o) / d;
    assert t1 * d == lo - o;
    assert t2 * d == hi - o;
    SlabSide(lo, t1, o, d, t, c);
    SlabSide(hi, t2, o, d, t, c);
    ScaleOrder(t1, t2, d);
  }

  /** One slab plane `x`, crossed at parameter `tx`: which side of it the
      ray coordinate `c = o + t d` lies on is decided by comparing `t` with
      `tx`, in an order that depends on the sign of `d`. */
  lemma SlabSide(x: real, tx: real, o: real, d: real, t: real, c: real)
    requires d != 0.0 && tx * d == x - o && c == o + t * d
    ensures d > 0.0 ==> (x <= c <==> tx <= t) && (c <= x <==> t <= tx)
    ensures d < 0.0 ==> (x <= c <==> t <= tx) && (c <= x <==> tx <= t)
  {
    ScaleOrder(tx, t, d);
    ScaleOrder(t, tx, d);
  }

  /** A point of the ray lies in the box exactly when its parameter lies
      between the entry and the exit distance. */
  lemma InsideBox(b: Bounds, ray: Ray, t: real)
    requires b.Box? && Proper(b) && ray.Oblique()
    ensures ContainsPoint(b, ray.At(t)) <==> EntryDistance(b, ray) <= t <= ExitDistance(b, ray)
  {
    var o, d, p := ray.origin, ray.direction, ray.At(t);
    InsideSlab(b.lo.x, b.hi.x, o.x, d.x, t, p.x);
    InsideSlab(b.lo.y, b.hi.y, o.y, d.y, t, p.y);
    InsideSlab(b.lo.z, b.hi.z, o.z, d.z, t, p.z);
  }

  /** The slab test misses exactly when no point of the ray at distance
      `epsilon` or more lies in the box. */
  lemma {:induction false} MissIffNoPointAhead(b: Bounds, ray: Ray, epsilon: real)
    requires b.Box? && Proper(b) && ray.Oblique()
    ensures IntersectAABB(b, ray, epsilon).PosInf?
            <==> !exists t :: epsilon <= t && ContainsPoint(b, ray.At(t))
  {
    var tNear, tFar := EntryDistance(b, ray), ExitDistance(b, ray);
    if !IntersectAABB(b, ray, epsilon).PosInf? {
      InsideBox(b, ray, tFar);
      assert epsilon <= tFar && ContainsPoint(b, ray.At(tFar));
    } else {
      forall t | epsilon <= t
        ensures !ContainsPoint(b, ray.At(t))
      {
        InsideBox(b, ray, t);
      }
    }
  }

  /** Pruning is sound: a point of the ray at distance `t >= epsilon` inside
      the box means the slab test reports an entry no later than `t`. */
  lemma {:induction false} EntryNoLaterThanHit(b: Bounds, ray: Ray, epsilon: real, t: real)
    requires ray.Oblique()
    requires epsilon <= t && ContainsPoint(b, ray.At(t))
    ensures LessEq(IntersectAABB(b, ray, epsilon), Fin(t))
  {
    assert Proper(b);
    InsideBox(b, ray, t);
  }
}
