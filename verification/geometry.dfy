/** Points, extended reals and axis-aligned bounding boxes.
    Floating-point values are modelled as reals; the IEEE infinities that the
    acceleration structure relies on are made explicit in `Ext`. */
module Geometry {

  /** A real extended with the two infinities. Distances along a ray, the
      closest-hit distance `its.t` and the slab-test result live here. */
  datatype Ext = NegInf | Fin(v: real) | PosInf

  /** IEEE `<` on extended reals (no NaN). */
  predicate Less(a: Ext, b: Ext)
  {
    match (a, b)
    case (NegInf, NegInf) => false
    case (NegInf, _) => true
    case (Fin(x), Fin(y)) => x < y
    case (Fin(_), PosInf) => true
    case (_, _) => false
  }

  predicate LessEq(a: Ext, b: Ext)
  {
    a == b || Less(a, b)
  }

  function MinExt(a: Ext, b: Ext): (r: Ext)
    ensures LessEq(r, a) && LessEq(r, b)
    ensures r == a || r == b
  {
    if Less(b, a) then b else a
  }

  lemma LessIsStrictTotalOrder(a: Ext, b: Ext, c: Ext)
    ensures !Less(a, a)
    ensures Less(a, b) ==> !Less(b, a)
    ensures Less(a, b) && Less(b, c) ==> Less(a, c)
    ensures a == b || Less(a, b) || Less(b, a)
  {
  }

  /** `MinExt` is a semilattice meet: commutative, associative, idempotent. */
  lemma MinExtLaws(a: Ext, b: Ext, c: Ext)
    ensures MinExt(a, b) == MinExt(b, a)
    ensures MinExt(MinExt(a, b), c) == MinExt(a, MinExt(b, c))
    ensures MinExt(a, a) == a
  {
  }

  /** Scaling both sides of an inequality by a non-zero factor. */
  lemma ScaleOrder(a: real, b: real, d: real)
    requires d != 0.0
    ensures d > 0.0 ==> (a * d <= b * d <==> a <= b)
    ensures d < 0.0 ==> (a * d <= b * d <==> b <= a)
  {
    assert b * d - a * d == (b - a) * d;
    if d > 0.0 {
      if a < b { assert (b - a) * d > 0.0; }
      if b < a { assert (a - b) * d > 0.0; }
    } else {
      if a < b { assert (b - a) * (-d) > 0.0; }
      if b < a { assert (a - b) * (-d) > 0.0; }
    }
  }

  datatype Axis = X | Y | Z

  datatype Vec3 = Vec3(x: real, y: real, z: real) {
    function Get(a: Axis): real
    {
      match a
      case X => x
      case Y => y
      case Z => z
    }
  }

  function Min(a: real, b: real): real { if a <= b then a else b }
  function Max(a: real, b: real): real { if a >= b then a else b }
  function MinInt(a: int, b: int): int { if a <= b then a else b }
  function MaxInt(a: int, b: int): int { if a >= b then a else b }

  /** Products of non-negative factors grow with each factor. */
  lemma MulMonotone(a: real, b: real, c: real, d: real)
    requires 0.0 <= a <= c && 0.0 <= b <= d
    ensures a * b <= c * d
  {
    assert c * b - a * b == (c - a) * b;
    assert c * d - c * b == c * (d - b);
  }

  /** An axis-aligned box. `Empty` is the box whose minimum corner is +inf
      and whose maximum corner is -inf: it is the identity of `Extend`. */
  datatype Bounds = Empty | Box(lo: Vec3, hi: Vec3)

  /** Union of two boxes: componentwise minimum of the minima and maximum of
      the maxima, with `Empty` absorbed. */
  function Extend(a: Bounds, b: Bounds): (r: Bounds)
    ensures a.Empty? ==> r == b
    ensures b.Empty? ==> r == a
    ensures r.Empty? <==> a.Empty? && b.Empty?
    ensures Contains(r, a) && Contains(r, b)
    ensures Proper(a) && Proper(b) ==> Proper(r)
  {
    match (a, b)
    case (Empty, _) => b
    case (_, Empty) => a
    case (Box(l1, h1), Box(l2, h2)) =>
      Box(Vec3(Min(l1.x, l2.x), Min(l1.y, l2.y), Min(l1.z, l2.z)),
          Vec3(Max(h1.x, h2.x), Max(h1.y, h2.y), Max(h1.z, h2.z)))
  }

  /** A box whose minimum corner is below its maximum corner on every axis
      (or the empty box). Every box built from primitives is proper. */
  predicate Proper(b: Bounds)
  {
    b.Box? ==> b.lo.x <= b.hi.x && b.lo.y <= b.hi.y && b.lo.z <= b.hi.z
  }

  /** Point containment: the point lies in the closed box on every axis. */
  predicate ContainsPoint(b: Bounds, p: Vec3)
  {
    b.Box? &&
    b.lo.x <= p.x <= b.hi.x && b.lo.y <= p.y <= b.hi.y && b.lo.z <= p.z <= b.hi.z
  }

  /** Box containment. The empty box is contained in every box, and a box
      is contained in `Empty` only when it is empty itself. */
  predicate Contains(outer: Bounds, inner: Bounds)
  {
    inner.Empty? ||
    (outer.Box? &&
     outer.lo.x <= inner.lo.x && inner.hi.x <= outer.hi.x &&
     outer.lo.y <= inner.lo.y && inner.hi.y <= outer.hi.y &&
     outer.lo.z <= inner.lo.z && inner.hi.z <= outer.hi.z)
  }

  lemma ContainsTransitive(a: Bounds, b: Bounds, c: Bounds)
    requires Contains(a, b) && Contains(b, c)
    ensures Contains(a, c)
  {
  }

  lemma ContainsPointTransitive(a: Bounds, b: Bounds, p: Vec3)
    requires Contains(a, b) && ContainsPoint(b, p)
    ensures ContainsPoint(a, p)
  {
  }

  /** `Extend` is the least upper bound for containment. */
  lemma ExtendIsLeastUpperBound(a: Bounds, b: Bounds, c: Bounds)
    ensures Contains(c, Extend(a, b)) <==> Contains(c, a) && Contains(c, b)
  {
  }

  lemma ExtendCommutative(a: Bounds, b: Bounds)
    ensures Extend(a, b) == Extend(b, a)
  {
  }

  lemma ExtendAssociative(a: Bounds, b: Bounds, c: Bounds)
    ensures Extend(Extend(a, b), c) == Extend(a, Extend(b, c))
  {
  }

  /** The axis of greatest extent; ties go to the earlier axis. */
  function MaxAxis(d: Vec3): (a: Axis)
    ensures forall b: Axis :: d.Get(b) <= d.Get(a)
  {
    if d.x >= d.y && d.x >= d.z then X
    else if d.y >= d.z then Y
    else Z
  }

  /** The surface area of a box, `2 (dx dy + dx dz + dy dz)` over its diagonal.
      An empty box has diagonal (-inf, -inf, -inf) and hence area +inf. */
  function SurfaceArea(b: Bounds): (r: Ext)
    ensures r.PosInf? <==> b.Empty?
    ensures b.Box? && b.lo.x <= b.hi.x && b.lo.y <= b.hi.y && b.lo.z <= b.hi.z
            ==> r.Fin? && r.v >= 0.0
  {
    match b
    case Empty => PosInf
    case Box(lo, hi) =>
      var dx, dy, dz := hi.x - lo.x, hi.y - lo.y, hi.z - lo.z;
      assert dx >= 0.0 && dy >= 0.0 ==> dx * dy >= 0.0;
      assert dx >= 0.0 && dz >= 0.0 ==> dx * dz >= 0.0;
      assert dy >= 0.0 && dz >= 0.0 ==> dy * dz >= 0.0;
      Fin(2.0 * (dx * dy + dx * dz + dy * dz))
  }

  /** A proper box inside another has no larger surface area. */
  lemma {:induction false} AreaMonotone(inner: Bounds, outer: Bounds)
    requires inner.Box? && Proper(inner) && Proper(outer) && Contains(outer, inner)
    ensures SurfaceArea(inner).Fin? && SurfaceArea(outer).Fin?
    ensures SurfaceArea(inner).v <= SurfaceArea(outer).v
  {
    assert outer.Box?;
    var dx, dy, dz := inner.hi.x - inner.lo.x, inner.hi.y - inner.lo.y, inner.hi.z - inner.lo.z;
    var ex, ey, ez := outer.hi.x - outer.lo.x, outer.hi.y - outer.lo.y, outer.hi.z - outer.lo.z;
    assert 0.0 <= dx <= ex && 0.0 <= dy <= ey && 0.0 <= dz <= ez;
    FacesMonotone(dx, dy, dz, ex, ey, ez);
    assert SurfaceArea(inner) == Fin(2.0 * (dx * dy + dx * dz + dy * dz));
    assert SurfaceArea(outer) == Fin(2.0 * (ex * ey + ex * ez + ey * ez));
  }

  /** The area formula grows with each extent. */
  lemma FacesMonotone(dx: real, dy: real, dz: real, ex: real, ey: real, ez: real)
    requires 0.0 <= dx <= ex && 0.0 <= dy <= ey && 0.0 <= dz <= ez
    ensures 2.0 * (dx * dy + dx * dz + dy * dz) <= 2.0 * (ex * ey + ex * ez + ey * ez)
  {
    MulMonotone(dx, dy, ex, ey);
    MulMonotone(dx, dz, ex, ez);
    MulMonotone(dy, dz, ey, ez);
  }

  /** The longest axis of a box's diagonal, as `Bounds::diagonal().maxComponentIndex()`.
      An empty box has all-equal (infinite) diagonal components and yields the first axis. */
  function SplitAxis(b: Bounds): (a: Axis)
    ensures b.Empty? ==> a == X
    ensures b.Box? ==> forall c: Axis :: b.hi.Get(c) - b.lo.Get(c) <= b.hi.Get(a) - b.lo.Get(a)
    ensures b.Box? && a == Y ==> b.hi.x - b.lo.x < b.hi.y - b.lo.y
    ensures b.Box? && a == Z ==> b.hi.x - b.lo.x < b.hi.z - b.lo.z && b.hi.y - b.lo.y < b.hi.z - b.lo.z
  {
    match b
    case Empty => X
    case Box(lo, hi) => MaxAxis(Vec3(hi.x - lo.x, hi.y - lo.y, hi.z - lo.z))
  }

  /** Box centre; the centre of the empty box is a NaN point, reported as `NoCenter`. */
  datatype Center = NoCenter | At(p: Vec3)

  function BoxCenter(b: Bounds): (c: Center)
    ensures b.Box? && b.lo.x <= b.hi.x && b.lo.y <= b.hi.y && b.lo.z <= b.hi.z
            ==> c.At? && ContainsPoint(b, c.p)
    ensures c.NoCenter? <==> b.Empty?
  {
    match b
    case Empty => NoCenter
    case Box(lo, hi) => At(Vec3((lo.x + hi.x) / 2.0, (lo.y + hi.y) / 2.0, (lo.z + hi.z) / 2.0))
  }
}
