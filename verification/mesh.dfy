/** The triangle mesh as a primitive provider for the acceleration
    structure: the primitive count, a triangle's bounding box and its
    centroid. */
module Mesh {
  import opened Geometry
  import opened Provider
  import opened Sah
  import opened Bvh

  /** A triangle as the indices of its three corners in the vertex list. */
  datatype Triangle = Triangle(a: int, b: int, c: int)

  /** `m_triangles` and the vertex positions of `m_vertices`. */
  datatype TriangleMesh = TriangleMesh(triangles: seq<Triangle>, vertices: seq<Vec3>) {
    /** Every corner index refers to a vertex. */
    predicate Valid()
    {
      forall i :: 0 <= i < |triangles| ==>
        0 <= triangles[i].a < |vertices| && 0 <= triangles[i].b < |vertices| && 0 <= triangles[i].c < |vertices|
    }

    /** The three corner positions of triangle `i`. */
    function Corners(i: nat): (ps: (Vec3, Vec3, Vec3))
      requires Valid() && i < |triangles|
    {
      (vertices[triangles[i].a], vertices[triangles[i].b], vertices[triangles[i].c])
    }
  }

  /** `numberOfPrimitives`: one primitive per triangle. */
  function NumberOfPrimitives(mesh: TriangleMesh): nat
  {
    |mesh.triangles|
  }

  function Min3(x: real, y: real, z: real): (m: real)
    ensures m <= x && m <= y && m <= z
    ensures m == x || m == y || m == z
  {
    Min(x, Min(y, z))
  }

  function Max3(x: real, y: real, z: real): (m: real)
    ensures m >= x && m >= y && m >= z
    ensures m == x || m == y || m == z
  {
    Max(x, Max(y, z))
  }

  /** `getBoundingBox(i)`: per axis the minimum and the maximum of the three
      corners. The box is proper, contains all three corners, and is tight:
      each of its faces passes through a corner. */
  function TriangleBox(mesh: TriangleMesh, i: nat): (b: Bounds)
    requires mesh.Valid() && i < |mesh.triangles|
    ensures b.Box? && Proper(b)
    ensures var (p, q, r) := mesh.Corners(i);
            ContainsPoint(b, p) && ContainsPoint(b, q) && ContainsPoint(b, r)
    ensures var (p, q, r) := mesh.Corners(i);
            forall ax: Axis ::
              && (b.lo.Get(ax) == p.Get(ax) || b.lo.Get(ax) == q.Get(ax) || b.lo.Get(ax) == r.Get(ax))
              && (b.hi.Get(ax) == p.Get(ax) || b.hi.Get(ax) == q.Get(ax) || b.hi.Get(ax) == r.Get(ax))
  {
    var (p, q, r) := mesh.Corners(i);
    Box(Vec3(Min3(p.x, q.x, r.x), Min3(p.y, q.y, r.y), Min3(p.z, q.z, r.z)),
        Vec3(Max3(p.x, q.x, r.x), Max3(p.y, q.y, r.y), Max3(p.z, q.z, r.z)))
  }

  /** `getCentroid(i)`: the per-axis average of the three corners. */
  function TriangleCentroid(mesh: TriangleMesh, i: nat): (c: Vec3)
    requires mesh.Valid() && i < |mesh.triangles|
    ensures var (p, q, r) := mesh.Corners(i);
            forall ax: Axis :: 3.0 * c.Get(ax) == p.Get(ax) + q.Get(ax) + r.Get(ax)
  {
    var (p, q, r) := mesh.Corners(i);
    Vec3((p.x + q.x + r.x) / 3.0, (p.y + q.y + r.y) / 3.0, (p.z + q.z + r.z) / 3.0)
  }

  /** The centroid of a triangle lies inside the triangle's bounding box. */
  lemma {:induction false} CentroidInsideBox(mesh: TriangleMesh, i: nat)
    requires mesh.Valid() && i < |mesh.triangles|
    ensures ContainsPoint(TriangleBox(mesh, i), TriangleCentroid(mesh, i))
  {
    var b, c := TriangleBox(mesh, i), TriangleCentroid(mesh, i);
    var (p, q, r) := mesh.Corners(i);
    AverageBetween(p.x, q.x, r.x, c.x);
    AverageBetween(p.y, q.y, r.y, c.y);
    AverageBetween(p.z, q.z, r.z, c.z);
  }

  /** The average of three numbers lies between their minimum and maximum. */
  lemma AverageBetween(x: real, y: real, z: real, m: real)
    requires 3.0 * m == x + y + z
    ensures Min3(x, y, z) <= m <= Max3(x, y, z)
  {
  }

  /** The mesh as the acceleration structure sees it; indices outside the
      triangle list are never asked for and get an empty box. */
  function AsPrimitives(mesh: TriangleMesh): (prims: Primitives)
    requires mesh.Valid()
    ensures prims.count == NumberOfPrimitives(mesh)
    ensures forall i :: 0 <= i < prims.count ==>
              prims.box(i) == TriangleBox(mesh, i) && prims.centroid(i) == TriangleCentroid(mesh, i)
  {
    Primitives(|mesh.triangles|,
      i => if 0 <= i < |mesh.triangles| then TriangleCentroid(mesh, i) else Vec3(0.0, 0.0, 0.0),
      i => if 0 <= i < |mesh.triangles| then TriangleBox(mesh, i) else Empty)
  }

  /** Every triangle primitive has a proper box that contains its centroid. */
  lemma MeshPrimitivesConsistent(mesh: TriangleMesh)
    requires mesh.Valid()
    ensures AsPrimitives(mesh).ProperBoxes()
    ensures forall i :: 0 <= i < AsPrimitives(mesh).count ==>
              ContainsPoint(AsPrimitives(mesh).box(i), AsPrimitives(mesh).centroid(i))
  {
    forall i | 0 <= i < |mesh.triangles|
      ensures ContainsPoint(TriangleBox(mesh, i), TriangleCentroid(mesh, i))
    {
      CentroidInsideBox(mesh, i);
    }
  }

  /** The constructor's last step, `buildAccelerationStructure` over the
      loaded triangles: the index list holds every triangle exactly once,
      a non-empty mesh gets a well-formed hierarchy over all of them whose
      root box contains every corner of every triangle, and an empty mesh
      gets the single empty node. */
  method BuildMesh(mesh: TriangleMesh) returns (accel: Accel)
    requires mesh.Valid()
    ensures IsPermutation(accel.indices, NumberOfPrimitives(mesh))
    ensures |accel.nodes| >= 1
    ensures |mesh.triangles| == 0 ==> accel.nodes == [Node(Empty, 0, 0)]
    ensures |mesh.triangles| > 0 ==>
              (!accel.nodes[0].IsLeaf() <==> |mesh.triangles| > 2 && HasPlane(RootRange(AsPrimitives(mesh))))
    ensures |mesh.triangles| > 0 ==>
              Tree(AsPrimitives(mesh), accel.nodes, accel.indices, 0, 0, |mesh.triangles|, 1, |accel.nodes|)
    ensures |mesh.triangles| > 0 ==>
              forall t :: 0 <= t < |mesh.triangles| ==> CornersInside(mesh, t, accel.nodes[0].aabb)
  {
    var prims := AsPrimitives(mesh);
    accel := Build(prims);
    if |mesh.triangles| > 0 {
      forall t | 0 <= t < |mesh.triangles|
        ensures CornersInside(mesh, t, accel.nodes[0].aabb)
      {
        RootCoversTriangle(mesh, accel, t);
      }
    }
  }

  /** All three corners of triangle `t` lie in `box`. */
  ghost predicate CornersInside(mesh: TriangleMesh, t: nat, box: Bounds)
    requires mesh.Valid() && t < |mesh.triangles|
  {
    var (p, q, r) := mesh.Corners(t);
    ContainsPoint(box, p) && ContainsPoint(box, q) && ContainsPoint(box, r)
  }

  /** The root of a hierarchy over the mesh's triangles covers the corners of
      each triangle, because it covers the triangle's box. */
  lemma RootCoversTriangle(mesh: TriangleMesh, accel: Accel, t: nat)
    requires mesh.Valid() && 0 < |mesh.triangles| && t < |mesh.triangles|
    requires IsPermutation(accel.indices, |mesh.triangles|)
    requires Tree(AsPrimitives(mesh), accel.nodes, accel.indices, 0, 0, |mesh.triangles|, 1, |accel.nodes|)
    ensures CornersInside(mesh, t, accel.nodes[0].aabb)
  {
    var prims := AsPrimitives(mesh);
    var root := accel.nodes[0].aabb;
    var j := PermutationHoldsEveryIndex(accel.indices, |mesh.triangles|, t);
    assert j < |mesh.triangles| by { assert |multiset(accel.indices)| == |multiset(Identity(|mesh.triangles|))|; }
    assert Contains(root, prims.box(accel.indices[j]));
    var box := TriangleBox(mesh, t);
    var (p, q, r) := mesh.Corners(t);
    ContainsPointTransitive(root, box, p);
    ContainsPointTransitive(root, box, q);
    ContainsPointTransitive(root, box, r);
  }
}
