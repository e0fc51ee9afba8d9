/** Ray traversal of the bounding-volume hierarchy: ordered, pruned descent
    through the nodes, the leaf loop over primitives, the public entry points,
    and the proof that traversal finds the same closest hit as testing every
    primitive. */
module Traversal {
  import opened Geometry
  import opened Slab
  import opened Provider
  import opened Bvh

  /** The part of the intersection record traversal reads and writes: the
      distance of the closest hit so far (+inf for a fresh record) and the
      primitive that produced it. */
  datatype Its = Its(t: Ext, prim: int)

  /** The result of an intersection call: whether it found a closer hit, and
      the record after the call. */
  datatype Outcome = Outcome(hit: bool, its: Its)

  /** The concrete shape's per-primitive `intersect`, given as the distance
      `hitAt(p)` at which the ray meets primitive `p` (`PosInf` for a miss).
      It reports a hit and overwrites the record exactly when that distance is
      strictly smaller than the record's. */
  function IntersectPrimitive(hitAt: int -> Ext, p: int, its: Its): (r: Outcome)
    ensures r.its.t == MinExt(its.t, hitAt(p))
    ensures r.hit <==> Less(r.its.t, its.t)
    ensures !r.hit ==> r.its == its
    ensures r.hit ==> r.its.prim == p
  {
    if Less(hitAt(p), its.t) then Outcome(true, Its(hitAt(p), p)) else Outcome(false, its)
  }

  /** The leaf loop: the primitives in slots `[lo, hi)` are intersected in slot
      order, each against the record the previous ones left; the result is
      the OR of their answers. */
  function ScanLeaf(hitAt: int -> Ext, indices: seq<int>, lo: nat, hi: nat, its: Its): (r: Outcome)
    requires lo <= hi <= |indices|
    ensures LessEq(r.its.t, its.t)
    ensures r.hit <==> Less(r.its.t, its.t)
    ensures !r.hit ==> r.its == its
    ensures r.hit ==> r.its.t == hitAt(r.its.prim) && r.its.prim in indices[lo..hi]
    decreases hi
  {
    if hi == lo then Outcome(false, its)
    else
      var prev := ScanLeaf(hitAt, indices, lo, hi - 1, its);
      var last := IntersectPrimitive(hitAt, indices[hi - 1], prev.its);
      LessIsStrictTotalOrder(last.its.t, prev.its.t, its.t);
      Outcome(prev.hit || last.hit, last.its)
  }

  /** `intersectNode`. A leaf scans its primitives. An internal node computes
      the slab entry of both children and visits the one entered first first
      (the right one on a tie); each child is visited only while its entry is
      strictly before the closest hit found so far. */
  function IntersectNode(nodes: seq<Node>, indices: seq<int>, hitAt: int -> Ext, ray: Ray,
                         epsilon: real, k: nat, its: Its): (r: Outcome)
    requires Linked(nodes, indices) && k < |nodes| && ray.Oblique()
    ensures LessEq(r.its.t, its.t)
    ensures r.hit <==> Less(r.its.t, its.t)
    ensures !r.hit ==> r.its == its
    ensures r.hit ==> r.its.t == hitAt(r.its.prim) && r.its.prim in indices
    decreases |nodes| - k, 0
  {
    var node := nodes[k];
    assert LinkedAt(nodes, indices, k);
    if node.IsLeaf() then
      var r := ScanLeaf(hitAt, indices, node.leftFirst, node.leftFirst + node.primitiveCount, its);
      assert r.hit ==> r.its.prim in indices;
      r
    else
      var l, rc := node.LeftChildIndex(), node.RightChildIndex();
      var leftT := IntersectAABB(nodes[l].aabb, ray, epsilon);
      var rightT := IntersectAABB(nodes[rc].aabb, ray, epsilon);
      var first := if Less(leftT, rightT) then l else rc;
      var second := if Less(leftT, rightT) then rc else l;
      var a := Visit(nodes, indices, hitAt, ray, epsilon, first, its);
      var b := Visit(nodes, indices, hitAt, ray, epsilon, second, a.its);
      LessIsStrictTotalOrder(b.its.t, a.its.t, its.t);
      Outcome(a.hit || b.hit, b.its)
  }

  /** Visiting child `c`: recurse only when its slab entry is strictly before
      the record's distance. */
  function Visit(nodes: seq<Node>, indices: seq<int>, hitAt: int -> Ext, ray: Ray,
                 epsilon: real, c: nat, its: Its): (r: Outcome)
    requires Linked(nodes, indices) && c < |nodes| && ray.Oblique()
    ensures LessEq(r.its.t, its.t)
    ensures r.hit <==> Less(r.its.t, its.t)
    ensures !r.hit ==> r.its == its
    ensures r.hit ==> r.its.t == hitAt(r.its.prim) && r.its.prim in indices
    decreases |nodes| - c, 1
  {
    if Less(IntersectAABB(nodes[c].aabb, ray, epsilon), its.t) then
      IntersectNode(nodes, indices, hitAt, ray, epsilon, c, its)
    else
      Outcome(false, its)
  }

  /** The public `intersect`: no primitives, or a root box entered no earlier
      than the record's distance, answer `false` and leave the record alone;
      otherwise the root is traversed. */
  function Intersect(accel: Accel, hitAt: int -> Ext, ray: Ray, epsilon: real, its: Its): (r: Outcome)
    requires |accel.nodes| >= 1 && ray.Oblique()
    requires |accel.indices| > 0 ==> Linked(accel.nodes, accel.indices)
    ensures |accel.indices| == 0 ==> r == Outcome(false, its)
    ensures !Less(IntersectAABB(accel.nodes[0].aabb, ray, epsilon), its.t) ==> r == Outcome(false, its)
    ensures LessEq(r.its.t, its.t)
    ensures r.hit <==> Less(r.its.t, its.t)
    ensures !r.hit ==> r.its == its
    ensures r.hit ==> r.its.t == hitAt(r.its.prim) && r.its.prim in accel.indices
  {
    if |accel.indices| == 0 then Outcome(false, its)
    else Visit(accel.nodes, accel.indices, hitAt, ray, epsilon, 0, its)
  }

  /** `getBoundingBox`: the root node's box. */
  function GetBoundingBox(accel: Accel): Bounds
    requires |accel.nodes| >= 1
  {
    accel.nodes[0].aabb
  }

  /** `getCentroid`: the centre of the root node's box; it lies inside a
      proper box and is undefined (NaN in floating point) for the empty one. */
  function GetCentroid(accel: Accel): (c: Center)
    requires |accel.nodes| >= 1
    ensures Proper(accel.nodes[0].aabb) && accel.nodes[0].aabb.Box? ==>
              c.At? && ContainsPoint(GetBoundingBox(accel), c.p)
    ensures c.NoCenter? <==> accel.nodes[0].aabb.Empty?
  {
    BoxCenter(GetBoundingBox(accel))
  }

  /** Reference definition: the closest of the hits of the primitives listed
      in `s`, +inf when there are none. */
  function ClosestHit(hitAt: int -> Ext, s: seq<int>): (m: Ext)
    ensures forall i :: 0 <= i < |s| ==> LessEq(m, hitAt(s[i]))
    ensures |s| == 0 ==> m == PosInf
    ensures |s| > 0 ==> exists i :: 0 <= i < |s| && m == hitAt(s[i])
  {
    if |s| == 0 then PosInf
    else
      var m := MinExt(ClosestHit(hitAt, s[..|s| - 1]), hitAt(s[|s| - 1]));
      assert forall i :: 0 <= i < |s| - 1 ==> s[..|s| - 1][i] == s[i];
      forall i | 0 <= i < |s| ensures LessEq(m, hitAt(s[i])) {
        if i < |s| - 1 {
          LessIsStrictTotalOrder(m, ClosestHit(hitAt, s[..|s| - 1]), hitAt(s[i]));
        }
      }
      m
  }

  /** A value below every hit of `s` and attained by one of them (or +inf
      for no primitives) is the closest hit. */
  lemma {:induction false} ClosestHitUnique(hitAt: int -> Ext, s: seq<int>, m: Ext)
    requires forall i :: 0 <= i < |s| ==> LessEq(m, hitAt(s[i]))
    requires |s| == 0 ==> m == PosInf
    requires |s| > 0 ==> exists i :: 0 <= i < |s| && m == hitAt(s[i])
    ensures m == ClosestHit(hitAt, s)
  {
    var c := ClosestHit(hitAt, s);
    if |s| > 0 {
      var i :| 0 <= i < |s| && m == hitAt(s[i]);
      var j :| 0 <= j < |s| && c == hitAt(s[j]);
      assert LessEq(c, m) && LessEq(m, c);
      LessIsStrictTotalOrder(c, m, c);
    }
  }

  /** With the same elements, every entry of `t` has a position in `s`. */
  lemma PositionOf(s: seq<int>, t: seq<int>, i: nat) returns (j: nat)
    requires forall x :: x in s <==> x in t
    requires i < |t|
    ensures j < |s| && s[j] == t[i]
  {
    assert t[i] in t;
    j :| 0 <= j < |s| && s[j] == t[i];
  }

  /** The closest hit does not depend on the order the primitives are listed in. */
  lemma {:induction false} ClosestHitSameElements(hitAt: int -> Ext, s: seq<int>, t: seq<int>)
    requires forall x :: x in s <==> x in t
    ensures ClosestHit(hitAt, s) == ClosestHit(hitAt, t)
  {
    var m := ClosestHit(hitAt, s);
    forall i | 0 <= i < |t| ensures LessEq(m, hitAt(t[i])) {
      var j := PositionOf(s, t, i);
    }
    if |s| > 0 {
      var j := PositionOf(t, s, 0);
    }
    if |t| > 0 {
      var j := PositionOf(s, t, 0);
      var i :| 0 <= i < |s| && m == hitAt(s[i]);
      var j2 := PositionOf(t, s, i);
    }
    ClosestHitUnique(hitAt, t, m);
  }

  /** The closest hit of a range is the closer of the closest hits of its two halves. */
  lemma {:induction false} ClosestHitSplit(hitAt: int -> Ext, s: seq<int>, lo: nat, mid: nat, hi: nat)
    requires lo < mid < hi <= |s|
    ensures ClosestHit(hitAt, s[lo..hi]) == MinExt(ClosestHit(hitAt, s[lo..mid]), ClosestHit(hitAt, s[mid..hi]))
  {
    var a, b := ClosestHit(hitAt, s[lo..mid]), ClosestHit(hitAt, s[mid..hi]);
    var m := MinExt(a, b);
    var w := s[lo..hi];
    forall i | 0 <= i < |w| ensures LessEq(m, hitAt(w[i])) {
      if i < mid - lo {
        assert w[i] == s[lo..mid][i];
        LessIsStrictTotalOrder(m, a, hitAt(w[i]));
      } else {
        assert w[i] == s[mid..hi][i - (mid - lo)];
        LessIsStrictTotalOrder(m, b, hitAt(w[i]));
      }
    }
    if m == a {
      var i :| 0 <= i < mid - lo && a == hitAt(s[lo..mid][i]);
      assert w[i] == s[lo..mid][i];
    } else {
      var i :| 0 <= i < hi - mid && b == hitAt(s[mid..hi][i]);
      assert w[i + (mid - lo)] == s[mid..hi][i];
    }
    ClosestHitUnique(hitAt, w, m);
  }

  /** What traversal assumes of the per-primitive intersection: a hit lies
      at distance `epsilon` or more along the ray, inside the primitive's
      bounding box, and is never -inf. */
  ghost predicate HitInBox(prims: Primitives, hitAt: int -> Ext, ray: Ray, epsilon: real, p: int)
  {
    match hitAt(p)
    case NegInf => false
    case PosInf => true
    case Fin(d) => epsilon <= d && ContainsPoint(prims.box(p), ray.At(d))
  }

  /** Every primitive in slots `[lo, hi)` satisfies `HitInBox`. */
  ghost predicate SlotsHitInBox(prims: Primitives, hitAt: int -> Ext, ray: Ray, epsilon: real,
                                indices: seq<int>, lo: nat, hi: nat)
    requires hi <= |indices|
  {
    forall j {:trigger HitInBox(prims, hitAt, ray, epsilon, indices[j])} ::
      lo <= j < hi ==> HitInBox(prims, hitAt, ray, epsilon, indices[j])
  }

  /** Pruning is sound: when some primitive beneath a node is hit before `t`,
      the node's slab entry is before `t` as well, so skipping a node entered
      no earlier than `t` loses no closer hit. */
  lemma {:induction false} PruningIsSound(prims: Primitives, box: Bounds, indices: seq<int>, lo: nat, hi: nat,
      hitAt: int -> Ext, ray: Ray, epsilon: real, t: Ext)
    requires lo <= hi <= |indices| && ray.Oblique()
    requires BoxCovers(prims, box, indices, lo, hi)
    requires SlotsHitInBox(prims, hitAt, ray, epsilon, indices, lo, hi)
    requires Less(ClosestHit(hitAt, indices[lo..hi]), t)
    ensures Less(IntersectAABB(box, ray, epsilon), t)
  {
    var c := ClosestHit(hitAt, indices[lo..hi]);
    var i :| 0 <= i < hi - lo && c == hitAt(indices[lo..hi][i]);
    var p := indices[lo + i];
    assert HitInBox(prims, hitAt, ray, epsilon, p);
    var d := c.v;
    ContainsPointTransitive(box, prims.box(p), ray.At(d));
    EntryNoLaterThanHit(box, ray, epsilon, d);
    LessIsStrictTotalOrder(IntersectAABB(box, ray, epsilon), Fin(d), t);
  }

  /** The leaf loop leaves the record at the closest of its own distance and
      the hits of the leaf's primitives. */
  lemma {:induction false} ScanLeafFindsClosest(hitAt: int -> Ext, indices: seq<int>, lo: nat, hi: nat, its: Its)
    requires lo <= hi <= |indices|
    ensures ScanLeaf(hitAt, indices, lo, hi, its).its.t == MinExt(its.t, ClosestHit(hitAt, indices[lo..hi]))
    decreases hi
  {
    if hi > lo {
      ScanLeafFindsClosest(hitAt, indices, lo, hi - 1, its);
      ScanLeafStep(hitAt, indices, lo, hi, its);
    }
  }

  /** The induction step of `ScanLeafFindsClosest`: one more primitive
      intersected keeps the record at the closest hit so far. */
  lemma ScanLeafStep(hitAt: int -> Ext, indices: seq<int>, lo: nat, hi: nat, its: Its)
    requires lo < hi <= |indices|
    requires ScanLeaf(hitAt, indices, lo, hi - 1, its).its.t == MinExt(its.t, ClosestHit(hitAt, indices[lo..hi - 1]))
    ensures ScanLeaf(hitAt, indices, lo, hi, its).its.t == MinExt(its.t, ClosestHit(hitAt, indices[lo..hi]))
  {
    ScanLeafLast(hitAt, indices, lo, hi, its);
    ClosestHitLast(hitAt, indices, lo, hi);
    FoldOneMore(ScanLeaf(hitAt, indices, lo, hi, its).its.t, ScanLeaf(hitAt, indices, lo, hi - 1, its).its.t,
                its.t, ClosestHit(hitAt, indices[lo..hi - 1]), ClosestHit(hitAt, indices[lo..hi]),
                hitAt(indices[hi - 1]));
  }

  /** Folding one more distance `h` into a running minimum `y` of `t` and
      `c` gives the minimum of `t` and the extended reference `c'`. */
  lemma FoldOneMore(x: Ext, y: Ext, t: Ext, c: Ext, c': Ext, h: Ext)
    requires x == MinExt(y, h) && y == MinExt(t, c) && c' == MinExt(c, h)
    ensures x == MinExt(t, c')
  {
    MinExtLaws(t, c, h);
  }

  /** One more primitive at the end of the leaf loop. */
  lemma ScanLeafLast(hitAt: int -> Ext, indices: seq<int>, lo: nat, hi: nat, its: Its)
    requires lo < hi <= |indices|
    ensures ScanLeaf(hitAt, indices, lo, hi, its).its.t
            == MinExt(ScanLeaf(hitAt, indices, lo, hi - 1, its).its.t, hitAt(indices[hi - 1]))
  {
  }

  /** One more primitive at the end of a slot range of the reference. */
  lemma ClosestHitLast(hitAt: int -> Ext, indices: seq<int>, lo: nat, hi: nat)
    requires lo < hi <= |indices|
    ensures ClosestHit(hitAt, indices[lo..hi])
            == MinExt(ClosestHit(hitAt, indices[lo..hi - 1]), hitAt(indices[hi - 1]))
  {
    var s := indices[lo..hi];
    assert s[..|s| - 1] == indices[lo..hi - 1];
  }

  /** Traversal of a well-formed subtree finds the closest hit among the
      primitives in its slots (or keeps the record when none is closer). */
  lemma {:induction false} NodeFindsClosest(prims: Primitives, nodes: seq<Node>, indices: seq<int>,
      hitAt: int -> Ext, ray: Ray, epsilon: real, k: nat, lo: nat, hi: nat, a: nat, b: nat, its: Its)
    requires Tree(prims, nodes, indices, k, lo, hi, a, b) && Linked(nodes, indices) && ray.Oblique()
    requires SlotsHitInBox(prims, hitAt, ray, epsilon, indices, lo, hi)
    ensures IntersectNode(nodes, indices, hitAt, ray, epsilon, k, its).its.t
            == MinExt(its.t, ClosestHit(hitAt, indices[lo..hi]))
    decreases b - k, 3
  {
    if nodes[k].IsLeaf() {
      LeafFindsClosest(prims, nodes, indices, hitAt, ray, epsilon, k, lo, hi, a, b, its);
    } else {
      var mid := ChildRanges(prims, nodes, indices, k, lo, hi, a, b);
      InternalFindsClosest(prims, nodes, indices, hitAt, ray, epsilon, k, nodes[k].leftFirst, lo, mid, hi, a, b, its);
    }
  }

  /** The leaf case of `NodeFindsClosest`: the leaf loop over the node's slots. */
  lemma LeafFindsClosest(prims: Primitives, nodes: seq<Node>, indices: seq<int>,
      hitAt: int -> Ext, ray: Ray, epsilon: real, k: nat, lo: nat, hi: nat, a: nat, b: nat, its: Its)
    requires Tree(prims, nodes, indices, k, lo, hi, a, b) && Linked(nodes, indices) && ray.Oblique()
    requires nodes[k].IsLeaf()
    ensures IntersectNode(nodes, indices, hitAt, ray, epsilon, k, its).its.t
            == MinExt(its.t, ClosestHit(hitAt, indices[lo..hi]))
  {
    assert nodes[k].leftFirst == lo && nodes[k].leftFirst + nodes[k].primitiveCount == hi;
    ScanLeafFindsClosest(hitAt, indices, lo, hi, its);
  }

  /** The internal-node case of `NodeFindsClosest`: whichever child is
      visited first, both visits together reach the closest hit. */
  lemma {:induction false} InternalFindsClosest(prims: Primitives, nodes: seq<Node>, indices: seq<int>,
      hitAt: int -> Ext, ray: Ray, epsilon: real, k: nat, l: nat, lo: nat, mid: nat, hi: nat, a: nat, b: nat, its: Its)
    requires Linked(nodes, indices) && ray.Oblique() && k < |nodes|
    requires !nodes[k].IsLeaf() && nodes[k].leftFirst == l && k < l && l + 1 < b
    requires lo < mid < hi <= |indices|
    requires Tree(prims, nodes, indices, l, lo, mid, a, b)
    requires Tree(prims, nodes, indices, l + 1, mid, hi, a, b)
    requires SlotsHitInBox(prims, hitAt, ray, epsilon, indices, lo, hi)
    ensures IntersectNode(nodes, indices, hitAt, ray, epsilon, k, its).its.t
            == MinExt(its.t, ClosestHit(hitAt, indices[lo..hi]))
    decreases b - k, 2
  {
    LeftThenRightFindClosest(prims, nodes, indices, hitAt, ray, epsilon, k, l, lo, mid, hi, a, b, its);
    RightThenLeftFindClosest(prims, nodes, indices, hitAt, ray, epsilon, k, l, lo, mid, hi, a, b, its);
    InternalNodeVisitsChildren(nodes, indices, hitAt, ray, epsilon, k, its,
                               MinExt(its.t, ClosestHit(hitAt, indices[lo..hi])));
  }

  /** The internal-node step of `NodeFindsClosest`, left child first: both
      children visited one after the other reach the closest hit of the
      parent's slots. */
  lemma {:induction false} LeftThenRightFindClosest(prims: Primitives, nodes: seq<Node>, indices: seq<int>,
      hitAt: int -> Ext, ray: Ray, epsilon: real, k: nat, l: nat, lo: nat, mid: nat, hi: nat, a: nat, b: nat, its: Its)
    requires Linked(nodes, indices) && ray.Oblique() && k < l && l + 1 < b
    requires lo < mid < hi <= |indices|
    requires Tree(prims, nodes, indices, l, lo, mid, a, b)
    requires Tree(prims, nodes, indices, l + 1, mid, hi, a, b)
    requires SlotsHitInBox(prims, hitAt, ray, epsilon, indices, lo, hi)
    ensures var x := Visit(nodes, indices, hitAt, ray, epsilon, l, its);
            Visit(nodes, indices, hitAt, ray, epsilon, l + 1, x.its).its.t
            == MinExt(its.t, ClosestHit(hitAt, indices[lo..hi]))
    decreases b - k, 1
  {
    TwoVisitsFindClosest(prims, nodes, indices, hitAt, ray, epsilon, k, l, lo, mid, l + 1, mid, hi, a, b, its);
    FoldSplit(hitAt, indices, lo, mid, hi, its.t);
  }

  /** The same step, right child first. */
  lemma {:induction false} RightThenLeftFindClosest(prims: Primitives, nodes: seq<Node>, indices: seq<int>,
      hitAt: int -> Ext, ray: Ray, epsilon: real, k: nat, l: nat, lo: nat, mid: nat, hi: nat, a: nat, b: nat, its: Its)
    requires Linked(nodes, indices) && ray.Oblique() && k < l && l + 1 < b
    requires lo < mid < hi <= |indices|
    requires Tree(prims, nodes, indices, l, lo, mid, a, b)
    requires Tree(prims, nodes, indices, l + 1, mid, hi, a, b)
    requires SlotsHitInBox(prims, hitAt, ray, epsilon, indices, lo, hi)
    ensures var x := Visit(nodes, indices, hitAt, ray, epsilon, l + 1, its);
            Visit(nodes, indices, hitAt, ray, epsilon, l, x.its).its.t
            == MinExt(its.t, ClosestHit(hitAt, indices[lo..hi]))
    decreases b - k, 1
  {
    TwoVisitsFindClosest(prims, nodes, indices, hitAt, ray, epsilon, k, l + 1, mid, hi, l, lo, mid, a, b, its);
    FoldSplit(hitAt, indices, lo, mid, hi, its.t);
  }

  /** Folding a distance with the closest hits of the two halves of a range,
      in either order, folds it with the closest hit of the whole range. */
  lemma FoldSplit(hitAt: int -> Ext, indices: seq<int>, lo: nat, mid: nat, hi: nat, t: Ext)
    requires lo < mid < hi <= |indices|
    ensures var cl, cr := ClosestHit(hitAt, indices[lo..mid]), ClosestHit(hitAt, indices[mid..hi]);
            && MinExt(MinExt(t, cl), cr) == MinExt(t, ClosestHit(hitAt, indices[lo..hi]))
            && MinExt(MinExt(t, cr), cl) == MinExt(t, ClosestHit(hitAt, indices[lo..hi]))
  {
    var cl, cr := ClosestHit(hitAt, indices[lo..mid]), ClosestHit(hitAt, indices[mid..hi]);
    ClosestHitSplit(hitAt, indices, lo, mid, hi);
    MinOfThree(t, cl, cr);
  }

  /** Folding a record distance with two closest hits gives the same result
      in either order. */
  lemma MinOfThree(t: Ext, cl: Ext, cr: Ext)
    ensures MinExt(MinExt(t, cl), cr) == MinExt(t, MinExt(cl, cr))
    ensures MinExt(MinExt(t, cr), cl) == MinExt(t, MinExt(cl, cr))
  {
    MinExtLaws(t, cl, cr);
    MinExtLaws(t, cr, cl);
    MinExtLaws(cl, cr, cr);
  }

  /** An internal node visits both children, the one whose box is entered
      first first: when both visiting orders end at the same distance `m`,
      so does the node. */
  lemma InternalNodeVisitsChildren(nodes: seq<Node>, indices: seq<int>, hitAt: int -> Ext, ray: Ray,
      epsilon: real, k: nat, its: Its, m: Ext)
    requires Linked(nodes, indices) && LinkedAt(nodes, indices, k) && ray.Oblique() && !nodes[k].IsLeaf()
    requires var l := nodes[k].leftFirst;
             Visit(nodes, indices, hitAt, ray, epsilon, l + 1,
                   Visit(nodes, indices, hitAt, ray, epsilon, l, its).its).its.t == m
    requires var l := nodes[k].leftFirst;
             Visit(nodes, indices, hitAt, ray, epsilon, l,
                   Visit(nodes, indices, hitAt, ray, epsilon, l + 1, its).its).its.t == m
    ensures IntersectNode(nodes, indices, hitAt, ray, epsilon, k, its).its.t == m
  {
  }

  /** Two children of node `k` visited one after the other: the record ends
      at the closest of its distance and the hits beneath either child. */
  lemma {:induction false} TwoVisitsFindClosest(prims: Primitives, nodes: seq<Node>, indices: seq<int>,
      hitAt: int -> Ext, ray: Ray, epsilon: real, k: nat,
      c1: nat, lo1: nat, hi1: nat, c2: nat, lo2: nat, hi2: nat, a: nat, b: nat, its: Its)
    requires k < c1 < b && k < c2 < b && Linked(nodes, indices) && ray.Oblique()
    requires Tree(prims, nodes, indices, c1, lo1, hi1, a, b)
    requires Tree(prims, nodes, indices, c2, lo2, hi2, a, b)
    requires SlotsHitInBox(prims, hitAt, ray, epsilon, indices, lo1, hi1)
    requires SlotsHitInBox(prims, hitAt, ray, epsilon, indices, lo2, hi2)
    ensures var x := Visit(nodes, indices, hitAt, ray, epsilon, c1, its);
            Visit(nodes, indices, hitAt, ray, epsilon, c2, x.its).its.t
            == MinExt(MinExt(its.t, ClosestHit(hitAt, indices[lo1..hi1])), ClosestHit(hitAt, indices[lo2..hi2]))
    decreases b - k, 0
  {
    var x := Visit(nodes, indices, hitAt, ray, epsilon, c1, its);
    VisitFindsClosest(prims, nodes, indices, hitAt, ray, epsilon, c1, lo1, hi1, a, b, its);
    VisitFindsClosest(prims, nodes, indices, hitAt, ray, epsilon, c2, lo2, hi2, a, b, x.its);
  }

  /** Visiting a child, pruned or not, leaves the record at the closest of
      its own distance and the hits beneath the child. */
  lemma {:induction false} VisitFindsClosest(prims: Primitives, nodes: seq<Node>, indices: seq<int>,
      hitAt: int -> Ext, ray: Ray, epsilon: real, c: nat, lo: nat, hi: nat, a: nat, b: nat, its: Its)
    requires Tree(prims, nodes, indices, c, lo, hi, a, b) && Linked(nodes, indices) && ray.Oblique()
    requires SlotsHitInBox(prims, hitAt, ray, epsilon, indices, lo, hi)
    ensures Visit(nodes, indices, hitAt, ray, epsilon, c, its).its.t
            == MinExt(its.t, ClosestHit(hitAt, indices[lo..hi]))
    decreases b - c, 4
  {
    if Less(IntersectAABB(nodes[c].aabb, ray, epsilon), its.t) {
      NodeFindsClosest(prims, nodes, indices, hitAt, ray, epsilon, c, lo, hi, a, b, its);
    } else if Less(ClosestHit(hitAt, indices[lo..hi]), its.t) {
      PruningIsSound(prims, nodes[c].aabb, indices, lo, hi, hitAt, ray, epsilon, its.t);
    }
  }

  /** Reference traversal with the optimisation switched off: every node is
      entered and both children are visited, left before right, whatever
      their slab entries. */
  function Exhaustive(nodes: seq<Node>, indices: seq<int>, hitAt: int -> Ext, k: nat, its: Its): (r: Outcome)
    requires Linked(nodes, indices) && k < |nodes|
    ensures LessEq(r.its.t, its.t)
    ensures r.hit <==> Less(r.its.t, its.t)
    decreases |nodes| - k
  {
    var node := nodes[k];
    assert LinkedAt(nodes, indices, k);
    if node.IsLeaf() then
      ScanLeaf(hitAt, indices, node.leftFirst, node.leftFirst + node.primitiveCount, its)
    else
      var a := Exhaustive(nodes, indices, hitAt, node.leftFirst, its);
      var b := Exhaustive(nodes, indices, hitAt, node.leftFirst + 1, a.its);
      LessIsStrictTotalOrder(b.its.t, a.its.t, its.t);
      Outcome(a.hit || b.hit, b.its)
  }

  /** Unpruned traversal of a well-formed subtree reaches the closest hit of
      its slots, whatever the hits are. */
  lemma {:induction false} ExhaustiveFindsClosest(prims: Primitives, nodes: seq<Node>, indices: seq<int>,
      hitAt: int -> Ext, k: nat, lo: nat, hi: nat, a: nat, b: nat, its: Its)
    requires Tree(prims, nodes, indices, k, lo, hi, a, b) && Linked(nodes, indices)
    ensures Exhaustive(nodes, indices, hitAt, k, its).its.t == MinExt(its.t, ClosestHit(hitAt, indices[lo..hi]))
    decreases b - k, 1
  {
    if nodes[k].IsLeaf() {
      ScanLeafFindsClosest(hitAt, indices, lo, hi, its);
    } else {
      var mid := ChildRanges(prims, nodes, indices, k, lo, hi, a, b);
      ExhaustiveInternal(prims, nodes, indices, hitAt, k, nodes[k].leftFirst, lo, mid, hi, a, b, its);
    }
  }

  /** The internal-node step of `ExhaustiveFindsClosest`. */
  lemma {:induction false} ExhaustiveInternal(prims: Primitives, nodes: seq<Node>, indices: seq<int>,
      hitAt: int -> Ext, k: nat, l: nat, lo: nat, mid: nat, hi: nat, a: nat, b: nat, its: Its)
    requires Linked(nodes, indices) && k < |nodes|
    requires !nodes[k].IsLeaf() && nodes[k].leftFirst == l && k < l && l + 1 < b
    requires lo < mid < hi <= |indices|
    requires Tree(prims, nodes, indices, l, lo, mid, a, b)
    requires Tree(prims, nodes, indices, l + 1, mid, hi, a, b)
    ensures Exhaustive(nodes, indices, hitAt, k, its).its.t == MinExt(its.t, ClosestHit(hitAt, indices[lo..hi]))
    decreases b - k, 0
  {
    var x := Exhaustive(nodes, indices, hitAt, l, its);
    var y := Exhaustive(nodes, indices, hitAt, l + 1, x.its);
    assert Exhaustive(nodes, indices, hitAt, k, its).its == y.its;
    ExhaustiveFindsClosest(prims, nodes, indices, hitAt, l, lo, mid, a, b, its);
    ExhaustiveFindsClosest(prims, nodes, indices, hitAt, l + 1, mid, hi, a, b, x.its);
    ClosestHitSplit(hitAt, indices, lo, mid, hi);
    MinExtLaws(its.t, ClosestHit(hitAt, indices[lo..mid]), ClosestHit(hitAt, indices[mid..hi]));
  }

  /** Pruning and near-first ordering are pure optimisations: when every hit
      lies ahead of `epsilon` inside its primitive's box, the optimised
      traversal of a subtree ends with the same distance and the same answer
      as visiting every node. */
  lemma {:induction false} PruningChangesNothing(prims: Primitives, nodes: seq<Node>, indices: seq<int>,
      hitAt: int -> Ext, ray: Ray, epsilon: real, k: nat, lo: nat, hi: nat, a: nat, b: nat, its: Its)
    requires Tree(prims, nodes, indices, k, lo, hi, a, b) && Linked(nodes, indices) && ray.Oblique()
    requires SlotsHitInBox(prims, hitAt, ray, epsilon, indices, lo, hi)
    ensures IntersectNode(nodes, indices, hitAt, ray, epsilon, k, its).its.t
            == Exhaustive(nodes, indices, hitAt, k, its).its.t
    ensures IntersectNode(nodes, indices, hitAt, ray, epsilon, k, its).hit
            == Exhaustive(nodes, indices, hitAt, k, its).hit
  {
    NodeFindsClosest(prims, nodes, indices, hitAt, ray, epsilon, k, lo, hi, a, b, its);
    ExhaustiveFindsClosest(prims, nodes, indices, hitAt, k, lo, hi, a, b, its);
  }

  /** Everything `Build` guarantees of the structure it returns. */
  ghost predicate WellBuilt(prims: Primitives, accel: Accel)
  {
    && IsPermutation(accel.indices, prims.count)
    && |accel.nodes| >= 1
    && (prims.count == 0 ==> accel == Accel([Node(Empty, 0, 0)], []))
    && (prims.count > 0 ==> Tree(prims, accel.nodes, accel.indices, 0, 0, prims.count, 1, |accel.nodes|))
    && (prims.count > 0 ==> Linked(accel.nodes, accel.indices))
  }

  lemma PermutationLength(s: seq<int>, n: nat)
    requires IsPermutation(s, n)
    ensures |s| == n
  {
    assert |multiset(s)| == |s|;
  }

  /** Against a built structure, traversal agrees with testing every
      primitive one by one: the record ends at the closest of its own
      distance and all primitives' hits, and a hit is reported exactly when
      some primitive is strictly closer than the record was. */
  lemma {:induction false} IntersectFindsClosest(prims: Primitives, accel: Accel, hitAt: int -> Ext,
      ray: Ray, epsilon: real, its: Its)
    requires WellBuilt(prims, accel) && ray.Oblique()
    requires forall p :: 0 <= p < prims.count ==> HitInBox(prims, hitAt, ray, epsilon, p)
    ensures |accel.indices| > 0 ==> Linked(accel.nodes, accel.indices)
    ensures Intersect(accel, hitAt, ray, epsilon, its).its.t
            == MinExt(its.t, ClosestHit(hitAt, Identity(prims.count)))
    ensures Intersect(accel, hitAt, ray, epsilon, its).hit
            <==> Less(ClosestHit(hitAt, Identity(prims.count)), its.t)
  {
    var n := prims.count;
    PermutationLength(accel.indices, n);
    forall x ensures x in accel.indices <==> x in Identity(n) {
      assert x in accel.indices <==> x in multiset(accel.indices);
    }
    ClosestHitSameElements(hitAt, accel.indices, Identity(n));
    var c := ClosestHit(hitAt, Identity(n));
    if n > 0 {
      assert accel.indices[0..n] == accel.indices;
      forall j | 0 <= j < n ensures HitInBox(prims, hitAt, ray, epsilon, accel.indices[j]) {
        PermutationEntriesInRange(accel.indices, n, j);
      }
      VisitFindsClosest(prims, accel.nodes, accel.indices, hitAt, ray, epsilon, 0, 0, n, 1, |accel.nodes|, its);
    }
    var r := Intersect(accel, hitAt, ray, epsilon, its);
    LessIsStrictTotalOrder(c, its.t, c);
  }

  /** The root box returned by `getBoundingBox` contains every primitive's box. */
  lemma {:induction false} RootBoxCoversAll(prims: Primitives, accel: Accel)
    requires WellBuilt(prims, accel)
    ensures forall p :: 0 <= p < prims.count ==> Contains(GetBoundingBox(accel), prims.box(p))
  {
    var n := prims.count;
    PermutationLength(accel.indices, n);
    forall p | 0 <= p < n ensures Contains(GetBoundingBox(accel), prims.box(p)) {
      assert p == Identity(n)[p];
      assert p in multiset(accel.indices);
      var j :| 0 <= j < n && accel.indices[j] == p;
    }
  }
}
