/** Construction of the bounding-volume hierarchy: nodes stored in a
    growing sequence addressed by index, a permutation of primitive indices,
    and the recursive subdivision driven by the SAH binning. */
module Bvh {
  import opened Geometry
  import opened Provider
  import opened Sah

  /** A BVH node. For a leaf, `leftFirst` is the first slot of its primitives in
      the index permutation and `primitiveCount > 0` their number; for an
      internal node `primitiveCount == 0` and `leftFirst` is the index of the
      left child, the right child following it directly. */
  datatype Node = Node(aabb: Bounds, leftFirst: nat, primitiveCount: nat) {
    predicate IsLeaf() { primitiveCount != 0 }
    function LeftChildIndex(): nat { leftFirst }
    function RightChildIndex(): nat { leftFirst + 1 }
    function FirstPrimitiveIndex(): nat { leftFirst }
    function LastPrimitiveIndex(): int { leftFirst + primitiveCount - 1 }
  }

  /** The structure's state: `m_nodes` (root at 0) and `m_primitiveIndices`. */
  datatype Accel = Accel(nodes: seq<Node>, indices: seq<int>)

  /** `box` contains the bounding box of every primitive in slots `[lo, hi)`. */
  ghost predicate BoxCovers(prims: Primitives, box: Bounds, indices: seq<int>, lo: nat, hi: nat)
    requires lo <= hi <= |indices|
  {
    forall j {:trigger prims.box(indices[j])} :: lo <= j < hi ==> Contains(box, prims.box(indices[j]))
  }

  /** Subdivision stopped at a leaf over slots `[lo, hi)` with box `box`:
      it holds at most two primitives, or binning them along the longest
      axis of the box finds no plane. */
  ghost predicate Terminal(prims: Primitives, indices: seq<int>, lo: nat, hi: nat, box: Bounds)
    requires lo <= hi
  {
    hi - lo <= 2 || !HasPlane(NodeRange(prims, indices, lo, hi - lo, SplitAxis(box)))
  }

  /** Every centroid of slots `[lo, hi)` lies strictly below `pos` on `axis`. */
  ghost predicate AllBelow(prims: Primitives, indices: seq<int>, lo: nat, hi: nat, axis: Axis, pos: real)
    requires lo <= hi <= |indices|
  {
    forall j :: lo <= j < hi ==> Key(prims, indices, j, axis) < pos
  }

  /** No centroid of slots `[lo, hi)` lies below `pos` on `axis`. */
  ghost predicate NoneBelow(prims: Primitives, indices: seq<int>, lo: nat, hi: nat, axis: Axis, pos: real)
    requires lo <= hi <= |indices|
  {
    forall j :: lo <= j < hi ==> Key(prims, indices, j, axis) >= pos
  }

  /** Slots `[lo, mid)` and `[mid, hi)` lie on the two sides of a plane
      across `axis`: the centroids on the left strictly below it, those on
      the right at or above it. */
  ghost predicate PlaneSplit(prims: Primitives, indices: seq<int>, lo: nat, mid: nat, hi: nat, axis: Axis)
    requires lo <= mid <= hi <= |indices|
  {
    exists pos :: AllBelow(prims, indices, lo, mid, axis, pos) && NoneBelow(prims, indices, mid, hi, axis, pos)
  }

  /** The subtree rooted at node `k` is a well-formed BVH over slots `[lo, hi)`
      whose descendants all lie in the node region `[a, b)`:
      - a leaf holds exactly the slots `[lo, hi)`, at least one, and is
        `Terminal`: subdivision had a reason to stop there;
      - an internal node's children sit at `leftFirst` and `leftFirst + 1`,
        both after `k`, and split `[lo, hi)` at some `mid` into two non-empty
        halves, left before right, that lie on the two sides of a plane
        across the longest axis of the node's box;
      - every node's box contains the boxes of all primitives beneath it. */
  ghost predicate Tree(prims: Primitives, nodes: seq<Node>, indices: seq<int>,
                       k: nat, lo: nat, hi: nat, a: nat, b: nat)
    decreases b - k
  {
    && k < |nodes| && b <= |nodes| && lo < hi <= |indices|
    && BoxCovers(prims, nodes[k].aabb, indices, lo, hi)
    && if nodes[k].IsLeaf() then
         && nodes[k].leftFirst == lo && nodes[k].primitiveCount == hi - lo
         && Terminal(prims, indices, lo, hi, nodes[k].aabb)
       else
         var l := nodes[k].leftFirst;
         && k < l && a <= l && l + 1 < b
         && exists mid :: lo < mid < hi
              && PlaneSplit(prims, indices, lo, mid, hi, SplitAxis(nodes[k].aabb))
              && Tree(prims, nodes, indices, l, lo, mid, a, b)
              && Tree(prims, nodes, indices, l + 1, mid, hi, a, b)
  }

  /** The children of an internal node of a tree split its slots at some
      `mid` into two trees. */
  lemma ChildRanges(prims: Primitives, nodes: seq<Node>, indices: seq<int>,
      k: nat, lo: nat, hi: nat, a: nat, b: nat) returns (mid: nat)
    requires Tree(prims, nodes, indices, k, lo, hi, a, b) && !nodes[k].IsLeaf()
    ensures var l := nodes[k].leftFirst;
            && k < l && a <= l && l + 1 < b && lo < mid < hi <= |indices|
            && Tree(prims, nodes, indices, l, lo, mid, a, b)
            && Tree(prims, nodes, indices, l + 1, mid, hi, a, b)
  {
    var l := nodes[k].leftFirst;
    mid :| lo < mid < hi
      && Tree(prims, nodes, indices, l, lo, mid, a, b)
      && Tree(prims, nodes, indices, l + 1, mid, hi, a, b);
  }

  /** Node `k` can be visited without leaving the arrays: a leaf's slots are
      inside the permutation, an internal node's children come after it. */
  predicate LinkedAt(nodes: seq<Node>, indices: seq<int>, k: nat)
  {
    && k < |nodes|
    && (nodes[k].IsLeaf() ==> nodes[k].leftFirst + nodes[k].primitiveCount <= |indices|)
    && (!nodes[k].IsLeaf() ==> k < nodes[k].leftFirst && nodes[k].leftFirst + 1 < |nodes|)
  }

  predicate Linked(nodes: seq<Node>, indices: seq<int>)
  {
    forall k :: 0 <= k < |nodes| ==> LinkedAt(nodes, indices, k)
  }

  /** The union of the boxes of the primitives in slots `[lo, hi)`, taken
      in slot order starting from the empty box. */
  function UnionOf(prims: Primitives, indices: seq<int>, lo: nat, hi: nat): Bounds
    requires lo <= hi <= |indices|
    decreases hi - lo
  {
    if lo == hi then Empty else Extend(UnionOf(prims, indices, lo, hi - 1), prims.box(indices[hi - 1]))
  }

  /** The union is the smallest box covering the slots: it covers them, and
      any box that covers them contains it. */
  lemma {:induction false} UnionOfIsLeast(prims: Primitives, indices: seq<int>, lo: nat, hi: nat, c: Bounds)
    requires lo <= hi <= |indices|
    ensures BoxCovers(prims, UnionOf(prims, indices, lo, hi), indices, lo, hi)
    ensures BoxCovers(prims, c, indices, lo, hi) ==> Contains(c, UnionOf(prims, indices, lo, hi))
    decreases hi - lo
  {
    if lo < hi {
      var u, b := UnionOf(prims, indices, lo, hi - 1), prims.box(indices[hi - 1]);
      UnionOfIsLeast(prims, indices, lo, hi - 1, c);
      forall j | lo <= j < hi
        ensures Contains(Extend(u, b), prims.box(indices[j]))
      {
        if j < hi - 1 {
          ContainsTransitive(Extend(u, b), u, prims.box(indices[j]));
        }
      }
      ExtendIsLeastUpperBound(u, b, c);
    }
  }

  /** The union of proper boxes is proper. */
  lemma {:induction false} UnionOfProper(prims: Primitives, indices: seq<int>, lo: nat, hi: nat)
    requires lo <= hi <= |indices|
    requires forall j :: lo <= j < hi ==> Proper(prims.box(indices[j]))
    ensures Proper(UnionOf(prims, indices, lo, hi))
    decreases hi - lo
  {
    if lo < hi {
      UnionOfProper(prims, indices, lo, hi - 1);
    }
  }

  /** `computeAABB`: the union of the boxes of the primitives in slots
      `[first, first + count)`, accumulated from the empty box. */
  method ComputeAABB(prims: Primitives, indices: seq<int>, first: nat, count: nat) returns (aabb: Bounds)
    requires first + count <= |indices|
    ensures aabb == UnionOf(prims, indices, first, first + count)
    ensures BoxCovers(prims, aabb, indices, first, first + count)
  {
    aabb := Empty;
    var i := 0;
    while i < count
      invariant 0 <= i <= count
      invariant aabb == UnionOf(prims, indices, first, first + i)
    {
      aabb := Extend(aabb, prims.box(indices[first + i]));
      i := i + 1;
    }
    UnionOfIsLeast(prims, indices, first, first + count, aabb);
  }

  /** Reordering slots `[lo, hi)` keeps every box that covered them covering them. */
  lemma CoversPermuted(prims: Primitives, box: Bounds, s: seq<int>, t: seq<int>, lo: nat, hi: nat)
    requires lo <= hi <= |s| && |t| == |s|
    requires multiset(t[lo..hi]) == multiset(s[lo..hi])
    requires BoxCovers(prims, box, s, lo, hi)
    ensures BoxCovers(prims, box, t, lo, hi)
  {
    forall j | lo <= j < hi
      ensures Contains(box, prims.box(t[j]))
    {
      assert t[j] == t[lo..hi][j - lo];
      assert t[j] in multiset(s[lo..hi]);
      var i :| 0 <= i < hi - lo && s[lo..hi][i] == t[j];
      assert s[lo + i] == t[j];
    }
  }

  /** A subtree stays well formed when the nodes it uses (itself and the
      region `[a, b)`) and the slots it covers are left alone, and its region
      may be described by any larger one. */
  lemma {:induction false} TreeFrame(prims: Primitives, nodes: seq<Node>, indices: seq<int>,
      nodes': seq<Node>, indices': seq<int>, k: nat, lo: nat, hi: nat, a: nat, b: nat, a': nat, b': nat)
    requires Tree(prims, nodes, indices, k, lo, hi, a, b)
    requires a' <= a && b <= b' <= |nodes'| && k < |nodes'|
    requires nodes'[k] == nodes[k]
    requires forall j :: a <= j < b ==> nodes'[j] == nodes[j]
    requires hi <= |indices'| && forall j :: lo <= j < hi ==> indices'[j] == indices[j]
    ensures Tree(prims, nodes', indices', k, lo, hi, a', b')
    decreases b - k
  {
    CoversFrame(prims, nodes[k].aabb, indices, indices', lo, hi);
    if nodes[k].IsLeaf() {
      TerminalFrame(prims, indices, indices', lo, hi, nodes[k].aabb);
      LeafTree(prims, nodes', indices', k, lo, hi, a', b');
    } else {
      var l := nodes[k].leftFirst;
      var mid :| lo < mid < hi
        && PlaneSplit(prims, indices, lo, mid, hi, SplitAxis(nodes[k].aabb))
        && Tree(prims, nodes, indices, l, lo, mid, a, b)
        && Tree(prims, nodes, indices, l + 1, mid, hi, a, b);
      PlaneSplitFrame(prims, indices, indices', lo, mid, hi, SplitAxis(nodes[k].aabb));
      TreeFrame(prims, nodes, indices, nodes', indices', l, lo, mid, a, b, a', b');
      TreeFrame(prims, nodes, indices, nodes', indices', l + 1, mid, hi, a, b, a', b');
      InternalTree(prims, nodes', indices', k, lo, mid, hi, a', b');
    }
  }

  /** A box keeps covering slots that are left alone. */
  lemma CoversFrame(prims: Primitives, box: Bounds, indices: seq<int>, indices': seq<int>, lo: nat, hi: nat)
    requires lo <= hi <= |indices| && hi <= |indices'|
    requires forall j :: lo <= j < hi ==> indices'[j] == indices[j]
    requires BoxCovers(prims, box, indices, lo, hi)
    ensures BoxCovers(prims, box, indices', lo, hi)
  {
    forall j | lo <= j < hi
      ensures Contains(box, prims.box(indices'[j]))
    {
      assert prims.box(indices'[j]) == prims.box(indices[j]);
    }
  }

  /** A leaf stays terminal when its own slots are left alone. */
  lemma TerminalFrame(prims: Primitives, indices: seq<int>, indices': seq<int>, lo: nat, hi: nat, box: Bounds)
    requires lo <= hi <= |indices| && hi <= |indices'|
    requires forall j :: lo <= j < hi ==> indices'[j] == indices[j]
    requires Terminal(prims, indices, lo, hi, box)
    ensures Terminal(prims, indices', lo, hi, box)
  {
    assert indices'[lo..hi] == indices[lo..hi];
    HasPlaneSameSlots(NodeRange(prims, indices, lo, hi - lo, SplitAxis(box)),
                      NodeRange(prims, indices', lo, hi - lo, SplitAxis(box)));
  }

  /** A plane split stays one when its slots are left alone. */
  lemma PlaneSplitFrame(prims: Primitives, indices: seq<int>, indices': seq<int>,
      lo: nat, mid: nat, hi: nat, axis: Axis)
    requires lo <= mid <= hi <= |indices| && hi <= |indices'|
    requires forall j :: lo <= j < hi ==> indices'[j] == indices[j]
    requires PlaneSplit(prims, indices, lo, mid, hi, axis)
    ensures PlaneSplit(prims, indices', lo, mid, hi, axis)
  {
    var pos :| AllBelow(prims, indices, lo, mid, axis, pos) && NoneBelow(prims, indices, mid, hi, axis, pos);
    assert forall j :: lo <= j < hi ==> Key(prims, indices', j, axis) == Key(prims, indices, j, axis);
    assert AllBelow(prims, indices', lo, mid, axis, pos) && NoneBelow(prims, indices', mid, hi, axis, pos);
  }

  /** Each slot of `[lo, hi)` after a permutation of those slots holds an
      entry that some slot of `[lo, hi)` held before. */
  lemma PermutedFrom(s: seq<int>, t: seq<int>, lo: nat, hi: nat, j: nat) returns (i: nat)
    requires SlotsPermuted(s, t, lo, hi) && lo <= j < hi
    ensures lo <= i < hi && t[j] == s[i]
  {
    assert t[j] == t[lo..hi][j - lo];
    assert t[j] in multiset(s[lo..hi]);
    var i' :| 0 <= i' < hi - lo && s[lo..hi][i'] == t[j];
    i := lo + i';
  }

  /** A plane split survives permuting the slots of one of its sides. */
  lemma PlaneSplitPermuted(prims: Primitives, s: seq<int>, t: seq<int>, lo: nat, mid: nat, hi: nat,
      axis: Axis, left: bool)
    requires lo <= mid <= hi <= |s|
    requires if left then SlotsPermuted(s, t, lo, mid) else SlotsPermuted(s, t, mid, hi)
    requires PlaneSplit(prims, s, lo, mid, hi, axis)
    ensures PlaneSplit(prims, t, lo, mid, hi, axis)
  {
    var a, b := if left then lo else mid, if left then mid else hi;
    var pos :| AllBelow(prims, s, lo, mid, axis, pos) && NoneBelow(prims, s, mid, hi, axis, pos);
    SlotsPermutedOutside(s, t, a, b);
    forall j | lo <= j < hi
      ensures lo <= j < mid ==> Key(prims, t, j, axis) < pos
      ensures mid <= j < hi ==> Key(prims, t, j, axis) >= pos
    {
      var i := j;
      if a <= j < b {
        i := PermutedFrom(s, t, a, b, j);
      }
      assert Key(prims, t, j, axis) == Key(prims, s, i, axis);
    }
    assert AllBelow(prims, t, lo, mid, axis, pos) && NoneBelow(prims, t, mid, hi, axis, pos);
  }

  /** `t` agrees with `s` outside the slots `[lo, hi)` and permutes them. */
  ghost predicate SlotsPermuted(s: seq<int>, t: seq<int>, lo: nat, hi: nat)
  {
    && lo <= hi <= |s| && |t| == |s|
    && t[..lo] == s[..lo] && t[hi..] == s[hi..]
    && multiset(t[lo..hi]) == multiset(s[lo..hi])
  }

  lemma SlotsPermutedOutside(s: seq<int>, t: seq<int>, lo: nat, hi: nat)
    requires SlotsPermuted(s, t, lo, hi)
    ensures forall j :: 0 <= j < lo ==> t[j] == s[j]
    ensures forall j :: hi <= j < |s| ==> t[j] == s[j]
  {
    assert forall j :: 0 <= j < lo ==> t[j] == t[..lo][j] && s[j] == s[..lo][j];
    assert forall j :: hi <= j < |s| ==> t[j] == t[hi..][j - hi] && s[j] == s[hi..][j - hi];
  }

  lemma SlotsPermutedWiden(s: seq<int>, t: seq<int>, lo: nat, hi: nat, lo': nat, hi': nat)
    requires SlotsPermuted(s, t, lo, hi) && lo' <= lo && hi <= hi' <= |s|
    ensures SlotsPermuted(s, t, lo', hi')
  {
    SlotsPermutedOutside(s, t, lo, hi);
    assert t[..lo'] == s[..lo'];
    assert t[hi'..] == s[hi'..];
    assert t[lo'..lo] == s[lo'..lo];
    assert t[hi..hi'] == s[hi..hi'];
    assert t[lo'..hi'] == t[lo'..lo] + t[lo..hi] + t[hi..hi'];
    assert s[lo'..hi'] == s[lo'..lo] + s[lo..hi] + s[hi..hi'];
  }

  lemma SlotsPermutedTransitive(s: seq<int>, t: seq<int>, u: seq<int>, lo: nat, hi: nat)
    requires SlotsPermuted(s, t, lo, hi) && SlotsPermuted(t, u, lo, hi)
    ensures SlotsPermuted(s, u, lo, hi)
  {
  }

  /** `b` extends `a` and keeps every node of `a` except possibly node `ni`. */
  ghost predicate NodesKept(a: seq<Node>, b: seq<Node>, ni: nat)
  {
    |a| <= |b| && forall k :: 0 <= k < |a| && k != ni ==> b[k] == a[k]
  }

  /** Node `ni` and every node from `from` on can be visited safely. */
  ghost predicate LinkedFrom(nodes: seq<Node>, indices: seq<int>, ni: nat, from: nat)
  {
    forall k :: (k == ni || from <= k < |nodes|) ==> LinkedAt(nodes, indices, k)
  }

  /** A leaf `ni` ready to be subdivided: its slots exist and its box covers them. */
  ghost predicate FreshLeaf(prims: Primitives, s: Accel, ni: nat)
  {
    && ni < |s.nodes|
    && s.nodes[ni].leftFirst + s.nodes[ni].primitiveCount <= |s.indices|
    && BoxCovers(prims, s.nodes[ni].aabb, s.indices, s.nodes[ni].leftFirst,
                 s.nodes[ni].leftFirst + s.nodes[ni].primitiveCount)
  }

  /** What subdividing node `ni` of `s` guarantees of the resulting `s'`:
      only the node's own slots move, and only by permutation; earlier nodes
      other than `ni` stay, new nodes are appended; the node keeps its box;
      it roots a well-formed tree over its slots whose descendants are all
      new; and it and the new nodes are linked. */
  ghost predicate Subdivided(prims: Primitives, s: Accel, ni: nat, s': Accel)
  {
    && ni < |s.nodes|
    && var n := s.nodes[ni];
    && SlotsPermuted(s.indices, s'.indices, n.leftFirst, n.leftFirst + n.primitiveCount)
    && NodesKept(s.nodes, s'.nodes, ni)
    && s'.nodes[ni].aabb == n.aabb
    && (n.primitiveCount > 0 ==>
          Tree(prims, s'.nodes, s'.indices, ni, n.leftFirst, n.leftFirst + n.primitiveCount,
               |s.nodes|, |s'.nodes|))
    && (LinkedAt(s.nodes, s.indices, ni) ==> LinkedFrom(s'.nodes, s'.indices, ni, |s.nodes|))
  }

  /** `subdivide`: split node `ni` with the SAH binning along the longest axis
      of its box. The node stays a leaf, and nothing changes, when it holds at
      most two primitives or when binning finds no plane (in particular when
      all centroids coincide on the axis); otherwise it is split. */
  method Subdivide(prims: Primitives, s: Accel, ni: nat) returns (s': Accel)
    requires FreshLeaf(prims, s, ni)
    ensures Subdivided(prims, s, ni, s')
    ensures s.nodes[ni].primitiveCount <= 2 ==> s' == s
    ensures s'.nodes[ni].IsLeaf() ==> s' == s
    ensures var n := s.nodes[ni];
            var r := NodeRange(prims, s.indices, n.leftFirst, n.primitiveCount, SplitAxis(n.aabb));
            && (WithinSentinels(r) && Coincide(r) ==> s' == s)
            && (!HasPlane(r) ==> s' == s)
            && (n.primitiveCount > 2 && HasPlane(r) ==> !s'.nodes[ni].IsLeaf())
    ensures !s'.nodes[ni].IsLeaf() && s.nodes[ni].primitiveCount > 0 ==>
              s'.nodes[ni] == Node(s.nodes[ni].aabb, |s.nodes|, 0) && |s.nodes| + 2 <= |s'.nodes|
    decreases s.nodes[ni].primitiveCount, 2
  {
    var parent := s.nodes[ni];
    if parent.primitiveCount <= 2 {
      UnchangedIsSubdivided(prims, s, ni);
      return s;
    }
    var splitAxis := SplitAxis(parent.aabb);
    var firstPrimitive := parent.FirstPrimitiveIndex();
    var range := NodeRange(prims, s.indices, firstPrimitive, parent.primitiveCount, splitAxis);
    var indices, firstRightIndex, plane := Binning(range);
    var leftCount := firstRightIndex - firstPrimitive;
    var rightCount := parent.primitiveCount - leftCount;
    if leftCount == 0 || rightCount == 0 {
      // only reachable without a plane, which leaves the slots as they were
      UnchangedIsSubdivided(prims, s, ni);
      return s;
    }
    assert AllBelow(prims, indices, firstPrimitive, firstRightIndex, splitAxis, plane.pos);
    assert NoneBelow(prims, indices, firstRightIndex, firstPrimitive + parent.primitiveCount, splitAxis, plane.pos);
    s' := SplitNode(prims, s, ni, indices, firstRightIndex);
  }

  /** The recursive call on a child, seen through the subdivision contract only. */
  method SubdivideChild(prims: Primitives, s: Accel, ni: nat) returns (s': Accel)
    requires FreshLeaf(prims, s, ni)
    ensures Subdivided(prims, s, ni, s')
    decreases s.nodes[ni].primitiveCount, 3
  {
    s' := Subdivide(prims, s, ni);
  }

  /** A leaf left alone for a reason satisfies the subdivision contract. */
  lemma UnchangedIsSubdivided(prims: Primitives, s: Accel, ni: nat)
    requires FreshLeaf(prims, s, ni)
    requires var n := s.nodes[ni]; Terminal(prims, s.indices, n.leftFirst, n.leftFirst + n.primitiveCount, n.aabb)
    ensures Subdivided(prims, s, ni, s)
  {
    var n := s.nodes[ni];
    if n.primitiveCount > 0 {
      assert Tree(prims, s.nodes, s.indices, ni, n.leftFirst, n.leftFirst + n.primitiveCount,
                  |s.nodes|, |s.nodes|);
    }
  }

  /** The split itself: mark node `ni` internal with its children appended
      at the end of the node list, left over `[first, m)` and right over
      `[m, first + count)`; compute and subdivide the left child (and all of
      its children), then the right one. */
  method SplitNode(prims: Primitives, s: Accel, ni: nat, indices: seq<int>, m: nat) returns (s': Accel)
    requires FreshLeaf(prims, s, ni)
    requires var n := s.nodes[ni];
             && n.leftFirst < m < n.leftFirst + n.primitiveCount
             && SlotsPermuted(s.indices, indices, n.leftFirst, n.leftFirst + n.primitiveCount)
             && PlaneSplit(prims, indices, n.leftFirst, m, n.leftFirst + n.primitiveCount, SplitAxis(n.aabb))
    ensures Subdivided(prims, s, ni, s')
    ensures s'.nodes[ni] == Node(s.nodes[ni].aabb, |s.nodes|, 0) && |s.nodes| + 2 <= |s'.nodes|
    decreases s.nodes[ni].primitiveCount, 1
  {
    var parent := s.nodes[ni];
    var firstPrimitive, end := parent.leftFirst, parent.leftFirst + parent.primitiveCount;
    var leftChildIndex := |s.nodes|;
    // the left child's box is computed from the slots binning left it
    var leftBox := ComputeAABB(prims, indices, firstPrimitive, m - firstPrimitive);
    var front := s.nodes[ni := Node(parent.aabb, leftChildIndex, 0)];
    var s0 := Accel(front + [Node(leftBox, firstPrimitive, m - firstPrimitive), Node(Empty, m, end - m)], indices);
    assert s0.nodes[..leftChildIndex] == front;
    var s1 := SubdivideChild(prims, s0, leftChildIndex);
    s' := SplitRight(prims, s, ni, s0, s1, m);
  }

  /** The second half of a split: with the left child (state `s0`) already
      subdivided into `s1`, compute the right child's box and subdivide it. */
  method SplitRight(prims: Primitives, s: Accel, ni: nat, s0: Accel, s1: Accel, m: nat) returns (s': Accel)
    requires LeftDone(prims, s, ni, s0, s1, m)
    ensures Subdivided(prims, s, ni, s')
    ensures s'.nodes[ni] == Node(s.nodes[ni].aabb, |s.nodes|, 0) && |s.nodes| + 2 <= |s'.nodes|
    decreases s.nodes[ni].primitiveCount, 0
  {
    var parent := s.nodes[ni];
    var firstPrimitive, end := parent.leftFirst, parent.leftFirst + parent.primitiveCount;
    var rightChildIndex := |s.nodes| + 1;
    assert |s1.indices| == |s.indices| && rightChildIndex < |s1.nodes|;
    var rightBox := ComputeAABB(prims, s1.indices, m, end - m);
    var s2 := Accel(s1.nodes[rightChildIndex := Node(rightBox, m, end - m)], s1.indices);
    assert s2.nodes[rightChildIndex] == Node(rightBox, m, end - m);
    s' := SubdivideChild(prims, s2, rightChildIndex);
    RightSubdivided(prims, s, ni, s0, s1, rightBox, s', m);
  }

  /** The right call done: the split as a whole satisfies the subdivision contract. */
  lemma RightSubdivided(prims: Primitives, s: Accel, ni: nat, s0: Accel, s1: Accel,
      rightBox: Bounds, s': Accel, m: nat)
    requires LeftDone(prims, s, ni, s0, s1, m)
    requires var L, e := |s.nodes|, s.nodes[ni].leftFirst + s.nodes[ni].primitiveCount;
             Subdivided(prims, Accel(s1.nodes[L + 1 := Node(rightBox, m, e - m)], s1.indices), L + 1, s')
    ensures Subdivided(prims, s, ni, s')
    ensures s'.nodes[ni] == Node(s.nodes[ni].aabb, |s.nodes|, 0) && |s.nodes| + 2 <= |s'.nodes|
  {
    var L, e := |s.nodes|, s.nodes[ni].leftFirst + s.nodes[ni].primitiveCount;
    var s2 := Accel(s1.nodes[L + 1 := Node(rightBox, m, e - m)], s1.indices);
    assert RightDone(prims, s, ni, s1, s2, s', m);
    SplitDone(prims, s, ni, s0, s1, s2, s', m);
  }

  /** The states of a split after the right call: `s2` is `s1` with the
      right child's box computed, and `s'` the result of subdividing it. */
  ghost predicate RightDone(prims: Primitives, s: Accel, ni: nat, s1: Accel, s2: Accel, s': Accel, m: nat)
  {
    && ni < |s.nodes| && |s.nodes| + 1 < |s1.nodes| == |s2.nodes| && s2.indices == s1.indices
    && m <= s.nodes[ni].leftFirst + s.nodes[ni].primitiveCount
    && s2.nodes == s1.nodes[|s.nodes| + 1 := Node(s2.nodes[|s.nodes| + 1].aabb, m,
                                                  s.nodes[ni].leftFirst + s.nodes[ni].primitiveCount - m)]
    && Subdivided(prims, s2, |s.nodes| + 1, s')
  }

  /** Both calls done: the split as a whole satisfies the subdivision contract. */
  lemma SplitDone(prims: Primitives, s: Accel, ni: nat, s0: Accel, s1: Accel,
      s2: Accel, s': Accel, m: nat)
    requires LeftDone(prims, s, ni, s0, s1, m)
    requires RightDone(prims, s, ni, s1, s2, s', m)
    ensures Subdivided(prims, s, ni, s')
    ensures s'.nodes[ni] == Node(s.nodes[ni].aabb, |s.nodes|, 0) && |s.nodes| + 2 <= |s'.nodes|
  {
    SplitPermutes(prims, s, ni, s0, s1, s2, s', m);
    SplitTree(prims, s, ni, s0, s1, s2, s', m);
  }

  /** The binning and the two calls together permute the parent's slots,
      and leave the two halves on the two sides of the binning's plane. */
  lemma SplitPermutes(prims: Primitives, s: Accel, ni: nat, s0: Accel, s1: Accel,
      s2: Accel, s': Accel, m: nat)
    requires LeftDone(prims, s, ni, s0, s1, m)
    requires RightDone(prims, s, ni, s1, s2, s', m)
    ensures SlotsPermuted(s.indices, s'.indices, s.nodes[ni].leftFirst,
                          s.nodes[ni].leftFirst + s.nodes[ni].primitiveCount)
    ensures PlaneSplit(prims, s'.indices, s.nodes[ni].leftFirst, m,
                       s.nodes[ni].leftFirst + s.nodes[ni].primitiveCount, SplitAxis(s.nodes[ni].aabb))
  {
    var n := s.nodes[ni];
    var f, e := n.leftFirst, n.leftFirst + n.primitiveCount;
    SplitSlotsOf(prims, s.indices, s0, s1, s2, s', |s.nodes|, f, m, e, SplitAxis(n.aabb));
  }

  /** The slot half of a split, read off the two calls' contracts. */
  lemma SplitSlotsOf(prims: Primitives, before: seq<int>, s0: Accel, s1: Accel, s2: Accel, s': Accel,
      L: nat, f: nat, m: nat, e: nat, axis: Axis)
    requires f < m < e && SlotsPermuted(before, s0.indices, f, e)
    requires PlaneSplit(prims, s0.indices, f, m, e, axis)
    requires Subdivided(prims, s0, L, s1) && s0.nodes[L].leftFirst == f && s0.nodes[L].primitiveCount == m - f
    requires Subdivided(prims, s2, L + 1, s') && s2.indices == s1.indices
    requires s2.nodes[L + 1].leftFirst == m && s2.nodes[L + 1].primitiveCount == e - m
    ensures SlotsPermuted(before, s'.indices, f, e)
    ensures PlaneSplit(prims, s'.indices, f, m, e, axis)
  {
    ChildPermutes(prims, s0, L, s1, f, m);
    ChildPermutes(prims, s2, L + 1, s', m, e);
    SplitSlots(before, s0.indices, s1.indices, s'.indices, f, m, e);
    PlaneSplitPermuted(prims, s0.indices, s1.indices, f, m, e, axis, true);
    PlaneSplitPermuted(prims, s1.indices, s'.indices, f, m, e, axis, false);
  }

  /** Subdividing a node over `[lo, hi)` permutes exactly those slots. */
  lemma ChildPermutes(prims: Primitives, s: Accel, k: nat, s': Accel, lo: nat, hi: nat)
    requires Subdivided(prims, s, k, s')
    requires s.nodes[k].leftFirst == lo && lo + s.nodes[k].primitiveCount == hi
    ensures SlotsPermuted(s.indices, s'.indices, lo, hi)
  {
  }

  /** The binning, the left call and the right call each permute their own
      slots; together they permute the parent's. */
  lemma SplitSlots(s: seq<int>, t: seq<int>, u: seq<int>, v: seq<int>, lo: nat, m: nat, hi: nat)
    requires lo <= m <= hi
    requires SlotsPermuted(s, t, lo, hi) && SlotsPermuted(t, u, lo, m) && SlotsPermuted(u, v, m, hi)
    ensures SlotsPermuted(s, v, lo, hi)
  {
    SlotsPermutedWiden(t, u, lo, m, lo, hi);
    SlotsPermutedWiden(u, v, m, hi, lo, hi);
    SlotsPermutedTransitive(s, t, u, lo, hi);
    SlotsPermutedTransitive(s, u, v, lo, hi);
  }

  /** The states of a split up to the left call: `s0` is the state right
      after the children were appended and the left box computed, `s1` the
      state after the left child was subdivided. */
  ghost predicate LeftDone(prims: Primitives, s: Accel, ni: nat, s0: Accel, s1: Accel, m: nat)
  {
    && FreshLeaf(prims, s, ni)
    && var n, L := s.nodes[ni], |s.nodes|;
    && n.leftFirst < m < n.leftFirst + n.primitiveCount
    && SlotsPermuted(s.indices, s0.indices, n.leftFirst, n.leftFirst + n.primitiveCount)
    && PlaneSplit(prims, s0.indices, n.leftFirst, m, n.leftFirst + n.primitiveCount, SplitAxis(n.aabb))
    && |s0.nodes| == L + 2
    && s0.nodes[..L] == s.nodes[ni := Node(n.aabb, L, 0)]
    && s0.nodes[L] == Node(s0.nodes[L].aabb, n.leftFirst, m - n.leftFirst)
    && s0.nodes[L + 1] == Node(Empty, m, n.leftFirst + n.primitiveCount - m)
    && Subdivided(prims, s0, L, s1)
  }

  /** All the states a split passes through: then `s2` is the state after
      the right box was computed and `s'` the one after the right call. */
  ghost predicate SplitStates(prims: Primitives, s: Accel, ni: nat, s0: Accel, s1: Accel,
      s2: Accel, s': Accel, m: nat)
  {
    && LeftDone(prims, s, ni, s0, s1, m)
    && RightDone(prims, s, ni, s1, s2, s', m)
    && SlotsPermuted(s.indices, s'.indices, s.nodes[ni].leftFirst, s.nodes[ni].leftFirst + s.nodes[ni].primitiveCount)
    && PlaneSplit(prims, s'.indices, s.nodes[ni].leftFirst, m,
                  s.nodes[ni].leftFirst + s.nodes[ni].primitiveCount, SplitAxis(s.nodes[ni].aabb))
  }

  /** The tree, frame and linkage half of a split. */
  lemma SplitTree(prims: Primitives, s: Accel, ni: nat, s0: Accel, s1: Accel,
      s2: Accel, s': Accel, m: nat)
    requires SplitStates(prims, s, ni, s0, s1, s2, s', m)
    ensures Subdivided(prims, s, ni, s')
    ensures s'.nodes[ni] == Node(s.nodes[ni].aabb, |s.nodes|, 0) && |s.nodes| + 2 <= |s'.nodes|
  {
    SplitKeepsNodes(prims, s, ni, s0, s1, s2, s', m);
    SplitBuildsTree(prims, s, ni, s0, s1, s2, s', m);
    SplitLinks(prims, s, ni, s0, s1, s2, s', m);
  }

  /** A split rewrites node `ni` into an internal node whose children are
      the first two appended nodes, and keeps every other old node. */
  lemma SplitKeepsNodes(prims: Primitives, s: Accel, ni: nat, s0: Accel, s1: Accel,
      s2: Accel, s': Accel, m: nat)
    requires SplitStates(prims, s, ni, s0, s1, s2, s', m)
    ensures s'.nodes[ni] == Node(s.nodes[ni].aabb, |s.nodes|, 0) && |s.nodes| + 2 <= |s'.nodes|
    ensures NodesKept(s.nodes, s'.nodes, ni)
  {
    var L := |s.nodes|;
    assert s0.nodes[ni] == s0.nodes[..L][ni];
    forall k | 0 <= k < L && k != ni
      ensures s'.nodes[k] == s.nodes[k]
    {
      assert s0.nodes[k] == s0.nodes[..L][k];
    }
  }

  /** After a split, node `ni` roots a well-formed tree over its slots, with
      the left child's subtree over `[f, m)` and the right child's over `[m, e)`;
      the parent's box still covers its permuted slots. */
  lemma SplitBuildsTree(prims: Primitives, s: Accel, ni: nat, s0: Accel, s1: Accel,
      s2: Accel, s': Accel, m: nat)
    requires SplitStates(prims, s, ni, s0, s1, s2, s', m)
    ensures Tree(prims, s'.nodes, s'.indices, ni, s.nodes[ni].leftFirst,
                 s.nodes[ni].leftFirst + s.nodes[ni].primitiveCount, |s.nodes|, |s'.nodes|)
  {
    var n, L := s.nodes[ni], |s.nodes|;
    var f, e := n.leftFirst, n.leftFirst + n.primitiveCount;
    SplitKeepsNodes(prims, s, ni, s0, s1, s2, s', m);
    SplitLeftTree(prims, s, ni, s0, s1, s2, s', m);
    SplitRightTree(prims, s, ni, s0, s1, s2, s', m);
    RootTree(prims, n.aabb, s.indices, s'.nodes, s'.indices, ni, f, m, e, L);
  }

  /** The split node, rewritten to point at its two children, roots a tree
      over the parent's slots once both children do. */
  lemma RootTree(prims: Primitives, box: Bounds, before: seq<int>, nodes: seq<Node>,
      indices: seq<int>, ni: nat, f: nat, m: nat, e: nat, L: nat)
    requires ni < L && L + 2 <= |nodes| && nodes[ni] == Node(box, L, 0)
    requires f < m < e && SlotsPermuted(before, indices, f, e)
    requires BoxCovers(prims, box, before, f, e)
    requires PlaneSplit(prims, indices, f, m, e, SplitAxis(box))
    requires Tree(prims, nodes, indices, L, f, m, L, |nodes|)
    requires Tree(prims, nodes, indices, L + 1, m, e, L, |nodes|)
    ensures Tree(prims, nodes, indices, ni, f, e, L, |nodes|)
  {
    CoversPermuted(prims, box, before, indices, f, e);
    InternalTree(prims, nodes, indices, ni, f, m, e, L, |nodes|);
  }

  /** A terminal leaf over `[lo, hi)` whose box covers its slots roots a tree. */
  lemma LeafTree(prims: Primitives, nodes: seq<Node>, indices: seq<int>,
      k: nat, lo: nat, hi: nat, a: nat, b: nat)
    requires k < |nodes| && b <= |nodes| && lo < hi <= |indices|
    requires BoxCovers(prims, nodes[k].aabb, indices, lo, hi)
    requires nodes[k].IsLeaf() && nodes[k].leftFirst == lo && nodes[k].primitiveCount == hi - lo
    requires Terminal(prims, indices, lo, hi, nodes[k].aabb)
    ensures Tree(prims, nodes, indices, k, lo, hi, a, b)
  {
  }

  /** An internal node over `[lo, hi)` whose box covers its slots and whose
      children root trees over `[lo, mid)` and `[mid, hi)` roots a tree. */
  lemma InternalTree(prims: Primitives, nodes: seq<Node>, indices: seq<int>,
      k: nat, lo: nat, mid: nat, hi: nat, a: nat, b: nat)
    requires k < |nodes| && b <= |nodes| && lo < mid < hi <= |indices|
    requires BoxCovers(prims, nodes[k].aabb, indices, lo, hi)
    requires PlaneSplit(prims, indices, lo, mid, hi, SplitAxis(nodes[k].aabb))
    requires !nodes[k].IsLeaf() && k < nodes[k].leftFirst && a <= nodes[k].leftFirst && nodes[k].leftFirst + 1 < b
    requires Tree(prims, nodes, indices, nodes[k].leftFirst, lo, mid, a, b)
    requires Tree(prims, nodes, indices, nodes[k].leftFirst + 1, mid, hi, a, b)
    ensures Tree(prims, nodes, indices, k, lo, hi, a, b)
  {
  }

  /** The left subtree survives the right call, which only touched `[m, e)`
      and nodes from the right child on. */
  lemma SplitLeftTree(prims: Primitives, s: Accel, ni: nat, s0: Accel, s1: Accel,
      s2: Accel, s': Accel, m: nat)
    requires SplitStates(prims, s, ni, s0, s1, s2, s', m)
    ensures Tree(prims, s'.nodes, s'.indices, |s.nodes|, s.nodes[ni].leftFirst, m, |s.nodes|, |s'.nodes|)
  {
    var n, L := s.nodes[ni], |s.nodes|;
    var f, e := n.leftFirst, n.leftFirst + n.primitiveCount;
    assert s0.nodes[L].primitiveCount > 0;
    assert Tree(prims, s1.nodes, s1.indices, L, f, m, L + 2, |s1.nodes|);
    SlotsPermutedOutside(s2.indices, s'.indices, m, e);
    TreeFrame(prims, s1.nodes, s1.indices, s'.nodes, s'.indices, L, f, m, L + 2, |s1.nodes|, L, |s'.nodes|);
  }

  /** The right subtree, built by the right call, lives in nodes `L` on. */
  lemma SplitRightTree(prims: Primitives, s: Accel, ni: nat, s0: Accel, s1: Accel,
      s2: Accel, s': Accel, m: nat)
    requires SplitStates(prims, s, ni, s0, s1, s2, s', m)
    ensures Tree(prims, s'.nodes, s'.indices, |s.nodes| + 1, m,
                 s.nodes[ni].leftFirst + s.nodes[ni].primitiveCount, |s.nodes|, |s'.nodes|)
  {
    var n, L, R := s.nodes[ni], |s.nodes|, |s.nodes| + 1;
    var e := n.leftFirst + n.primitiveCount;
    assert Tree(prims, s'.nodes, s'.indices, R, m, e, |s2.nodes|, |s'.nodes|);
    TreeFrame(prims, s'.nodes, s'.indices, s'.nodes, s'.indices, R, m, e, |s2.nodes|, |s'.nodes|, L, |s'.nodes|);
  }

  /** A split of a linked leaf leaves it and every new node linked. */
  lemma SplitLinks(prims: Primitives, s: Accel, ni: nat, s0: Accel, s1: Accel,
      s2: Accel, s': Accel, m: nat)
    requires SplitStates(prims, s, ni, s0, s1, s2, s', m)
    ensures LinkedAt(s.nodes, s.indices, ni) ==> LinkedFrom(s'.nodes, s'.indices, ni, |s.nodes|)
  {
    var L := |s.nodes|;
    SplitKeepsNodes(prims, s, ni, s0, s1, s2, s', m);
    if LinkedAt(s.nodes, s.indices, ni) {
      forall k | k == ni || L <= k < |s'.nodes|
        ensures LinkedAt(s'.nodes, s'.indices, k)
      {
        if L + 2 <= k < |s1.nodes| || k == L {
          assert LinkedAt(s1.nodes, s1.indices, k);
        } else if k != ni {
          assert LinkedAt(s'.nodes, s'.indices, k);
        }
      }
    }
  }

  /** The range the root is binned over: all primitives in identity order,
      along the longest axis of their union. */
  ghost function RootRange(prims: Primitives): NodeRange
  {
    var indices := Identity(prims.count);
    NodeRange(prims, indices, 0, prims.count, SplitAxis(UnionOf(prims, indices, 0, prims.count)))
  }

  /** `buildAccelerationStructure`: the identity permutation, a root leaf
      over all primitives with its box computed, then subdivision. The index
      list stays a permutation of the primitives; with primitives the root
      is a well-formed tree whose leaves tile all of them, and with none the
      root is the single empty node. The root is split exactly when there
      are more than two primitives and binning finds a plane for them. */
  method Build(prims: Primitives) returns (accel: Accel)
    ensures IsPermutation(accel.indices, prims.count)
    ensures |accel.nodes| >= 1
    ensures prims.count > 0 ==> (!accel.nodes[0].IsLeaf() <==> prims.count > 2 && HasPlane(RootRange(prims)))
    ensures prims.count == 0 ==> accel == Accel([Node(Empty, 0, 0)], [])
    ensures prims.count > 0 ==> Tree(prims, accel.nodes, accel.indices, 0, 0, prims.count, 1, |accel.nodes|)
    ensures prims.count > 0 ==> Linked(accel.nodes, accel.indices)
  {
    var indices := Identity(prims.count);
    var rootBox := ComputeAABB(prims, indices, 0, prims.count);
    var root := Node(rootBox, 0, prims.count);
    accel := Subdivide(prims, Accel([root], indices), 0);
    assert accel.indices == accel.indices[0..prims.count];
    assert indices == indices[0..prims.count];
  }
}
