# The lightwave BVH and its companions, modelled in Dafny

This project is a Dafny model of the core of the *lightwave* renderer's
`AccelerationStructure` (`src/shapes/accel.hpp`). That structure is a
binary bounding-volume hierarchy over the primitives of a shape. The
model covers:

- the build: the identity permutation of primitive indices, a root leaf,
  and recursive `subdivide`;
- the 16-bin surface-area-heuristic split search (`binning`) and its
  in-place two-index partition;
- the node storage in one growing list, where children are appended as a
  pair and a node turns internal at most once;
- the slab test (`intersectAABB`);
- the ordered, pruned depth-first traversal (`intersectNode`,
  `intersect`).

It also models three small companions:

- the triangle mesh as a primitive provider (`src/shapes/mesh.cpp`):
  primitive count, triangle box, centroid, and the build of its
  structure over the loaded triangles;
- the integer border handling, the bilinear neighbour selection and the
  bilinear blend of the image texture (`src/textures/image.cpp`);
- the parity rule and the defaults of the checkerboard texture
  (`src/textures/checkerboard.cpp`).

Floating-point numbers are modelled as reals. The IEEE infinities that
the structure relies on are explicit: the `Ext` type (`-inf`, a finite
value, `+inf`) holds ray distances, and the `Cost` type (a number, `+inf`
or NaN) holds SAH plane costs. The empty box is its own constructor. Its
slab test enters at `-inf`, its surface area is `+inf`, and an empty
side of a split boundary therefore costs `0 * inf = NaN`, which never
compares `<=` to anything.

The shape that owns the acceleration structure is a parameter of type
`Primitives`: a count plus a box and a centroid per index. A ray's hit
on a single primitive is a parameter `hitAt: int -> Ext` (`+inf` for a
miss). The per-primitive `intersect` overwrites the record exactly when
its distance is strictly smaller than the record's.

Modules:

- `Geometry`: extended reals, vectors, boxes, `extend`, surface area,
  longest axis.
- `Slab`: rays and the slab test.
- `Provider`: primitive providers and index permutations.
- `Sah`: centroid range, bins, prefix sums, cost scan, partition,
  `binning`.
- `Bvh`: nodes, `computeAABB`, `subdivide`, the build, and the
  well-formed tree.
- `Traversal`: leaf loop, node traversal, public entry points, and the
  proof that traversal finds the closest hit.
- `Mesh`, `ImageTexture`, `Checkerboard`, `Colors`: the companions.

The central results are `Bvh.Build` and `Traversal.IntersectFindsClosest`.

- `Bvh.Build`: the index list stays a permutation of `0..N-1`, and the
  nodes form a well-formed tree (`Bvh.Tree`) whose leaves tile `[0, N)`
  and whose boxes contain the boxes of every primitive beneath them.
  Every node of that tree records why subdivision did what it did: a
  leaf holds at most two primitives or binning finds no plane for it
  (`Sah.HasPlane`), and an internal node's two halves lie on the two
  sides of a plane across the longest axis of its box. In particular the
  root is split exactly when there are more than two primitives and
  binning finds a plane.
- `Traversal.IntersectFindsClosest`: on such a tree, the pruned and
  ordered traversal ends with exactly the closest hit over all
  primitives. It reports a hit exactly when some primitive is strictly
  closer than the record was.
- `Sah.Binning`: a plane, when found, lies at the split position of the
  SAH choice (`Sah.SahChoice`): among the boundaries that cost at most
  `1e30`, one of least cost, and the last of those because the scan
  compares with `<=`. `Sah.FindPlane` and `Sah.BestPlane` also return
  that boundary's index, which the source keeps only as its loop index.
- `Traversal.PruningChangesNothing`: pruning and near-first ordering
  change neither the distance nor the answer compared with an unpruned
  reference traversal.

## Model

| member | source | states |
|---|---|---|
| Geometry.Extend | src/shapes/accel.hpp:183-192 | the union of two boxes contains both, has the empty box as identity, is empty only when both are, and keeps boxes proper |
| Geometry.ExtendIsLeastUpperBound | src/shapes/accel.hpp:183-192 | a box contains the union of two boxes exactly when it contains both of them |
| Geometry.SplitAxis | src/shapes/accel.hpp:347 | the split axis has the longest extent of the node's box, the first such axis on ties; the empty box gives the first axis |
| Geometry.SurfaceArea | src/shapes/accel.hpp:195-200 | the area is +inf exactly for the empty box, and finite and non-negative for a proper box |
| Slab.IntersectAABB | src/shapes/accel.hpp:158-179 | the empty box is always entered (at -inf); any finite answer is the entry distance, the largest near-slab crossing |
| Slab.MissIffNoPointAhead | src/shapes/accel.hpp:173-178 | for a proper box the test reports a miss exactly when no point of the ray at distance epsilon or more lies in the box |
| Slab.EntryNoLaterThanHit | src/shapes/accel.hpp:158-179 | a point of the ray inside the box at distance t >= epsilon means the reported entry is no later than t |
| Bvh.ComputeAABB | src/shapes/accel.hpp:183-192 | the node box is the union of the boxes of the primitives in its slots, accumulated from the empty box, and it contains each of them |
| Bvh.UnionOfIsLeast | src/shapes/accel.hpp:183-192 | the accumulated union covers every primitive box of the range and is contained in any box that also covers them all |
| Sah.CentroidRange | src/shapes/accel.hpp:220-226 | boundsMin and boundsMax bracket every centroid coordinate of the node, and each is either its sentinel (1e30 or -1e30) or attained by some centroid |
| Sah.BinIndex | src/shapes/accel.hpp:245-251 | every bin index is clamped to at most BINS - 2 |
| Sah.ExtremeBins | src/shapes/accel.hpp:245-251 | the smallest centroid falls in bin 0 and the largest in bin BINS - 2 |
| Sah.BinAtMostIffBelowSplit | src/shapes/accel.hpp:245-251 | for boundaries before the last, a centroid falls in bins 0..i exactly when it lies strictly below that boundary's split position |
| Sah.SplitPositionInside | src/shapes/accel.hpp:299-306 | every boundary's split position lies strictly between boundsMin and boundsMax |
| Sah.FillBins | src/shapes/accel.hpp:247-268 | after binning, bin BINS - 1 is still empty, the counts add up to the node's primitive count, and a bin with no primitive has the empty box |
| Sah.LastBinEmpty | src/shapes/accel.hpp:247-268 | bin BINS - 1 is never populated, however many primitives have been binned |
| Sah.BinCountsAddUp | src/shapes/accel.hpp:247-268 | after n primitives have been binned, the bin counts add up to n |
| Sah.BinsBelowSplit | src/shapes/accel.hpp:247-268 | bins 0..i together hold exactly the primitives whose centroid lies below boundary i's split position |
| Sah.PrefixSums | src/shapes/accel.hpp:272-294 | leftCount[i] counts bins 0..i and rightCount[i] counts bins i+1..BINS-1; the areas are those of the unions of the same bins |
| Sah.BoundaryCountsPartition | src/shapes/accel.hpp:272-294 | the two sides of every boundary together hold all binned primitives, and the right side of the last boundary is only bin BINS - 1 |
| Sah.CostScan | src/shapes/accel.hpp:299-308 | the chosen boundary has the least cost not above 1e30, and no later boundary costs at most as much, so among equal costs the last one wins; with no choice no boundary costs at most 1e30 |
| Sah.WinningBoundaryIsInterior | src/shapes/accel.hpp:272-308 | a boundary that wins the scan has primitives on both sides and is never the last boundary |
| Sah.Partition | src/shapes/accel.hpp:312-334 | the slots of the node are permuted and nothing outside them moves; entries before the split index lie below the plane and the rest do not |
| Sah.PartitionCount | src/shapes/accel.hpp:312-334 | the left part's size is the number of the node's primitives whose centroid lies below the plane |
| Sah.RangeBounds | src/shapes/accel.hpp:220-226 | the running minimum and maximum from the sentinels bracket every centroid coordinate seen so far, and each is its sentinel or attained by one of them |
| Sah.SahChoiceUnique | src/shapes/accel.hpp:299-308 | at most one boundary of a list of boundary costs is affordable, no costlier than any affordable boundary and followed by no boundary of at most its cost; so the scan's choice, the last of the least costs, is determined by the costs |
| Sah.BestPlane | src/shapes/accel.hpp:272-308 | the scan over the histogram picks a plane exactly when some boundary of it costs at most 1e30; the plane it picks lies at the split position of the returned boundary, which is the SAH choice among the histogram's boundary costs (least cost, the last of equal costs), and has primitives strictly below and not below it |
| Sah.FindPlane | src/shapes/accel.hpp:220-308 | a plane is found exactly when the centroid range is not a single point and some boundary of the histogram over it costs at most 1e30; a plane that is found lies at the split position of the returned boundary, the SAH choice among that histogram's boundary costs, and has some but not all of the node's centroids below it; when all centroids coincide no plane is found |
| Sah.RangeWithinSentinels | src/shapes/accel.hpp:220-242 | within the sentinels, boundsMin equals boundsMax exactly when all centroids coincide on the axis |
| Sah.Binning | src/shapes/accel.hpp:208-335 | a plane is found exactly as for FindPlane and lies at the split position of the SAH choice among the boundary costs of the centroid range's histogram; the node's slots are permuted and partitioned about the plane, and the left part holds exactly the centroids below it; without a plane nothing moves and the split index is the first slot; with a plane both parts are non-empty |
| Sah.FirstBoundarySides | src/shapes/accel.hpp:245-294 | over the attained centroid range, the smallest centroid lands left of the first boundary and the largest right of it, so both sides hold primitives and together all of them |
| Sah.HasPlaneSameSlots | src/shapes/accel.hpp:220-268 | binning sees a node only through the primitives in its slots: two ranges holding the same primitives in the same order along the same axis find a plane alike, wherever the slots sit |
| Sah.HasPlaneWhenBounded | src/shapes/accel.hpp:220-308 | binning finds a plane for every node whose centroids lie within the sentinels and do not all coincide, provided its primitive boxes are non-empty, proper and inside one box whose area times the primitive count is at most 1e30 |
| Bvh.Subdivide | src/shapes/accel.hpp:338-419 | a node with at most two primitives, or for which binning finds no plane (in particular one whose centroids coincide), stays an unchanged leaf; a node with more than two primitives for which binning finds a plane is split: it keeps its box and becomes internal with its children appended at the end; only its own slots move and only by permutation; and it roots a well-formed tree over them in which every leaf holds at most two primitives or has no plane, and every internal node's halves lie on the two sides of a plane across the longest axis of its box |
| Bvh.SplitNode | src/shapes/accel.hpp:399-418 | given slots that lie on the two sides of a plane at the split index, the parent becomes internal with leftFirst at the old node count, and the two appended children are each subdivided in turn, so the parent roots a tree over its slots with the same guarantees as for Subdivide: every leaf terminal, every split across a plane, the parent's own split included |
| Bvh.PlaneSplitPermuted | src/shapes/accel.hpp:413-418 | subdividing a child reorders only that child's slots, so the parent's halves stay on the two sides of its plane |
| Bvh.Build | src/shapes/accel.hpp:435-453 | the index list is a permutation of 0..N-1; with primitives the root is a well-formed, linked tree whose leaves tile all of them, whose every leaf holds at most two primitives or has no plane, and whose every internal node splits its primitives across a plane on the longest axis of its box; the root is split exactly when there are more than two primitives and binning finds a plane for them; with none there is a single empty root node |
| Traversal.IntersectPrimitive | src/shapes/mesh.cpp:87-100 | the record's distance becomes the smaller of its own and the primitive's hit, and a hit is reported exactly when that is strictly closer |
| Traversal.ScanLeaf | src/shapes/accel.hpp:110-120 | the leaf loop never increases the record's distance, reports a hit exactly when it decreased, and a reported hit comes from one of the leaf's primitives |
| Traversal.ScanLeafFindsClosest | src/shapes/accel.hpp:110-120 | after the leaf loop the record holds the closest of its old distance and the hits of the leaf's primitives |
| Traversal.IntersectNode | src/shapes/accel.hpp:102-153 | traversing a node never increases the record's distance, reports a hit exactly when it decreased, and a reported hit comes from a primitive of the structure |
| Traversal.PruningIsSound | src/shapes/accel.hpp:128-151 | when a primitive beneath a node is hit before t, the node's box is entered before t, so skipping a node entered no earlier than t loses no closer hit |
| Traversal.NodeFindsClosest | src/shapes/accel.hpp:102-153 | traversal of a well-formed subtree leaves the record at the closest of its old distance and the hits of the subtree's primitives |
| Traversal.ExhaustiveFindsClosest | src/shapes/accel.hpp:102-153 | the reference traversal that visits every node also reaches the closest hit of the subtree's primitives |
| Traversal.PruningChangesNothing | src/shapes/accel.hpp:128-151 | the pruned, near-first traversal ends with the same distance and the same answer as the reference traversal that visits every node |
| Traversal.Intersect | src/shapes/accel.hpp:456-465 | with no primitives, or a root box not entered before the record's distance, the answer is false and the record untouched; otherwise the distance never increases and a hit means it decreased |
| Traversal.IntersectFindsClosest | src/shapes/accel.hpp:456-465 | on a built structure the record ends at the closest of its old distance and all primitives' hits, and a hit is reported exactly when some primitive is strictly closer |
| Traversal.RootBoxCoversAll | src/shapes/accel.hpp:467 | the bounding box of a built structure contains every primitive's box |
| Traversal.GetCentroid | src/shapes/accel.hpp:469 | the centre of a proper root box lies inside it, and it is undefined exactly for the empty box |
| Mesh.TriangleBox | src/shapes/mesh.cpp:109-134 | the box is proper, contains all three corners, and each face passes through a corner |
| Mesh.TriangleCentroid | src/shapes/mesh.cpp:136-146 | three times the centroid is the sum of the three corners on every axis |
| Mesh.CentroidInsideBox | src/shapes/mesh.cpp:109-146 | a triangle's centroid lies inside the triangle's bounding box |
| Mesh.AsPrimitives | src/shapes/mesh.cpp:33-146 | the provider has one primitive per triangle, and primitive i's box and centroid are the box and centroid of triangle i |
| Mesh.MeshPrimitivesConsistent | src/shapes/mesh.cpp:33-146 | as a primitive provider, every triangle has a proper box that contains its centroid |
| Mesh.BuildMesh | src/shapes/mesh.cpp:149-157 | the structure built over the loaded triangles holds each triangle index exactly once, is a well-formed tree over all of them when there are any, with terminal leaves and plane splits as for Build, is split at the root exactly when there are more than two and binning finds a plane, and its root box contains every corner of every triangle |
| Mesh.RootCoversTriangle | src/shapes/mesh.cpp:109-134 | the root of a hierarchy over all triangles contains the three corners of each triangle, because it contains that triangle's box |
| ImageTexture.ClampPoint | src/textures/image.cpp:142-146 | for a non-empty image the point lands inside it, in-range coordinates are kept, and out-of-range ones go to the nearest edge |
| ImageTexture.ClampIdempotent | src/textures/image.cpp:142-146 | clamping a clamped point changes nothing |
| ImageTexture.TruncMod | src/textures/image.cpp:151-152 | the C++ remainder completes the truncating division and has the sign of the dividend |
| ImageTexture.RepeatPoint | src/textures/image.cpp:148-157 | the wrapped point lies inside the image, is the mathematical remainder of the input (hence congruent to it), and is the input itself when that is inside |
| ImageTexture.RepeatPeriodic | src/textures/image.cpp:148-157 | shifting a point by whole image widths and heights does not change its wrapped position |
| ImageTexture.LinInterpolate | src/textures/image.cpp:158-163 | weight 0 gives the first colour, weight 1 the second, and blending a colour with itself gives that colour |
| ImageTexture.LinInterpolateBetween | src/textures/image.cpp:158-163 | for a weight in [0, 1] each channel of the blend lies between the smaller and the larger of that channel in the two colours |
| ImageTexture.SamplePosition | src/textures/image.cpp:67-79 | the lower-left neighbour is the floor of the scaled, half-pixel-shifted coordinate, and both blend weights lie in [0, 1) |
| ImageTexture.SelectNeighbours | src/textures/image.cpp:76-98 | the four neighbours are the corner and its offsets by (0,1), (1,0) and (1,1), all four clamped in clamp mode and all four wrapped otherwise; for a non-empty image all four lie inside it in both modes |
| ImageTexture.EvaluateBilinear | src/textures/image.cpp:64-116 | with a non-negative exposure each channel of the result lies between the exposure times the darkest and the exposure times the brightest of the four selected neighbours; four equal neighbours give that colour times the exposure; a sample at a pixel centre gives that pixel times the exposure |
| ImageTexture.BilinearWithin | src/textures/image.cpp:100-116 | blending along x and then along y, scaled by a non-negative factor, stays within the scaled channel-wise range of the four colours |
| Checkerboard.FromProperties | src/textures/checkerboard.cpp:11-15 | each property is used when given, and defaults to black, white and scale (1, 1) otherwise |
| Checkerboard.Evaluate | src/textures/checkerboard.cpp:17-28 | the result is one of the two colours: color0 exactly when the two cell indices have equal parity, color1 otherwise |
| Checkerboard.NeighbourCellsAlternate | src/textures/checkerboard.cpp:21-25 | moving to the next cell along u swaps the colour, also across the origin where the absolute value folds the cells |

## Left out

- Floating point: reals replace floats. Rounding, the `float` casts and
  the NaN from `0 * inf` in the slab test are not modelled. The slab
  test requires every direction component of the ray to be non-zero
  (`Slab.Ray.Oblique`), so the divisions are defined.
- `Epsilon` and `Infinity` come from a math header that is not part of
  this model. `Epsilon` is a parameter of the slab test.
- `maxComponentIndex` also comes from that header. `Geometry.MaxAxis`
  and `Geometry.SplitAxis` break ties toward the first axis.
- Integer widths: `NodeIndex` and `int` are unbounded here. Overflow of
  the 32-bit node and slot indices is not modelled.
- `ImageTexture.SamplePosition`, `ImageTexture.SelectNeighbours`,
  `Checkerboard.Cell`: the `(int)` casts of floored coordinates
  (image.cpp lines 76-79, checkerboard.cpp line 25) and the `+ 1`
  neighbour offsets are unbounded integers here. In C++ a cast of a
  value outside the `int` range, or an `int` overflow of the offset, is
  undefined; that case is not modelled.
- `Sah.FindPlane`: if no boundary's cost is at most `1e30`, the source
  reads an uninitialised `splitPos`. The model reports "no plane"
  instead, and the node stays a leaf. The exact condition for a plane is
  `Sah.HasPlane`. It fails for boxes whose costs exceed `1e30`. It can
  also fail for centroids beyond the `±1e30` sentinels: the centroid
  range then stops at a sentinel, so one side of every boundary can be
  empty and cost NaN. `Sah.HasPlaneWhenBounded` gives a concrete
  sufficient condition for a plane; it does not cover such nodes.
- `Sah.FindPlane`, `Bvh.Subdivide`: the "all centroids coincide"
  guarantee is stated for centroids within the `±1e30` sentinels.
  Outside them, `boundsMin`/`boundsMax` can stop at a sentinel.
- `Bvh.Subdivide`, `Bvh.Build`, `Mesh.BuildMesh`: the contracts state
  that every node's box contains the boxes of its primitives. That the box is exactly their union is
  stated where it is computed (`Bvh.ComputeAABB`) and is not carried
  through later permutations of the slots.
- `Bvh.Subdivide`, `Bvh.Build`, `Mesh.BuildMesh`: every internal node
  is stated to split its slots about some plane, and to be split exactly
  when binning finds one; that the plane is the SAH boundary is stated on
  `Sah.Binning`, whose plane `Subdivide` partitions about, and is not
  carried through the children's later permutations.
- The middle-split branch of `subdivide` is dead code: `UseSAH` is a
  constant `true`.
- Statistics counters (`its.stats`), `Timer` and `logger` calls are left
  out.
- The `Sampler` argument is left out.
- Intersection record: only the distance `its.t` and the index of the
  primitive that wrote it are modelled. Position, frame and `wo` are
  left out.
- Per-primitive intersection is a parameter. The Möller–Trumbore test of
  `mesh.cpp` is not modelled.
- `Traversal.IntersectFindsClosest` requires every hit to lie in its
  primitive's box at distance `Epsilon` or more. Without that, pruning
  could skip a hit. `mesh.cpp`'s triangle test accepts any candidate
  distance below `its.t`, including negative ones, so a mesh can report
  hits this requirement excludes.
- PLY loading and vertex normals are left out. `Mesh.BuildMesh` takes
  the loaded triangles and vertex positions as its argument.
- Image texture:
  - The `Image` pixel lookup is a function parameter of
    `ImageTexture.EvaluateBilinear`.
  - The nearest filter, with its `fmod`-based repeat, is left out.
  - Property parsing is left out.
- The textures' `toString` and scene registration are left out.
