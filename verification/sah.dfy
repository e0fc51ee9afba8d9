/** The binned surface-area-heuristic split finder of the acceleration
    structure (`binning`): centroid range, 16 bins, prefix sums from both
    sides, the cost scan and the in-place two-index partition. */
module Sah {
  import opened Geometry
  import opened Provider

  /** Number of bins. */
  const BINS: nat := 16

  /** The `1e30f` sentinel that starts the best cost and the centroid range. */
  const Far: real := 1000000000000000000000000000000.0

  /** A histogram bucket: the union of its primitives' boxes and their number. */
  datatype Bin = Bin(aabb: Bounds, count: nat)

  /** The primitive range `[first, first + count)` of a node, read along one axis. */
  datatype NodeRange = NodeRange(prims: Primitives, indices: seq<int>, first: nat, count: nat, axis: Axis) {
    predicate Valid()
    {
      first + count <= |indices|
    }

    /** Centroid coordinate of the `j`-th primitive of the range. */
    function KeyAt(j: nat): real
      requires Valid() && j < count
    {
      Key(prims, indices, first + j, axis)
    }

    /** Bounding box of the `j`-th primitive of the range. */
    function BoxAt(j: nat): Bounds
      requires Valid() && j < count
    {
      prims.box(indices[first + j])
    }

    /** The slots of the index permutation the range covers. */
    function Slots(): (s: seq<int>)
      requires Valid()
      ensures |s| == count
    {
      indices[first..first + count]
    }
  }

  /* ---------------------------------------------------------------- */
  /* Centroid range                                                    */
  /* ---------------------------------------------------------------- */

  /** Minimum and maximum centroid coordinate of the range, starting from the
      sentinels `1e30` and `-1e30`. */
  method CentroidRange(r: NodeRange) returns (boundsMin: real, boundsMax: real)
    requires r.Valid()
    ensures forall j :: 0 <= j < r.count ==> boundsMin <= r.KeyAt(j) <= boundsMax
    ensures boundsMin <= Far && -Far <= boundsMax
    ensures boundsMin == Far || exists j :: 0 <= j < r.count && r.KeyAt(j) == boundsMin
    ensures boundsMax == -Far || exists j :: 0 <= j < r.count && r.KeyAt(j) == boundsMax
    ensures boundsMin == RangeMin(r, r.count) && boundsMax == RangeMax(r, r.count)
  {
    boundsMin, boundsMax := Far, -Far;
    var i := 0;
    while i < r.count
      invariant 0 <= i <= r.count
      invariant boundsMin == RangeMin(r, i) && boundsMax == RangeMax(r, i)
      invariant forall j :: 0 <= j < i ==> boundsMin <= r.KeyAt(j) <= boundsMax
      invariant boundsMin <= Far && -Far <= boundsMax
      invariant boundsMin == Far || exists j :: 0 <= j < i && r.KeyAt(j) == boundsMin
      invariant boundsMax == -Far || exists j :: 0 <= j < i && r.KeyAt(j) == boundsMax
    {
      var center := r.KeyAt(i);
      boundsMin := Min(boundsMin, center);
      boundsMax := Max(boundsMax, center);
      i := i + 1;
    }
  }

  /** The running minimum of the first `n` centroid coordinates of the
      range, started at the sentinel `1e30`. */
  function RangeMin(r: NodeRange, n: nat): real
    requires r.Valid() && n <= r.count
  {
    if n == 0 then Far else Min(RangeMin(r, n - 1), r.KeyAt(n - 1))
  }

  /** The running maximum, started at the sentinel `-1e30`. */
  function RangeMax(r: NodeRange, n: nat): real
    requires r.Valid() && n <= r.count
  {
    if n == 0 then -Far else Max(RangeMax(r, n - 1), r.KeyAt(n - 1))
  }

  /** The running minimum and maximum bracket the coordinates seen, and each
      is its sentinel or one of them. */
  lemma {:induction false} RangeBounds(r: NodeRange, n: nat)
    requires r.Valid() && n <= r.count
    ensures forall j :: 0 <= j < n ==> RangeMin(r, n) <= r.KeyAt(j) <= RangeMax(r, n)
    ensures RangeMin(r, n) == Far || exists j :: 0 <= j < n && r.KeyAt(j) == RangeMin(r, n)
    ensures RangeMax(r, n) == -Far || exists j :: 0 <= j < n && r.KeyAt(j) == RangeMax(r, n)
  {
    if n > 0 {
      RangeBounds(r, n - 1);
    }
  }

  /* ---------------------------------------------------------------- */
  /* Bin assignment                                                    */
  /* ---------------------------------------------------------------- */

  /** The centroid range is non-degenerate and contains every key. */
  ghost predicate Spread(r: NodeRange, lo: real, hi: real)
  {
    r.Valid() && lo < hi && forall j :: 0 <= j < r.count ==> lo <= r.KeyAt(j) <= hi
  }

  /** `min(BINS - 2, (int)((c - boundsMin) * scale))` with `scale = BINS / (boundsMax - boundsMin)`;
      the truncating cast is a floor because its argument is non-negative. */
  function BinIndex(c: real, lo: real, hi: real): (b: nat)
    requires lo < hi && lo <= c
    ensures b <= BINS - 2
  {
    var x := (c - lo) * ((BINS as real) / (hi - lo));
    assert x >= 0.0;
    MinInt(BINS - 2, x.Floor)
  }

  /** Split position of the boundary after bin `i`:
      `boundsMin + inverse_scale * (i + 1)` with `inverse_scale = (boundsMax - boundsMin) / BINS`. */
  function SplitPosition(lo: real, hi: real, i: nat): real
  {
    lo + ((hi - lo) / (BINS as real)) * ((i + 1) as real)
  }

  /** Every boundary lies strictly between the smallest and the largest centroid. */
  lemma SplitPositionInside(lo: real, hi: real, i: nat)
    requires lo < hi && i < BINS - 1
    ensures lo < SplitPosition(lo, hi, i) < hi
  {
    var w := (hi - lo) / (BINS as real);
    var k := (i + 1) as real;
    assert w * (BINS as real) == hi - lo;
    assert w > 0.0;
    ScaleStrict(0.0, k, w);
    ScaleStrict(k, BINS as real, w);
    assert 0.0 < w * k < hi - lo;
  }

  /** A strict version of `ScaleOrder` for positive factors. */
  lemma ScaleStrict(a: real, b: real, d: real)
    requires d > 0.0
    ensures a * d < b * d <==> a < b
  {
    ScaleOrder(b, a, d);
  }

  /** For every boundary except the last, a centroid falls in bins `0..i`
      exactly when it lies below the boundary's split position: the binning
      and the partition agree. */
  lemma {:induction false} BinAtMostIffBelowSplit(c: real, lo: real, hi: real, i: nat)
    requires lo < hi && lo <= c && i < BINS - 2
    ensures BinIndex(c, lo, hi) <= i <==> c < SplitPosition(lo, hi, i)
  {
    var x := (c - lo) * ((BINS as real) / (hi - lo));
    BinIndexIsFloor(c, lo, hi);
    FloorAtMost(x, i);
    BelowSplitIffScaled(c, lo, hi, i);
  }

  /** The bin index is the clamped floor of the scaled offset. */
  lemma BinIndexIsFloor(c: real, lo: real, hi: real)
    requires lo < hi && lo <= c
    ensures BinIndex(c, lo, hi) == MinInt(BINS - 2, ((c - lo) * ((BINS as real) / (hi - lo))).Floor)
  {
  }

  /** `floor(x) <= i` exactly when `x < i + 1`. */
  lemma FloorAtMost(x: real, i: int)
    ensures x.Floor <= i <==> x < (i + 1) as real
  {
  }

  /** Lying below boundary `i`'s split position is lying below `i + 1` once
      the offset from `lo` is scaled to bin widths. */
  lemma BelowSplitIffScaled(c: real, lo: real, hi: real, i: nat)
    requires lo < hi
    ensures c < SplitPosition(lo, hi, i) <==> (c - lo) * ((BINS as real) / (hi - lo)) < (i + 1) as real
  {
    var s := (BINS as real) / (hi - lo);
    var w := (hi - lo) / (BINS as real);
    var k := (i + 1) as real;
    assert s > 0.0;
    assert w * s == 1.0;
    assert (w * k) * s == k by {
      assert (w * k) * s == (w * s) * k;
    }
    ScaleStrict(c - lo, w * k, s);
  }

  /** The smallest centroid lands in bin 0 and the largest in bin `BINS - 2`. */
  lemma {:induction false} ExtremeBins(lo: real, hi: real)
    requires lo < hi
    ensures BinIndex(lo, lo, hi) == 0
    ensures BinIndex(hi, lo, hi) == BINS - 2
  {
    var s := (BINS as real) / (hi - lo);
    assert (hi - lo) * s == BINS as real;
  }

  /* ---------------------------------------------------------------- */
  /* Filling the bins                                                  */
  /* ---------------------------------------------------------------- */

  /** Adds one primitive to a bin: the first one replaces the empty box,
      later ones extend it. */
  function AddToBin(bin: Bin, box: Bounds): Bin
  {
    if bin.count != 0 then Bin(Extend(bin.aabb, box), bin.count + 1) else Bin(box, 1)
  }

  function EmptyBins(): (bins: seq<Bin>)
    ensures |bins| == BINS
  {
    seq(BINS, _ => Bin(Empty, 0))
  }

  /** The bins after the first `n` primitives of the range have been added,
      in range order. */
  ghost function BinsAfter(r: NodeRange, lo: real, hi: real, n: nat): (bins: seq<Bin>)
    requires Spread(r, lo, hi) && n <= r.count
    ensures |bins| == BINS
  {
    if n == 0 then EmptyBins()
    else
      var prev := BinsAfter(r, lo, hi, n - 1);
      var b := BinIndex(r.KeyAt(n - 1), lo, hi);
      prev[b := AddToBin(prev[b], r.BoxAt(n - 1))]
  }

  /** Number of primitives in bins `[a, b)`. */
  function SumCounts(bins: seq<Bin>, a: nat, b: nat): nat
    requires a <= b <= |bins|
    decreases b - a
  {
    if a == b then 0 else SumCounts(bins, a, b - 1) + bins[b - 1].count
  }

  /** The bin histogram: one pass over the range. */
  method FillBins(r: NodeRange, lo: real, hi: real) returns (bins: seq<Bin>)
    requires Spread(r, lo, hi)
    ensures bins == BinsAfter(r, lo, hi, r.count)
    ensures |bins| == BINS
    ensures bins[BINS - 1] == Bin(Empty, 0)
    ensures SumCounts(bins, 0, BINS) == r.count
    ensures forall k :: 0 <= k < BINS && bins[k].count == 0 ==> bins[k].aabb.Empty?
  {
    bins := EmptyBins();
    var i := 0;
    while i < r.count
      invariant 0 <= i <= r.count
      invariant bins == BinsAfter(r, lo, hi, i)
    {
      var binIndex := BinIndex(r.KeyAt(i), lo, hi);
      bins := bins[binIndex := AddToBin(bins[binIndex], r.BoxAt(i))];
      i := i + 1;
    }
    BinsAfterFacts(r, lo, hi, r.count);
  }

  /** Adding to one bin adds one to every count window that contains it. */
  lemma {:induction false} SumCountsUpdate(bins: seq<Bin>, b: nat, bin: Bin, m: nat)
    requires b < |bins| && m <= |bins| && bin.count == bins[b].count + 1
    ensures SumCounts(bins[b := bin], 0, m) == SumCounts(bins, 0, m) + (if b < m then 1 else 0)
  {
    if m > 0 {
      SumCountsUpdate(bins, b, bin, m - 1);
    }
  }

  /** The invariants of the histogram: the last bin stays empty, the counts
      add up to the number of primitives seen, and an empty bin has an empty box. */
  lemma BinsAfterFacts(r: NodeRange, lo: real, hi: real, n: nat)
    requires Spread(r, lo, hi) && n <= r.count
    ensures BinsAfter(r, lo, hi, n)[BINS - 1] == Bin(Empty, 0)
    ensures SumCounts(BinsAfter(r, lo, hi, n), 0, BINS) == n
    ensures forall k :: 0 <= k < BINS && BinsAfter(r, lo, hi, n)[k].count == 0
              ==> BinsAfter(r, lo, hi, n)[k].aabb.Empty?
  {
    LastBinEmpty(r, lo, hi, n);
    BinCountsAddUp(r, lo, hi, n);
    EmptyBinsHaveEmptyBoxes(r, lo, hi, n);
  }

  /** Bin `BINS - 1` is never filled. */
  lemma {:induction false} LastBinEmpty(r: NodeRange, lo: real, hi: real, n: nat)
    requires Spread(r, lo, hi) && n <= r.count
    ensures BinsAfter(r, lo, hi, n)[BINS - 1] == Bin(Empty, 0)
  {
    if n > 0 {
      LastBinEmpty(r, lo, hi, n - 1);
    }
  }

  /** The bin counts add up to the number of primitives binned. */
  lemma {:induction false} BinCountsAddUp(r: NodeRange, lo: real, hi: real, n: nat)
    requires Spread(r, lo, hi) && n <= r.count
    ensures SumCounts(BinsAfter(r, lo, hi, n), 0, BINS) == n
  {
    if n == 0 {
      NoBinsNoCount(r, lo, hi);
    } else {
      BinCountsAddUp(r, lo, hi, n - 1);
      OneMoreCounted(r, lo, hi, n);
    }
  }

  /** Before any primitive is binned the counts add up to zero. */
  lemma NoBinsNoCount(r: NodeRange, lo: real, hi: real)
    requires Spread(r, lo, hi)
    ensures SumCounts(BinsAfter(r, lo, hi, 0), 0, BINS) == 0
  {
    EmptyBinsCountZero(BINS);
  }

  /** The induction step of `BinCountsAddUp`: binning one more primitive
      adds one to the total count. */
  lemma OneMoreCounted(r: NodeRange, lo: real, hi: real, n: nat)
    requires Spread(r, lo, hi) && 0 < n <= r.count
    requires SumCounts(BinsAfter(r, lo, hi, n - 1), 0, BINS) == n - 1
    ensures SumCounts(BinsAfter(r, lo, hi, n), 0, BINS) == n
  {
    var prev := BinsAfter(r, lo, hi, n - 1);
    var b := BinIndex(r.KeyAt(n - 1), lo, hi);
    SumCountsUpdate(prev, b, AddToBin(prev[b], r.BoxAt(n - 1)), BINS);
  }

  /** The empty histogram counts nothing. */
  lemma {:induction false} EmptyBinsCountZero(m: nat)
    requires m <= BINS
    ensures SumCounts(EmptyBins(), 0, m) == 0
  {
    if m > 0 {
      EmptyBinsCountZero(m - 1);
    }
  }

  /** A bin that holds no primitive has the empty box. */
  lemma {:induction false} EmptyBinsHaveEmptyBoxes(r: NodeRange, lo: real, hi: real, n: nat)
    requires Spread(r, lo, hi) && n <= r.count
    ensures forall k :: 0 <= k < BINS && BinsAfter(r, lo, hi, n)[k].count == 0
              ==> BinsAfter(r, lo, hi, n)[k].aabb.Empty?
  {
    if n > 0 {
      EmptyBinsHaveEmptyBoxes(r, lo, hi, n - 1);
    }
  }

  /** Number of entries of `s` whose centroid along `axis` lies below `pos`. */
  function CountBelow(prims: Primitives, s: seq<int>, axis: Axis, pos: real): (n: nat)
    ensures n <= |s|
  {
    if |s| == 0 then 0
    else CountBelow(prims, s[..|s| - 1], axis, pos)
         + (if prims.centroid(s[|s| - 1]).Get(axis) < pos then 1 else 0)
  }

  /** Bins `0..i` together hold exactly the primitives whose centroid lies
      below the split position of boundary `i`. */
  lemma {:induction false} BinsBelowSplit(r: NodeRange, lo: real, hi: real, n: nat, i: nat)
    requires Spread(r, lo, hi) && n <= r.count && i < BINS - 2
    ensures SumCounts(BinsAfter(r, lo, hi, n), 0, i + 1)
            == CountBelow(r.prims, r.indices[r.first..r.first + n], r.axis, SplitPosition(lo, hi, i))
  {
    if n == 0 {
      EmptyBinsCountZero(i + 1);
    } else {
      BinsBelowSplit(r, lo, hi, n - 1, i);
      OneMoreBelowSplit(r, lo, hi, n, i);
    }
  }

  /** The induction step of `BinsBelowSplit`: the `n`-th primitive raises
      the count of bins `0..i` exactly when its centroid is below the split. */
  lemma OneMoreBelowSplit(r: NodeRange, lo: real, hi: real, n: nat, i: nat)
    requires Spread(r, lo, hi) && 0 < n <= r.count && i < BINS - 2
    requires SumCounts(BinsAfter(r, lo, hi, n - 1), 0, i + 1)
             == CountBelow(r.prims, r.indices[r.first..r.first + (n - 1)], r.axis, SplitPosition(lo, hi, i))
    ensures SumCounts(BinsAfter(r, lo, hi, n), 0, i + 1)
            == CountBelow(r.prims, r.indices[r.first..r.first + n], r.axis, SplitPosition(lo, hi, i))
  {
    var prev := BinsAfter(r, lo, hi, n - 1);
    var b := BinIndex(r.KeyAt(n - 1), lo, hi);
    SumCountsUpdate(prev, b, AddToBin(prev[b], r.BoxAt(n - 1)), i + 1);
    BinAtMostIffBelowSplit(r.KeyAt(n - 1), lo, hi, i);
    var s := r.indices[r.first..r.first + n];
    assert s[..|s| - 1] == r.indices[r.first..r.first + (n - 1)];
    assert s[|s| - 1] == r.indices[r.first + n - 1];
  }


  /* ---------------------------------------------------------------- */
  /* Prefix sums from both sides                                       */
  /* ---------------------------------------------------------------- */

  /** Union of the boxes of bins `[0, m)`, accumulated from the left. */
  function UnionLeft(bins: seq<Bin>, m: nat): Bounds
    requires m <= |bins|
  {
    if m == 0 then Empty else Extend(UnionLeft(bins, m - 1), bins[m - 1].aabb)
  }

  /** Union of the boxes of bins `[a, |bins|)`, accumulated from the right. */
  function UnionRight(bins: seq<Bin>, a: nat): Bounds
    requires a <= |bins|
    decreases |bins| - a
  {
    if a == |bins| then Empty else Extend(UnionRight(bins, a + 1), bins[a].aabb)
  }

  /** Prefix data for the `BINS - 1` boundaries: boundary `i` separates bins
      `0..i` from bins `i+1..BINS-1`. */
  method PrefixSums(bins: seq<Bin>)
    returns (leftCount: seq<nat>, leftArea: seq<Ext>, rightCount: seq<nat>, rightArea: seq<Ext>)
    requires |bins| == BINS
    ensures |leftCount| == |leftArea| == |rightCount| == |rightArea| == BINS - 1
    ensures forall i :: 0 <= i < BINS - 1 ==>
              leftCount[i] == SumCounts(bins, 0, i + 1) && rightCount[i] == SumCounts(bins, i + 1, BINS)
    ensures forall i :: 0 <= i < BINS - 1 ==>
              leftArea[i] == SurfaceArea(UnionLeft(bins, i + 1)) && rightArea[i] == SurfaceArea(UnionRight(bins, i + 1))
  {
    leftCount, rightCount := seq(BINS - 1, _ => 0), seq(BINS - 1, _ => 0);
    leftArea, rightArea := seq(BINS - 1, _ => PosInf), seq(BINS - 1, _ => PosInf);
    var leftBox, rightBox := Empty, Empty;
    var leftSum, rightSum := 0, 0;
    for i := 0 to BINS - 1
      invariant |leftCount| == |leftArea| == |rightCount| == |rightArea| == BINS - 1
      invariant leftSum == SumCounts(bins, 0, i) && leftBox == UnionLeft(bins, i)
      invariant rightSum == SumCounts(bins, BINS - i, BINS) && rightBox == UnionRight(bins, BINS - i)
      invariant forall k :: 0 <= k < i ==>
                  leftCount[k] == SumCounts(bins, 0, k + 1) && leftArea[k] == SurfaceArea(UnionLeft(bins, k + 1))
      invariant forall k :: BINS - 1 - i <= k < BINS - 1 ==>
                  rightCount[k] == SumCounts(bins, k + 1, BINS) && rightArea[k] == SurfaceArea(UnionRight(bins, k + 1))
    {
      leftSum := leftSum + bins[i].count;
      leftBox := Extend(leftBox, bins[i].aabb);
      assert leftSum == SumCounts(bins, 0, i + 1) && leftBox == UnionLeft(bins, i + 1);
      leftCount := leftCount[i := leftSum];
      leftArea := leftArea[i := SurfaceArea(leftBox)];

      var j := BINS - 1 - i;
      SumCountsFront(bins, j, BINS);
      rightSum := rightSum + bins[j].count;
      rightBox := Extend(rightBox, bins[j].aabb);
      assert rightSum == SumCounts(bins, j, BINS) && rightBox == UnionRight(bins, j);
      rightCount := rightCount[j - 1 := rightSum];
      rightArea := rightArea[j - 1 := SurfaceArea(rightBox)];
    }
  }

  /** Peeling the first bin off a count window. */
  lemma {:induction false} SumCountsFront(bins: seq<Bin>, a: nat, b: nat)
    requires a < b <= |bins|
    ensures SumCounts(bins, a, b) == bins[a].count + SumCounts(bins, a + 1, b)
    decreases b - a
  {
    if a + 1 < b {
      SumCountsFront(bins, a, b - 1);
    }
  }

  /** Count windows add up. */
  lemma {:induction false} SumCountsSplit(bins: seq<Bin>, a: nat, m: nat, b: nat)
    requires a <= m <= b <= |bins|
    ensures SumCounts(bins, a, b) == SumCounts(bins, a, m) + SumCounts(bins, m, b)
    decreases b - m
  {
    if m < b {
      SumCountsSplit(bins, a, m, b - 1);
    }
  }

  /** For every boundary the two sides together hold all primitives, and the
      last boundary has nothing on its right (bin `BINS - 1` is never filled). */
  lemma {:induction false} BoundaryCountsPartition(bins: seq<Bin>, i: nat)
    requires |bins| == BINS && i < BINS - 1
    ensures SumCounts(bins, 0, i + 1) + SumCounts(bins, i + 1, BINS) == SumCounts(bins, 0, BINS)
    ensures SumCounts(bins, BINS - 1, BINS) == bins[BINS - 1].count
  {
    SumCountsSplit(bins, 0, i + 1, BINS);
    SumCountsFront(bins, BINS - 1, BINS);
  }

  /** A side that holds no primitive has the empty box. */
  lemma {:induction false} EmptySideHasEmptyBox(bins: seq<Bin>, m: nat)
    requires m <= |bins|
    requires forall k :: 0 <= k < |bins| && bins[k].count == 0 ==> bins[k].aabb.Empty?
    ensures SumCounts(bins, 0, m) == 0 ==> UnionLeft(bins, m).Empty?
    ensures SumCounts(bins, m, |bins|) == 0 ==> UnionRight(bins, m).Empty?
    decreases |bins| - m
  {
    if m > 0 {
      EmptySideHasEmptyBoxLeft(bins, m);
    }
    if m < |bins| {
      SumCountsFront(bins, m, |bins|);
      EmptySideHasEmptyBox(bins, m + 1);
    }
  }

  lemma {:induction false} EmptySideHasEmptyBoxLeft(bins: seq<Bin>, m: nat)
    requires m <= |bins|
    requires forall k :: 0 <= k < |bins| && bins[k].count == 0 ==> bins[k].aabb.Empty?
    ensures SumCounts(bins, 0, m) == 0 ==> UnionLeft(bins, m).Empty?
  {
    if m > 0 {
      EmptySideHasEmptyBoxLeft(bins, m - 1);
    }
  }

  /* ---------------------------------------------------------------- */
  /* Cost scan                                                         */
  /* ---------------------------------------------------------------- */

  /** An IEEE plane cost. `Infinite` is +inf; `NaN` arises from `0 * inf`,
      the product of an empty side's count and its empty box's area. */
  datatype Cost = Num(v: real) | Infinite | NaN

  /** `count * area` in IEEE arithmetic. */
  function Weighted(count: nat, area: Ext): Cost
  {
    match area
    case Fin(a) => Num(count as real * a)
    case PosInf => if count == 0 then NaN else Infinite
    case NegInf => NaN
  }

  /** IEEE addition of two costs that are never -inf. */
  function CostSum(a: Cost, b: Cost): Cost
  {
    match (a, b)
    case (NaN, _) => NaN
    case (_, NaN) => NaN
    case (Num(x), Num(y)) => Num(x + y)
    case (_, _) => Infinite
  }

  /** `leftCount[i] * leftArea[i] + rightCount[i] * rightArea[i]`. */
  function PlaneCost(leftCount: seq<nat>, leftArea: seq<Ext>, rightCount: seq<nat>, rightArea: seq<Ext>, i: nat): Cost
    requires i < |leftCount| && i < |leftArea| && i < |rightCount| && i < |rightArea|
  {
    CostSum(Weighted(leftCount[i], leftArea[i]), Weighted(rightCount[i], rightArea[i]))
  }

  /** IEEE `cost <= best`: false for +inf against a finite bound and for NaN. */
  predicate AtMost(c: Cost, best: real)
  {
    c.Num? && c.v <= best
  }

  /** A cost that can win must come from two non-empty sides. */
  lemma WinningCostHasBothSides(lc: nat, la: Ext, rc: nat, ra: Ext, best: real)
    requires lc == 0 ==> la.PosInf?
    requires rc == 0 ==> ra.PosInf?
    requires AtMost(CostSum(Weighted(lc, la), Weighted(rc, ra)), best)
    ensures lc > 0 && rc > 0
  {
  }

  datatype Choice = NoBoundary | Boundary(i: nat)

  /** The cost scan over the `BINS - 1` boundaries with `<=`: among the
      boundaries of least cost (not above the sentinel) the LAST one wins. */
  method CostScan(leftCount: seq<nat>, leftArea: seq<Ext>, rightCount: seq<nat>, rightArea: seq<Ext>)
    returns (choice: Choice)
    requires |leftCount| == |leftArea| == |rightCount| == |rightArea| == BINS - 1
    ensures choice.NoBoundary? ==>
              forall j :: 0 <= j < BINS - 1 ==> !AtMost(PlaneCost(leftCount, leftArea, rightCount, rightArea, j), Far)
    ensures choice.Boundary? ==> choice.i < BINS - 1
    ensures choice.Boundary? ==>
              var best := PlaneCost(leftCount, leftArea, rightCount, rightArea, choice.i);
              && AtMost(best, Far)
              && (forall j :: 0 <= j < BINS - 1 && AtMost(PlaneCost(leftCount, leftArea, rightCount, rightArea, j), Far)
                    ==> best.v <= PlaneCost(leftCount, leftArea, rightCount, rightArea, j).v)
              && (forall j :: choice.i < j < BINS - 1
                    ==> !AtMost(PlaneCost(leftCount, leftArea, rightCount, rightArea, j), best.v))
  {
    var bestCost := Far;
    choice := NoBoundary;
    for i := 0 to BINS - 1
      invariant choice.NoBoundary? ==> bestCost == Far
      invariant choice.NoBoundary? ==>
                  forall j :: 0 <= j < i ==> !AtMost(PlaneCost(leftCount, leftArea, rightCount, rightArea, j), Far)
      invariant choice.Boundary? ==>
                  choice.i < i && PlaneCost(leftCount, leftArea, rightCount, rightArea, choice.i) == Num(bestCost)
                  && bestCost <= Far
      invariant choice.Boundary? ==>
                  forall j :: 0 <= j < i && AtMost(PlaneCost(leftCount, leftArea, rightCount, rightArea, j), Far)
                    ==> bestCost <= PlaneCost(leftCount, leftArea, rightCount, rightArea, j).v
      invariant choice.Boundary? ==>
                  forall j :: choice.i < j < i ==> !AtMost(PlaneCost(leftCount, leftArea, rightCount, rightArea, j), bestCost)
    {
      var planeCost := PlaneCost(leftCount, leftArea, rightCount, rightArea, i);
      if AtMost(planeCost, bestCost) {
        choice := Boundary(i);
        bestCost := planeCost.v;
      }
    }
  }

  /* ---------------------------------------------------------------- */
  /* Partition                                                         */
  /* ---------------------------------------------------------------- */

  /** The in-place two-index partition of slots `[first, first + count)`:
      `firstRightIndex` scans up past entries below `splitPos`, and any other
      entry is swapped with the one at `lastLeftIndex`, which then moves down. */
  method Partition(prims: Primitives, indices: seq<int>, first: nat, count: nat, axis: Axis, splitPos: real)
    returns (out: seq<int>, splitIndex: nat)
    requires first + count <= |indices|
    ensures |out| == |indices|
    ensures first <= splitIndex <= first + count
    ensures out[..first] == indices[..first]
    ensures out[first + count..] == indices[first + count..]
    ensures multiset(out[first..first + count]) == multiset(indices[first..first + count])
    ensures forall j :: first <= j < splitIndex ==> Key(prims, out, j, axis) < splitPos
    ensures forall j :: splitIndex <= j < first + count ==> Key(prims, out, j, axis) >= splitPos
  {
    out := indices;
    var firstRightIndex: int := first;
    var lastLeftIndex: int := first + count - 1;
    while firstRightIndex <= lastLeftIndex
      invariant first <= firstRightIndex <= lastLeftIndex + 1 <= first + count
      invariant |out| == |indices|
      invariant forall j :: 0 <= j < first || first + count <= j < |out| ==> out[j] == indices[j]
      invariant multiset(out) == multiset(indices)
      invariant forall j :: first <= j < firstRightIndex ==> Key(prims, out, j, axis) < splitPos
      invariant forall j :: lastLeftIndex < j < first + count ==> Key(prims, out, j, axis) >= splitPos
      decreases lastLeftIndex - firstRightIndex
    {
      if Key(prims, out, firstRightIndex, axis) < splitPos {
        firstRightIndex := firstRightIndex + 1;
      } else {
        ghost var before := out;
        out := Swap(out, firstRightIndex, lastLeftIndex);
        SwapKeepsSides(prims, before, out, first + count, firstRightIndex, lastLeftIndex, axis, splitPos);
        lastLeftIndex := lastLeftIndex - 1;
      }
    }
    splitIndex := lastLeftIndex + 1;
    assert out[..first] == indices[..first];
    assert out[first + count..] == indices[first + count..];
    SliceMultiset(out, indices, first, first + count);
  }

  /** The swap step of the partition: the entry moved to `hi` is not below
      the plane, and the entries already placed on either side keep their keys. */
  lemma SwapKeepsSides(prims: Primitives, before: seq<int>, out: seq<int>, end: nat,
      lo: nat, hi: nat, axis: Axis, splitPos: real)
    requires lo <= hi < end <= |before| && out == Swap(before, lo, hi)
    requires Key(prims, before, lo, axis) >= splitPos
    requires forall j :: hi < j < end ==> Key(prims, before, j, axis) >= splitPos
    ensures forall j :: 0 <= j < lo ==> Key(prims, out, j, axis) == Key(prims, before, j, axis)
    ensures forall j :: hi - 1 < j < end ==> Key(prims, out, j, axis) >= splitPos
  {
    forall j | hi - 1 < j < end
      ensures Key(prims, out, j, axis) >= splitPos
    {
      if j == hi {
        assert out[j] == before[lo];
        assert Key(prims, out, j, axis) == Key(prims, before, lo, axis);
      } else {
        assert out[j] == before[j];
        assert Key(prims, out, j, axis) == Key(prims, before, j, axis);
        assert Key(prims, before, j, axis) >= splitPos;
      }
    }
  }

  /** Exchanging two entries: they trade places, nothing else moves, and the
      multiset of entries is the same. */
  function Swap(s: seq<int>, i: nat, j: nat): (r: seq<int>)
    requires i < |s| && j < |s|
    ensures |r| == |s| && r[i] == s[j] && r[j] == s[i]
    ensures forall k :: 0 <= k < |s| && k != i && k != j ==> r[k] == s[k]
    ensures multiset(r) == multiset(s)
  {
    s[i := s[j]][j := s[i]]
  }

  /** Two sequences with the same multiset that agree outside `[a, b)` have
      the same multiset inside it. */
  lemma SliceMultiset(s: seq<int>, t: seq<int>, a: nat, b: nat)
    requires a <= b <= |s| == |t|
    requires s[..a] == t[..a] && s[b..] == t[b..]
    requires multiset(s) == multiset(t)
    ensures multiset(s[a..b]) == multiset(t[a..b])
  {
    assert s == s[..a] + s[a..b] + s[b..];
    assert t == t[..a] + t[a..b] + t[b..];
    calc {
      multiset(s);
      multiset(s[..a] + s[a..b] + s[b..]);
      multiset(s[..a]) + multiset(s[a..b]) + multiset(s[b..]);
    }
    calc {
      multiset(t);
      multiset(t[..a] + t[a..b] + t[b..]);
      multiset(t[..a]) + multiset(t[a..b]) + multiset(t[b..]);
    }
    forall x
      ensures multiset(s[a..b])[x] == multiset(t[a..b])[x]
    {
      assert multiset(s)[x] == multiset(s[..a])[x] + multiset(s[a..b])[x] + multiset(s[b..])[x];
      assert multiset(t)[x] == multiset(t[..a])[x] + multiset(t[a..b])[x] + multiset(t[b..])[x];
    }
  }

  /* ---------------------------------------------------------------- */
  /* Counting below a plane is independent of the order                */
  /* ---------------------------------------------------------------- */

  lemma {:induction false} CountBelowAppend(prims: Primitives, a: seq<int>, b: seq<int>, axis: Axis, pos: real)
    ensures CountBelow(prims, a + b, axis, pos) == CountBelow(prims, a, axis, pos) + CountBelow(prims, b, axis, pos)
    decreases |b|
  {
    if |b| > 0 {
      assert (a + b)[..|a + b| - 1] == a + b[..|b| - 1];
      CountBelowAppend(prims, a, b[..|b| - 1], axis, pos);
    } else {
      assert a + b == a;
    }
  }

  /** Taking one entry out of a sequence takes its contribution out of the count. */
  lemma {:induction false} CountBelowRemove(prims: Primitives, t: seq<int>, k: nat, axis: Axis, pos: real)
    requires k < |t|
    ensures CountBelow(prims, t, axis, pos)
            == CountBelow(prims, t[..k] + t[k + 1..], axis, pos)
               + (if prims.centroid(t[k]).Get(axis) < pos then 1 else 0)
  {
    assert t == t[..k] + ([t[k]] + t[k + 1..]);
    CountBelowAppend(prims, t[..k], [t[k]] + t[k + 1..], axis, pos);
    CountBelowAppend(prims, [t[k]], t[k + 1..], axis, pos);
    CountBelowAppend(prims, t[..k], t[k + 1..], axis, pos);
    assert CountBelow(prims, [t[k]], axis, pos) == (if prims.centroid(t[k]).Get(axis) < pos then 1 else 0) by {
      assert [t[k]][..0] == [];
    }
  }

  /** Reordering entries does not change how many lie below the plane. */
  lemma {:induction false} CountBelowPermutation(prims: Primitives, s: seq<int>, t: seq<int>, axis: Axis, pos: real)
    requires multiset(s) == multiset(t)
    ensures CountBelow(prims, s, axis, pos) == CountBelow(prims, t, axis, pos)
    decreases |s|
  {
    if |s| == 0 {
      assert |t| == |multiset(t)| == 0;
    } else {
      var x := s[|s| - 1];
      var s' := s[..|s| - 1];
      assert s == s' + [x];
      assert multiset(s) == multiset(s') + multiset{x};
      assert x in multiset(t);
      var k :| 0 <= k < |t| && t[k] == x;
      var t' := t[..k] + t[k + 1..];
      assert t == t[..k] + [x] + t[k + 1..];
      assert multiset(t) == multiset(t[..k]) + multiset{x} + multiset(t[k + 1..]);
      assert multiset(t') == multiset(t[..k]) + multiset(t[k + 1..]);
      forall y
        ensures multiset(s')[y] == multiset(t')[y]
      {
        assert multiset(s)[y] == multiset(s')[y] + multiset{x}[y];
        assert multiset(t)[y] == multiset(t[..k])[y] + multiset{x}[y] + multiset(t[k + 1..])[y];
      }
      assert multiset(s') == multiset(t');
      CountBelowPermutation(prims, s', t', axis, pos);
      CountBelowRemove(prims, t, k, axis, pos);
    }
  }

  /** A partitioned slice: the part before `m` lies below the plane, the rest does not. */
  lemma {:induction false} CountBelowPartitioned(prims: Primitives, s: seq<int>, m: nat, axis: Axis, pos: real)
    requires m <= |s|
    requires forall j :: 0 <= j < m ==> Key(prims, s, j, axis) < pos
    requires forall j :: m <= j < |s| ==> Key(prims, s, j, axis) >= pos
    ensures CountBelow(prims, s, axis, pos) == m
    decreases |s|
  {
    if |s| > 0 {
      var s' := s[..|s| - 1];
      assert forall j :: 0 <= j < |s'| ==> Key(prims, s', j, axis) == Key(prims, s, j, axis);
      if m == |s| {
        assert Key(prims, s, |s| - 1, axis) < pos;
        CountBelowPartitioned(prims, s', m - 1, axis, pos);
      } else {
        assert Key(prims, s, |s| - 1, axis) >= pos;
        CountBelowPartitioned(prims, s', m, axis, pos);
      }
    }
  }

  /* ---------------------------------------------------------------- */
  /* Binning                                                           */
  /* ---------------------------------------------------------------- */

  /** Every centroid coordinate of the range lies within the sentinels. */
  ghost predicate WithinSentinels(r: NodeRange)
  {
    r.Valid() && forall j :: 0 <= j < r.count ==> -Far <= r.KeyAt(j) <= Far
  }

  /** All centroids of the range coincide on the axis. */
  ghost predicate Coincide(r: NodeRange)
  {
    r.Valid() && forall j :: 0 <= j < r.count ==> r.KeyAt(j) == r.KeyAt(0)
  }

  /** The plane binning settled on, if any. */
  datatype Plane = NoPlane | Plane(pos: real)

  /** The SAH cost of boundary `i` of a histogram: the count of each side
      times the surface area of that side's box, added in IEEE arithmetic. */
  function BoundaryCost(bins: seq<Bin>, i: nat): Cost
    requires |bins| == BINS && i < BINS - 1
  {
    CostSum(Weighted(SumCounts(bins, 0, i + 1), SurfaceArea(UnionLeft(bins, i + 1))),
            Weighted(SumCounts(bins, i + 1, BINS), SurfaceArea(UnionRight(bins, i + 1))))
  }

  /** Some boundary of the range's histogram over `[lo, hi]` costs at most
      the sentinel `1e30`, so the cost scan picks one. */
  ghost predicate Affordable(r: NodeRange, lo: real, hi: real)
  {
    Spread(r, lo, hi) && SomeBoundaryAffordable(BinsAfter(r, lo, hi, r.count))
  }

  /** Some boundary of a histogram costs at most the sentinel `1e30`. */
  predicate SomeBoundaryAffordable(bins: seq<Bin>)
    requires |bins| == BINS
  {
    exists i :: 0 <= i < BINS - 1 && AtMost(BoundaryCost(bins, i), Far)
  }

  /** Boundary `i` is the one the cost scan settles on among the boundary
      costs `costs`: it costs at most the sentinel, no affordable boundary
      costs less, and no later boundary costs as little, since the scan's
      `<=` lets the last of equal costs win. */
  predicate SahChoice(costs: seq<Cost>, i: nat)
  {
    && i < |costs|
    && AtMost(costs[i], Far)
    && (forall j :: 0 <= j < |costs| && AtMost(costs[j], Far) ==> costs[i].v <= costs[j].v)
    && (forall j :: i < j < |costs| ==> !AtMost(costs[j], costs[i].v))
  }

  /** At most one boundary is the SAH choice. */
  lemma SahChoiceUnique(costs: seq<Cost>, i: nat, k: nat)
    requires SahChoice(costs, i) && SahChoice(costs, k)
    ensures i == k
  {
    if i < k {
      assert AtMost(costs[k], costs[i].v);
    } else if k < i {
      assert AtMost(costs[i], costs[k].v);
    }
  }

  /** The costs of the first `n` boundaries of a histogram, in order. */
  function BoundaryCosts(bins: seq<Bin>, n: nat): (costs: seq<Cost>)
    requires |bins| == BINS && n <= BINS - 1
    ensures |costs| == n
  {
    if n == 0 then [] else BoundaryCosts(bins, n - 1) + [BoundaryCost(bins, n - 1)]
  }

  /** Entry `j` of the cost list is the cost of boundary `j`. */
  lemma {:induction false} BoundaryCostsAt(bins: seq<Bin>, n: nat)
    requires |bins| == BINS && n <= BINS - 1
    ensures forall j :: 0 <= j < n ==> BoundaryCosts(bins, n)[j] == BoundaryCost(bins, j)
  {
    if n > 0 {
      BoundaryCostsAt(bins, n - 1);
    }
  }

  /** The boundary costs of the histogram `binning` builds over the range's
      centroid range (none when that histogram cannot be built). */
  ghost function RangeCosts(r: NodeRange): seq<Cost>
    requires r.Valid()
  {
    var lo, hi := RangeMin(r, r.count), RangeMax(r, r.count);
    if Spread(r, lo, hi) then BoundaryCosts(BinsAfter(r, lo, hi, r.count), BINS - 1) else []
  }

  /** The condition under which `binning` settles on a plane: the centroid
      range it computes is not a single point, and some boundary of the
      histogram over that range is affordable. */
  ghost predicate HasPlane(r: NodeRange)
  {
    && r.Valid() && r.count > 0
    && RangeMin(r, r.count) < RangeMax(r, r.count)
    && Affordable(r, RangeMin(r, r.count), RangeMax(r, r.count))
  }

  /** Binning reads a range only through the primitives in its slots: two
      ranges over the same primitives in the same order, along the same
      axis, find a plane alike, wherever their slots sit. */
  lemma HasPlaneSameSlots(r: NodeRange, r': NodeRange)
    requires r.Valid() && r'.Valid()
    requires r.prims == r'.prims && r.axis == r'.axis && r.Slots() == r'.Slots()
    ensures HasPlane(r) <==> HasPlane(r')
  {
    forall j | 0 <= j < r.count
      ensures r.KeyAt(j) == r'.KeyAt(j) && r.BoxAt(j) == r'.BoxAt(j)
    {
      assert r.indices[r.first + j] == r.Slots()[j] == r'.indices[r'.first + j];
    }
    if r.count > 0 {
      SameKeysSameRange(r, r', r.count);
      var lo, hi := RangeMin(r, r.count), RangeMax(r, r.count);
      if Spread(r, lo, hi) {
        SameKeysSameBins(r, r', lo, hi, r.count);
      }
    }
  }

  /** Ranges with the same keys have the same running minimum and maximum. */
  lemma {:induction false} SameKeysSameRange(r: NodeRange, r': NodeRange, n: nat)
    requires r.Valid() && r'.Valid() && r.count == r'.count && n <= r.count
    requires forall j :: 0 <= j < r.count ==> r.KeyAt(j) == r'.KeyAt(j)
    ensures RangeMin(r, n) == RangeMin(r', n) && RangeMax(r, n) == RangeMax(r', n)
  {
    if n > 0 {
      SameKeysSameRange(r, r', n - 1);
    }
  }

  /** Ranges with the same keys and boxes fill the same bins. */
  lemma {:induction false} SameKeysSameBins(r: NodeRange, r': NodeRange, lo: real, hi: real, n: nat)
    requires Spread(r, lo, hi) && r'.Valid() && r.count == r'.count && n <= r.count
    requires forall j :: 0 <= j < r.count ==> r.KeyAt(j) == r'.KeyAt(j) && r.BoxAt(j) == r'.BoxAt(j)
    ensures Spread(r', lo, hi) && BinsAfter(r, lo, hi, n) == BinsAfter(r', lo, hi, n)
  {
    if n > 0 {
      SameKeysSameBins(r, r', lo, hi, n - 1);
    }
  }

  /** The split plane of `binning`: centroid range, bins, prefix sums, cost
      scan. A plane is found exactly when the centroid range is not a single
      point and some boundary is affordable; so in particular none when all
      centroids share one coordinate. A plane that is found is the split
      position of `boundary`, the SAH boundary of the histogram over the
      centroid range, and has at least
      one centroid of the range strictly below it and one not below it. */
  method FindPlane(r: NodeRange) returns (plane: Plane, boundary: nat)
    requires r.Valid() && r.count > 0
    ensures plane.Plane? <==> HasPlane(r)
    ensures plane.Plane? ==> 0 < CountBelow(r.prims, r.Slots(), r.axis, plane.pos) < r.count
    ensures plane.Plane? ==> plane.pos == SplitPosition(RangeMin(r, r.count), RangeMax(r, r.count), boundary)
    ensures WithinSentinels(r) && Coincide(r) ==> plane.NoPlane?
    ensures plane.Plane? ==> SahChoice(RangeCosts(r), boundary)
  {
    var boundsMin, boundsMax := CentroidRange(r);
    if boundsMax == boundsMin {
      return NoPlane, 0;
    }
    assert boundsMin < boundsMax by {
      assert boundsMin <= r.KeyAt(0) <= boundsMax;
    }
    RangeWithinSentinels(r, boundsMin, boundsMax);
    plane, boundary := BestPlane(r, boundsMin, boundsMax);
  }

  /** The binned search proper, over a non-degenerate centroid range: the
      histogram, the prefix sums and the cost scan. It returns a plane
      exactly when some boundary is affordable; that plane is the split
      position of `boundary`, the SAH boundary, and leaves primitives on
      both sides. */
  method BestPlane(r: NodeRange, lo: real, hi: real) returns (plane: Plane, boundary: nat)
    requires Spread(r, lo, hi)
    ensures plane.Plane? <==> Affordable(r, lo, hi)
    ensures plane.Plane? ==> 0 < CountBelow(r.prims, r.Slots(), r.axis, plane.pos) < r.count
    ensures plane.Plane? ==> plane.pos == SplitPosition(lo, hi, boundary)
    ensures plane.Plane? ==> SahChoice(BoundaryCosts(BinsAfter(r, lo, hi, r.count), BINS - 1), boundary)
  {
    var bins := FillBins(r, lo, hi);
    var leftCount, leftArea, rightCount, rightArea := PrefixSums(bins);
    var choice := CostScan(leftCount, leftArea, rightCount, rightArea);
    assert forall j :: 0 <= j < BINS - 1 ==>
             PlaneCost(leftCount, leftArea, rightCount, rightArea, j) == BoundaryCost(bins, j);
    if choice.NoBoundary? {
      return NoPlane, 0;
    }
    WinningBoundaryIsInterior(r, lo, hi, bins, leftCount, leftArea, rightCount, rightArea, choice.i);
    BoundarySplitsRange(r, lo, hi, choice.i);
    plane, boundary := Plane(SplitPosition(lo, hi, choice.i)), choice.i;
    BoundaryCostsAt(bins, BINS - 1);
    assert SahChoice(BoundaryCosts(bins, BINS - 1), boundary);
  }

  /** A boundary with primitives in the bins on both of its sides leaves
      primitives on both sides of its split position. */
  lemma BoundarySplitsRange(r: NodeRange, lo: real, hi: real, i: nat)
    requires Spread(r, lo, hi) && i < BINS - 2
    requires SumCounts(BinsAfter(r, lo, hi, r.count), 0, i + 1) > 0
    requires SumCounts(BinsAfter(r, lo, hi, r.count), i + 1, BINS) > 0
    ensures 0 < CountBelow(r.prims, r.Slots(), r.axis, SplitPosition(lo, hi, i)) < r.count
  {
    BinsBelowSplit(r, lo, hi, r.count, i);
    BinCountsAddUp(r, lo, hi, r.count);
    SidesBelowTotal(BinsAfter(r, lo, hi, r.count), i,
                    CountBelow(r.prims, r.Slots(), r.axis, SplitPosition(lo, hi, i)), r.count);
  }

  /** When both sides of a boundary are non-empty, the left side holds
      some but not all of the primitives. */
  lemma SidesBelowTotal(bins: seq<Bin>, i: nat, below: nat, total: nat)
    requires |bins| == BINS && i < BINS - 1
    requires SumCounts(bins, 0, i + 1) == below && SumCounts(bins, 0, BINS) == total
    requires SumCounts(bins, 0, i + 1) > 0 && SumCounts(bins, i + 1, BINS) > 0
    ensures 0 < below < total
  {
    BoundaryCountsPartition(bins, i);
  }

  /** `binning`: find the SAH split plane of the range along `axis` and
      partition the range about it. Returns the permuted indices, the first
      slot of the right-hand part and the plane used. With no plane nothing
      moves and the split is the range's first slot; with a plane both parts
      are non-empty and the left one holds exactly the centroids below it. */
  method Binning(r: NodeRange) returns (out: seq<int>, splitIndex: nat, plane: Plane)
    requires r.Valid() && r.count > 0
    ensures |out| == |r.indices|
    ensures r.first <= splitIndex <= r.first + r.count
    ensures out[..r.first] == r.indices[..r.first]
    ensures out[r.first + r.count..] == r.indices[r.first + r.count..]
    ensures multiset(out[r.first..r.first + r.count]) == multiset(r.Slots())
    ensures plane.NoPlane? ==> out == r.indices && splitIndex == r.first
    ensures plane.Plane? ==>
              && (forall j :: r.first <= j < splitIndex ==> Key(r.prims, out, j, r.axis) < plane.pos)
              && (forall j :: splitIndex <= j < r.first + r.count ==> Key(r.prims, out, j, r.axis) >= plane.pos)
    ensures plane.Plane? ==> r.first < splitIndex < r.first + r.count
    ensures plane.Plane? <==> HasPlane(r)
    ensures plane.Plane? ==> splitIndex - r.first == CountBelow(r.prims, r.Slots(), r.axis, plane.pos)
    ensures WithinSentinels(r) && Coincide(r) ==> plane.NoPlane?
    ensures plane.Plane? ==>
              exists i :: SahChoice(RangeCosts(r), i)
                && plane.pos == SplitPosition(RangeMin(r, r.count), RangeMax(r, r.count), i)
  {
    var boundary;
    plane, boundary := FindPlane(r);
    if plane.NoPlane? {
      return r.indices, r.first, NoPlane;
    }
    out, splitIndex := Partition(r.prims, r.indices, r.first, r.count, r.axis, plane.pos);
    PartitionCount(r, out, splitIndex, plane.pos);
  }

  /** Within the sentinels the centroid range collapses to a point exactly
      when all centroids coincide. */
  lemma {:induction false} RangeWithinSentinels(r: NodeRange, lo: real, hi: real)
    requires r.Valid() && r.count > 0
    requires forall j :: 0 <= j < r.count ==> lo <= r.KeyAt(j) <= hi
    requires lo == Far || exists j :: 0 <= j < r.count && r.KeyAt(j) == lo
    requires hi == -Far || exists j :: 0 <= j < r.count && r.KeyAt(j) == hi
    ensures WithinSentinels(r) ==> (Coincide(r) <==> lo == hi)
  {
    if WithinSentinels(r) {
      assert lo == r.KeyAt(0) || exists j :: 0 <= j < r.count && r.KeyAt(j) == lo;
      assert hi == r.KeyAt(0) || exists j :: 0 <= j < r.count && r.KeyAt(j) == hi;
      if lo == hi {
        assert forall j :: 0 <= j < r.count ==> r.KeyAt(j) == r.KeyAt(0);
      }
      if Coincide(r) {
        var a :| 0 <= a < r.count && r.KeyAt(a) == lo;
        var b :| 0 <= b < r.count && r.KeyAt(b) == hi;
      }
    }
  }

  /** The partition about `pos` leaves exactly the entries below `pos` on the left. */
  lemma {:induction false} PartitionCount(r: NodeRange, out: seq<int>, splitIndex: nat, pos: real)
    requires r.Valid() && |out| == |r.indices| && r.first <= splitIndex <= r.first + r.count
    requires multiset(out[r.first..r.first + r.count]) == multiset(r.Slots())
    requires forall j :: r.first <= j < splitIndex ==> Key(r.prims, out, j, r.axis) < pos
    requires forall j :: splitIndex <= j < r.first + r.count ==> Key(r.prims, out, j, r.axis) >= pos
    ensures splitIndex - r.first == CountBelow(r.prims, r.Slots(), r.axis, pos)
  {
    var part := out[r.first..r.first + r.count];
    assert forall j :: 0 <= j < |part| ==> Key(r.prims, part, j, r.axis) == Key(r.prims, out, r.first + j, r.axis);
    CountBelowPartitioned(r.prims, part, splitIndex - r.first, r.axis, pos);
    CountBelowPermutation(r.prims, part, r.Slots(), r.axis, pos);
  }

  /** In exact arithmetic a winning boundary of a range whose smallest and
      largest centroids differ has primitives on both sides, and it is never
      the last boundary (whose right side, bin `BINS - 1`, is always empty). */
  lemma {:induction false} WinningBoundaryIsInterior(r: NodeRange, lo: real, hi: real, bins: seq<Bin>,
      leftCount: seq<nat>, leftArea: seq<Ext>, rightCount: seq<nat>, rightArea: seq<Ext>, i: nat)
    requires Spread(r, lo, hi)
    requires bins == BinsAfter(r, lo, hi, r.count)
    requires |leftCount| == |leftArea| == |rightCount| == |rightArea| == BINS - 1
    requires forall k :: 0 <= k < BINS - 1 ==>
               leftCount[k] == SumCounts(bins, 0, k + 1) && rightCount[k] == SumCounts(bins, k + 1, BINS)
    requires forall k :: 0 <= k < BINS - 1 ==>
               leftArea[k] == SurfaceArea(UnionLeft(bins, k + 1)) && rightArea[k] == SurfaceArea(UnionRight(bins, k + 1))
    requires i < BINS - 1 && AtMost(PlaneCost(leftCount, leftArea, rightCount, rightArea, i), Far)
    ensures i < BINS - 2 && leftCount[i] > 0 && rightCount[i] > 0
  {
    BinsAfterFacts(r, lo, hi, r.count);
    EmptySideHasEmptyBox(bins, i + 1);
    WinningCostHasBothSides(leftCount[i], leftArea[i], rightCount[i], rightArea[i], Far);
    assert rightCount[BINS - 2] == 0 by {
      SumCountsFront(bins, BINS - 1, BINS);
    }
  }

  /* ---------------------------------------------------------------- */
  /* When binning finds a plane                                        */
  /* ---------------------------------------------------------------- */

  /** One entry below the plane makes the count positive; one entry not
      below it keeps the count short of the length. */
  lemma {:induction false} CountBelowWitness(prims: Primitives, s: seq<int>, axis: Axis, pos: real, j: nat)
    requires j < |s|
    ensures prims.centroid(s[j]).Get(axis) < pos ==> CountBelow(prims, s, axis, pos) > 0
    ensures prims.centroid(s[j]).Get(axis) >= pos ==> CountBelow(prims, s, axis, pos) < |s|
    decreases |s|
  {
    if j < |s| - 1 {
      var s' := s[..|s| - 1];
      assert s'[j] == s[j];
      CountBelowWitness(prims, s', axis, pos, j);
    }
  }

  /** Every bin's box is proper and lies in `b`, and a bin that holds a
      primitive has a non-empty box. */
  ghost predicate BinsWithin(bins: seq<Bin>, b: Bounds)
  {
    forall k :: 0 <= k < |bins| ==>
      Proper(bins[k].aabb) && Contains(b, bins[k].aabb) && (bins[k].count > 0 ==> bins[k].aabb.Box?)
  }

  /** Primitive boxes that are non-empty, proper and inside `b` give bins
      that are too. */
  lemma {:induction false} BinsAfterWithin(r: NodeRange, lo: real, hi: real, n: nat, b: Bounds)
    requires Spread(r, lo, hi) && n <= r.count
    requires forall j :: 0 <= j < r.count ==> r.BoxAt(j).Box? && Proper(r.BoxAt(j)) && Contains(b, r.BoxAt(j))
    ensures BinsWithin(BinsAfter(r, lo, hi, n), b)
  {
    if n > 0 {
      BinsAfterWithin(r, lo, hi, n - 1, b);
      var prev := BinsAfter(r, lo, hi, n - 1);
      var k := BinIndex(r.KeyAt(n - 1), lo, hi);
      var box := r.BoxAt(n - 1);
      ExtendIsLeastUpperBound(prev[k].aabb, box, b);
    }
  }

  /** The left side's box of a boundary is proper, lies in `b`, and is
      non-empty when the side holds a primitive. */
  lemma {:induction false} UnionLeftWithin(bins: seq<Bin>, m: nat, b: Bounds)
    requires m <= |bins| && BinsWithin(bins, b)
    ensures Proper(UnionLeft(bins, m)) && Contains(b, UnionLeft(bins, m))
    ensures SumCounts(bins, 0, m) > 0 ==> UnionLeft(bins, m).Box?
  {
    if m > 0 {
      UnionLeftWithin(bins, m - 1, b);
      ExtendIsLeastUpperBound(UnionLeft(bins, m - 1), bins[m - 1].aabb, b);
    }
  }

  /** The same for the right side. */
  lemma {:induction false} UnionRightWithin(bins: seq<Bin>, a: nat, b: Bounds)
    requires a <= |bins| && BinsWithin(bins, b)
    ensures Proper(UnionRight(bins, a)) && Contains(b, UnionRight(bins, a))
    ensures SumCounts(bins, a, |bins|) > 0 ==> UnionRight(bins, a).Box?
    decreases |bins| - a
  {
    if a < |bins| {
      UnionRightWithin(bins, a + 1, b);
      SumCountsFront(bins, a, |bins|);
      ExtendIsLeastUpperBound(UnionRight(bins, a + 1), bins[a].aabb, b);
    }
  }

  /** A side holding `c` primitives in a proper box inside `b` costs at
      most `c` times the area of `b`. */
  lemma SideCostBounded(c: nat, side: Bounds, b: Bounds)
    requires c > 0 && side.Box? && Proper(side) && Proper(b) && Contains(b, side)
    ensures Weighted(c, SurfaceArea(side)).Num?
    ensures Weighted(c, SurfaceArea(side)).v <= c as real * SurfaceArea(b).v
  {
    AreaMonotone(side, b);
    MulMonotone(c as real, SurfaceArea(side).v, c as real, SurfaceArea(b).v);
  }

  /** `n` primitives charged at the surface area of `b` cost at most the
      sentinel `1e30`. */
  predicate WithinBudget(n: nat, b: Bounds)
  {
    SurfaceArea(b).Fin? && n as real * SurfaceArea(b).v <= Far
  }

  /** Binning splits every range whose centroids lie within the sentinels
      and do not all coincide, provided its primitive boxes are non-empty,
      proper and inside a box `b` whose area times the primitive count is at
      most `1e30`: the first boundary already has primitives on both sides,
      and its cost is at most that product. */
  lemma {:induction false} HasPlaneWhenBounded(r: NodeRange, b: Bounds)
    requires WithinSentinels(r) && r.count > 0 && !Coincide(r)
    requires b.Box? && Proper(b)
    requires forall j :: 0 <= j < r.count ==> r.BoxAt(j).Box? && Proper(r.BoxAt(j)) && Contains(b, r.BoxAt(j))
    requires WithinBudget(r.count, b)
    ensures HasPlane(r)
  {
    var lo, hi := RangeMin(r, r.count), RangeMax(r, r.count);
    RangeBounds(r, r.count);
    RangeWithinSentinels(r, lo, hi);
    assert lo <= r.KeyAt(0) <= hi;
    var jlo :| 0 <= jlo < r.count && r.KeyAt(jlo) == lo;
    var jhi :| 0 <= jhi < r.count && r.KeyAt(jhi) == hi;
    FirstBoundaryBins(r, lo, hi, jlo, jhi, b);
    BoundedBinsAffordable(BinsAfter(r, lo, hi, r.count), b, r.count);
  }

  /** Over the attained centroid range `[lo, hi]`, both sides of the first
      boundary hold primitives and every bin lies in `b`. */
  lemma FirstBoundaryBins(r: NodeRange, lo: real, hi: real, jlo: nat, jhi: nat, b: Bounds)
    requires Spread(r, lo, hi) && jlo < r.count && jhi < r.count
    requires r.KeyAt(jlo) == lo && r.KeyAt(jhi) == hi
    requires forall j :: 0 <= j < r.count ==> r.BoxAt(j).Box? && Proper(r.BoxAt(j)) && Contains(b, r.BoxAt(j))
    ensures var bins := BinsAfter(r, lo, hi, r.count);
            && SumCounts(bins, 0, 1) > 0 && SumCounts(bins, 1, BINS) > 0
            && SumCounts(bins, 0, 1) + SumCounts(bins, 1, BINS) == r.count
            && BinsWithin(bins, b)
  {
    FirstBoundarySides(r, lo, hi, jlo, jhi);
    BinsAfterWithin(r, lo, hi, r.count, b);
  }

  /** The smallest centroid lies below the first boundary and the largest
      does not, so both sides of that boundary hold primitives. */
  lemma FirstBoundarySides(r: NodeRange, lo: real, hi: real, jlo: nat, jhi: nat)
    requires Spread(r, lo, hi) && jlo < r.count && jhi < r.count
    requires r.KeyAt(jlo) == lo && r.KeyAt(jhi) == hi
    ensures var bins := BinsAfter(r, lo, hi, r.count);
            && SumCounts(bins, 0, 1) > 0 && SumCounts(bins, 1, BINS) > 0
            && SumCounts(bins, 0, 1) + SumCounts(bins, 1, BINS) == r.count
  {
    var bins := BinsAfter(r, lo, hi, r.count);
    FirstBinCount(r, lo, hi, jlo, jhi);
    BinCountsAddUp(r, lo, hi, r.count);
    SplitFirstBin(bins, r.count);
  }

  /** A histogram of `n` primitives whose bin 0 holds some but not all of
      them has primitives on both sides of its first boundary. */
  lemma SplitFirstBin(bins: seq<Bin>, n: nat)
    requires |bins| == BINS && 0 < SumCounts(bins, 0, 1) < n && SumCounts(bins, 0, BINS) == n
    ensures SumCounts(bins, 0, 1) > 0 && SumCounts(bins, 1, BINS) > 0
    ensures SumCounts(bins, 0, 1) + SumCounts(bins, 1, BINS) == n
  {
    SumCountsSplit(bins, 0, 1, BINS);
  }

  /** Bin 0 holds some but not all of the primitives. */
  lemma FirstBinCount(r: NodeRange, lo: real, hi: real, jlo: nat, jhi: nat)
    requires Spread(r, lo, hi) && jlo < r.count && jhi < r.count
    requires r.KeyAt(jlo) == lo && r.KeyAt(jhi) == hi
    ensures 0 < SumCounts(BinsAfter(r, lo, hi, r.count), 0, 1) < r.count
  {
    FirstBoundaryBelow(r, lo, hi, jlo, jhi);
    BinsBelowSplit(r, lo, hi, r.count, 0);
  }

  /** The smallest centroid lies below the first boundary's position and
      the largest does not. */
  lemma FirstBoundaryBelow(r: NodeRange, lo: real, hi: real, jlo: nat, jhi: nat)
    requires r.Valid() && lo < hi && jlo < r.count && jhi < r.count
    requires r.KeyAt(jlo) == lo && r.KeyAt(jhi) == hi
    ensures 0 < CountBelow(r.prims, r.indices[r.first..r.first + r.count], r.axis, SplitPosition(lo, hi, 0)) < r.count
  {
    var pos := SplitPosition(lo, hi, 0);
    SplitPositionInside(lo, hi, 0);
    var slots := r.indices[r.first..r.first + r.count];
    assert slots[jlo] == r.indices[r.first + jlo] && slots[jhi] == r.indices[r.first + jhi];
    CountBelowWitness(r.prims, slots, r.axis, pos, jlo);
    CountBelowWitness(r.prims, slots, r.axis, pos, jhi);
  }

  /** A histogram whose first boundary is bounded as below is affordable. */
  lemma BoundedBinsAffordable(bins: seq<Bin>, b: Bounds, n: nat)
    requires |bins| == BINS && BinsWithin(bins, b) && b.Box? && Proper(b) && SurfaceArea(b).Fin?
    requires SumCounts(bins, 0, 1) > 0 && SumCounts(bins, 1, BINS) > 0
    requires SumCounts(bins, 0, 1) + SumCounts(bins, 1, BINS) == n
    requires WithinBudget(n, b)
    ensures SomeBoundaryAffordable(bins)
  {
    FirstBoundaryCost(bins, b, n);
  }

  /** With both sides non-empty and every bin inside `b`, the first
      boundary costs at most the primitive count times the area of `b`. */
  lemma FirstBoundaryCost(bins: seq<Bin>, b: Bounds, n: nat)
    requires |bins| == BINS && BinsWithin(bins, b) && b.Box? && Proper(b) && SurfaceArea(b).Fin?
    requires SumCounts(bins, 0, 1) > 0 && SumCounts(bins, 1, BINS) > 0
    requires SumCounts(bins, 0, 1) + SumCounts(bins, 1, BINS) == n
    requires WithinBudget(n, b)
    ensures AtMost(BoundaryCost(bins, 0), Far)
  {
    UnionLeftWithin(bins, 1, b);
    UnionRightWithin(bins, 1, b);
    SidesWithinBudget(SumCounts(bins, 0, 1), UnionLeft(bins, 1), SumCounts(bins, 1, BINS), UnionRight(bins, 1), b, n);
  }

  /** Two non-empty sides in proper boxes inside `b`, holding `n`
      primitives between them, cost at most `n` times the area of `b`. */
  lemma SidesWithinBudget(lc: nat, left: Bounds, rc: nat, right: Bounds, b: Bounds, n: nat)
    requires lc > 0 && left.Box? && Proper(left) && Contains(b, left)
    requires rc > 0 && right.Box? && Proper(right) && Contains(b, right)
    requires b.Box? && Proper(b) && lc + rc == n && WithinBudget(n, b)
    ensures AtMost(CostSum(Weighted(lc, SurfaceArea(left)), Weighted(rc, SurfaceArea(right))), Far)
  {
    var area := SurfaceArea(b).v;
    SideCostBounded(lc, left, b);
    SideCostBounded(rc, right, b);
    BudgetSplit(lc, rc, n, area, Far);
    CostSumAtMost(Weighted(lc, SurfaceArea(left)), Weighted(rc, SurfaceArea(right)),
                  lc as real * area, rc as real * area, Far);
  }

  /** A budget for `n` items at `area` each covers any split of them. */
  lemma BudgetSplit(lc: nat, rc: nat, n: nat, area: real, bound: real)
    requires lc + rc == n && n as real * area <= bound
    ensures lc as real * area + rc as real * area <= bound
  {
    assert (lc as real + rc as real) * area == lc as real * area + rc as real * area;
  }

  lemma CostSumAtMost(c: Cost, d: Cost, x: real, y: real, bound: real)
    requires c.Num? && d.Num? && c.v <= x && d.v <= y && x + y <= bound
    ensures AtMost(CostSum(c, d), bound)
  {
  }
}
