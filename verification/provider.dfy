/** The capability the acceleration structure requires of the shape that
    owns the primitives: a primitive count and, per primitive index, a
    bounding box and a centroid. */
module Provider {
  import opened Geometry

  datatype Primitives = Primitives(count: nat, centroid: int -> Vec3, box: int -> Bounds) {
    /** Every primitive's box is proper (minimum below maximum, or empty). */
    ghost predicate ProperBoxes()
    {
      forall p :: 0 <= p < count ==> Proper(box(p))
    }
  }

  /** The centroid coordinate along `axis` of the primitive that slot `j`
      of the index permutation refers to. */
  function Key(prims: Primitives, indices: seq<int>, j: int, axis: Axis): real
    requires 0 <= j < |indices|
  {
    prims.centroid(indices[j]).Get(axis)
  }

  /** `0, 1, ..., n - 1`. */
  function Identity(n: nat): (s: seq<int>)
    ensures |s| == n
    ensures forall j :: 0 <= j < n ==> s[j] == j
  {
    seq(n, j => j)
  }

  /** `s` is a permutation of `0 .. n - 1`. */
  ghost predicate IsPermutation(s: seq<int>, n: nat)
  {
    multiset(s) == multiset(Identity(n))
  }

  /** Every entry of a permutation of `0 .. n - 1` is a valid primitive index. */
  lemma {:induction false} PermutationEntriesInRange(s: seq<int>, n: nat, j: int)
    requires IsPermutation(s, n) && 0 <= j < |s|
    ensures 0 <= s[j] < n
  {
    assert s[j] in multiset(s);
    assert s[j] in multiset(Identity(n));
    var k :| 0 <= k < n && Identity(n)[k] == s[j];
  }

  /** Every primitive index `0 .. n - 1` occurs in a permutation of them. */
  lemma PermutationHoldsEveryIndex(s: seq<int>, n: nat, p: int) returns (j: nat)
    requires IsPermutation(s, n) && 0 <= p < n
    ensures j < |s| && s[j] == p
  {
    assert Identity(n)[p] == p;
    assert p in multiset(Identity(n));
    assert p in multiset(s);
    j :| 0 <= j < |s| && s[j] == p;
  }
}
