/**
 The nearest-two selection of lines 76-79 (`fmap`) and 155-158 (`umap`): for every
 target node, the squared distances to all mesh nodes and the first two indices
 of `np.argsort` over them.

 numpy's default argsort is not stable, so the code promises nothing about the
 order of equal distances. `IsNearestPair` is everything the code does promise;
 `NearestTwo` is one admissible choice, the one a stable sort would make (lower
 index first among equal distances), which `StableTies` pins down.
 */
module Selection {
  import opened Geometry

  /** The positions `d[i,0]` and `d[i,1]` that argsort places first and second. */
  datatype IndexPair = IndexPair(ia: nat, ib: nat)

  /** `dist` of line 78: squared distance from target p to every mesh node. */
  function SqDists(mesh: seq<Point>, p: Point): (d: seq<real>)
    ensures |d| == |mesh|
    ensures forall k :: 0 <= k < |mesh| ==> d[k] == SqDist(mesh[k], p)
    // no distance is negative, and a node on the target is at distance 0
    ensures forall k :: 0 <= k < |mesh| ==> d[k] >= 0.0 && (mesh[k] == p ==> d[k] == 0.0)
  {
    AllSqDistsSigned(mesh, p);
    seq(|mesh|, k requires 0 <= k < |mesh| => SqDist(mesh[k], p))
  }

  lemma AllSqDistsSigned(mesh: seq<Point>, p: Point)
    ensures forall k :: 0 <= k < |mesh| ==>
              SqDist(mesh[k], p) >= 0.0 && (mesh[k] == p ==> SqDist(mesh[k], p) == 0.0)
  {
    forall k | 0 <= k < |mesh|
      ensures SqDist(mesh[k], p) >= 0.0 && (mesh[k] == p ==> SqDist(mesh[k], p) == 0.0)
    {
      SqDistSign(mesh[k], p);
    }
  }

  /**
   Among the first k distances, `pr` names two distinct positions, the first no
   farther than the second, and every other position no nearer than the second.
   */
  predicate IsNearestPairIn(d: seq<real>, k: nat, pr: IndexPair)
    requires k <= |d|
  {
    && pr.ia < k && pr.ib < k && pr.ia != pr.ib
    && d[pr.ia] <= d[pr.ib]
    && forall q :: 0 <= q < k && q != pr.ia && q != pr.ib ==> d[pr.ib] <= d[q]
  }

  /** What `argsort(dist)[:2]` promises, over the whole distance vector. */
  predicate IsNearestPair(d: seq<real>, pr: IndexPair) {
    IsNearestPairIn(d, |d|, pr)
  }

  /**
   Ties go to the lower index: `ia` is the first position of the least distance,
   and `ib` the first position, other than `ia`, holding its own distance.
   */
  predicate StableTies(d: seq<real>, k: nat, pr: IndexPair)
    requires k <= |d| && pr.ia < |d| && pr.ib < |d|
  {
    && (forall q :: 0 <= q < k && d[q] == d[pr.ia] ==> pr.ia <= q)
    && (forall q :: 0 <= q < k && q != pr.ia && d[q] == d[pr.ib] ==> pr.ib <= q)
  }

  /** The nearest two among the first k distances, scanning left to right. */
  function NearestTwoIn(d: seq<real>, k: nat): (pr: IndexPair)
    requires 2 <= k <= |d|
    ensures IsNearestPairIn(d, k, pr)
    ensures StableTies(d, k, pr)
    decreases k
  {
    if k == 2 then
      if d[1] < d[0] then IndexPair(1, 0) else IndexPair(0, 1)
    else
      var pr := NearestTwoIn(d, k - 1);
      var j := k - 1;
      if d[j] < d[pr.ia] then IndexPair(j, pr.ia)
      else if d[j] < d[pr.ib] then IndexPair(pr.ia, j)
      else pr
  }

  /** `argsort(dist)[:2]` on a vector of at least two distances. */
  function NearestTwo(d: seq<real>): (pr: IndexPair)
    requires |d| >= 2
    ensures IsNearestPair(d, pr)
    ensures StableTies(d, |d|, pr)
  {
    NearestTwoIn(d, |d|)
  }

  /** The first of the two is a nearest node overall. */
  lemma NearestFirst(d: seq<real>, pr: IndexPair)
    requires IsNearestPair(d, pr)
    ensures forall q :: 0 <= q < |d| ==> d[pr.ia] <= d[q]
  {
  }

  /** The stable choice is the only one: ties broken by index leave no freedom. */
  lemma StableChoiceUnique(d: seq<real>, p1: IndexPair, p2: IndexPair)
    requires IsNearestPair(d, p1) && StableTies(d, |d|, p1)
    requires IsNearestPair(d, p2) && StableTies(d, |d|, p2)
    ensures p1 == p2
  {
    assert d[p1.ia] == d[p2.ia];
    assert p1.ia == p2.ia;
    assert d[p1.ib] == d[p2.ib];
  }

  /** The array `d` of lines 76-79: one index pair per target node. */
  function NearestPairs(mesh: seq<Point>, oml: seq<Point>): (d: seq<IndexPair>)
    requires |mesh| >= 2
    ensures |d| == |oml|
    ensures forall i :: 0 <= i < |oml| ==> IsNearestPair(SqDists(mesh, oml[i]), d[i])
  {
    seq(|oml|, i requires 0 <= i < |oml| => NearestTwo(SqDists(mesh, oml[i])))
  }
}
