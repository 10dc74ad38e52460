/**
 The two interpolation weights one target node receives from its nearest segment
 (VAST/core/generate_mappings_m3l.py, lines 84-98 of `fmap` and 163-177 of `umap`;
 the two loop bodies are identical).

 The code works with Euclidean lengths: `length = |b - a|`, the unit direction
 `norm = (b - a)/length`, the scalar projection `t = (p - a)·norm`, the foot
 `c = a + t*norm` on the infinite line through a and b, `ac = |c - a|`,
 `bc = |c - b|`, the clamp `l = max(length, bc)`, and finally the weights
 `(l - ac)/length` at a and `(l - bc)/length` at b.

 Every one of those quantities is a function of the ratio u = t/length, which needs
 no square root: u = (p - a)·(b - a) / |b - a|^2. `SegmentWeights` is the weight
 pair written over u; `CodeWeights` is the code's own sequence of steps, fed with
 whatever nonnegative square roots the caller supplies, and `CodeWeightsAgree`
 proves that the two coincide.

 Taken over arbitrary a, b and p, the clamp is one-sided: past b the weight at a
 turns negative and the pair no longer sums to 1 (`PartitionOfUnity`,
 `ClampIsOneSided`). The builders never reach that regime, because `ia` is the
 nearer node: `NearerEndWeights` shows that such a target projects no further
 than the midpoint and gets the weights of its closest point on the segment.
 */
module Weights {
  import opened Geometry

  /** The weight given to the nearer node a and the one given to the farther node b. */
  datatype WeightPair = WeightPair(wa: real, wb: real)

  /**
   Where the foot of the perpendicular from p lands on the line through a and b,
   in units of |b - a| measured from a: 0 at a, 1 at b.
   */
  function Projection(a: Point, b: Point, p: Point): real
    requires SqDist(b, a) > 0.0
  {
    Dot(Sub(p, a), Sub(b, a)) / SqDist(b, a)
  }

  /**
   The weight pair of lines 94-98, over u = Projection(a, b, p):
   ac/length = |u|, bc/length = |1 - u| and l/length = max(1, |1 - u|).
   The contract spells out the four regimes of the one-sided clamp.
   */
  function SegmentWeights(a: Point, b: Point, p: Point): (w: WeightPair)
    requires SqDist(b, a) > 0.0
    // on the segment: linear interpolation between a and b
    ensures 0.0 <= Projection(a, b, p) <= 1.0 ==>
              w == WeightPair(1.0 - Projection(a, b, p), Projection(a, b, p))
    // before a: the clamp pins everything on a
    ensures Projection(a, b, p) <= 0.0 ==> w == WeightPair(1.0, 0.0)
    // just past b: the weight at a turns negative
    ensures 1.0 < Projection(a, b, p) <= 2.0 ==>
              w == WeightPair(1.0 - Projection(a, b, p), 2.0 - Projection(a, b, p))
    // far past b: the clamp takes over with a constant pair
    ensures 2.0 < Projection(a, b, p) ==> w == WeightPair(-1.0, 0.0)
  {
    var u := Projection(a, b, p);
    var l := Max(1.0, Abs(1.0 - u));
    WeightPair(l - Abs(u), l - Abs(1.0 - u))
  }

  /**
   The two weights sum to 1 exactly when the projection does not pass b: before a
   the clamp keeps the pair at (1, 0), past b it does not.
   */
  lemma PartitionOfUnity(a: Point, b: Point, p: Point)
    requires SqDist(b, a) > 0.0
    ensures (SegmentWeights(a, b, p).wa + SegmentWeights(a, b, p).wb == 1.0)
              <==> Projection(a, b, p) <= 1.0
  {
  }

  /** Both weights are nonnegative exactly when the projection does not pass b. */
  lemma NonNegativeWeights(a: Point, b: Point, p: Point)
    requires SqDist(b, a) > 0.0
    ensures (SegmentWeights(a, b, p).wa >= 0.0 && SegmentWeights(a, b, p).wb >= 0.0)
              <==> Projection(a, b, p) <= 1.0
  {
  }

  /**
   What the clamp `max(length, bc)` does achieve: wherever p lies, the weight at a
   stays within [-1, 1] and the weight at b within [0, 1].
   */
  lemma BoundedWeights(a: Point, b: Point, p: Point)
    requires SqDist(b, a) > 0.0
    ensures -1.0 <= SegmentWeights(a, b, p).wa <= 1.0
    ensures 0.0 <= SegmentWeights(a, b, p).wb <= 1.0
  {
  }

  /** A point at fraction f of the way from a to b projects to f. */
  lemma ProjectionOfLinePoint(a: Point, b: Point, f: real)
    requires SqDist(b, a) > 0.0
    ensures Projection(a, b, Add(a, Scale(f, Sub(b, a)))) == f
  {
    var v := Sub(b, a);
    var p := Add(a, Scale(f, v));
    assert Sub(p, a) == Scale(f, v);
    DotScale(v, f, v);
    DotSymmetric(Scale(f, v), v);
    CancelDivision(f, SqNorm(v));
  }

  /**
   Exactness on the segment: a target lying on the segment at fraction f from a
   gets weight 1 - f at a and f at b, and so reproduces its own position.
   */
  lemma OnSegmentExact(a: Point, b: Point, f: real)
    requires SqDist(b, a) > 0.0
    requires 0.0 <= f <= 1.0
    ensures SegmentWeights(a, b, Add(a, Scale(f, Sub(b, a)))) == WeightPair(1.0 - f, f)
  {
    ProjectionOfLinePoint(a, b, f);
  }

  /** A target sitting on the nearest node takes that node's value: weights (1, 0). */
  lemma CoincidentTarget(a: Point, b: Point)
    requires SqDist(b, a) > 0.0
    ensures SegmentWeights(a, b, a) == WeightPair(1.0, 0.0)
  {
    ProjectionOfLinePoint(a, b, 0.0);
    assert Add(a, Scale(0.0, Sub(b, a))) == a;
  }

  /** Measuring the projection from b instead of a reflects it: u becomes 1 - u. */
  lemma ProjectionReversed(a: Point, b: Point, p: Point)
    requires SqDist(b, a) > 0.0
    ensures SqDist(a, b) == SqDist(b, a)
    ensures Projection(b, a, p) == 1.0 - Projection(a, b, p)
  {
    SqDistSymmetric(a, b);
    var v := Sub(b, a);
    assert Sub(a, b) == Scale(-1.0, v);
    assert Sub(p, b) == Add(Sub(p, a), Scale(-1.0, v));
    DotAddScale(Sub(p, a), v);
    CancelDivision(1.0, SqNorm(v));
    DivideDifference(SqNorm(v), Dot(Sub(p, a), v), SqNorm(v));
  }

  /**
   On the segment the pair does not depend on which end was found nearer, so the
   unspecified tie order of the nearest-two selection cannot change it there.
   */
  lemma SwapInvariantOnSegment(a: Point, b: Point, p: Point)
    requires SqDist(b, a) > 0.0
    requires 0.0 <= Projection(a, b, p) <= 1.0
    ensures SqDist(a, b) > 0.0
    ensures SegmentWeights(b, a, p) ==
              WeightPair(SegmentWeights(a, b, p).wb, SegmentWeights(a, b, p).wa)
  {
    ProjectionReversed(a, b, p);
  }

  /**
   The clamp is one-sided. Past b the pair is not the mirror image of what the
   same target gets with the roles of a and b exchanged: that would be (1, 0) at b,
   while the weight at a has gone negative.
   */
  lemma ClampIsOneSided(a: Point, b: Point, p: Point)
    requires SqDist(b, a) > 0.0
    requires Projection(a, b, p) > 1.0
    ensures SqDist(a, b) > 0.0
    ensures SegmentWeights(b, a, p) == WeightPair(1.0, 0.0)
    ensures SegmentWeights(a, b, p).wa < 0.0
  {
    ProjectionReversed(a, b, p);
  }

  /** |p - b|^2 expanded around a: the cross term is the numerator of the projection. */
  lemma ExpandFromA(a: Point, b: Point, p: Point)
    ensures SqDist(b, p) == SqDist(a, p) - 2.0 * Dot(Sub(p, a), Sub(b, a)) + SqDist(b, a)
  {
  }

  /**
   A target is no farther from a than from b exactly when it projects no further
   than the midpoint of the segment.
   */
  lemma NearerEndProjection(a: Point, b: Point, p: Point)
    requires SqDist(b, a) > 0.0
    ensures SqDist(a, p) <= SqDist(b, p) <==> Projection(a, b, p) <= 0.5
  {
    ExpandFromA(a, b, p);
    HalfBound(Dot(Sub(p, a), Sub(b, a)), SqDist(b, a));
  }

  /**
   For a target at least as near to a as to b, the clamp only ever acts before a:
   the weights are those of the point of the segment [a, b] closest to the target,
   1 - s at a and s at b with s = max(0, u), so a weighs at least 1/2 and the pair
   sums to 1.
   */
  lemma NearerEndWeights(a: Point, b: Point, p: Point)
    requires SqDist(b, a) > 0.0
    requires SqDist(a, p) <= SqDist(b, p)
    ensures SegmentWeights(a, b, p) ==
              WeightPair(1.0 - Max(0.0, Projection(a, b, p)), Max(0.0, Projection(a, b, p)))
    ensures 0.5 <= SegmentWeights(a, b, p).wa <= 1.0
    ensures 0.0 <= SegmentWeights(a, b, p).wb <= 0.5
    ensures SegmentWeights(a, b, p).wa + SegmentWeights(a, b, p).wb == 1.0
  {
    NearerEndProjection(a, b, p);
  }

  /**
   `norm = (b - a)/length`, line 89: a vector along b - a that, when `length` is the
   norm of b - a, has norm 1.
   */
  function UnitDirection(a: Point, b: Point, length: real): (n: Point)
    requires length > 0.0
    ensures Scale(length, n) == Sub(b, a)
    ensures length * length == SqDist(b, a) ==> SqNorm(n) == 1.0
  {
    UnitLength(Sub(b, a), length);
    Scale(1.0 / length, Sub(b, a))
  }

  /**
   `t = np.dot(p - a, norm)`, line 90: the signed distance from a to the foot of p,
   which is `length` times the projection ratio u.
   */
  function ScalarProjection(a: Point, b: Point, p: Point, length: real): (t: real)
    requires length > 0.0
    ensures length * length == SqDist(b, a) ==>
              SqDist(b, a) > 0.0 && Projection(a, b, p) == t / length
  {
    PositiveSquare(length);
    DotScale(Sub(p, a), 1.0 / length, Sub(b, a));
    ProjectionRatio(Dot(Sub(p, a), Sub(b, a)), length);
    Dot(Sub(p, a), UnitDirection(a, b, length))
  }

  /**
   `c = a + t*norm`, line 92: the foot of p on the line through a and b, at squared
   distance t^2 from a and (t - length)^2 from b.
   */
  function ClosestPoint(a: Point, b: Point, p: Point, length: real): (c: Point)
    requires length > 0.0
    ensures length * length == SqDist(b, a) ==>
              && SqDist(c, a) == ScalarProjection(a, b, p, length) * ScalarProjection(a, b, p, length)
              && SqDist(c, b) ==
                   (ScalarProjection(a, b, p, length) - length) * (ScalarProjection(a, b, p, length) - length)
  {
    var t := ScalarProjection(a, b, p, length);
    var n := UnitDirection(a, b, length);
    FootDistances(a, b, t, n, Add(a, Scale(t, n)), length);
    Add(a, Scale(t, n))
  }

  /**
   Lines 95-98 as written, given the three Euclidean norms the code takes with
   `np.linalg.norm`: `length = |b - a|`, `ac = |c - a|` and `bc = |c - b|`.
   */
  function CodeWeights(length: real, ac: real, bc: real): (w: WeightPair)
    requires length > 0.0
    // the clamp never lets the weight at b go negative
    ensures w.wb >= 0.0
    // the clamp moves both weights together: their difference is (bc - ac)/length
    ensures w.wa - w.wb == (bc - ac) / length
    // a foot between a and b: linear interpolation, the nearer end weighing more
    ensures ac >= 0.0 && bc >= 0.0 && ac + bc == length ==> w == WeightPair(bc / length, ac / length)
  {
    var l := Max(length, bc);
    DivideDifference(l, ac, length);
    DivideDifference(l, bc, length);
    WeightPair((l - ac) / length, (l - bc) / length)
  }

  /**
   The code's arithmetic and the closed form agree for every choice of the three
   square roots: whatever nonnegative `length`, `ac`, `bc` square to |b - a|^2,
   |c - a|^2 and |c - b|^2, lines 88-98 compute `SegmentWeights(a, b, p)`.
   */
  lemma CodeWeightsAgree(a: Point, b: Point, p: Point, length: real, ac: real, bc: real)
    requires length > 0.0 && length * length == SqDist(b, a)
    requires ac >= 0.0 && ac * ac == SqDist(ClosestPoint(a, b, p, length), a)
    requires bc >= 0.0 && bc * bc == SqDist(ClosestPoint(a, b, p, length), b)
    ensures SqDist(b, a) > 0.0
    ensures CodeWeights(length, ac, bc) == SegmentWeights(a, b, p)
  {
    var t := ScalarProjection(a, b, p, length);
    PositiveSquare(length);
    RootUnique(ac, t);
    RootUnique(bc, t - length);
    ClampScales(t, length);
  }

  /**
   The foot c = a + t*n, n = (b - a)/length, lies at t*n from a and (t - length)*n
   from b; when `length` is the norm of b - a, n has norm 1 and those are at
   squared distances t^2 and (t - length)^2.
   */
  lemma FootDistances(a: Point, b: Point, t: real, n: Point, c: Point, length: real)
    requires length > 0.0
    requires n == Scale(1.0 / length, Sub(b, a)) && c == Add(a, Scale(t, n))
    ensures Sub(c, a) == Scale(t, n) && Sub(c, b) == Scale(t - length, n)
    ensures length * length == SqDist(b, a) ==>
              SqDist(c, a) == t * t && SqDist(c, b) == (t - length) * (t - length)
  {
    var v := Sub(b, a);
    UnitLength(v, length);
    assert Sub(c, a) == Scale(t, n);
    SqNormScale(t, n);
    assert Sub(c, b) == Scale(t - length, n);
    SqNormScale(t - length, n);
  }

  /** Scaling by 1/length and then by length gives the vector back. */
  lemma ScaleBack(v: Point, length: real)
    requires length > 0.0
    ensures Scale(length, Scale(1.0 / length, v)) == v
  {
    assert length * (1.0 / length) == 1.0;
  }

  /**
   Dividing a vector by a positive length and scaling back gives it again; when the
   length is the vector's norm, the quotient has squared norm 1.
   */
  lemma UnitLength(v: Point, length: real)
    requires length > 0.0
    ensures v == Scale(length, Scale(1.0 / length, v))
    ensures length * length == SqNorm(v) ==> SqNorm(Scale(1.0 / length, v)) == 1.0
  {
    ScaleBack(v, length);
    SqNormScale(1.0 / length, v);
    InverseSquare(length);
  }

  lemma InverseSquare(r: real)
    requires r > 0.0
    ensures (1.0 / r) * (1.0 / r) * (r * r) == 1.0
  {
  }

  /** Dividing by length^2 is dividing the scaled numerator by length once more. */
  lemma ProjectionRatio(d: real, length: real)
    requires length > 0.0
    ensures d / (length * length) == ((1.0 / length) * d) / length
  {
  }

  /** Dividing lines 95-98 through by length turns them into the form over u = t/length. */
  lemma ClampScales(t: real, length: real)
    requires length > 0.0
    ensures CodeWeights(length, Abs(t), Abs(t - length)) ==
            WeightPair(Max(1.0, Abs(1.0 - t / length)) - Abs(t / length),
                       Max(1.0, Abs(1.0 - t / length)) - Abs(1.0 - t / length))
  {
    var l := Max(length, Abs(t - length));
    assert CodeWeights(length, Abs(t), Abs(t - length)) ==
           WeightPair((l - Abs(t)) / length, (l - Abs(t - length)) / length);
    DivideDifference(l, Abs(t), length);
    DivideDifference(l, Abs(t - length), length);
    ScaledDistances(t, length);
  }

  /** The three lengths the clamp compares, each divided by |b - a|. */
  lemma ScaledDistances(t: real, length: real)
    requires length > 0.0
    ensures Abs(t) / length == Abs(t / length)
    ensures Abs(t - length) / length == Abs(1.0 - t / length)
    ensures Max(length, Abs(t - length)) / length == Max(1.0, Abs(1.0 - t / length))
  {
    AbsScales(t, length);
    AbsScales(t - length, length);
    DivideDifference(t, length, length);
    assert length / length == 1.0;
    assert Abs(t / length - 1.0) == Abs(1.0 - t / length);
    MaxScales(length, Abs(t - length), length);
  }

  lemma CancelDivision(x: real, k: real)
    requires k > 0.0
    ensures (x * k) / k == x
  {
  }

  lemma DotSymmetric(p: Point, q: Point)
    ensures Dot(p, q) == Dot(q, p)
  {
  }

  /** (p - a) - (b - a) expanded: the dot product with b - a loses one |b - a|^2. */
  lemma DotAddScale(w: Point, v: Point)
    ensures Dot(Add(w, Scale(-1.0, v)), Scale(-1.0, v)) == SqNorm(v) - Dot(w, v)
  {
  }

  lemma DivideDifference(x: real, y: real, k: real)
    requires k > 0.0
    ensures (x - y) / k == x / k - y / k
  {
  }

  lemma HalfBound(x: real, k: real)
    requires k > 0.0
    ensures x / k <= 0.5 <==> 2.0 * x <= k
  {
  }

  lemma AbsScales(x: real, k: real)
    requires k > 0.0
    ensures Abs(x) / k == Abs(x / k)
  {
    if x < 0.0 {
      assert x / k < 0.0;
    } else {
      assert x / k >= 0.0;
    }
  }

  lemma MaxScales(x: real, y: real, k: real)
    requires k > 0.0
    ensures Max(x, y) / k == Max(x / k, y / k)
  {
    if x < y {
      assert x / k < y / k;
    } else {
      assert y / k <= x / k;
    }
  }
}
