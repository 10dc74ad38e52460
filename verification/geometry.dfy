/**
 Points of a mesh and the vector algebra the weight builders use, over exact reals.

 A node is a triple of reals (one row of an n×3 coordinate array). Only squared
 distances are ever compared, so no square root is needed here; where the builders
 take a Euclidean norm, the norm is supplied as a value whose square is known.
 */
module Geometry {

  datatype Point = Point(x: real, y: real, z: real)

  function Add(p: Point, q: Point): Point {
    Point(p.x + q.x, p.y + q.y, p.z + q.z)
  }

  function Sub(p: Point, q: Point): Point {
    Point(p.x - q.x, p.y - q.y, p.z - q.z)
  }

  function Scale(s: real, p: Point): Point {
    Point(s * p.x, s * p.y, s * p.z)
  }

  function Dot(p: Point, q: Point): real {
    p.x * q.x + p.y * q.y + p.z * q.z
  }

  /** The squared Euclidean norm, |p|^2. */
  function SqNorm(p: Point): real {
    Dot(p, p)
  }

  /** Squared distance between two nodes: the per-row sum of `(x - y[i,:])**2`. */
  function SqDist(p: Point, q: Point): real {
    SqNorm(Sub(p, q))
  }

  function Abs(r: real): real {
    if r < 0.0 then -r else r
  }

  function Max(a: real, b: real): real {
    if a < b then b else a
  }

  lemma SqDistSymmetric(p: Point, q: Point)
    ensures SqDist(p, q) == SqDist(q, p)
  {
  }

  /** Scaling a vector scales its squared norm by the square of the factor. */
  lemma SqNormScale(s: real, p: Point)
    ensures SqNorm(Scale(s, p)) == s * s * SqNorm(p)
  {
    calc {
      SqNorm(Scale(s, p));
      (s * p.x) * (s * p.x) + (s * p.y) * (s * p.y) + (s * p.z) * (s * p.z);
      s * s * (p.x * p.x + p.y * p.y + p.z * p.z);
    }
  }

  /** The dot product is linear in its second argument. */
  lemma DotScale(p: Point, s: real, q: Point)
    ensures Dot(p, Scale(s, q)) == s * Dot(p, q)
  {
  }

  /** A nonnegative number whose square is y*y is |y|: the only square root. */
  lemma RootUnique(x: real, y: real)
    requires x >= 0.0
    requires x * x == y * y
    ensures x == Abs(y)
  {
    var ay := Abs(y);
    assert ay * ay == y * y;
    assert (x - ay) * (x + ay) == 0.0;
    if x + ay == 0.0 {
      assert x == 0.0;
    } else {
      assert x - ay == 0.0;
    }
  }

  lemma PositiveSquare(r: real)
    requires r > 0.0
    ensures r * r > 0.0
  {
  }

  /** A square is never negative. */
  lemma SquareNonNegative(r: real)
    ensures r * r >= 0.0
  {
    if r < 0.0 {
      PositiveSquare(-r);
      assert (-r) * (-r) == r * r;
    } else if r > 0.0 {
      PositiveSquare(r);
    }
  }

  /** Squared distances are nonnegative, and zero between equal points. */
  lemma SqDistSign(p: Point, q: Point)
    ensures SqDist(p, q) >= 0.0
    ensures p == q ==> SqDist(p, q) == 0.0
  {
    var dx, dy, dz := p.x - q.x, p.y - q.y, p.z - q.z;
    SquareNonNegative(dx);
    SquareNonNegative(dy);
    SquareNonNegative(dz);
    assert SqDist(p, q) == dx * dx + dy * dy + dz * dz;
  }
}
