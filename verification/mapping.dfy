/**
 The two weight-matrix builders of VAST/core/generate_mappings_m3l.py:
 `VASTNodelDisplacements.fmap` (lines 70-100), which writes each target's two
 weights into a column of an n×m matrix, and `EBBeamNodalDisplacements.umap`
 (lines 149-179), which writes them into a row of an m×n matrix. Here n is the
 number of mesh nodes (`mesh`) and m the number of target nodes (`oml`).

 Each builder is modelled in two layers, following the code's two loops:
 `NearestPairs` is the first loop (the index array `d`), and `FMapWith`/`UMapWith`
 are the second loop, given any index array. The second layer's theorems hold for
 every admissible `d`, so they do not depend on how argsort orders ties, and
 `ChoiceAdmissible` makes every nearest choice admissible on well-posed input.
 `FMap`/`UMap`, and the theorems that name them, use the stable pairs
 `NearestPairs` chooses.
 */
module Mapping {
  import opened Geometry
  import opened Selection
  import opened Weights
  import opened Matrices

  /** One target's contribution: its two mesh-node indices and their weights. */
  datatype Stencil = Stencil(ia: nat, ib: nat, w: WeightPair)

  /** The value a target's stencil places at mesh node r. */
  function Entry(s: Stencil, r: nat): real {
    if r == s.ia then s.w.wa else if r == s.ib then s.w.wb else 0.0
  }

  /**
   What the second loop needs of the index array: one pair per target, both in
   range, naming two nodes a nonzero distance apart (`length > 0` on line 88/167).
   */
  predicate Admissible(mesh: seq<Point>, oml: seq<Point>, d: seq<IndexPair>) {
    && |d| == |oml|
    && forall i :: 0 <= i < |d| ==>
         && d[i].ia < |mesh| && d[i].ib < |mesh| && d[i].ia != d[i].ib
         && SqDist(mesh[d[i].ib], mesh[d[i].ia]) > 0.0
  }

  /** Lines 84-98 for target i: a = mesh[ia], b = mesh[ib], p = oml[i]. */
  function StencilOf(mesh: seq<Point>, oml: seq<Point>, d: seq<IndexPair>, i: nat): Stencil
    requires Admissible(mesh, oml, d) && i < |oml|
  {
    Stencil(d[i].ia, d[i].ib, SegmentWeights(mesh[d[i].ia], mesh[d[i].ib], oml[i]))
  }

  /** For an arbitrary index array, a stencil spreads a total weight of 1 exactly when its target does not project past b. */
  lemma StencilTotal(mesh: seq<Point>, oml: seq<Point>, d: seq<IndexPair>, i: nat)
    requires Admissible(mesh, oml, d) && i < |oml|
    ensures var s := StencilOf(mesh, oml, d, i);
            (Entry(s, s.ia) + Entry(s, s.ib) == 1.0) <==> Projection(mesh[d[i].ia], mesh[d[i].ib], oml[i]) <= 1.0
  {
    PartitionOfUnity(mesh[d[i].ia], mesh[d[i].ib], oml[i]);
  }

  /** Lines 97-98, `weights[ia, i] = ...; weights[ib, i] = ...`. */
  function WriteColumn(w: Matrix, i: nat, s: Stencil): (w': Matrix)
    requires w.Valid() && i < w.cols && s.ia < w.rows && s.ib < w.rows && s.ia != s.ib
    ensures w'.Valid() && w'.rows == w.rows && w'.cols == w.cols
    // column i now holds the stencil, whatever was there before
    ensures forall r :: 0 <= r < w.rows && (r == s.ia || r == s.ib) ==> w'.at[r][i] == Entry(s, r)
    // nothing outside the two written cells changes
    ensures forall r, c :: 0 <= r < w.rows && 0 <= c < w.cols && !(c == i && (r == s.ia || r == s.ib)) ==>
              w'.at[r][c] == w.at[r][c]
  {
    Set(Set(w, s.ia, i, s.w.wa), s.ib, i, s.w.wb)
  }

  /** Lines 176-177, `weights[i, ia] = ...; weights[i, ib] = ...`. */
  function WriteRow(w: Matrix, i: nat, s: Stencil): (w': Matrix)
    requires w.Valid() && i < w.rows && s.ia < w.cols && s.ib < w.cols && s.ia != s.ib
    ensures w'.Valid() && w'.rows == w.rows && w'.cols == w.cols
    ensures forall c :: 0 <= c < w.cols && (c == s.ia || c == s.ib) ==> w'.at[i][c] == Entry(s, c)
    ensures forall r, c :: 0 <= r < w.rows && 0 <= c < w.cols && !(r == i && (c == s.ia || c == s.ib)) ==>
              w'.at[r][c] == w.at[r][c]
  {
    Set(Set(w, i, s.ia, s.w.wa), i, s.ib, s.w.wb)
  }

  /**
   The `fmap` loop of lines 82-98 after its first k iterations: columns already
   visited hold their target's stencil, the rest are still zero.
   */
  function FillColumns(mesh: seq<Point>, oml: seq<Point>, d: seq<IndexPair>, k: nat): (w: Matrix)
    requires Admissible(mesh, oml, d) && k <= |oml|
    ensures w.Valid() && w.rows == |mesh| && w.cols == |oml|
    ensures forall r, c :: 0 <= r < |mesh| && 0 <= c < k ==> w.at[r][c] == Entry(StencilOf(mesh, oml, d, c), r)
    ensures forall r, c :: 0 <= r < |mesh| && k <= c < |oml| ==> w.at[r][c] == 0.0
    decreases k
  {
    if k == 0 then Zeros(|mesh|, |oml|)
    else WriteColumn(FillColumns(mesh, oml, d, k - 1), k - 1, StencilOf(mesh, oml, d, k - 1))
  }

  /** The `umap` loop of lines 161-177 after its first k iterations, row by row. */
  function FillRows(mesh: seq<Point>, oml: seq<Point>, d: seq<IndexPair>, k: nat): (w: Matrix)
    requires Admissible(mesh, oml, d) && k <= |oml|
    ensures w.Valid() && w.rows == |oml| && w.cols == |mesh|
    ensures forall i, c :: 0 <= i < k && 0 <= c < |mesh| ==> w.at[i][c] == Entry(StencilOf(mesh, oml, d, i), c)
    ensures forall i, c :: k <= i < |oml| && 0 <= c < |mesh| ==> w.at[i][c] == 0.0
    decreases k
  {
    if k == 0 then Zeros(|oml|, |mesh|)
    else WriteRow(FillRows(mesh, oml, d, k - 1), k - 1, StencilOf(mesh, oml, d, k - 1))
  }

  /**
   `fmap`'s weight matrix for a given index array: n×m, column i nonzero only at
   rows ia and ib of target i, carrying that target's two segment weights.
   */
  function FMapWith(mesh: seq<Point>, oml: seq<Point>, d: seq<IndexPair>): (w: Matrix)
    requires Admissible(mesh, oml, d)
    ensures w.Valid() && w.rows == |mesh| && w.cols == |oml|
    ensures forall i :: 0 <= i < |oml| ==>
              && w.at[d[i].ia][i] == SegmentWeights(mesh[d[i].ia], mesh[d[i].ib], oml[i]).wa
              && w.at[d[i].ib][i] == SegmentWeights(mesh[d[i].ia], mesh[d[i].ib], oml[i]).wb
    ensures forall r, i :: 0 <= r < |mesh| && 0 <= i < |oml| && r != d[i].ia && r != d[i].ib ==>
              w.at[r][i] == 0.0
  {
    var w := FillColumns(mesh, oml, d, |oml|);
    assert forall i :: 0 <= i < |oml| ==>
             w.at[d[i].ia][i] == Entry(StencilOf(mesh, oml, d, i), d[i].ia) &&
             w.at[d[i].ib][i] == Entry(StencilOf(mesh, oml, d, i), d[i].ib);
    w
  }

  /**
   `umap`'s weight matrix for a given index array: m×n, row i nonzero only at
   columns ia and ib of target i, carrying that target's two segment weights.
   */
  function UMapWith(mesh: seq<Point>, oml: seq<Point>, d: seq<IndexPair>): (w: Matrix)
    requires Admissible(mesh, oml, d)
    ensures w.Valid() && w.rows == |oml| && w.cols == |mesh|
    ensures forall i :: 0 <= i < |oml| ==>
              && w.at[i][d[i].ia] == SegmentWeights(mesh[d[i].ia], mesh[d[i].ib], oml[i]).wa
              && w.at[i][d[i].ib] == SegmentWeights(mesh[d[i].ia], mesh[d[i].ib], oml[i]).wb
    ensures forall i, c :: 0 <= i < |oml| && 0 <= c < |mesh| && c != d[i].ia && c != d[i].ib ==>
              w.at[i][c] == 0.0
  {
    FillRows(mesh, oml, d, |oml|)
  }

  /**
   `d` is a choice argsort could make: for every target, a nearest pair of its
   distance vector, with equal distances ordered either way.
   */
  predicate NearestChoice(mesh: seq<Point>, oml: seq<Point>, d: seq<IndexPair>) {
    && |d| == |oml|
    && forall i :: 0 <= i < |oml| ==> IsNearestPair(SqDists(mesh, oml[i]), d[i])
  }

  /**
   The code's precondition: at least two mesh nodes, and for every target, whichever
   nearest pair argsort returns names two distinct points (otherwise `length` is 0
   and line 89/168 divides by zero).
   */
  ghost predicate WellPosed(mesh: seq<Point>, oml: seq<Point>) {
    && |mesh| >= 2
    && forall i, pr :: 0 <= i < |oml| && IsNearestPair(SqDists(mesh, oml[i]), pr) ==>
         SqDist(mesh[pr.ib], mesh[pr.ia]) > 0.0
  }

  /**
   What `WellPosed` rules out: a target for which some nearest pair, in some tie
   order, names two nodes at the same position.
   */
  lemma CoincidentChoiceIllPosed(mesh: seq<Point>, oml: seq<Point>, i: nat, pr: IndexPair)
    requires i < |oml| && IsNearestPair(SqDists(mesh, oml[i]), pr)
    requires mesh[pr.ia] == mesh[pr.ib]
    ensures !WellPosed(mesh, oml)
  {
    SqDistSign(mesh[pr.ib], mesh[pr.ia]);
  }

  /** On well-posed input every nearest choice is an index array the second loop accepts. */
  lemma ChoiceAdmissible(mesh: seq<Point>, oml: seq<Point>, d: seq<IndexPair>)
    requires WellPosed(mesh, oml) && NearestChoice(mesh, oml, d)
    ensures Admissible(mesh, oml, d)
  {
    forall i | 0 <= i < |d|
      ensures d[i].ia < |mesh| && d[i].ib < |mesh| && d[i].ia != d[i].ib
      ensures SqDist(mesh[d[i].ib], mesh[d[i].ia]) > 0.0
    {
      assert IsNearestPair(SqDists(mesh, oml[i]), d[i]);
    }
  }

  /**
   The nearest-two selection never lets a target project past the midpoint of its
   segment: `ia` is the nearer node, so whatever nearest pair argsort returns, the
   clamp on line 95/174 acts only before a and the weights interpolate over the
   segment, a weighing at least 1/2 and the pair summing to 1.
   */
  lemma NearestNeverPastMidpoint(mesh: seq<Point>, oml: seq<Point>, d: seq<IndexPair>, i: nat)
    requires WellPosed(mesh, oml) && NearestChoice(mesh, oml, d) && i < |oml|
    ensures Admissible(mesh, oml, d)
    ensures Projection(mesh[d[i].ia], mesh[d[i].ib], oml[i]) <= 0.5
    ensures var w := SegmentWeights(mesh[d[i].ia], mesh[d[i].ib], oml[i]);
            && 0.5 <= w.wa <= 1.0 && 0.0 <= w.wb <= 0.5
            && w.wa + w.wb == 1.0
  {
    ChoiceAdmissible(mesh, oml, d);
    var dist := SqDists(mesh, oml[i]);
    assert IsNearestPair(dist, d[i]);
    assert dist[d[i].ia] <= dist[d[i].ib];
    NearerEndWeights(mesh[d[i].ia], mesh[d[i].ib], oml[i]);
  }

  /** For any nearest choice, every entry of both matrices lies in [0, 1]. */
  lemma ChoiceEntriesBounded(mesh: seq<Point>, oml: seq<Point>, d: seq<IndexPair>, r: nat, i: nat)
    requires WellPosed(mesh, oml) && NearestChoice(mesh, oml, d)
    requires r < |mesh| && i < |oml|
    ensures Admissible(mesh, oml, d)
    ensures 0.0 <= FMapWith(mesh, oml, d).at[r][i] <= 1.0
    ensures 0.0 <= UMapWith(mesh, oml, d).at[i][r] <= 1.0
  {
    NearestNeverPastMidpoint(mesh, oml, d, i);
  }

  /** `fmap(mesh, oml)`, lines 70-100, with the pairs `NearestPairs` chooses. */
  function FMap(mesh: seq<Point>, oml: seq<Point>): (w: Matrix)
    requires WellPosed(mesh, oml)
    ensures Admissible(mesh, oml, NearestPairs(mesh, oml))
    ensures w.Valid() && w.rows == |mesh| && w.cols == |oml|
    // column i: the two segment weights at the target's nearest pair, zero elsewhere
    ensures forall i :: 0 <= i < |oml| ==>
              && w.at[NearestPairs(mesh, oml)[i].ia][i] ==
                   SegmentWeights(mesh[NearestPairs(mesh, oml)[i].ia], mesh[NearestPairs(mesh, oml)[i].ib], oml[i]).wa
              && w.at[NearestPairs(mesh, oml)[i].ib][i] ==
                   SegmentWeights(mesh[NearestPairs(mesh, oml)[i].ia], mesh[NearestPairs(mesh, oml)[i].ib], oml[i]).wb
    ensures forall r, i ::
              (0 <= r < |mesh| && 0 <= i < |oml| &&
               r != NearestPairs(mesh, oml)[i].ia && r != NearestPairs(mesh, oml)[i].ib) ==>
              w.at[r][i] == 0.0
  {
    ChoiceAdmissible(mesh, oml, NearestPairs(mesh, oml));
    FMapWith(mesh, oml, NearestPairs(mesh, oml))
  }

  /** `umap(mesh, oml)`, lines 149-179, with the pairs `NearestPairs` chooses. */
  function UMap(mesh: seq<Point>, oml: seq<Point>): (w: Matrix)
    requires WellPosed(mesh, oml)
    ensures Admissible(mesh, oml, NearestPairs(mesh, oml))
    ensures w.Valid() && w.rows == |oml| && w.cols == |mesh|
    // row i: the two segment weights at the target's nearest pair, zero elsewhere
    ensures forall i :: 0 <= i < |oml| ==>
              && w.at[i][NearestPairs(mesh, oml)[i].ia] ==
                   SegmentWeights(mesh[NearestPairs(mesh, oml)[i].ia], mesh[NearestPairs(mesh, oml)[i].ib], oml[i]).wa
              && w.at[i][NearestPairs(mesh, oml)[i].ib] ==
                   SegmentWeights(mesh[NearestPairs(mesh, oml)[i].ia], mesh[NearestPairs(mesh, oml)[i].ib], oml[i]).wb
    ensures forall i, c ::
              (0 <= i < |oml| && 0 <= c < |mesh| &&
               c != NearestPairs(mesh, oml)[i].ia && c != NearestPairs(mesh, oml)[i].ib) ==>
              w.at[i][c] == 0.0
  {
    ChoiceAdmissible(mesh, oml, NearestPairs(mesh, oml));
    UMapWith(mesh, oml, NearestPairs(mesh, oml))
  }

  /** Every entry of `fmap(mesh, oml)` and of `umap(mesh, oml)` lies in [0, 1]. */
  lemma EntriesBounded(mesh: seq<Point>, oml: seq<Point>, r: nat, i: nat)
    requires WellPosed(mesh, oml) && r < |mesh| && i < |oml|
    ensures 0.0 <= FMap(mesh, oml).at[r][i] <= 1.0
    ensures 0.0 <= UMap(mesh, oml).at[i][r] <= 1.0
  {
    ChoiceEntriesBounded(mesh, oml, NearestPairs(mesh, oml), r, i);
  }

  /** For the same index array, the `umap` matrix is exactly the transpose of the `fmap` one. */
  lemma UMapIsTransposeWith(mesh: seq<Point>, oml: seq<Point>, d: seq<IndexPair>)
    requires Admissible(mesh, oml, d)
    ensures UMapWith(mesh, oml, d) == Transpose(FMapWith(mesh, oml, d))
  {
    var f := FMapWith(mesh, oml, d);
    var u := UMapWith(mesh, oml, d);
    var t := Transpose(f);
    forall i, c | 0 <= i < |oml| && 0 <= c < |mesh|
      ensures u.at[i][c] == t.at[i][c]
    {
      assert t.at[i][c] == f.at[c][i];
    }
    Extensionality(u, t);
  }

  /**
   `umap(mesh, oml)` is the transpose of `fmap(mesh, oml)`: both run the same
   deterministic selection on the same inputs and write the same two weights.
   */
  lemma UMapIsTranspose(mesh: seq<Point>, oml: seq<Point>)
    requires WellPosed(mesh, oml)
    ensures UMap(mesh, oml) == Transpose(FMap(mesh, oml))
  {
    ChoiceAdmissible(mesh, oml, NearestPairs(mesh, oml));
    UMapIsTransposeWith(mesh, oml, NearestPairs(mesh, oml));
  }

  /**
   Locality of `fmap`, for whatever nearest pairs argsort returns: column i is zero
   except at the two nodes chosen for target i.
   */
  lemma FMapLocalityWith(mesh: seq<Point>, oml: seq<Point>, d: seq<IndexPair>, i: nat, r: nat)
    requires WellPosed(mesh, oml) && NearestChoice(mesh, oml, d)
    requires i < |oml| && r < |mesh|
    ensures Admissible(mesh, oml, d)
    ensures FMapWith(mesh, oml, d).at[r][i] != 0.0 ==> r == d[i].ia || r == d[i].ib
  {
    ChoiceAdmissible(mesh, oml, d);
  }

  /** Locality of `fmap` with the pairs `NearestPairs` chooses. */
  lemma FMapLocality(mesh: seq<Point>, oml: seq<Point>, i: nat, r: nat)
    requires WellPosed(mesh, oml) && i < |oml| && r < |mesh|
    ensures var pr := NearestPairs(mesh, oml)[i];
            && (FMap(mesh, oml).at[r][i] != 0.0 ==> r == pr.ia || r == pr.ib)
            && IsNearestPair(SqDists(mesh, oml[i]), pr)
  {
    FMapLocalityWith(mesh, oml, NearestPairs(mesh, oml), i, r);
  }

  /** Each column of the `fmap` matrix holds exactly its target's stencil. */
  lemma FMapColumn(mesh: seq<Point>, oml: seq<Point>, d: seq<IndexPair>, i: nat)
    requires Admissible(mesh, oml, d) && i < |oml|
    ensures forall r :: 0 <= r < |mesh| ==> FMapWith(mesh, oml, d).at[r][i] == Entry(StencilOf(mesh, oml, d, i), r)
  {
  }
}
