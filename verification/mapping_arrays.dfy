/**
 The builders as the code writes them: two loops over the targets, the first
 filling the index array `d`, the second writing two cells of a zeroed 2-D array
 per target. Each method is shown to produce the matrix of the functional model.
 */
module MappingArrays {
  import opened Geometry
  import opened Selection
  import opened Matrices
  import opened Mapping

  /** Lines 76-79 / 155-158: `d[i,:] = np.argsort(dist)[:2]` for every target i. */
  method IndexArray(mesh: seq<Point>, oml: seq<Point>) returns (d: seq<IndexPair>)
    requires |mesh| >= 2
    ensures |d| == |oml|
    ensures forall i :: 0 <= i < |oml| ==> IsNearestPair(SqDists(mesh, oml[i]), d[i])
    ensures d == NearestPairs(mesh, oml)
  {
    d := [];
    for i := 0 to |oml|
      invariant |d| == i
      invariant forall j :: 0 <= j < i ==> d[j] == NearestTwo(SqDists(mesh, oml[j]))
    {
      d := d + [NearestTwo(SqDists(mesh, oml[i]))];
    }
  }

  /** `fmap`, lines 70-100: an n×m array, column i written by iteration i only. */
  method FMapArray(mesh: seq<Point>, oml: seq<Point>) returns (w: array2<real>)
    requires WellPosed(mesh, oml)
    ensures w.Length0 == |mesh| && w.Length1 == |oml|
    ensures forall r, i :: 0 <= r < |mesh| && 0 <= i < |oml| ==> w[r, i] == FMap(mesh, oml).at[r][i]
  {
    var d := IndexArray(mesh, oml);
    ChoiceAdmissible(mesh, oml, d);
    w := FillColumnsArray(mesh, oml, d);
  }

  /** `umap`, lines 149-179: an m×n array, row i written by iteration i only. */
  method UMapArray(mesh: seq<Point>, oml: seq<Point>) returns (w: array2<real>)
    requires WellPosed(mesh, oml)
    ensures w.Length0 == |oml| && w.Length1 == |mesh|
    ensures forall i, c :: 0 <= i < |oml| && 0 <= c < |mesh| ==> w[i, c] == UMap(mesh, oml).at[i][c]
  {
    var d := IndexArray(mesh, oml);
    ChoiceAdmissible(mesh, oml, d);
    w := FillRowsArray(mesh, oml, d);
  }

  /** The second loop of `fmap` (lines 82-98) for a given index array. */
  method FillColumnsArray(mesh: seq<Point>, oml: seq<Point>, d: seq<IndexPair>) returns (w: array2<real>)
    requires Admissible(mesh, oml, d)
    ensures w.Length0 == |mesh| && w.Length1 == |oml|
    ensures forall r, i :: 0 <= r < |mesh| && 0 <= i < |oml| ==> w[r, i] == FMapWith(mesh, oml, d).at[r][i]
  {
    w := new real[|mesh|, |oml|]((r, c) => 0.0);
    for i := 0 to |oml|
      invariant forall r, c :: 0 <= r < |mesh| && 0 <= c < |oml| ==>
                  w[r, c] == (if c < i then Entry(StencilOf(mesh, oml, d, c), r) else 0.0)
    {
      var s := StencilOf(mesh, oml, d, i);
      w[s.ia, i] := s.w.wa;
      w[s.ib, i] := s.w.wb;
    }
    forall i | 0 <= i < |oml| {
      FMapColumn(mesh, oml, d, i);
    }
  }

  /** The second loop of `umap` (lines 161-177) for a given index array. */
  method FillRowsArray(mesh: seq<Point>, oml: seq<Point>, d: seq<IndexPair>) returns (w: array2<real>)
    requires Admissible(mesh, oml, d)
    ensures w.Length0 == |oml| && w.Length1 == |mesh|
    ensures forall i, c :: 0 <= i < |oml| && 0 <= c < |mesh| ==> w[i, c] == UMapWith(mesh, oml, d).at[i][c]
  {
    w := new real[|oml|, |mesh|]((r, c) => 0.0);
    for i := 0 to |oml|
      invariant forall r, c :: 0 <= r < |oml| && 0 <= c < |mesh| ==>
                  w[r, c] == (if r < i then Entry(StencilOf(mesh, oml, d, r), c) else 0.0)
    {
      var s := StencilOf(mesh, oml, d, i);
      w[i, s.ia] := s.w.wa;
      w[i, s.ib] := s.w.wb;
    }
  }
}
