/**
 Applying a weight matrix to a nodal field: `csdl.matmat(map, field)` on line 117
 (the `umap` matrix times the n×3 beam displacements) and on line 34 (the `fmap`
 matrix times the nodal field on the target nodes). A field is a matrix with one
 row per node and one column per component.
 */
module Transfer {
  import opened Geometry
  import opened Selection
  import opened Weights
  import opened Matrices
  import opened Mapping

  /** `matmat` refuses operands whose inner dimensions disagree. */
  datatype TransferError = ShapeMismatch(weightCols: nat, fieldRows: nat)

  datatype Result<T> = Ok(value: T) | Err(error: TransferError)

  /** `matmat(weights, field)`: the product, or a shape error. */
  function Apply(weights: Matrix, field: Matrix): (r: Result<Matrix>)
    requires weights.Valid() && field.Valid()
    ensures r.Err? <==> weights.cols != field.rows
    ensures r.Err? ==> r.error == ShapeMismatch(weights.cols, field.rows)
    ensures r.Ok? ==> r.value.Valid() && r.value.rows == weights.rows && r.value.cols == field.cols
  {
    if weights.cols != field.rows then Err(ShapeMismatch(weights.cols, field.rows))
    else Ok(MatMul(weights, field))
  }

  /**
   Line 117: every target node receives exactly w_a*field[ia] + w_b*field[ib],
   component by component, from its two nearest mesh nodes.
   */
  lemma UMapTransfer(mesh: seq<Point>, oml: seq<Point>, d: seq<IndexPair>, field: Matrix)
    requires Admissible(mesh, oml, d)
    requires field.Valid() && field.rows == |mesh|
    ensures Apply(UMapWith(mesh, oml, d), field).Ok?
    ensures var out := Apply(UMapWith(mesh, oml, d), field).value;
            forall i, j :: 0 <= i < |oml| && 0 <= j < field.cols ==>
              var w := SegmentWeights(mesh[d[i].ia], mesh[d[i].ib], oml[i]);
              out.at[i][j] == w.wa * field.at[d[i].ia][j] + w.wb * field.at[d[i].ib][j]
  {
    forall i, j | 0 <= i < |oml| && 0 <= j < field.cols
      ensures var w := SegmentWeights(mesh[d[i].ia], mesh[d[i].ib], oml[i]);
              MatMul(UMapWith(mesh, oml, d), field).at[i][j] ==
                w.wa * field.at[d[i].ia][j] + w.wb * field.at[d[i].ib][j]
    {
      UMapTransferEntry(mesh, oml, d, field, i, j);
    }
  }

  lemma UMapTransferEntry(mesh: seq<Point>, oml: seq<Point>, d: seq<IndexPair>, field: Matrix, i: nat, j: nat)
    requires Admissible(mesh, oml, d)
    requires field.Valid() && field.rows == |mesh|
    requires i < |oml| && j < field.cols
    ensures var w := SegmentWeights(mesh[d[i].ia], mesh[d[i].ib], oml[i]);
            MatMul(UMapWith(mesh, oml, d), field).at[i][j] ==
              w.wa * field.at[d[i].ia][j] + w.wb * field.at[d[i].ib][j]
  {
    var u := UMapWith(mesh, oml, d);
    TwoTermProduct(u, field, i, j, d[i].ia, d[i].ib);
  }

  /** Every row of `field` equals v. */
  predicate ConstantField(field: Matrix, v: seq<real>)
    requires field.Valid()
  {
    |v| == field.cols && forall k :: 0 <= k < field.rows ==> field.at[k] == v
  }

  /**
   A constant field is carried over exactly to every target whose projection does
   not pass b. For an arbitrary index array that is a real proviso (past b the
   weights of lines 95-98 do not sum to 1); for the nearest pairs the builders
   choose it always holds, as `ChoiceReproducesConstant` shows.
   */
  lemma ConstantFieldReproduced(mesh: seq<Point>, oml: seq<Point>, d: seq<IndexPair>,
                                field: Matrix, v: seq<real>, i: nat)
    requires Admissible(mesh, oml, d) && i < |oml|
    requires field.Valid() && field.rows == |mesh| && ConstantField(field, v)
    requires Projection(mesh[d[i].ia], mesh[d[i].ib], oml[i]) <= 1.0
    ensures Apply(UMapWith(mesh, oml, d), field).Ok?
    ensures Apply(UMapWith(mesh, oml, d), field).value.at[i] == v
  {
    UMapTransfer(mesh, oml, d, field);
    var out := Apply(UMapWith(mesh, oml, d), field).value;
    var w := SegmentWeights(mesh[d[i].ia], mesh[d[i].ib], oml[i]);
    PartitionOfUnity(mesh[d[i].ia], mesh[d[i].ib], oml[i]);
    forall j | 0 <= j < |v|
      ensures out.at[i][j] == v[j]
    {
      assert out.at[i][j] == w.wa * v[j] + w.wb * v[j];
      assert w.wa * v[j] + w.wb * v[j] == (w.wa + w.wb) * v[j];
    }
  }

  /**
   For an arbitrary index array, column i of the `fmap` matrix adds up to 1 exactly
   when target i projects no further than b.
   */
  lemma FMapColumnSum(mesh: seq<Point>, oml: seq<Point>, d: seq<IndexPair>, i: nat)
    requires Admissible(mesh, oml, d) && i < |oml|
    ensures (ColumnSum(FMapWith(mesh, oml, d), i, |mesh|) == 1.0)
              <==> Projection(mesh[d[i].ia], mesh[d[i].ib], oml[i]) <= 1.0
  {
    var f := FMapWith(mesh, oml, d);
    TwoTermColumn(f, i, d[i].ia, d[i].ib, |mesh|);
    PartitionOfUnity(mesh[d[i].ia], mesh[d[i].ib], oml[i]);
  }

  /**
   Line 34: applying the `fmap` matrix to a field on the target nodes conserves the
   field's total, component by component (the total load is neither created nor
   lost), for any index array under which no target projects past b. The nearest
   pairs always meet that condition (`ChoiceConservesTotal`).
   */
  lemma FMapConservesTotal(mesh: seq<Point>, oml: seq<Point>, d: seq<IndexPair>, field: Matrix)
    requires Admissible(mesh, oml, d)
    requires field.Valid() && field.rows == |oml|
    requires forall i :: 0 <= i < |oml| ==> Projection(mesh[d[i].ia], mesh[d[i].ib], oml[i]) <= 1.0
    ensures Apply(FMapWith(mesh, oml, d), field).Ok?
    ensures forall j :: 0 <= j < field.cols ==>
              ColumnSum(Apply(FMapWith(mesh, oml, d), field).value, j, |mesh|) ==
              ColumnSum(field, j, |oml|)
  {
    var f := FMapWith(mesh, oml, d);
    forall i | 0 <= i < |oml|
      ensures ColumnSum(f, i, f.rows) == 1.0
    {
      FMapColumnSum(mesh, oml, d, i);
    }
    forall j | 0 <= j < field.cols
      ensures ColumnSum(MatMul(f, field), j, |mesh|) == ColumnSum(field, j, |oml|)
    {
      ProductColumnSum(f, field, j, |mesh|);
      UnitColumnSums(f, field, j, |oml|);
    }
  }

  /** For any nearest choice, every column of the `fmap` matrix sums to exactly 1. */
  lemma ChoiceColumnsSumToOne(mesh: seq<Point>, oml: seq<Point>, d: seq<IndexPair>, i: nat)
    requires WellPosed(mesh, oml) && NearestChoice(mesh, oml, d) && i < |oml|
    ensures Admissible(mesh, oml, d)
    ensures ColumnSum(FMapWith(mesh, oml, d), i, |mesh|) == 1.0
  {
    NearestNeverPastMidpoint(mesh, oml, d, i);
    FMapColumnSum(mesh, oml, d, i);
  }

  /** Every column of `fmap(mesh, oml)` sums to exactly 1. */
  lemma FMapColumnsSumToOne(mesh: seq<Point>, oml: seq<Point>, i: nat)
    requires WellPosed(mesh, oml) && i < |oml|
    ensures ColumnSum(FMap(mesh, oml), i, |mesh|) == 1.0
  {
    ChoiceColumnsSumToOne(mesh, oml, NearestPairs(mesh, oml), i);
  }

  /** For any nearest choice, the `umap` matrix carries a constant field to every target unchanged. */
  lemma ChoiceReproducesConstant(mesh: seq<Point>, oml: seq<Point>, d: seq<IndexPair>,
                                 field: Matrix, v: seq<real>)
    requires WellPosed(mesh, oml) && NearestChoice(mesh, oml, d)
    requires field.Valid() && field.rows == |mesh| && ConstantField(field, v)
    ensures Admissible(mesh, oml, d)
    ensures Apply(UMapWith(mesh, oml, d), field).Ok?
    ensures forall i :: 0 <= i < |oml| ==> Apply(UMapWith(mesh, oml, d), field).value.at[i] == v
  {
    ChoiceAdmissible(mesh, oml, d);
    forall i | 0 <= i < |oml|
      ensures Apply(UMapWith(mesh, oml, d), field).value.at[i] == v
    {
      NearestNeverPastMidpoint(mesh, oml, d, i);
      ConstantFieldReproduced(mesh, oml, d, field, v, i);
    }
  }

  /** Line 117: `umap(mesh, oml)` carries a constant field to every target unchanged. */
  lemma UMapReproducesConstant(mesh: seq<Point>, oml: seq<Point>, field: Matrix, v: seq<real>)
    requires WellPosed(mesh, oml)
    requires field.Valid() && field.rows == |mesh| && ConstantField(field, v)
    ensures Apply(UMap(mesh, oml), field).Ok?
    ensures forall i :: 0 <= i < |oml| ==> Apply(UMap(mesh, oml), field).value.at[i] == v
  {
    ChoiceReproducesConstant(mesh, oml, NearestPairs(mesh, oml), field, v);
  }

  /** For any nearest choice, applying the `fmap` matrix conserves every component's total. */
  lemma ChoiceConservesTotal(mesh: seq<Point>, oml: seq<Point>, d: seq<IndexPair>, field: Matrix)
    requires WellPosed(mesh, oml) && NearestChoice(mesh, oml, d)
    requires field.Valid() && field.rows == |oml|
    ensures Admissible(mesh, oml, d)
    ensures Apply(FMapWith(mesh, oml, d), field).Ok?
    ensures forall j :: 0 <= j < field.cols ==>
              ColumnSum(Apply(FMapWith(mesh, oml, d), field).value, j, |mesh|) ==
              ColumnSum(field, j, |oml|)
  {
    ChoiceAdmissible(mesh, oml, d);
    forall i | 0 <= i < |oml|
      ensures Projection(mesh[d[i].ia], mesh[d[i].ib], oml[i]) <= 1.0
    {
      NearestNeverPastMidpoint(mesh, oml, d, i);
    }
    FMapConservesTotal(mesh, oml, d, field);
  }

  /** Line 34: applying `fmap(mesh, oml)` conserves every component's total. */
  lemma FMapTotalConserved(mesh: seq<Point>, oml: seq<Point>, field: Matrix)
    requires WellPosed(mesh, oml)
    requires field.Valid() && field.rows == |oml|
    ensures Apply(FMap(mesh, oml), field).Ok?
    ensures forall j :: 0 <= j < field.cols ==>
              ColumnSum(Apply(FMap(mesh, oml), field).value, j, |mesh|) == ColumnSum(field, j, |oml|)
  {
    ChoiceConservesTotal(mesh, oml, NearestPairs(mesh, oml), field);
  }
}
