/**
 Dense real matrices as numpy holds them (a row count, a column count and the rows),
 with the handful of operations the weight builders and `csdl.matmat` need:
 zeros, single-entry assignment, transpose and the matrix product.
 */
module Matrices {

  datatype Matrix = Matrix(rows: nat, cols: nat, at: seq<seq<real>>) {
    /** Rectangular: `rows` rows of `cols` entries each. */
    predicate Valid() {
      |at| == rows && forall r :: 0 <= r < rows ==> |at[r]| == cols
    }
  }

  /** `np.zeros((rows, cols))`. */
  function Zeros(rows: nat, cols: nat): (z: Matrix)
    ensures z.Valid() && z.rows == rows && z.cols == cols
    ensures forall r, c :: 0 <= r < rows && 0 <= c < cols ==> z.at[r][c] == 0.0
  {
    Matrix(rows, cols, seq(rows, _ => seq(cols, _ => 0.0)))
  }

  /** `M[r, c] = v`: one entry replaced, every other entry as it was. */
  function Set(m: Matrix, r: nat, c: nat, v: real): (m': Matrix)
    requires m.Valid() && r < m.rows && c < m.cols
    ensures m'.Valid() && m'.rows == m.rows && m'.cols == m.cols
    ensures m'.at[r][c] == v
    ensures forall r', c' :: 0 <= r' < m.rows && 0 <= c' < m.cols && (r', c') != (r, c) ==>
              m'.at[r'][c'] == m.at[r'][c']
  {
    Matrix(m.rows, m.cols, m.at[r := m.at[r][c := v]])
  }

  /** The transpose: entry (r, c) moves to (c, r). */
  function Transpose(m: Matrix): (t: Matrix)
    requires m.Valid()
    ensures t.Valid() && t.rows == m.cols && t.cols == m.rows
    ensures forall r, c :: 0 <= r < m.rows && 0 <= c < m.cols ==> t.at[c][r] == m.at[r][c]
  {
    Matrix(m.cols, m.rows,
           seq(m.cols, c requires 0 <= c < m.cols =>
             seq(m.rows, r requires 0 <= r < m.rows => m.at[r][c])))
  }

  /** Two valid matrices of the same shape that agree entry by entry are equal. */
  lemma Extensionality(m: Matrix, n: Matrix)
    requires m.Valid() && n.Valid() && m.rows == n.rows && m.cols == n.cols
    requires forall r, c :: 0 <= r < m.rows && 0 <= c < m.cols ==> m.at[r][c] == n.at[r][c]
    ensures m == n
  {
    forall r | 0 <= r < m.rows
      ensures m.at[r] == n.at[r]
    {
    }
  }

  /** Σ_{q < k} row[q] * b[q][j]: the first k terms of one entry of a product. */
  function RowTimesColumn(row: seq<real>, b: Matrix, j: nat, k: nat): real
    requires b.Valid() && k <= |row| && k <= b.rows && j < b.cols
    decreases k
  {
    if k == 0 then 0.0
    else RowTimesColumn(row, b, j, k - 1) + row[k - 1] * b.at[k - 1][j]
  }

  /** The matrix product a·b (`csdl.matmat`), for conforming shapes. */
  function MatMul(a: Matrix, b: Matrix): (c: Matrix)
    requires a.Valid() && b.Valid() && a.cols == b.rows
    ensures c.Valid() && c.rows == a.rows && c.cols == b.cols
    ensures forall i, j :: 0 <= i < a.rows && 0 <= j < b.cols ==>
              c.at[i][j] == RowTimesColumn(a.at[i], b, j, a.cols)
  {
    Matrix(a.rows, b.cols,
           seq(a.rows, i requires 0 <= i < a.rows =>
             seq(b.cols, j requires 0 <= j < b.cols => RowTimesColumn(a.at[i], b, j, a.cols))))
  }

  /**
   A row that is zero everywhere except at two distinct positions ia and ib picks
   out exactly those two rows of b: row·b[:, j] == row[ia]*b[ia][j] + row[ib]*b[ib][j].
   */
  lemma {:induction false} TwoTermRow(row: seq<real>, b: Matrix, j: nat, ia: nat, ib: nat)
    requires b.Valid() && |row| == b.rows && j < b.cols
    requires ia < |row| && ib < |row| && ia != ib
    requires forall q :: 0 <= q < |row| && q != ia && q != ib ==> row[q] == 0.0
    ensures RowTimesColumn(row, b, j, |row|) == row[ia] * b.at[ia][j] + row[ib] * b.at[ib][j]
  {
    TwoTermPrefix(row, b, j, ia, ib, |row|);
  }

  /** The same fact for row i of a product a·b. */
  lemma TwoTermProduct(a: Matrix, b: Matrix, i: nat, j: nat, ia: nat, ib: nat)
    requires a.Valid() && b.Valid() && a.cols == b.rows && i < a.rows && j < b.cols
    requires ia < a.cols && ib < a.cols && ia != ib
    requires forall q :: 0 <= q < a.cols && q != ia && q != ib ==> a.at[i][q] == 0.0
    ensures MatMul(a, b).at[i][j] == a.at[i][ia] * b.at[ia][j] + a.at[i][ib] * b.at[ib][j]
  {
    TwoTermRow(a.at[i], b, j, ia, ib);
  }

  lemma {:induction false} TwoTermPrefix(row: seq<real>, b: Matrix, j: nat, ia: nat, ib: nat, k: nat)
    requires b.Valid() && |row| == b.rows && j < b.cols && k <= |row|
    requires ia < |row| && ib < |row| && ia != ib
    requires forall q :: 0 <= q < |row| && q != ia && q != ib ==> row[q] == 0.0
    ensures RowTimesColumn(row, b, j, k) ==
              (if ia < k then row[ia] * b.at[ia][j] else 0.0) +
              (if ib < k then row[ib] * b.at[ib][j] else 0.0)
    decreases k
  {
    if k > 0 {
      TwoTermPrefix(row, b, j, ia, ib, k - 1);
    }
  }

  /** Σ_{r < k} m[r][j]: the first k entries of column j added up. */
  function ColumnSum(m: Matrix, j: nat, k: nat): real
    requires m.Valid() && k <= m.rows && j < m.cols
    decreases k
  {
    if k == 0 then 0.0 else ColumnSum(m, j, k - 1) + m.at[k - 1][j]
  }

  /** A column that is zero except at two distinct rows sums to those two entries. */
  lemma {:induction false} TwoTermColumn(m: Matrix, j: nat, ia: nat, ib: nat, k: nat)
    requires m.Valid() && j < m.cols && k <= m.rows
    requires ia < m.rows && ib < m.rows && ia != ib
    requires forall r :: 0 <= r < m.rows && r != ia && r != ib ==> m.at[r][j] == 0.0
    ensures ColumnSum(m, j, k) ==
              (if ia < k then m.at[ia][j] else 0.0) + (if ib < k then m.at[ib][j] else 0.0)
    decreases k
  {
    if k > 0 {
      TwoTermColumn(m, j, ia, ib, k - 1);
    }
  }

  /** Σ_{c < n} (Σ_{r < k} a[r][c]) * b[c][j]: column sums of a, weighted by column j of b. */
  function WeightedColumnSums(a: Matrix, b: Matrix, j: nat, k: nat, n: nat): real
    requires a.Valid() && b.Valid() && a.cols == b.rows
    requires k <= a.rows && n <= a.cols && j < b.cols
    decreases n
  {
    if n == 0 then 0.0
    else WeightedColumnSums(a, b, j, k, n - 1) + ColumnSum(a, n - 1, k) * b.at[n - 1][j]
  }

  lemma {:induction false} WeightedColumnSumsStep(a: Matrix, b: Matrix, j: nat, k: nat, n: nat)
    requires a.Valid() && b.Valid() && a.cols == b.rows
    requires k < a.rows && n <= a.cols && j < b.cols
    ensures WeightedColumnSums(a, b, j, k + 1, n) ==
              WeightedColumnSums(a, b, j, k, n) + RowTimesColumn(a.at[k], b, j, n)
    decreases n
  {
    if n > 0 {
      WeightedColumnSumsStep(a, b, j, k, n - 1);
      var x, y, z := ColumnSum(a, n - 1, k), a.at[k][n - 1], b.at[n - 1][j];
      assert (x + y) * z == x * z + y * z;
    }
  }

  /**
   Adding up a column of a product row by row is the same as weighting b's column
   by a's column sums: Σ_r (a·b)[r][j] == Σ_c (Σ_r a[r][c]) * b[c][j].
   */
  lemma {:induction false} ProductColumnSum(a: Matrix, b: Matrix, j: nat, k: nat)
    requires a.Valid() && b.Valid() && a.cols == b.rows
    requires k <= a.rows && j < b.cols
    ensures ColumnSum(MatMul(a, b), j, k) == WeightedColumnSums(a, b, j, k, a.cols)
    decreases k
  {
    if k > 0 {
      ProductColumnSum(a, b, j, k - 1);
      WeightedColumnSumsStep(a, b, j, k - 1, a.cols);
      assert MatMul(a, b).at[k - 1][j] == RowTimesColumn(a.at[k - 1], b, j, a.cols);
    } else {
      NoRowsNoSum(a, b, j, a.cols);
    }
  }

  lemma {:induction false} NoRowsNoSum(a: Matrix, b: Matrix, j: nat, n: nat)
    requires a.Valid() && b.Valid() && a.cols == b.rows
    requires n <= a.cols && j < b.cols
    ensures WeightedColumnSums(a, b, j, 0, n) == 0.0
    decreases n
  {
    if n > 0 {
      NoRowsNoSum(a, b, j, n - 1);
    }
  }

  /** When every column of a sums to 1, weighting by those sums is plain summation. */
  lemma {:induction false} UnitColumnSums(a: Matrix, b: Matrix, j: nat, n: nat)
    requires a.Valid() && b.Valid() && a.cols == b.rows
    requires n <= a.cols && j < b.cols
    requires forall c :: 0 <= c < a.cols ==> ColumnSum(a, c, a.rows) == 1.0
    ensures WeightedColumnSums(a, b, j, a.rows, n) == ColumnSum(b, j, n)
    decreases n
  {
    if n > 0 {
      UnitColumnSums(a, b, j, n - 1);
    }
  }
}
