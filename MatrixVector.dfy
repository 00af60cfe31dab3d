/** The `Matrix` and `Vector` classes of project/matrix_vector.py over
    integer entries: shape validation, element-wise addition, transposition,
    multiplication and the dot product, each raising the source's error on
    a bad shape. Each operation fills a preallocated zero list entry by
    entry, as the source does. */
module MatrixVector {
  import opened Wrappers

  type Grid = seq<seq<int>>

  /** `Matrix.is_matrix`: a non-empty list whose first row is non-empty and
      whose rows all have the first row's length. */
  predicate IsMatrix(g: Grid): (b: bool)
    ensures b ==> |g| > 0 && |g[0]| > 0 && Shape(g, |g|, |g[0]|)
    ensures |g| == 0 ==> !b
  {
    |g| > 0 && |g[0]| > 0 && forall i :: 0 <= i < |g| ==> |g[i]| == |g[0]|
  }

  /** What a `Matrix` object holds. */
  type Matrix = m: Grid | IsMatrix(m) witness [[0]]

  /** What a `Vector` object holds. */
  type Vector = v: seq<int> | |v| > 0 witness [0]

  function Rows(m: Matrix): nat { |m| }
  function Cols(m: Matrix): nat { |m[0]| }

  /** `g` has `r` rows of `c` entries each. */
  predicate Shape(g: Grid, r: nat, c: nat)
  {
    |g| == r && forall i :: 0 <= i < r ==> |g[i]| == c
  }

  /** A validated list is rectangular and non-empty in both directions:
      any two rows have the same length, not only each row and the first. */
  lemma IsMatrixIsRectangular(g: Grid)
    ensures IsMatrix(g) <==>
      |g| > 0 && |g[0]| > 0 && forall i, j :: 0 <= i < j < |g| ==> |g[i]| == |g[j]|
  {
    if |g| > 0 && |g[0]| > 0 && forall i, j :: 0 <= i < j < |g| ==> |g[i]| == |g[j]| {
      forall i | 0 < i < |g|
        ensures |g[i]| == |g[0]|
      {
        assert |g[0]| == |g[i]|;
      }
    }
  }

  /** `Matrix.__init__`: TypeError unless the list is a valid matrix. */
  function NewMatrix(g: Grid): (r: Result<Matrix>)
    ensures r.Ok? <==> IsMatrix(g)
    ensures r.Ok? ==> r.value == g
    ensures r.Err? ==> r.error == TypeError
  {
    if IsMatrix(g) then Ok(g) else Err(TypeError)
  }

  /** `Vector.__init__`: TypeError on the empty list. */
  function NewVector(v: seq<int>): (r: Result<Vector>)
    ensures r.Ok? <==> |v| > 0
    ensures r.Ok? ==> r.value == v
    ensures r.Err? ==> r.error == TypeError
  {
    if |v| == 0 then Err(TypeError) else Ok(v)
  }

  // -----------------------------------------------------------------------
  // Reference definitions
  // -----------------------------------------------------------------------

  /** The preallocated `r` by `c` list of zeros. */
  function Zeros(r: nat, c: nat): (z: Grid)
    ensures Shape(z, r, c)
    ensures forall i, j :: 0 <= i < r && 0 <= j < c ==> z[i][j] == 0
  {
    seq(r, _ => seq(c, _ => 0))
  }

  /** Two grids of the same shape with the same entries are equal. */
  lemma GridsEqual(x: Grid, y: Grid, r: nat, c: nat)
    requires Shape(x, r, c) && Shape(y, r, c)
    requires forall i, j :: 0 <= i < r && 0 <= j < c ==> x[i][j] == y[i][j]
    ensures x == y
  {
    forall i | 0 <= i < r
      ensures x[i] == y[i]
    {
      assert forall j :: 0 <= j < c ==> x[i][j] == y[i][j];
    }
  }

  /** The sum of the first `k` products `u[i] * v[i]`, accumulated from the
      left. */
  function DotTo(u: seq<int>, v: seq<int>, k: nat): int
    requires k <= |u| && k <= |v|
  {
    if k == 0 then 0 else DotTo(u, v, k - 1) + u[k - 1] * v[k - 1]
  }

  /** The dot product Σ u[i]·v[i]: symmetric, and for a vector with itself
      non-negative and zero exactly for the zero vector. */
  function Dot(u: seq<int>, v: seq<int>): (d: int)
    requires |u| == |v|
    ensures d == DotTo(v, u, |u|)
    ensures u == v ==> d >= 0 && (d == 0 <==> forall i :: 0 <= i < |u| ==> u[i] == 0)
  {
    DotToCommutes(u, v, |u|);
    DotToSelf(u, |u|);
    DotTo(u, v, |u|)
  }

  /** Column `j` of `m`. */
  function Column(m: Matrix, j: nat): (col: seq<int>)
    requires j < Cols(m)
    ensures |col| == Rows(m) && forall k :: 0 <= k < Rows(m) ==> col[k] == m[k][j]
  {
    seq(Rows(m), k requires 0 <= k < Rows(m) => m[k][j])
  }

  /** The element-wise sum of two matrices of one shape. */
  function Plus(a: Matrix, b: Matrix): (s: Matrix)
    requires Rows(a) == Rows(b) && Cols(a) == Cols(b)
    ensures Shape(s, Rows(a), Cols(a))
    ensures forall i, j :: 0 <= i < Rows(a) && 0 <= j < Cols(a) ==> s[i][j] == a[i][j] + b[i][j]
  {
    seq(Rows(a), i requires 0 <= i < Rows(a) => seq(Cols(a), j requires 0 <= j < Cols(a) => a[i][j] + b[i][j]))
  }

  /** The transpose: rows become columns. */
  function Transposed(m: Matrix): (t: Matrix)
    ensures Shape(t, Cols(m), Rows(m))
    ensures forall j, i :: 0 <= j < Cols(m) && 0 <= i < Rows(m) ==> t[j][i] == m[i][j]
  {
    seq(Cols(m), j requires 0 <= j < Cols(m) => seq(Rows(m), i requires 0 <= i < Rows(m) => m[i][j]))
  }

  /** The matrix product: entry [i][j] is row `i` of `a` dotted with column
      `j` of `b`. */
  function Product(a: Matrix, b: Matrix): (p: Matrix)
    requires Cols(a) == Rows(b)
    ensures Shape(p, Rows(a), Cols(b))
    ensures forall i, j :: 0 <= i < Rows(a) && 0 <= j < Cols(b) ==> p[i][j] == Dot(a[i], Column(b, j))
  {
    seq(Rows(a), i requires 0 <= i < Rows(a) =>
      seq(Cols(b), j requires 0 <= j < Cols(b) => Dot(a[i], Column(b, j))))
  }

  /** The element-wise sum of two vectors of one length. */
  function VectorPlus(u: Vector, v: Vector): (s: Vector)
    requires |u| == |v|
    ensures |s| == |u| && forall i :: 0 <= i < |u| ==> s[i] == u[i] + v[i]
  {
    seq(|u|, i requires 0 <= i < |u| => u[i] + v[i])
  }

  // -----------------------------------------------------------------------
  // The operations
  // -----------------------------------------------------------------------

  /** `Matrix.__add__`: ValueError unless both matrices have the same
      number of rows and of columns; otherwise the element-wise sum. */
  method Add(a: Matrix, b: Matrix) returns (r: Result<Matrix>)
    ensures r.Err? <==> Rows(a) != Rows(b) || Cols(a) != Cols(b)
    ensures r.Err? ==> r.error == ValueError
    ensures r.Ok? ==> Rows(a) == Rows(b) && Cols(a) == Cols(b) && r.value == Plus(a, b)
  {
    var countRows := |a|;
    var countColumns := |a[0]|;
    var sum := Zeros(countRows, countColumns);
    if countRows != |b| || countColumns != |b[0]| {
      return Err(ValueError);
    }
    for rowNum := 0 to countRows
      invariant Shape(sum, countRows, countColumns)
      invariant forall i, j :: 0 <= i < rowNum && 0 <= j < countColumns ==> sum[i][j] == a[i][j] + b[i][j]
    {
      for columnNum := 0 to countColumns
        invariant Shape(sum, countRows, countColumns)
        invariant forall i, j :: 0 <= i < rowNum && 0 <= j < countColumns ==> sum[i][j] == a[i][j] + b[i][j]
        invariant forall j :: 0 <= j < columnNum ==> sum[rowNum][j] == a[rowNum][j] + b[rowNum][j]
      {
        sum := sum[rowNum := sum[rowNum][columnNum := a[rowNum][columnNum] + b[rowNum][columnNum]]];
      }
    }
    GridsEqual(sum, Plus(a, b), countRows, countColumns);
    return Ok(sum);
  }

  /** `Matrix.transpose`. */
  method Transpose(m: Matrix) returns (t: Matrix)
    ensures t == Transposed(m)
  {
    var countRows := |m|;
    var countColumns := |m[0]|;
    var transposed := Zeros(countColumns, countRows);
    for i := 0 to countRows
      invariant Shape(transposed, countColumns, countRows)
      invariant forall j, k :: 0 <= j < countColumns && 0 <= k < i ==> transposed[j][k] == m[k][j]
    {
      for j := 0 to countColumns
        invariant Shape(transposed, countColumns, countRows)
        invariant forall jj, k :: 0 <= jj < countColumns && 0 <= k < i ==> transposed[jj][k] == m[k][jj]
        invariant forall jj :: 0 <= jj < j ==> transposed[jj][i] == m[i][jj]
      {
        transposed := transposed[j := transposed[j][i := m[i][j]]];
      }
    }
    GridsEqual(transposed, Transposed(m), countColumns, countRows);
    return transposed;
  }

  /** `Matrix.__mul__`: ValueError unless the left matrix has as many
      columns as the right one has rows; otherwise each entry accumulates
      the products of a row of `a` and a column of `b`. */
  method Mul(a: Matrix, b: Matrix) returns (r: Result<Matrix>)
    ensures r.Err? <==> Cols(a) != Rows(b)
    ensures r.Err? ==> r.error == ValueError
    ensures r.Ok? ==> Cols(a) == Rows(b) && r.value == Product(a, b)
  {
    var countRowsLeft := |a|;
    var countRowsRight := |b|;
    var countColumnsLeft := |a[0]|;
    var countColumnsRight := |b[0]|;
    if countColumnsLeft != countRowsRight {
      return Err(ValueError);
    }
    var multi := Zeros(countRowsLeft, countColumnsRight);
    for m := 0 to countRowsLeft
      invariant Shape(multi, countRowsLeft, countColumnsRight)
      invariant forall i, j :: 0 <= i < m && 0 <= j < countColumnsRight ==> multi[i][j] == Dot(a[i], Column(b, j))
      invariant forall i, j :: m <= i < countRowsLeft && 0 <= j < countColumnsRight ==> multi[i][j] == 0
    {
      ghost var beforeRow := multi;
      for n := 0 to countColumnsRight
        invariant Shape(multi, countRowsLeft, countColumnsRight)
        invariant forall i :: 0 <= i < countRowsLeft && i != m ==> multi[i] == beforeRow[i]
        invariant forall j :: 0 <= j < n ==> multi[m][j] == Dot(a[m], Column(b, j))
        invariant forall j :: n <= j < countColumnsRight ==> multi[m][j] == 0
      {
        ghost var beforeEntry := multi;
        for o := 0 to countColumnsLeft
          invariant Shape(multi, countRowsLeft, countColumnsRight)
          invariant forall i :: 0 <= i < countRowsLeft && i != m ==> multi[i] == beforeEntry[i]
          invariant forall j :: 0 <= j < countColumnsRight && j != n ==> multi[m][j] == beforeEntry[m][j]
          invariant multi[m][n] == DotTo(a[m], Column(b, n), o)
        {
          multi := multi[m := multi[m][n := multi[m][n] + a[m][o] * b[o][n]]];
        }
      }
    }
    GridsEqual(multi, Product(a, b), countRowsLeft, countColumnsRight);
    return Ok(multi);
  }

  /** `Vector.__add__`: ValueError on a length mismatch, otherwise the
      element-wise sum. */
  method AddVectors(u: Vector, v: Vector) returns (r: Result<Vector>)
    ensures r.Err? <==> |u| != |v|
    ensures r.Err? ==> r.error == ValueError
    ensures r.Ok? ==> |u| == |v| && r.value == VectorPlus(u, v)
  {
    if |u| != |v| {
      return Err(ValueError);
    }
    var newVec := seq(|u|, _ => 0);
    for i := 0 to |u|
      invariant |newVec| == |u|
      invariant forall k :: 0 <= k < i ==> newVec[k] == u[k] + v[k]
    {
      newVec := newVec[i := u[i] + v[i]];
    }
    return Ok(newVec);
  }

  /** `Vector.dot_product`: ValueError on a length mismatch, otherwise the
      sum of the element-wise products. */
  method DotProduct(u: Vector, v: Vector) returns (r: Result<int>)
    ensures r.Err? <==> |u| != |v|
    ensures r.Err? ==> r.error == ValueError
    ensures r.Ok? ==> |u| == |v| && r.value == Dot(u, v)
  {
    if |u| != |v| {
      return Err(ValueError);
    }
    var result := 0;
    for i := 0 to |u|
      invariant result == DotTo(u, v, i)
    {
      result := result + u[i] * v[i];
    }
    return Ok(result);
  }

  // -----------------------------------------------------------------------
  // Algebraic properties of the reference definitions
  // -----------------------------------------------------------------------

  /** Matrix addition commutes. */
  lemma PlusCommutes(a: Matrix, b: Matrix)
    requires Rows(a) == Rows(b) && Cols(a) == Cols(b)
    ensures Plus(a, b) == Plus(b, a)
  {
    GridsEqual(Plus(a, b), Plus(b, a), Rows(a), Cols(a));
  }

  /** Transposing twice gives the matrix back. */
  lemma TransposeInvolution(m: Matrix)
    ensures Transposed(Transposed(m)) == m
  {
    GridsEqual(Transposed(Transposed(m)), m, Rows(m), Cols(m));
  }

  /** The transpose of a sum is the sum of the transposes. */
  lemma TransposeOfSum(a: Matrix, b: Matrix)
    requires Rows(a) == Rows(b) && Cols(a) == Cols(b)
    ensures Transposed(Plus(a, b)) == Plus(Transposed(a), Transposed(b))
  {
    GridsEqual(Transposed(Plus(a, b)), Plus(Transposed(a), Transposed(b)), Cols(a), Rows(a));
  }

  /** The dot product is symmetric. */
  lemma {:induction false} DotToCommutes(u: seq<int>, v: seq<int>, k: nat)
    requires k <= |u| && k <= |v|
    ensures DotTo(u, v, k) == DotTo(v, u, k)
  {
    if k > 0 {
      DotToCommutes(u, v, k - 1);
    }
  }

  /** A vector dotted with itself is a sum of squares: never negative, and
      zero only for the zero vector. */
  lemma {:induction false} DotToSelf(v: seq<int>, k: nat)
    requires k <= |v|
    ensures DotTo(v, v, k) >= 0
    ensures DotTo(v, v, k) == 0 <==> forall i :: 0 <= i < k ==> v[i] == 0
  {
    if k > 0 {
      DotToSelf(v, k - 1);
      assert v[k - 1] * v[k - 1] >= 0;
      if v[k - 1] != 0 {
        assert v[k - 1] * v[k - 1] > 0;
      }
    }
  }

  /** The dot product distributes over vector addition. */
  lemma {:induction false} DotToOfSum(u: seq<int>, v: seq<int>, w: seq<int>, s: seq<int>, k: nat)
    requires k <= |u| && k <= |v| && k <= |w| && k <= |s|
    requires forall i :: 0 <= i < k ==> s[i] == u[i] + v[i]
    ensures DotTo(s, w, k) == DotTo(u, w, k) + DotTo(v, w, k)
  {
    if k > 0 {
      DotToOfSum(u, v, w, s, k - 1);
      assert s[k - 1] * w[k - 1] == u[k - 1] * w[k - 1] + v[k - 1] * w[k - 1];
    }
  }

  lemma DotOfSum(u: Vector, v: Vector, w: Vector)
    requires |u| == |v| == |w|
    ensures Dot(VectorPlus(u, v), w) == Dot(u, w) + Dot(v, w)
  {
    DotToOfSum(u, v, w, VectorPlus(u, v), |u|);
  }

  /** The transpose of a product is the product of the transposes in the
      other order. */
  lemma ProductTransposes(a: Matrix, b: Matrix)
    requires Cols(a) == Rows(b)
    ensures Transposed(Product(a, b)) == Product(Transposed(b), Transposed(a))
  {
    var lhs := Transposed(Product(a, b));
    var rhs := Product(Transposed(b), Transposed(a));
    forall j, i | 0 <= j < Cols(b) && 0 <= i < Rows(a)
      ensures lhs[j][i] == rhs[j][i]
    {
      assert Transposed(b)[j] == Column(b, j);
      assert Column(Transposed(a), i) == a[i];
      DotToCommutes(a[i], Column(b, j), Cols(a));
    }
    GridsEqual(lhs, rhs, Cols(b), Rows(a));
  }
}
