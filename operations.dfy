/** The value-returning member functions of Matrix, computed as the library
    computes them: a zero result of the right shape filled cell by cell in
    nested loops. Each is proved to compute its specification function. */
module Operations {
  import opened Outcomes
  import opened Dense
  import opened Arithmetic
  import opened Determinants
  import opened Inversion

  /** operator+ */
  method Add(a: Mat, b: Mat) returns (r: Result<Mat>)
    requires a.Valid() && b.Valid()
    ensures r == Sum(a, b)
  {
    if a.rows != b.rows || a.cols != b.cols {
      return Err(DimensionMismatch);
    }
    var result := Zero(a.rows, a.cols);
    var i := 0;
    while i < a.rows
      invariant 0 <= i <= a.rows
      invariant result.Valid() && result.rows == a.rows && result.cols == a.cols
      invariant forall p, q :: 0 <= p < i && 0 <= q < a.cols ==>
                  result.data[p][q] == a.data[p][q] + b.data[p][q]
    {
      var j := 0;
      while j < a.cols
        invariant 0 <= j <= a.cols
        invariant result.Valid() && result.rows == a.rows && result.cols == a.cols
        invariant forall p, q :: 0 <= p < i && 0 <= q < a.cols ==>
                    result.data[p][q] == a.data[p][q] + b.data[p][q]
        invariant forall q :: 0 <= q < j ==> result.data[i][q] == a.data[i][q] + b.data[i][q]
      {
        result := result.Set(i, j, a.data[i][j] + b.data[i][j]);
        j := j + 1;
      }
      i := i + 1;
    }
    EqualByCells(result, Sum(a, b).value);
    return Ok(result);
  }

  /** operator- */
  method Subtract(a: Mat, b: Mat) returns (r: Result<Mat>)
    requires a.Valid() && b.Valid()
    ensures r == Difference(a, b)
  {
    if a.rows != b.rows || a.cols != b.cols {
      return Err(DimensionMismatch);
    }
    var result := Zero(a.rows, a.cols);
    var i := 0;
    while i < a.rows
      invariant 0 <= i <= a.rows
      invariant result.Valid() && result.rows == a.rows && result.cols == a.cols
      invariant forall p, q :: 0 <= p < i && 0 <= q < a.cols ==>
                  result.data[p][q] == a.data[p][q] - b.data[p][q]
    {
      var j := 0;
      while j < a.cols
        invariant 0 <= j <= a.cols
        invariant result.Valid() && result.rows == a.rows && result.cols == a.cols
        invariant forall p, q :: 0 <= p < i && 0 <= q < a.cols ==>
                    result.data[p][q] == a.data[p][q] - b.data[p][q]
        invariant forall q :: 0 <= q < j ==> result.data[i][q] == a.data[i][q] - b.data[i][q]
      {
        result := result.Set(i, j, a.data[i][j] - b.data[i][j]);
        j := j + 1;
      }
      i := i + 1;
    }
    EqualByCells(result, Difference(a, b).value);
    return Ok(result);
  }

  /** operator* by a matrix: result(i, j) += data[i][k] * other(k, j) over k. */
  method Multiply(a: Mat, b: Mat) returns (r: Result<Mat>)
    requires a.Valid() && b.Valid()
    ensures r == Product(a, b)
  {
    if a.cols != b.rows {
      return Err(DimensionMismatch);
    }
    var result := Zero(a.rows, b.cols);
    var i := 0;
    while i < a.rows
      invariant 0 <= i <= a.rows
      invariant result.Valid() && result.rows == a.rows && result.cols == b.cols
      invariant forall p, q :: 0 <= p < i && 0 <= q < b.cols ==>
                  result.data[p][q] == Dot(a, b, p, q, a.cols)
      invariant forall p, q :: i <= p < a.rows && 0 <= q < b.cols ==> result.data[p][q] == 0.0
    {
      var j := 0;
      while j < b.cols
        invariant 0 <= j <= b.cols
        invariant result.Valid() && result.rows == a.rows && result.cols == b.cols
        invariant forall p, q :: 0 <= p < i && 0 <= q < b.cols ==>
                    result.data[p][q] == Dot(a, b, p, q, a.cols)
        invariant forall q :: 0 <= q < j ==> result.data[i][q] == Dot(a, b, i, q, a.cols)
        invariant forall q :: j <= q < b.cols ==> result.data[i][q] == 0.0
        invariant forall p, q :: i < p < a.rows && 0 <= q < b.cols ==> result.data[p][q] == 0.0
      {
        var k := 0;
        while k < a.cols
          invariant 0 <= k <= a.cols
          invariant result.Valid() && result.rows == a.rows && result.cols == b.cols
          invariant forall p, q :: 0 <= p < i && 0 <= q < b.cols ==>
                      result.data[p][q] == Dot(a, b, p, q, a.cols)
          invariant forall q :: 0 <= q < j ==> result.data[i][q] == Dot(a, b, i, q, a.cols)
          invariant result.data[i][j] == Dot(a, b, i, j, k)
          invariant forall q :: j < q < b.cols ==> result.data[i][q] == 0.0
          invariant forall p, q :: i < p < a.rows && 0 <= q < b.cols ==> result.data[p][q] == 0.0
        {
          result := result.Set(i, j, result.data[i][j] + a.data[i][k] * b.data[k][j]);
          k := k + 1;
        }
        j := j + 1;
      }
      i := i + 1;
    }
    EqualByCells(result, Product(a, b).value);
    return Ok(result);
  }

  /** operator* by a scalar. */
  method MultiplyByScalar(a: Mat, s: real) returns (r: Mat)
    requires a.Valid()
    ensures r == Scaled(a, s)
  {
    r := Zero(a.rows, a.cols);
    var i := 0;
    while i < a.rows
      invariant 0 <= i <= a.rows
      invariant r.Valid() && r.rows == a.rows && r.cols == a.cols
      invariant forall p, q :: 0 <= p < i && 0 <= q < a.cols ==> r.data[p][q] == a.data[p][q] * s
    {
      var j := 0;
      while j < a.cols
        invariant 0 <= j <= a.cols
        invariant r.Valid() && r.rows == a.rows && r.cols == a.cols
        invariant forall p, q :: 0 <= p < i && 0 <= q < a.cols ==> r.data[p][q] == a.data[p][q] * s
        invariant forall q :: 0 <= q < j ==> r.data[i][q] == a.data[i][q] * s
      {
        r := r.Set(i, j, a.data[i][j] * s);
        j := j + 1;
      }
      i := i + 1;
    }
    EqualByCells(r, Scaled(a, s));
  }

  /** The friend scalar * matrix: the same product, operands swapped. */
  method ScalarTimes(s: real, a: Mat) returns (r: Mat)
    requires a.Valid()
    ensures r == Scaled(a, s)
  {
    r := MultiplyByScalar(a, s);
  }

  /** transpose(): result(j, i) = data[i][j]. */
  method Transpose(a: Mat) returns (r: Mat)
    requires a.Valid()
    ensures r == Transposed(a)
  {
    r := Zero(a.cols, a.rows);
    var i := 0;
    while i < a.rows
      invariant 0 <= i <= a.rows
      invariant r.Valid() && r.rows == a.cols && r.cols == a.rows
      invariant forall p, q :: 0 <= p < i && 0 <= q < a.cols ==> r.data[q][p] == a.data[p][q]
    {
      var j := 0;
      while j < a.cols
        invariant 0 <= j <= a.cols
        invariant r.Valid() && r.rows == a.cols && r.cols == a.rows
        invariant forall p, q :: 0 <= p < i && 0 <= q < a.cols ==> r.data[q][p] == a.data[p][q]
        invariant forall q :: 0 <= q < j ==> r.data[q][i] == a.data[i][q]
      {
        r := r.Set(j, i, a.data[i][j]);
        j := j + 1;
      }
      i := i + 1;
    }
    EqualByCells(r, Transposed(a));
  }

  /** The (n-1) x (n-1) submatrix with row `row` and column `col` left out,
      copied with separate source and target indices as the library does. */
  method ExtractMinor(m: Mat, row: nat, col: nat) returns (sub: Mat)
    requires m.Valid() && m.rows == m.cols && row < m.rows && col < m.cols
    ensures sub.Valid() && sub.rows == m.rows - 1 && sub.cols == m.rows - 1
    ensures sub.data == Minor(m.data, row, col)
  {
    var n := m.rows;
    sub := Zero(n - 1, n - 1);
    var subI, matI := 0, 0;
    while matI < n
      invariant 0 <= matI <= n
      invariant subI == if matI <= row then matI else matI - 1
      invariant sub.Valid() && sub.rows == n - 1 && sub.cols == n - 1
      invariant forall p, q :: 0 <= p < subI && 0 <= q < n - 1 ==>
                  sub.data[p][q] == m.data[Skip(p, row)][Skip(q, col)]
    {
      if matI != row {
        var subJ, matJ := 0, 0;
        while matJ < n
          invariant 0 <= matJ <= n
          invariant subJ == if matJ <= col then matJ else matJ - 1
          invariant sub.Valid() && sub.rows == n - 1 && sub.cols == n - 1
          invariant forall p, q :: 0 <= p < subI && 0 <= q < n - 1 ==>
                      sub.data[p][q] == m.data[Skip(p, row)][Skip(q, col)]
          invariant forall q :: 0 <= q < subJ ==> sub.data[subI][q] == m.data[matI][Skip(q, col)]
        {
          if matJ != col {
            sub := sub.Set(subI, subJ, m.data[matI][matJ]);
            subJ := subJ + 1;
          }
          matJ := matJ + 1;
        }
        subI := subI + 1;
      }
      matI := matI + 1;
    }
    EqualByCells(sub, Mat(n - 1, n - 1, Minor(m.data, row, col)));
  }

  /** The minor of row 0 and column p that determinant() builds: rows 1 ..
      n-1 copied one place up, skipping column p with a running target
      column index. */
  method FirstRowMinor(m: Mat, p: nat) returns (sub: Mat)
    requires m.Valid() && m.rows == m.cols && p < m.cols
    ensures sub.Valid() && sub.rows == m.rows - 1 && sub.cols == m.rows - 1
    ensures sub.data == Minor(m.data, 0, p)
  {
    var n := m.rows;
    sub := Zero(n - 1, n - 1);
    var i := 1;
    while i < n
      invariant 1 <= i <= n
      invariant sub.Valid() && sub.rows == n - 1 && sub.cols == n - 1
      invariant forall r, q :: 0 <= r < i - 1 && 0 <= q < n - 1 ==>
                  sub.data[r][q] == m.data[r + 1][Skip(q, p)]
    {
      var colIndex := 0;
      var j := 0;
      while j < n
        invariant 0 <= j <= n
        invariant colIndex == if j <= p then j else j - 1
        invariant sub.Valid() && sub.rows == n - 1 && sub.cols == n - 1
        invariant forall r, q :: 0 <= r < i - 1 && 0 <= q < n - 1 ==>
                    sub.data[r][q] == m.data[r + 1][Skip(q, p)]
        invariant forall q :: 0 <= q < colIndex ==> sub.data[i - 1][q] == m.data[i][Skip(q, p)]
      {
        if j != p {
          sub := sub.Set(i - 1, colIndex, m.data[i][j]);
          colIndex := colIndex + 1;
        }
        j := j + 1;
      }
      i := i + 1;
    }
    EqualByCells(sub, Mat(n - 1, n - 1, Minor(m.data, 0, p)));
  }

  /** determinant(): the closed forms for 1 x 1 and 2 x 2, otherwise the
      expansion along row 0 with a recursive call per minor. */
  method Determinant(m: Mat) returns (r: Result<real>)
    requires m.Valid()
    ensures r == DeterminantOf(m)
    decreases m.rows
  {
    if m.rows != m.cols {
      return Err(NotSquareForDeterminant);
    }
    if m.rows == 1 {
      return Ok(m.data[0][0]);
    }
    if m.rows == 2 {
      var det := m.data[0][0] * m.data[1][1] - m.data[0][1] * m.data[1][0];
      assert det == Det(m.data);
      return Ok(det);
    }
    var det := 0.0;
    var p := 0;
    while p < m.cols
      invariant 0 <= p <= m.cols
      invariant det == Expansion(m.data, p)
    {
      var sub := FirstRowMinor(m, p);
      var subDet := Determinant(sub);
      ExpansionStep(m.data, p + 1);
      det := det + m.data[0][p] * subDet.value * Sign(p);
      p := p + 1;
    }
    return Ok(det);
  }

  /** inverse(): the determinant first, then the singularity check, then the
      (unreachable) squareness check, then the adjugate scaled by 1 / det. */
  method Inverse(m: Mat) returns (r: Result<Mat>)
    requires m.Valid()
    ensures r == Inverted(m)
  {
    var det := Determinant(m);
    if det.Err? {
      return Err(det.error);
    }
    if det.value == 0.0 {
      return Err(Singular);
    }
    if m.rows != m.cols {
      return Err(NotSquareForInversion);
    }
    var n := m.rows;
    var adj := Zero(n, n);
    var i := 0;
    while i < n
      invariant 0 <= i <= n
      invariant adj.Valid() && adj.rows == n && adj.cols == n
      invariant forall p, q :: 0 <= p < i && 0 <= q < n ==> adj.data[q][p] == Cofactor(m.data, p, q)
    {
      var j := 0;
      while j < n
        invariant 0 <= j <= n
        invariant adj.Valid() && adj.rows == n && adj.cols == n
        invariant forall p, q :: 0 <= p < i && 0 <= q < n ==> adj.data[q][p] == Cofactor(m.data, p, q)
        invariant forall q :: 0 <= q < j ==> adj.data[q][i] == Cofactor(m.data, i, q)
      {
        var sub := ExtractMinor(m, i, j);
        var subDet := Determinant(sub);
        adj := adj.Set(j, i, subDet.value * Sign(i + j));
        j := j + 1;
      }
      i := i + 1;
    }
    EqualByCells(adj, Adjugate(m.data));
    var result := MultiplyByScalar(adj, 1.0 / det.value);
    return Ok(result);
  }

  /** operator/: this * other.inverse(). */
  method Divide(a: Mat, b: Mat) returns (r: Result<Mat>)
    requires a.Valid() && b.Valid()
    ensures r == Quotient(a, b)
  {
    var inv := Inverse(b);
    if inv.Err? {
      return Err(inv.error);
    }
    r := Multiply(a, inv.value);
  }
}
