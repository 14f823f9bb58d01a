/** What the value-returning operators of Matrix compute: +, -, * by a
    matrix, * by a scalar (either order) and transpose. None of them changes
    its operands; each result is a fresh matrix value. */
module Arithmetic {
  import opened Outcomes
  import opened Dense

  /** operator+: the cellwise sum, defined only for operands of equal shape. */
  function Sum(a: Mat, b: Mat): (r: Result<Mat>)
    requires a.Valid() && b.Valid()
    ensures r.Err? <==> a.rows != b.rows || a.cols != b.cols
    ensures r.Err? ==> r.error == DimensionMismatch
    ensures r.Ok? ==> r.value.Valid() && r.value.rows == a.rows && r.value.cols == a.cols
    ensures r.Ok? ==> forall i, j :: 0 <= i < a.rows && 0 <= j < a.cols ==>
                        r.value.data[i][j] == a.data[i][j] + b.data[i][j]
  {
    if a.rows != b.rows || a.cols != b.cols then Err(DimensionMismatch)
    else Ok(Mat(a.rows, a.cols, seq(a.rows, i requires 0 <= i < a.rows =>
              seq(a.cols, j requires 0 <= j < a.cols => a.data[i][j] + b.data[i][j]))))
  }

  /** operator-: the cellwise difference, defined only for operands of equal shape. */
  function Difference(a: Mat, b: Mat): (r: Result<Mat>)
    requires a.Valid() && b.Valid()
    ensures r.Err? <==> a.rows != b.rows || a.cols != b.cols
    ensures r.Err? ==> r.error == DimensionMismatch
    ensures r.Ok? ==> r.value.Valid() && r.value.rows == a.rows && r.value.cols == a.cols
    ensures r.Ok? ==> forall i, j :: 0 <= i < a.rows && 0 <= j < a.cols ==>
                        r.value.data[i][j] == a.data[i][j] - b.data[i][j]
  {
    if a.rows != b.rows || a.cols != b.cols then Err(DimensionMismatch)
    else Ok(Mat(a.rows, a.cols, seq(a.rows, i requires 0 <= i < a.rows =>
              seq(a.cols, j requires 0 <= j < a.cols => a.data[i][j] - b.data[i][j]))))
  }

  /** The first k terms of row i of `a` times column j of `b`, accumulated
      from index 0 upwards as the product loop does. */
  function Dot(a: Mat, b: Mat, i: nat, j: nat, k: nat): real
    requires a.Valid() && b.Valid() && i < a.rows && j < b.cols && k <= a.cols && k <= b.rows
  {
    if k == 0 then 0.0 else Dot(a, b, i, j, k - 1) + a.data[i][k - 1] * b.data[k - 1][j]
  }

  /** operator* by a matrix: rows x other.cols, each cell the inner-index sum. */
  function Product(a: Mat, b: Mat): (r: Result<Mat>)
    requires a.Valid() && b.Valid()
    ensures r.Err? <==> a.cols != b.rows
    ensures r.Err? ==> r.error == DimensionMismatch
    ensures r.Ok? ==> r.value.Valid() && r.value.rows == a.rows && r.value.cols == b.cols
    ensures r.Ok? ==> forall i, j :: 0 <= i < a.rows && 0 <= j < b.cols ==>
                        r.value.data[i][j] == Dot(a, b, i, j, a.cols)
  {
    if a.cols != b.rows then Err(DimensionMismatch)
    else Ok(Mat(a.rows, b.cols, seq(a.rows, i requires 0 <= i < a.rows =>
              seq(b.cols, j requires 0 <= j < b.cols => Dot(a, b, i, j, a.cols)))))
  }

  /** operator* by a scalar (and the friend scalar * matrix): never fails. */
  function Scaled(a: Mat, s: real): (r: Mat)
    requires a.Valid()
    ensures r.Valid() && r.rows == a.rows && r.cols == a.cols
    ensures forall i, j :: 0 <= i < a.rows && 0 <= j < a.cols ==> r.data[i][j] == a.data[i][j] * s
  {
    Mat(a.rows, a.cols, seq(a.rows, i requires 0 <= i < a.rows =>
      seq(a.cols, j requires 0 <= j < a.cols => a.data[i][j] * s)))
  }

  /** transpose(): a cols x rows matrix with r[j][i] = a[i][j]; never fails. */
  function Transposed(a: Mat): (r: Mat)
    requires a.Valid()
    ensures r.Valid() && r.rows == a.cols && r.cols == a.rows
    ensures forall i, j :: 0 <= i < a.rows && 0 <= j < a.cols ==> r.data[j][i] == a.data[i][j]
  {
    Mat(a.cols, a.rows, seq(a.cols, j requires 0 <= j < a.cols =>
      seq(a.rows, i requires 0 <= i < a.rows => a.data[i][j])))
  }

  // ---------------------------------------------------------------------
  // Algebraic properties relating the operators to one another

  /** Subtracting what was added gives back the original: (A + B) - B == A. */
  lemma SubtractUndoesAdd(a: Mat, b: Mat)
    requires a.Valid() && b.Valid() && a.rows == b.rows && a.cols == b.cols
    ensures Sum(a, b).Ok? && Difference(Sum(a, b).value, b) == Ok(a)
  {
    var s := Sum(a, b).value;
    EqualByCells(Difference(s, b).value, a);
  }

  /** Addition is commutative: A + B == B + A, both failing or both succeeding. */
  lemma SumCommutes(a: Mat, b: Mat)
    requires a.Valid() && b.Valid()
    ensures Sum(a, b) == Sum(b, a)
  {
    if Sum(a, b).Ok? {
      EqualByCells(Sum(a, b).value, Sum(b, a).value);
    }
  }

  /** Adding the identity to a square matrix adds one to each diagonal entry
      and leaves every other entry unchanged. */
  lemma SumWithIdentity(m: Mat)
    requires m.Valid() && m.rows == m.cols
    ensures Sum(Identity(m.rows), m).Ok?
    ensures forall i, j :: 0 <= i < m.rows && 0 <= j < m.rows ==>
              Sum(Identity(m.rows), m).value.data[i][j] ==
                if i == j then m.data[i][j] + 1.0 else m.data[i][j]
  {
  }

  /** Transposing twice gives back the original matrix, whatever its shape. */
  lemma TransposeInvolution(a: Mat)
    requires a.Valid()
    ensures Transposed(Transposed(a)) == a
  {
    EqualByCells(Transposed(Transposed(a)), a);
  }

  /** Scaling the row factor scales every partial inner sum. */
  lemma {:induction false} DotScaledLeft(a: Mat, b: Mat, s: real, i: nat, j: nat, k: nat)
    requires a.Valid() && b.Valid() && i < a.rows && j < b.cols && k <= a.cols && k <= b.rows
    ensures Dot(Scaled(a, s), b, i, j, k) == Dot(a, b, i, j, k) * s
  {
    if k > 0 {
      DotScaledLeft(a, b, s, i, j, k - 1);
      calc {
        Dot(Scaled(a, s), b, i, j, k);
        Dot(a, b, i, j, k - 1) * s + (a.data[i][k - 1] * s) * b.data[k - 1][j];
        (Dot(a, b, i, j, k - 1) + a.data[i][k - 1] * b.data[k - 1][j]) * s;
      }
    }
  }

  /** Scaling the column factor scales every partial inner sum. */
  lemma {:induction false} DotScaledRight(a: Mat, b: Mat, s: real, i: nat, j: nat, k: nat)
    requires a.Valid() && b.Valid() && i < a.rows && j < b.cols && k <= a.cols && k <= b.rows
    ensures Dot(a, Scaled(b, s), i, j, k) == Dot(a, b, i, j, k) * s
  {
    if k > 0 {
      DotScaledRight(a, b, s, i, j, k - 1);
      calc {
        Dot(a, Scaled(b, s), i, j, k);
        Dot(a, b, i, j, k - 1) * s + a.data[i][k - 1] * (b.data[k - 1][j] * s);
        (Dot(a, b, i, j, k - 1) + a.data[i][k - 1] * b.data[k - 1][j]) * s;
      }
    }
  }

  /** A scalar factor can be applied before or after a product, to either
      factor: s(AB) == (sA)B == A(sB). */
  lemma ScalarAssociatesWithProduct(a: Mat, b: Mat, s: real)
    requires a.Valid() && b.Valid() && a.cols == b.rows
    ensures Product(a, b).Ok? && Product(Scaled(a, s), b).Ok? && Product(a, Scaled(b, s)).Ok?
    ensures Product(Scaled(a, s), b).value == Scaled(Product(a, b).value, s)
    ensures Product(a, Scaled(b, s)).value == Scaled(Product(a, b).value, s)
  {
    var ab := Product(a, b).value;
    forall i, j | 0 <= i < a.rows && 0 <= j < b.cols
      ensures Dot(Scaled(a, s), b, i, j, a.cols) == ab.data[i][j] * s
      ensures Dot(a, Scaled(b, s), i, j, a.cols) == ab.data[i][j] * s
    {
      DotScaledLeft(a, b, s, i, j, a.cols);
      DotScaledRight(a, b, s, i, j, a.cols);
    }
    EqualByCells(Product(Scaled(a, s), b).value, Scaled(ab, s));
    EqualByCells(Product(a, Scaled(b, s)).value, Scaled(ab, s));
  }

  /** The inner sum of a product equals that of the transposed factors taken
      in the opposite order. */
  lemma {:induction false} DotTransposed(a: Mat, b: Mat, i: nat, j: nat, k: nat)
    requires a.Valid() && b.Valid() && i < a.rows && j < b.cols && k <= a.cols && k <= b.rows
    ensures Dot(Transposed(b), Transposed(a), j, i, k) == Dot(a, b, i, j, k)
  {
    if k > 0 {
      DotTransposed(a, b, i, j, k - 1);
    }
  }

  /** The transpose of a product is the product of the transposes in the
      opposite order: (AB)^T == B^T A^T. */
  lemma TransposeOfProduct(a: Mat, b: Mat)
    requires a.Valid() && b.Valid() && a.cols == b.rows
    ensures Product(a, b).Ok? && Product(Transposed(b), Transposed(a)).Ok?
    ensures Transposed(Product(a, b).value) == Product(Transposed(b), Transposed(a)).value
  {
    var ab := Product(a, b).value;
    forall j, i | 0 <= j < b.cols && 0 <= i < a.rows
      ensures Dot(Transposed(b), Transposed(a), j, i, a.cols) == ab.data[i][j]
    {
      DotTransposed(a, b, i, j, a.cols);
    }
    EqualByCells(Transposed(ab), Product(Transposed(b), Transposed(a)).value);
  }

  /** Against an identity column, the partial inner sum picks out one entry
      once the sum has reached it. */
  lemma {:induction false} DotIdentityRight(a: Mat, i: nat, j: nat, k: nat)
    requires a.Valid() && i < a.rows && j < a.cols && k <= a.cols
    ensures Dot(a, Identity(a.cols), i, j, k) == if j < k then a.data[i][j] else 0.0
  {
    if k > 0 {
      DotIdentityRight(a, i, j, k - 1);
    }
  }

  /** Against an identity row, the partial inner sum picks out one entry
      once the sum has reached it. */
  lemma {:induction false} DotIdentityLeft(b: Mat, i: nat, j: nat, k: nat)
    requires b.Valid() && i < b.rows && j < b.cols && k <= b.rows
    ensures Dot(Identity(b.rows), b, i, j, k) == if i < k then b.data[i][j] else 0.0
  {
    if k > 0 {
      DotIdentityLeft(b, i, j, k - 1);
    }
  }

  /** The identity is neutral for the product on both sides: AI == A == IA. */
  lemma ProductWithIdentity(a: Mat)
    requires a.Valid()
    ensures Product(a, Identity(a.cols)) == Ok(a)
    ensures Product(Identity(a.rows), a) == Ok(a)
  {
    forall i, j | 0 <= i < a.rows && 0 <= j < a.cols
      ensures Dot(a, Identity(a.cols), i, j, a.cols) == a.data[i][j]
      ensures Dot(Identity(a.rows), a, i, j, a.rows) == a.data[i][j]
    {
      DotIdentityRight(a, i, j, a.cols);
      DotIdentityLeft(a, i, j, a.rows);
    }
    EqualByCells(Product(a, Identity(a.cols)).value, a);
    EqualByCells(Product(Identity(a.rows), a).value, a);
  }
}
