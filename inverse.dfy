/** inverse() and operator/: the adjugate (transposed cofactor matrix)
    divided by the determinant. */
module Inversion {
  import opened Outcomes
  import opened Dense
  import opened Arithmetic
  import opened Determinants

  /** The cofactor of entry (i, j): the signed determinant of its minor. */
  function Cofactor(a: seq<seq<real>>, i: nat, j: nat): real
    requires IsSquare(a) && i < |a| && j < |a|
  {
    Det(Minor(a, i, j)) * Sign(i + j)
  }

  /** The adjugate: the cofactor of (i, j) placed at the transposed position (j, i). */
  function Adjugate(a: seq<seq<real>>): (adj: Mat)
    requires IsSquare(a)
    ensures adj.Valid() && adj.rows == |a| && adj.cols == |a|
    ensures forall i, j :: 0 <= i < |a| && 0 <= j < |a| ==> adj.data[j][i] == Cofactor(a, i, j)
  {
    Mat(|a|, |a|, seq(|a|, r requires 0 <= r < |a| =>
      seq(|a|, c requires 0 <= c < |a| => Cofactor(a, c, r))))
  }

  /** inverse() on a matrix value. The determinant is computed first, so a
      non-square matrix fails with the determinant's error and the
      squareness check that follows the singularity check is never reached. */
  function Inverted(m: Mat): (r: Result<Mat>)
    requires m.Valid()
    ensures m.rows != m.cols ==> r == Err(NotSquareForDeterminant)
    ensures m.rows == m.cols ==> (r == Err(Singular) <==> Det(m.data) == 0.0)
    ensures r.Ok? <==> m.rows == m.cols && Det(m.data) != 0.0
    ensures r.Err? ==> r.error != NotSquareForInversion
    ensures r.Ok? ==> m.rows == m.cols && r.value.Valid() && r.value.rows == m.rows && r.value.cols == m.rows
    ensures r.Ok? ==> forall i, j :: 0 <= i < m.rows && 0 <= j < m.rows ==>
              r.value.data[j][i] == Cofactor(m.data, i, j) * (1.0 / Det(m.data))
  {
    match DeterminantOf(m)
    case Err(e) => Err(e)
    case Ok(det) =>
      if det == 0.0 then Err(Singular)
      else if m.rows != m.cols then Err(NotSquareForInversion)
      else Ok(Scaled(Adjugate(m.data), 1.0 / det))
  }

  /** operator/: multiplication by the inverse of the divisor; fails with the
      inverse's error first, then with the product's dimension check. */
  function Quotient(a: Mat, b: Mat): (r: Result<Mat>)
    requires a.Valid() && b.Valid()
    ensures Inverted(b).Err? ==> r == Err(Inverted(b).error)
    ensures Inverted(b).Ok? ==> r == Product(a, Inverted(b).value)
    ensures r.Ok? ==> r.value.rows == a.rows && r.value.cols == b.rows
  {
    match Inverted(b)
    case Err(e) => Err(e)
    case Ok(inv) => Product(a, inv)
  }

  // ---------------------------------------------------------------------
  // The 2 x 2 case, where the formula is the textbook one

  /** The cofactors of a 2 x 2 matrix [[a, b], [c, d]] are d, -c, -b and a, so
      its inverse is [[d, -b], [-c, a]] / (ad - bc). */
  lemma CofactorsOfTwoByTwo(a: seq<seq<real>>)
    requires IsSquare(a) && |a| == 2
    ensures Det(a) == a[0][0] * a[1][1] - a[0][1] * a[1][0]
    ensures Cofactor(a, 0, 0) == a[1][1] && Cofactor(a, 0, 1) == -a[1][0]
    ensures Cofactor(a, 1, 0) == -a[0][1] && Cofactor(a, 1, 1) == a[0][0]
  {
    forall i, j | 0 <= i < 2 && 0 <= j < 2
      ensures Cofactor(a, i, j) == a[1 - i][1 - j] * Sign(i + j)
    {
      assert Minor(a, i, j)[0][0] == a[1 - i][1 - j];
    }
  }

  /** With k == 1 / (ad - bc), the matrix [[d, -b], [-c, a]] k is a two-sided
      inverse of [[a, b], [c, d]], entry by entry. */
  lemma TwoByTwoCancels(a: real, b: real, c: real, d: real, k: real, p: real, q: real, r: real, s: real)
    requires a * d - b * c != 0.0 && k == 1.0 / (a * d - b * c)
    requires p == d * k && q == -b * k && r == -c * k && s == a * k
    ensures a * p + b * r == 1.0 && a * q + b * s == 0.0
    ensures c * p + d * r == 0.0 && c * q + d * s == 1.0
    ensures p * a + q * c == 1.0 && p * b + q * d == 0.0
    ensures r * a + s * c == 0.0 && r * b + s * d == 1.0
  {
    var det := a * d - b * c;
    assert det * k == 1.0;
    assert a * p + b * r == det * k;
    assert c * q + d * s == det * k;
    assert p * a + q * c == det * k;
    assert r * b + s * d == det * k;
  }

  /** The inner sum of a product with inner dimension 2, written out. */
  lemma DotOfTwo(a: Mat, b: Mat, i: nat, j: nat)
    requires a.Valid() && b.Valid() && a.cols == 2 && b.rows == 2 && i < a.rows && j < b.cols
    ensures Dot(a, b, i, j, 2) == a.data[i][0] * b.data[0][j] + a.data[i][1] * b.data[1][j]
  {
    assert Dot(a, b, i, j, 1) == 0.0 + a.data[i][0] * b.data[0][j];
  }

  /** A 2 x 2 matrix with ones on the diagonal and zeros off it is the identity. */
  lemma IsIdentityTwoByTwo(x: Mat)
    requires x.Valid() && x.rows == 2 && x.cols == 2
    requires x.data[0][0] == 1.0 && x.data[0][1] == 0.0 && x.data[1][0] == 0.0 && x.data[1][1] == 1.0
    ensures x == Identity(2)
  {
    EqualByCells(x, Identity(2));
  }

  /** The inverse of an invertible 2 x 2 matrix [[a, b], [c, d]] is
      (1 / det) * [[d, -b], [-c, a]], and its entries cancel against the
      matrix's own: each row of one against each column of the other sums to
      1 on the diagonal and to 0 off it. */
  lemma InverseEntriesTwoByTwo(m: Mat)
    requires m.Valid() && m.rows == m.cols == 2
    requires Det(m.data) != 0.0
    ensures Inverted(m).Ok?
    ensures var x, y, k := m.data, Inverted(m).value.data, 1.0 / Det(m.data);
            y[0][0] == x[1][1] * k && y[0][1] == -x[0][1] * k &&
            y[1][0] == -x[1][0] * k && y[1][1] == x[0][0] * k
    ensures var x, y := m.data, Inverted(m).value.data;
            x[0][0] * y[0][0] + x[0][1] * y[1][0] == 1.0 && x[0][0] * y[0][1] + x[0][1] * y[1][1] == 0.0 &&
            x[1][0] * y[0][0] + x[1][1] * y[1][0] == 0.0 && x[1][0] * y[0][1] + x[1][1] * y[1][1] == 1.0 &&
            y[0][0] * x[0][0] + y[0][1] * x[1][0] == 1.0 && y[0][0] * x[0][1] + y[0][1] * x[1][1] == 0.0 &&
            y[1][0] * x[0][0] + y[1][1] * x[1][0] == 0.0 && y[1][0] * x[0][1] + y[1][1] * x[1][1] == 1.0
  {
    var x := m.data;
    CofactorsOfTwoByTwo(x);
    var y := Inverted(m).value.data;
    var k := 1.0 / Det(x);
    assert y[0][0] == Cofactor(x, 0, 0) * k;
    assert y[0][1] == Cofactor(x, 1, 0) * k;
    assert y[1][0] == Cofactor(x, 0, 1) * k;
    assert y[1][1] == Cofactor(x, 1, 1) * k;
    TwoByTwoCancels(x[0][0], x[0][1], x[1][0], x[1][1], k, y[0][0], y[0][1], y[1][0], y[1][1]);
  }

  /** Multiplying an invertible 2 x 2 matrix by its inverse, on either side,
      gives the identity. */
  lemma ProductWithInverseTwoByTwo(m: Mat)
    requires m.Valid() && m.rows == m.cols == 2
    requires Det(m.data) != 0.0
    ensures Inverted(m).Ok?
    ensures Product(m, Inverted(m).value) == Ok(Identity(2))
    ensures Product(Inverted(m).value, m) == Ok(Identity(2))
  {
    InverseEntriesTwoByTwo(m);
    var inv := Inverted(m).value;
    ProductIsIdentityTwoByTwo(m, inv);
    ProductIsIdentityTwoByTwo(inv, m);
  }

  /** Two 2 x 2 matrices whose rows and columns cancel multiply to the identity. */
  lemma ProductIsIdentityTwoByTwo(a: Mat, b: Mat)
    requires a.Valid() && b.Valid() && a.rows == a.cols == b.rows == b.cols == 2
    requires var x, y := a.data, b.data;
             x[0][0] * y[0][0] + x[0][1] * y[1][0] == 1.0 && x[0][0] * y[0][1] + x[0][1] * y[1][1] == 0.0 &&
             x[1][0] * y[0][0] + x[1][1] * y[1][0] == 0.0 && x[1][0] * y[0][1] + x[1][1] * y[1][1] == 1.0
    ensures Product(a, b) == Ok(Identity(2))
  {
    var r := Product(a, b).value;
    DotOfTwo(a, b, 0, 0);
    DotOfTwo(a, b, 0, 1);
    DotOfTwo(a, b, 1, 0);
    DotOfTwo(a, b, 1, 1);
    IsIdentityTwoByTwo(r);
  }

  /** Dividing an invertible 2 x 2 matrix by itself gives the identity. */
  lemma QuotientBySelfTwoByTwo(m: Mat)
    requires m.Valid() && m.rows == m.cols == 2
    requires Det(m.data) != 0.0
    ensures Quotient(m, m) == Ok(Identity(2))
  {
    ProductWithInverseTwoByTwo(m);
  }

  // ---------------------------------------------------------------------
  // Concrete cases

  /** [[4, 7], [2, 6]] has determinant 10 and inverse [[0.6, -0.7], [-0.2, 0.4]]. */
  lemma InverseExample()
    ensures Inverted(Mat(2, 2, [[4.0, 7.0], [2.0, 6.0]])) ==
            Ok(Mat(2, 2, [[0.6, -0.7], [-0.2, 0.4]]))
  {
    var m := Mat(2, 2, [[4.0, 7.0], [2.0, 6.0]]);
    CofactorsOfTwoByTwo(m.data);
    assert Det(m.data) == 10.0;
    var inv := Inverted(m).value;
    assert inv.data[0][0] == 6.0 * 0.1 && inv.data[0][1] == -7.0 * 0.1;
    assert inv.data[1][0] == -2.0 * 0.1 && inv.data[1][1] == 4.0 * 0.1;
    EqualByCells(inv, Mat(2, 2, [[0.6, -0.7], [-0.2, 0.4]]));
  }

  /** [[1, 2, 3], [4, 5, 6], [7, 8, 9]] is singular, so inverting it fails. */
  lemma SingularExample()
    ensures Inverted(Mat(3, 3, [[1.0, 2.0, 3.0], [4.0, 5.0, 6.0], [7.0, 8.0, 9.0]])) == Err(Singular)
  {
    var a := [[1.0, 2.0, 3.0], [4.0, 5.0, 6.0], [7.0, 8.0, 9.0]];
    var m0, m1, m2 := Minor(a, 0, 0), Minor(a, 0, 1), Minor(a, 0, 2);
    assert m0[0][0] == 5.0 && m0[0][1] == 6.0 && m0[1][0] == 8.0 && m0[1][1] == 9.0;
    assert m1[0][0] == 4.0 && m1[0][1] == 6.0 && m1[1][0] == 7.0 && m1[1][1] == 9.0;
    assert m2[0][0] == 4.0 && m2[0][1] == 5.0 && m2[1][0] == 7.0 && m2[1][1] == 8.0;
    assert Det(m0) == -3.0 && Det(m1) == -6.0 && Det(m2) == -3.0;
    ExpansionStep(a, 1);
    ExpansionStep(a, 2);
    ExpansionStep(a, 3);
    assert Det(a) == 0.0;
  }

  /** Dividing 8I by 2I gives 4I. */
  lemma QuotientExample()
    ensures Quotient(Mat(2, 2, [[8.0, 0.0], [0.0, 8.0]]), Mat(2, 2, [[2.0, 0.0], [0.0, 2.0]])) ==
            Ok(Mat(2, 2, [[4.0, 0.0], [0.0, 4.0]]))
  {
    var b := Mat(2, 2, [[2.0, 0.0], [0.0, 2.0]]);
    CofactorsOfTwoByTwo(b.data);
    assert Det(b.data) == 4.0;
    var inv := Inverted(b).value;
    assert inv.data[0][0] == 2.0 * 0.25 && inv.data[0][1] == 0.0 && inv.data[1][0] == 0.0;
    assert inv.data[1][1] == 2.0 * 0.25;
    EqualByCells(inv, Mat(2, 2, [[0.5, 0.0], [0.0, 0.5]]));
    var a := Mat(2, 2, [[8.0, 0.0], [0.0, 8.0]]);
    EqualByCells(Product(a, inv).value, Mat(2, 2, [[4.0, 0.0], [0.0, 4.0]]));
  }

  // ---------------------------------------------------------------------
  // The 1 x 1 case: the cofactor is the determinant of the empty 0 x 0
  // minor, which the determinant reports as 0, so the inverse is [[0]].

  /** As the library computes it, the inverse of [[a]] (a != 0) is [[0]], and
      its product with [[a]] is [[0]] rather than the identity. */
  lemma InverseOfOneByOne(a: real)
    requires a != 0.0
    ensures Inverted(Mat(1, 1, [[a]])) == Ok(Mat(1, 1, [[0.0]]))
    ensures Product(Mat(1, 1, [[a]]), Inverted(Mat(1, 1, [[a]])).value) != Ok(Identity(1))
  {
    var m := Mat(1, 1, [[a]]);
    var empty := Minor(m.data, 0, 0);
    assert Det(empty) == Expansion(empty, 0) == 0.0;
    var inv := Inverted(m).value;
    assert inv.data[0][0] == Cofactor(m.data, 0, 0) * (1.0 / a) == 0.0;
    EqualByCells(inv, Mat(1, 1, [[0.0]]));
    assert Product(m, inv).value.data[0][0] == Dot(m, inv, 0, 0, 1) == 0.0;
    assert Identity(1).data[0][0] == 1.0;
  }

  /** The determinant of a minor, with the empty minor given its conventional
      determinant 1. */
  function MinorDet(s: seq<seq<real>>): real
    requires IsSquare(s)
  {
    if |s| == 0 then 1.0 else Det(s)
  }

  /** The inverse with the empty minor's determinant taken as 1: the cofactor
      of a 1 x 1 matrix is then 1 and [[a]] inverts to [[1 / a]]. */
  function CofactorInverse(m: Mat): (r: Result<Mat>)
    requires m.Valid()
    ensures m.rows != m.cols ==> r == Err(NotSquareForDeterminant)
    ensures m.rows == m.cols ==> (r == Err(Singular) <==> Det(m.data) == 0.0)
    ensures r.Ok? <==> Inverted(m).Ok?
    ensures r.Ok? ==> r.value.Valid() && r.value.rows == m.rows && r.value.cols == m.rows
    ensures r.Ok? ==> forall i, j :: 0 <= i < m.rows && 0 <= j < m.rows ==>
              r.value.data[j][i] == MinorDet(Minor(m.data, i, j)) * Sign(i + j) * (1.0 / Det(m.data))
  {
    match DeterminantOf(m)
    case Err(e) => Err(e)
    case Ok(det) =>
      if det == 0.0 then Err(Singular)
      else
        var n := m.rows;
        Ok(Mat(n, n, seq(n, r requires 0 <= r < n =>
          seq(n, c requires 0 <= c < n => MinorDet(Minor(m.data, c, r)) * Sign(c + r) * (1.0 / det)))))
  }

  /** The corrected inverse agrees with the library's on every size but 1. */
  lemma CofactorInverseAgrees(m: Mat)
    requires m.Valid() && m.rows != 1
    ensures CofactorInverse(m) == Inverted(m)
  {
    if m.rows == m.cols && Det(m.data) != 0.0 {
      var fixed := CofactorInverse(m).value;
      var asWritten := Inverted(m).value;
      forall i, j | 0 <= i < m.rows && 0 <= j < m.rows
        ensures fixed.data[j][i] == asWritten.data[j][i]
      {
        assert |Minor(m.data, i, j)| > 0;
      }
      EqualByCells(fixed, asWritten);
    }
  }

  /** The corrected inverse of an invertible 1 x 1 or 2 x 2 matrix is a
      two-sided inverse. */
  lemma CofactorInverseIsInverse(m: Mat)
    requires m.Valid() && m.rows == m.cols && 1 <= m.rows <= 2
    requires Det(m.data) != 0.0
    ensures CofactorInverse(m).Ok?
    ensures Product(m, CofactorInverse(m).value) == Ok(Identity(m.rows))
    ensures Product(CofactorInverse(m).value, m) == Ok(Identity(m.rows))
  {
    if m.rows == 1 {
      var a := m.data[0][0];
      var inv := CofactorInverse(m).value;
      assert MinorDet(Minor(m.data, 0, 0)) == 1.0;
      assert inv.data[0][0] == 1.0 * Sign(0) * (1.0 / a) == 1.0 / a;
      assert a * (1.0 / a) == 1.0;
      assert Product(m, inv).value.data[0][0] == Dot(m, inv, 0, 0, 1) == 1.0;
      assert Product(inv, m).value.data[0][0] == Dot(inv, m, 0, 0, 1) == 1.0;
      EqualByCells(Product(m, inv).value, Identity(1));
      EqualByCells(Product(inv, m).value, Identity(1));
    } else {
      CofactorInverseAgrees(m);
      ProductWithInverseTwoByTwo(m);
    }
  }
}
