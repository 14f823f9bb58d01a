/** determinant(): Laplace expansion along row 0, with closed forms for the
    1 x 1 and 2 x 2 cases. A 0 x 0 matrix is square, matches neither closed
    form, and its expansion has no terms, so its determinant is 0. */
module Determinants {
  import opened Outcomes
  import opened Dense

  /** The determinant of a square grid, as the library computes it. */
  function Det(a: seq<seq<real>>): real
    requires IsSquare(a)
    decreases |a|, 1
  {
    if |a| == 1 then a[0][0]
    else if |a| == 2 then a[0][0] * a[1][1] - a[0][1] * a[1][0]
    else Expansion(a, |a|)
  }

  /** The running total `det` of the expansion loop after columns 0 .. p-1:
      each term is a[0][p] * det(minor of row 0, column p) * (-1)^p. */
  function Expansion(a: seq<seq<real>>, p: nat): real
    requires IsSquare(a) && p <= |a|
    decreases |a|, 0, p
  {
    if p == 0 then 0.0
    else Expansion(a, p - 1) + a[0][p - 1] * Det(Minor(a, 0, p - 1)) * Sign(p - 1)
  }

  /** determinant() on a matrix value: fails exactly on non-square input. */
  function DeterminantOf(m: Mat): (r: Result<real>)
    requires m.Valid()
    ensures r.Err? <==> m.rows != m.cols
    ensures r.Err? ==> r.error == NotSquareForDeterminant
    ensures r.Ok? ==> r.value == Det(m.data)
    ensures m.rows == m.cols == 0 ==> r == Ok(0.0)
    ensures m.rows == m.cols == 1 ==> r == Ok(m.data[0][0])
    ensures m.rows == m.cols == 2 ==>
              r == Ok(m.data[0][0] * m.data[1][1] - m.data[0][1] * m.data[1][0])
  {
    if m.rows != m.cols then Err(NotSquareForDeterminant)
    else
      assert m.rows == 0 ==> Expansion(m.data, 0) == 0.0;
      assert m.rows == 2 ==> Det(m.data) == m.data[0][0] * m.data[1][1] - m.data[0][1] * m.data[1][0];
      Ok(Det(m.data))
  }

  // ---------------------------------------------------------------------
  // Properties of the determinant

  /** One step of the expansion loop: the running total after column p - 1. */
  lemma ExpansionStep(a: seq<seq<real>>, p: nat)
    requires IsSquare(a) && 0 < p <= |a|
    ensures Expansion(a, p) ==
            Expansion(a, p - 1) + a[0][p - 1] * Det(Minor(a, 0, p - 1)) * Sign(p - 1)
  {
  }

  /** The minor of the identity at a diagonal position is the identity one size smaller. */
  lemma MinorOfIdentity(n: nat, k: nat)
    requires k < n
    ensures Minor(Identity(n).data, k, k) == Identity(n - 1).data
  {
    var s := Minor(Identity(n).data, k, k);
    forall r, c | 0 <= r < n - 1 && 0 <= c < n - 1
      ensures s[r][c] == Identity(n - 1).data[r][c]
    {
      assert (Skip(r, k) == Skip(c, k)) <==> r == c;
    }
    EqualByCells(Mat(n - 1, n - 1, s), Identity(n - 1));
  }

  /** Every term of the expansion of the identity after the first is zero. */
  lemma {:induction false} ExpansionOfIdentity(n: nat, p: nat)
    requires 1 <= p <= n
    ensures Expansion(Identity(n).data, p) == Det(Minor(Identity(n).data, 0, 0))
  {
    if p > 1 {
      ExpansionOfIdentity(n, p - 1);
      assert Identity(n).data[0][p - 1] == 0.0;
    }
  }

  /** The identity of any positive size has determinant exactly 1; the empty
      identity, being 0 x 0, has determinant 0. */
  lemma {:induction false} DetOfIdentity(n: nat)
    ensures Det(Identity(n).data) == if n == 0 then 0.0 else 1.0
  {
    if n >= 3 {
      ExpansionOfIdentity(n, n);
      MinorOfIdentity(n, 0);
      DetOfIdentity(n - 1);
    }
  }

  /** A square matrix whose first row is all zeros (n >= 3) has determinant 0. */
  lemma {:induction false} ExpansionOfZeroRow(a: seq<seq<real>>, p: nat)
    requires IsSquare(a) && p <= |a|
    requires forall c :: 0 <= c < |a| ==> a[0][c] == 0.0
    ensures Expansion(a, p) == 0.0
  {
    if p > 0 {
      ExpansionOfZeroRow(a, p - 1);
    }
  }

  /** A square matrix of any size whose first row is all zeros has determinant 0. */
  lemma DetOfZeroFirstRow(a: seq<seq<real>>)
    requires IsSquare(a)
    requires forall c :: 0 <= c < |a| ==> a[0][c] == 0.0
    ensures Det(a) == 0.0
  {
    ExpansionOfZeroRow(a, |a|);
  }

  /** Every entry above the diagonal is zero. */
  ghost predicate LowerTriangular(a: seq<seq<real>>)
    requires IsSquare(a)
  {
    forall r, c :: 0 <= r < c < |a| ==> a[r][c] == 0.0
  }

  /** The product of the diagonal entries, taken by peeling off row 0 and
      column 0 as the expansion does; 1 for the empty grid. */
  function DiagonalProduct(a: seq<seq<real>>): real
    requires IsSquare(a)
    decreases |a|
  {
    if |a| == 0 then 1.0 else a[0][0] * DiagonalProduct(Minor(a, 0, 0))
  }

  /** The minor at (0, 0) of a lower-triangular grid is lower triangular. */
  lemma MinorOfLowerTriangular(a: seq<seq<real>>)
    requires IsSquare(a) && |a| > 0 && LowerTriangular(a)
    ensures LowerTriangular(Minor(a, 0, 0))
  {
    var m := Minor(a, 0, 0);
    forall r, c | 0 <= r < c < |m|
      ensures m[r][c] == 0.0
    {
      assert m[r][c] == a[r + 1][c + 1];
    }
  }

  /** In the expansion of a lower-triangular grid only the term for column 0
      survives. */
  lemma {:induction false} ExpansionOfLowerTriangular(a: seq<seq<real>>, p: nat)
    requires IsSquare(a) && 1 <= p <= |a| && LowerTriangular(a)
    ensures Expansion(a, p) == a[0][0] * Det(Minor(a, 0, 0))
  {
    if p > 1 {
      ExpansionOfLowerTriangular(a, p - 1);
      assert a[0][p - 1] == 0.0;
    }
  }

  /** A non-empty lower-triangular matrix has as determinant the product of
      its diagonal entries. */
  lemma {:induction false} DetOfLowerTriangular(a: seq<seq<real>>)
    requires IsSquare(a) && |a| > 0 && LowerTriangular(a)
    ensures Det(a) == DiagonalProduct(a)
    decreases |a|
  {
    var m := Minor(a, 0, 0);
    if |a| == 1 {
      assert DiagonalProduct(m) == 1.0;
    } else {
      MinorOfLowerTriangular(a);
      DetOfLowerTriangular(m);
      if |a| == 2 {
        assert a[0][1] == 0.0;
        assert m[0][0] == a[1][1];
        assert DiagonalProduct(Minor(m, 0, 0)) == 1.0;
      } else {
        ExpansionOfLowerTriangular(a, |a|);
      }
    }
  }
}
