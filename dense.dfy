/** The value of a dense matrix: its row count, its column count and its
    row-major storage. Row and column counts are kept explicitly, as the
    library does, because a matrix with no rows still has a column count. */
module Dense {

  datatype Mat = Mat(rows: nat, cols: nat, data: seq<seq<real>>) {

    /** The storage invariant: `rows` rows of `cols` entries each. */
    ghost predicate Valid() {
      |data| == rows && forall i :: 0 <= i < rows ==> |data[i]| == cols
    }

    /** Writing one entry (the non-const element access). */
    function Set(i: nat, j: nat, v: real): (m: Mat)
      requires Valid() && i < rows && j < cols
      ensures m.Valid() && m.rows == rows && m.cols == cols
      ensures m.data[i][j] == v
      ensures forall p, q :: 0 <= p < rows && 0 <= q < cols && (p != i || q != j) ==>
                m.data[p][q] == data[p][q]
    {
      Mat(rows, cols, data[i := data[i][j := v]])
    }
  }

  /** A square grid of entries: as many entries in each row as there are rows. */
  ghost predicate IsSquare(a: seq<seq<real>>) {
    forall i :: 0 <= i < |a| ==> |a[i]| == |a|
  }

  /** The `rows` x `cols` matrix of zeros that every constructor starts from. */
  function Zero(rows: nat, cols: nat): (m: Mat)
    ensures m.Valid() && m.rows == rows && m.cols == cols
    ensures forall i, j :: 0 <= i < rows && 0 <= j < cols ==> m.data[i][j] == 0.0
  {
    Mat(rows, cols, seq(rows, i => seq(cols, j => 0.0)))
  }

  /** The n x n identity: ones on the diagonal, zeros elsewhere. */
  function Identity(n: nat): (m: Mat)
    ensures m.Valid() && m.rows == n && m.cols == n && IsSquare(m.data)
    ensures forall i, j :: 0 <= i < n && 0 <= j < n ==>
              m.data[i][j] == if i == j then 1.0 else 0.0
  {
    Mat(n, n, seq(n, i => seq(n, j => if i == j then 1.0 else 0.0)))
  }

  /** Two valid matrices of the same shape with the same entries are equal. */
  lemma EqualByCells(x: Mat, y: Mat)
    requires x.Valid() && y.Valid() && x.rows == y.rows && x.cols == y.cols
    requires forall i, j :: 0 <= i < x.rows && 0 <= j < x.cols ==> x.data[i][j] == y.data[i][j]
    ensures x == y
  {
    forall i | 0 <= i < x.rows
      ensures x.data[i] == y.data[i]
    {
      assert forall j :: 0 <= j < x.cols ==> x.data[i][j] == y.data[i][j];
    }
  }

  /** The index of the original row (or column) that lands at position `r`
      of a minor from which row (or column) `k` was deleted. */
  function Skip(r: nat, k: nat): (s: nat)
    ensures s != k && (s < k <==> r < k)
  {
    if r < k then r else r + 1
  }

  /** The minor of a square grid: row `i` and column `j` deleted. */
  function Minor(a: seq<seq<real>>, i: nat, j: nat): (s: seq<seq<real>>)
    requires IsSquare(a) && i < |a| && j < |a|
    ensures |s| == |a| - 1 && IsSquare(s)
    ensures forall r, c :: 0 <= r < |s| && 0 <= c < |s| ==> s[r][c] == a[Skip(r, i)][Skip(c, j)]
  {
    seq(|a| - 1, r requires 0 <= r < |a| - 1 =>
      seq(|a| - 1, c requires 0 <= c < |a| - 1 => a[Skip(r, i)][Skip(c, j)]))
  }

  /** The checkerboard sign (-1)^k of a cofactor. */
  function Sign(k: nat): (s: real)
    ensures s == 1.0 || s == -1.0
    ensures (s == 1.0) <==> k % 2 == 0
  {
    if k % 2 == 0 then 1.0 else -1.0
  }
}
