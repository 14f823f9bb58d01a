/** What the structural edits of Matrix do to a matrix value: adding or
    removing a row or column at either end, and filling every entry. */
module Edits {
  import opened Outcomes
  import opened Dense

  /** addRow(newRow, atBottom): the row must have `cols` entries. */
  function WithRow(m: Mat, row: seq<real>, atBottom: bool): (r: Result<Mat>)
    requires m.Valid()
    ensures r.Err? <==> |row| != m.cols
    ensures r.Err? ==> r.error == ShapeMismatch
    ensures r.Ok? ==> r.value.Valid() && r.value.rows == m.rows + 1 && r.value.cols == m.cols
    ensures r.Ok? && atBottom ==> r.value.data[..m.rows] == m.data && r.value.data[m.rows] == row
    ensures r.Ok? && !atBottom ==> r.value.data[0] == row && r.value.data[1..] == m.data
  {
    if |row| != m.cols then Err(ShapeMismatch)
    else if atBottom then Ok(Mat(m.rows + 1, m.cols, m.data + [row]))
    else Ok(Mat(m.rows + 1, m.cols, [row] + m.data))
  }

  /** removeRow(fromBottom): there must be a row to remove. */
  function WithoutRow(m: Mat, fromBottom: bool): (r: Result<Mat>)
    requires m.Valid()
    ensures r.Err? <==> m.rows == 0
    ensures r.Err? ==> r.error == EmptyMatrix
    ensures r.Ok? ==> r.value.Valid() && r.value.rows == m.rows - 1 && r.value.cols == m.cols
    ensures r.Ok? && fromBottom ==> m.data == r.value.data + [m.data[m.rows - 1]]
    ensures r.Ok? && !fromBottom ==> m.data == [m.data[0]] + r.value.data
  {
    if m.rows == 0 then Err(EmptyMatrix)
    else if fromBottom then Ok(Mat(m.rows - 1, m.cols, m.data[..m.rows - 1]))
    else Ok(Mat(m.rows - 1, m.cols, m.data[1..]))
  }

  /** Row i with the value v attached at its right or left end. */
  function Extend(row: seq<real>, v: real, atRight: bool): (r: seq<real>)
    ensures |r| == |row| + 1
    ensures atRight ==> r[..|row|] == row && r[|row|] == v
    ensures !atRight ==> r[0] == v && r[1..] == row
  {
    if atRight then row + [v] else [v] + row
  }

  /** Row i with its right or left end removed. */
  function Shorten(row: seq<real>, fromRight: bool): (r: seq<real>)
    requires |row| > 0
    ensures fromRight ==> row == r + [row[|row| - 1]]
    ensures !fromRight ==> row == [row[0]] + r
  {
    if fromRight then row[..|row| - 1] else row[1..]
  }

  /** addColumn(newColumn, atRight): the column must have `rows` entries;
      entry i goes to the chosen end of row i. */
  function WithColumn(m: Mat, column: seq<real>, atRight: bool): (r: Result<Mat>)
    requires m.Valid()
    ensures r.Err? <==> |column| != m.rows
    ensures r.Err? ==> r.error == ShapeMismatch
    ensures r.Ok? ==> r.value.Valid() && r.value.rows == m.rows && r.value.cols == m.cols + 1
    ensures r.Ok? ==> forall i :: 0 <= i < m.rows ==> r.value.data[i] == Extend(m.data[i], column[i], atRight)
  {
    if |column| != m.rows then Err(ShapeMismatch)
    else Ok(Mat(m.rows, m.cols + 1, seq(m.rows, i requires 0 <= i < m.rows =>
           Extend(m.data[i], column[i], atRight))))
  }

  /** removeColumn(fromRight): there must be a column to remove. */
  function WithoutColumn(m: Mat, fromRight: bool): (r: Result<Mat>)
    requires m.Valid()
    ensures r.Err? <==> m.cols == 0
    ensures r.Err? ==> r.error == EmptyMatrix
    ensures r.Ok? ==> r.value.Valid() && r.value.rows == m.rows && r.value.cols == m.cols - 1
    ensures r.Ok? ==> forall i :: 0 <= i < m.rows ==> r.value.data[i] == Shorten(m.data[i], fromRight)
  {
    if m.cols == 0 then Err(EmptyMatrix)
    else Ok(Mat(m.rows, m.cols - 1, seq(m.rows, i requires 0 <= i < m.rows =>
           Shorten(m.data[i], fromRight))))
  }

  /** The removed column: entry i of row i's chosen end. */
  function EndColumn(m: Mat, fromRight: bool): (c: seq<real>)
    requires m.Valid() && m.cols > 0
    ensures |c| == m.rows
    ensures forall i :: 0 <= i < m.rows ==> c[i] == m.data[i][if fromRight then m.cols - 1 else 0]
  {
    seq(m.rows, i requires 0 <= i < m.rows => m.data[i][if fromRight then m.cols - 1 else 0])
  }

  /** SquareMatrix::operator=(value): every entry becomes `value`. */
  function Filled(m: Mat, value: real): (r: Mat)
    requires m.Valid()
    ensures r.Valid() && r.rows == m.rows && r.cols == m.cols
    ensures forall i, j :: 0 <= i < m.rows && 0 <= j < m.cols ==> r.data[i][j] == value
  {
    Mat(m.rows, m.cols, seq(m.rows, i requires 0 <= i < m.rows =>
      seq(m.cols, j requires 0 <= j < m.cols => value)))
  }

  // ---------------------------------------------------------------------
  // Round trips

  /** Removing a row from the end where it was just added restores the matrix. */
  lemma RemoveRowUndoesAddRow(m: Mat, row: seq<real>, atBottom: bool)
    requires m.Valid() && |row| == m.cols
    ensures WithRow(m, row, atBottom).Ok?
    ensures WithoutRow(WithRow(m, row, atBottom).value, atBottom) == Ok(m)
  {
    var grown := WithRow(m, row, atBottom).value;
    var back := WithoutRow(grown, atBottom).value;
    if atBottom {
      assert grown.data == back.data + [row];
      assert back.data == m.data by {
        assert back.data == (back.data + [row])[..m.rows];
      }
    } else {
      assert grown.data == [row] + back.data;
      assert back.data == m.data by {
        assert back.data == ([row] + back.data)[1..];
      }
    }
  }

  /** Putting a removed row back at the end it came from restores the matrix. */
  lemma AddRowUndoesRemoveRow(m: Mat, fromBottom: bool)
    requires m.Valid() && m.rows > 0
    ensures WithoutRow(m, fromBottom).Ok?
    ensures WithRow(WithoutRow(m, fromBottom).value,
                    m.data[if fromBottom then m.rows - 1 else 0], fromBottom) == Ok(m)
  {
  }

  /** Removing a column from the side where it was just added restores the matrix. */
  lemma RemoveColumnUndoesAddColumn(m: Mat, column: seq<real>, atRight: bool)
    requires m.Valid() && |column| == m.rows
    ensures WithColumn(m, column, atRight).Ok?
    ensures WithoutColumn(WithColumn(m, column, atRight).value, atRight) == Ok(m)
  {
    var grown := WithColumn(m, column, atRight).value;
    var back := WithoutColumn(grown, atRight).value;
    forall i | 0 <= i < m.rows
      ensures back.data[i] == m.data[i]
    {
      var e := Extend(m.data[i], column[i], atRight);
      assert grown.data[i] == e;
      if atRight {
        assert e == Shorten(e, true) + [column[i]];
        assert Shorten(e, true) == e[..|e| - 1];
      } else {
        assert Shorten(e, false) == e[1..];
      }
    }
    assert back.data == m.data;
  }

  /** Putting a removed column back on the side it came from restores the matrix. */
  lemma AddColumnUndoesRemoveColumn(m: Mat, fromRight: bool)
    requires m.Valid() && m.cols > 0
    ensures WithoutColumn(m, fromRight).Ok?
    ensures WithColumn(WithoutColumn(m, fromRight).value, EndColumn(m, fromRight), fromRight) == Ok(m)
  {
    var shrunk := WithoutColumn(m, fromRight).value;
    var column := EndColumn(m, fromRight);
    var back := WithColumn(shrunk, column, fromRight).value;
    forall i | 0 <= i < m.rows
      ensures back.data[i] == m.data[i]
    {
      assert back.data[i] == Extend(Shorten(m.data[i], fromRight), column[i], fromRight);
    }
    assert back.data == m.data;
  }

  /** Filling with zero gives the zero matrix of the same shape, which is what
      a freshly constructed matrix of that shape holds. */
  lemma FillWithZeroIsZero(m: Mat)
    requires m.Valid()
    ensures Filled(m, 0.0) == Zero(m.rows, m.cols)
  {
    EqualByCells(Filled(m, 0.0), Zero(m.rows, m.cols));
  }
}
