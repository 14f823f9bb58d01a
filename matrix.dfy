/** The Matrix object: its storage and its row and column counts, changed in
    place by element writes, the structural edits and (for a square matrix)
    fill-assignment. SquareMatrix and SquareMatrixIdentity add only
    constructors and fill-assignment, so they appear here as the constructors
    SquareMatrix and SquareMatrixIdentity and the method AssignAll. */
module Matrices {
  import opened Outcomes
  import opened Dense
  import opened Edits

  class Matrix {
    var data: seq<seq<real>>
    var rows: nat
    var cols: nat

    /** The storage invariant: `rows` rows of `cols` entries each. */
    ghost predicate Valid()
      reads this
    {
      Value().Valid()
    }

    /** The matrix value this object currently holds. */
    function Value(): Mat
      reads this
    {
      Mat(rows, cols, data)
    }

    /** Matrix(rows, cols): a rows x cols matrix of zeros. */
    constructor (rows: nat, cols: nat)
      ensures Valid() && Value() == Zero(rows, cols)
    {
      this.rows, this.cols := rows, cols;
      data := Zero(rows, cols).data;
    }

    /** Matrix(values): takes its shape from the values, which must be a
        non-empty rectangular grid. */
    constructor FromValues(values: seq<seq<real>>)
      requires |values| > 0
      requires forall i :: 0 <= i < |values| ==> |values[i]| == |values[0]|
      ensures Valid() && rows == |values| && cols == |values[0]| && data == values
    {
      data, rows, cols := values, |values|, |values[0]|;
    }

    /** SquareMatrix(size): a size x size matrix of zeros. */
    constructor SquareMatrix(size: nat)
      ensures Valid() && Value() == Zero(size, size)
    {
      rows, cols := size, size;
      data := Zero(size, size).data;
    }

    /** SquareMatrixIdentity(size): the zero square matrix with each diagonal
        entry then set to 1. */
    constructor SquareMatrixIdentity(size: nat)
      ensures Valid() && Value() == Identity(size)
    {
      rows, cols := size, size;
      data := Zero(size, size).data;
      new;
      var i := 0;
      while i < size
        invariant 0 <= i <= size
        invariant rows == size && cols == size && Valid()
        invariant forall p, q :: 0 <= p < size && 0 <= q < size ==>
                    data[p][q] == if p == q && p < i then 1.0 else 0.0
      {
        data := data[i := data[i][i := 1.0]];
        i := i + 1;
      }
      EqualByCells(Value(), Identity(size));
    }

    /** operator() const: the entry at row i, column j. */
    function At(i: nat, j: nat): (v: real)
      reads this
      requires Valid() && i < rows && j < cols
      ensures v == Value().data[i][j]
    {
      data[i][j]
    }

    /** operator(): writing the entry at row i, column j; every other entry
        and the shape stay as they were. */
    method SetAt(i: nat, j: nat, v: real)
      requires Valid() && i < rows && j < cols
      modifies this
      ensures Valid() && rows == old(rows) && cols == old(cols)
      ensures At(i, j) == v
      ensures forall p, q :: 0 <= p < rows && 0 <= q < cols && (p != i || q != j) ==>
                At(p, q) == old(At(p, q))
    {
      data := data[i := data[i][j := v]];
    }

    /** addRow(newRow, atBottom). */
    method AddRow(newRow: seq<real>, atBottom: bool) returns (o: Outcome)
      requires Valid()
      modifies this
      ensures Valid()
      ensures match WithRow(old(Value()), newRow, atBottom)
              case Ok(v) => o == Pass && Value() == v
              case Err(e) => o == Fail(e) && Value() == old(Value())
    {
      if |newRow| != cols {
        return Fail(ShapeMismatch);
      }
      if atBottom {
        data := data + [newRow];
      } else {
        data := [newRow] + data;
      }
      rows := rows + 1;
      return Pass;
    }

    /** addColumn(newColumn, atRight): one entry pushed onto each row in turn. */
    method AddColumn(newColumn: seq<real>, atRight: bool) returns (o: Outcome)
      requires Valid()
      modifies this
      ensures Valid()
      ensures match WithColumn(old(Value()), newColumn, atRight)
              case Ok(v) => o == Pass && Value() == v
              case Err(e) => o == Fail(e) && Value() == old(Value())
    {
      if |newColumn| != rows {
        return Fail(ShapeMismatch);
      }
      var i := 0;
      while i < rows
        invariant 0 <= i <= rows && rows == old(rows) && cols == old(cols)
        invariant |data| == rows
        invariant forall p :: 0 <= p < i ==> data[p] == Extend(old(data[p]), newColumn[p], atRight)
        invariant forall p :: i <= p < rows ==> data[p] == old(data[p])
      {
        if atRight {
          data := data[i := data[i] + [newColumn[i]]];
        } else {
          data := data[i := [newColumn[i]] + data[i]];
        }
        i := i + 1;
      }
      cols := cols + 1;
      assert data == WithColumn(old(Value()), newColumn, atRight).value.data;
      return Pass;
    }

    /** removeRow(fromBottom). */
    method RemoveRow(fromBottom: bool) returns (o: Outcome)
      requires Valid()
      modifies this
      ensures Valid()
      ensures match WithoutRow(old(Value()), fromBottom)
              case Ok(v) => o == Pass && Value() == v
              case Err(e) => o == Fail(e) && Value() == old(Value())
    {
      if rows == 0 {
        return Fail(EmptyMatrix);
      }
      if fromBottom {
        data := data[..|data| - 1];
      } else {
        data := data[1..];
      }
      rows := rows - 1;
      return Pass;
    }

    /** removeColumn(fromRight): one entry dropped from each row in turn. */
    method RemoveColumn(fromRight: bool) returns (o: Outcome)
      requires Valid()
      modifies this
      ensures Valid()
      ensures match WithoutColumn(old(Value()), fromRight)
              case Ok(v) => o == Pass && Value() == v
              case Err(e) => o == Fail(e) && Value() == old(Value())
    {
      if cols == 0 {
        return Fail(EmptyMatrix);
      }
      var i := 0;
      while i < rows
        invariant 0 <= i <= rows && rows == old(rows) && cols == old(cols)
        invariant |data| == rows
        invariant forall p :: 0 <= p < i ==> data[p] == Shorten(old(data[p]), fromRight)
        invariant forall p :: i <= p < rows ==> data[p] == old(data[p])
      {
        if fromRight {
          data := data[i := data[i][..|data[i]| - 1]];
        } else {
          data := data[i := data[i][1..]];
        }
        i := i + 1;
      }
      cols := cols - 1;
      assert data == WithoutColumn(old(Value()), fromRight).value.data;
      return Pass;
    }

    /** SquareMatrix::operator=(value): every entry overwritten, shape kept. */
    method AssignAll(value: real)
      requires Valid()
      modifies this
      ensures Valid() && Value() == Filled(old(Value()), value)
    {
      var i := 0;
      while i < rows
        invariant 0 <= i <= rows && rows == old(rows) && cols == old(cols) && Valid()
        invariant forall p, q :: 0 <= p < i && 0 <= q < cols ==> data[p][q] == value
      {
        var j := 0;
        while j < cols
          invariant 0 <= j <= cols && rows == old(rows) && cols == old(cols) && Valid()
          invariant forall p, q :: 0 <= p < i && 0 <= q < cols ==> data[p][q] == value
          invariant forall q :: 0 <= q < j ==> data[i][q] == value
        {
          data := data[i := data[i][j := value]];
          j := j + 1;
        }
        i := i + 1;
      }
      EqualByCells(Value(), Filled(old(Value()), value));
    }
  }

  /** The scenario of adding the row [10, 11, 12] to the bottom of a 3 x 3
      matrix and then removing the bottom row: 4 rows in between, the
      original entries at the end. */
  method AddThenRemoveRow(values: seq<seq<real>>) returns (rowsBetween: nat, final: seq<seq<real>>)
    requires |values| == 3 && forall i :: 0 <= i < 3 ==> |values[i]| == 3
    ensures rowsBetween == 4 && final == values
  {
    var m := new Matrix.FromValues(values);
    var added := m.AddRow([10.0, 11.0, 12.0], true);
    assert added == Pass;
    rowsBetween := m.rows;
    var removed := m.RemoveRow(true);
    assert removed == Pass;
    final := m.data;
  }
}
