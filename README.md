# MatrixLib in Dafny

MatrixLib is a header-only C++ library of dense matrices of `double`s. It has
three classes. `Matrix` holds a `rows x cols` grid and offers:

- element access;
- `+`, `-`, `*` by a matrix and by a scalar, and `/`, meaning multiplication by the inverse;
- `transpose`;
- a recursive `determinant`, which expands along row 0;
- `inverse`, computed as the adjugate divided by the determinant;
- in-place edits that add or remove a row or a column at either end.

`SquareMatrix` adds a square constructor and an assignment that fills every
entry with one value. `SquareMatrixIdentity` builds the identity.

The model has two parts:

- **Value operations.** Each operator that returns a fresh matrix is a pure
  function over the value type `Dense.Mat`. A `Mat` holds explicit `rows` and
  `cols` counts, because a `0 x c` matrix has no rows but still has `c`
  columns. Each function is paired with a loop method in `Operations` that
  follows the library's nested loops. That method is proved to return exactly
  the function's value.
- **In-place operations.** Operations that change a matrix in place are
  methods of the class `Matrices.Matrix`, whose fields are `data`, `rows` and
  `cols`. The row and column edits and the fill are each proved to leave the
  object holding the value given by the matching function in `Edits`. The
  element write is specified cell by cell instead: the written entry changes,
  and nothing else does.

Entries are exact `real`s. A thrown exception becomes an `Err`/`Fail` value
that carries an `Outcomes.Error`.

Files:

- `outcomes.dfy`: errors and results.
- `dense.dfy`: the matrix value, zero and identity matrices, and minors.
- `arithmetic.dfy`: `+`, `-`, `*`, scalar `*` and transpose, with their algebra.
- `determinant.dfy`: the determinant.
- `inverse.dfy`: the adjugate, the inverse and `/`.
- `operations.dfy`: the loop methods.
- `edits.dfy`: what the structural edits and the fill do to a value.
- `matrix.dfy`: the class.

## Model

| member | source | states |
|---|---|---|
| Dense.Minor | matrix.hpp:137-147 | the minor is one size smaller and square; its entry (r, c) is the original entry at row r and column c, each shifted past the deleted row and column |
| Arithmetic.Sum | matrix.hpp:33-46 | fails with a dimension error exactly when the row or column counts differ; otherwise has the same shape, and each entry is the sum of the two entries |
| Arithmetic.Difference | matrix.hpp:49-62 | fails exactly when the shapes differ; otherwise has the same shape, and each entry is the difference of the two entries |
| Arithmetic.Product | matrix.hpp:65-81 | fails exactly when the left column count differs from the right row count; otherwise is rows x other.cols, and entry (i, j) is the sum over k of a[i][k] * b[k][j] |
| Arithmetic.Scaled | matrix.hpp:84-95 | never fails; keeps the shape; every entry is multiplied by the scalar |
| Arithmetic.Transposed | matrix.hpp:111-122 | never fails; is cols x rows with r[j][i] = a[i][j] |
| Arithmetic.SubtractUndoesAdd | matrix.hpp:33-62 | (a + b) - b = a for matrices of equal shape |
| Arithmetic.SumCommutes | matrix.hpp:33-46 | a + b = b + a, including which pairs fail |
| Arithmetic.SumWithIdentity | matrix.hpp:33-46 | adding the identity to a square matrix adds 1 to the diagonal entries and leaves the others unchanged |
| Arithmetic.TransposeInvolution | matrix.hpp:111-122 | transposing twice gives back the original matrix |
| Arithmetic.ScalarAssociatesWithProduct | matrix.hpp:65-95 | (s * a) * b = s * (a * b) = a * (s * b) |
| Arithmetic.TransposeOfProduct | matrix.hpp:111-122 | the transpose of a * b is transpose(b) * transpose(a) |
| Arithmetic.ProductWithIdentity | matrix.hpp:65-81 | multiplying by the identity of the matching size, on either side, gives back the matrix |
| Determinants.DeterminantOf | matrix.hpp:125-151 | fails exactly on non-square input; otherwise succeeds with `Det`, the expansion along row 0 with a recursive determinant per minor; a 0 x 0 matrix gives 0, 1 x 1 gives its entry, and 2 x 2 gives ad - bc |
| Determinants.DetOfIdentity | matrix.hpp:125-151 | the identity of every positive size has determinant 1; the 0 x 0 one has determinant 0 |
| Determinants.DetOfZeroFirstRow | matrix.hpp:134-150 | a square matrix whose first row is zero has determinant 0 |
| Determinants.DetOfLowerTriangular | matrix.hpp:125-151 | a non-empty lower-triangular matrix has as determinant the product of its diagonal entries |
| Inversion.Adjugate | matrix.hpp:162-182 | is square of the same size; entry (j, i) is the cofactor of (i, j) |
| Inversion.Inverted | matrix.hpp:154-184 | non-square input fails with the determinant's error, so the later squareness error never occurs; square input fails as singular exactly when the determinant is 0; it succeeds exactly on square input with non-zero determinant, and then entry (j, i) is cofactor(i, j) / det |
| Inversion.Quotient | matrix.hpp:104-108 | a / b fails with b's inversion error if there is one; otherwise it is a times the inverse of b, with a.rows rows and b.rows columns |
| Inversion.CofactorsOfTwoByTwo | matrix.hpp:180 | for a 2 x 2 matrix, the four cofactors are d, -c, -b and a |
| Inversion.InverseEntriesTwoByTwo | matrix.hpp:154-184 | an invertible 2 x 2 matrix [[a, b], [c, d]] inverts to (1 / det) * [[d, -b], [-c, a]], and each row of either matrix times each column of the other gives 1 on the diagonal and 0 off it |
| Inversion.ProductWithInverseTwoByTwo | matrix.hpp:154-184 | for an invertible 2 x 2 matrix, multiplying by its inverse on either side gives the identity |
| Inversion.QuotientBySelfTwoByTwo | matrix.hpp:104-108 | an invertible 2 x 2 matrix divided by itself is the identity |
| Inversion.InverseExample | matrix.hpp:154-184 | [[4, 7], [2, 6]] inverts to [[0.6, -0.7], [-0.2, 0.4]] |
| Inversion.SingularExample | matrix.hpp:156-158 | [[1, 2, 3], [4, 5, 6], [7, 8, 9]] is rejected as singular |
| Inversion.QuotientExample | matrix.hpp:104-108 | 8I / 2I = 4I for 2 x 2 matrices |
| Inversion.InverseOfOneByOne | matrix.hpp:167-183 | for a != 0, [[a]] inverts to [[0]], and [[a]] times that result is not the identity |
| Inversion.CofactorInverse | matrix.hpp:154-184 | fails in exactly the cases where the library's inverse fails, with the same errors; on success entry (j, i) is the signed minor determinant of (i, j) divided by det, where the empty minor counts as 1 |
| Inversion.CofactorInverseAgrees | matrix.hpp:154-184 | equals the library's inverse at every size except 1 x 1 |
| Inversion.CofactorInverseIsInverse | matrix.hpp:154-184 | for invertible 1 x 1 and 2 x 2 matrices, it is a two-sided inverse |
| Operations.Add | matrix.hpp:33-46 | the nested loop returns Arithmetic.Sum |
| Operations.Subtract | matrix.hpp:49-62 | the nested loop returns Arithmetic.Difference |
| Operations.Multiply | matrix.hpp:65-81 | the triple loop, which accumulates into a zero matrix, returns Arithmetic.Product |
| Operations.MultiplyByScalar | matrix.hpp:84-95 | the nested loop returns Arithmetic.Scaled |
| Operations.ScalarTimes | matrix.hpp:98-101 | scalar * matrix gives the same result as matrix * scalar |
| Operations.Transpose | matrix.hpp:111-122 | the nested loop returns Arithmetic.Transposed |
| Operations.ExtractMinor | matrix.hpp:167-179 | the loops that skip the chosen row and column produce Dense.Minor |
| Operations.FirstRowMinor | matrix.hpp:137-147 | the loop over rows 1 .. n-1 with a running column index that skips column p produces Dense.Minor at (0, p) |
| Operations.Determinant | matrix.hpp:125-151 | the recursive computation, with its accumulating loop over row 0, returns Determinants.DeterminantOf |
| Operations.Inverse | matrix.hpp:154-184 | computing the determinant, then the adjugate and scaling it returns Inversion.Inverted |
| Operations.Divide | matrix.hpp:104-108 | inverting, then multiplying returns Inversion.Quotient |
| Edits.WithRow | matrix.hpp:187-196 | fails with a shape error exactly when the row length differs from cols; otherwise there is one more row, placed at the bottom or the top, and the old rows are unchanged |
| Edits.WithoutRow | matrix.hpp:213-222 | fails exactly on a matrix with no rows; otherwise drops the bottom or the top row and keeps the rest |
| Edits.Extend | matrix.hpp:204-207 | the row gains the value at its right or left end, and the rest of the row is unchanged |
| Edits.Shorten | matrix.hpp:230-233 | the row loses its right or left end, and the rest of the row is unchanged |
| Edits.WithColumn | matrix.hpp:198-210 | fails exactly when the column length differs from rows; otherwise row i gains column[i] at the chosen end |
| Edits.WithoutColumn | matrix.hpp:224-236 | fails exactly on a matrix with no columns; otherwise every row loses its entry at the chosen end |
| Edits.Filled | matrix.hpp:264-274 | keeps the shape; every entry equals the value |
| Edits.RemoveRowUndoesAddRow | matrix.hpp:187-222 | removing a row from the end it was added to restores the matrix |
| Edits.AddRowUndoesRemoveRow | matrix.hpp:187-222 | putting a removed row back at the end it came from restores the matrix |
| Edits.RemoveColumnUndoesAddColumn | matrix.hpp:198-236 | removing a column from the side it was added to restores the matrix |
| Edits.AddColumnUndoesRemoveColumn | matrix.hpp:198-236 | putting a removed column back on the side it came from restores the matrix |
| Edits.FillWithZeroIsZero | matrix.hpp:264-274 | filling with 0 gives the zero matrix that the constructor builds |
| Matrices.Matrix.constructor | matrix.hpp:12-15 | a rows x cols matrix of zeros |
| Matrices.Matrix.FromValues | matrix.hpp:18-19 | takes its data and shape from a non-empty rectangular grid |
| Matrices.Matrix.SquareMatrix | matrix.hpp:261 | a size x size matrix of zeros |
| Matrices.Matrix.SquareMatrixIdentity | matrix.hpp:281-285 | after the diagonal loop, the object holds the identity of the given size |
| Matrices.Matrix.At | matrix.hpp:27-30 | reads the entry at (i, j) of the object's current value, for in-range indices |
| Matrices.Matrix.SetAt | matrix.hpp:22-25 | the written entry takes the new value; the shape and every other entry are unchanged |
| Matrices.Matrix.AddRow | matrix.hpp:187-196 | the object ends holding Edits.WithRow of its old value, or is unchanged and reports the shape error |
| Matrices.Matrix.AddColumn | matrix.hpp:198-210 | the loop over the rows leaves Edits.WithColumn of the old value, or the object is unchanged and reports the shape error |
| Matrices.Matrix.RemoveRow | matrix.hpp:213-222 | the object ends holding Edits.WithoutRow of its old value, or is unchanged and reports that it is empty |
| Matrices.Matrix.RemoveColumn | matrix.hpp:224-236 | the loop over the rows leaves Edits.WithoutColumn of the old value, or the object is unchanged and reports that it is empty |
| Matrices.Matrix.AssignAll | matrix.hpp:264-274 | the nested loop leaves Edits.Filled of the old value: same shape, every entry set |
| Matrices.AddThenRemoveRow | matrix.hpp:187-222 | on a 3 x 3 matrix, adding a bottom row gives 4 rows, and removing the bottom row gives back the original entries |

## Left out

- `print()`: console output only.
- `matrix.cpp` is not part of this model. It is a demonstration driver that prints results and catches exceptions.
- IEEE-754 `double` arithmetic: entries are exact reals. Rounding, signed zeros and overflow are not modelled, and the singularity test is exact real equality with 0.
- Matrices.Matrix.SetAt: the library does not check indices. Indices out of range are undefined behaviour there, so they are a precondition here. The same holds for reading an entry (`Matrices.Matrix.At`).
- Matrices.Matrix.FromValues: the library reads `values[0]` without checking for an empty input, and it does not check that the rows have equal length. A non-empty, rectangular input is therefore a precondition here.
- Default arguments: `addRow`, `addColumn`, `removeRow` and `removeColumn` default their end flag to `true` (bottom or right). Here the flag is an ordinary parameter that every call passes.
- Exception types and messages: each thrown exception becomes an `Outcomes.Error` constructor.
- The class hierarchy is flattened into one class:
  - `SquareMatrix` and `SquareMatrixIdentity` appear as named constructors of `Matrices.Matrix`.
  - Matrices.Matrix.AssignAll: `SquareMatrix::operator=` appears as a method on that class, and returning `*this` for chaining is not modelled.
  - The library declares the assignment only on `SquareMatrix`. A `SquareMatrix` can become non-square through the inherited row and column edits, so the method does not require squareness.
- The arithmetic operators build and return new `Matrix` objects. Here they return `Mat` values; since those operators never change their operands, nothing observable is lost.
- Inversion.Inverted: that multiplying a matrix by its inverse gives the identity is proved only for 2 x 2 matrices (`Inversion.ProductWithInverseTwoByTwo`). In general it would need the Laplace expansion along every row and column, which is not proved.
- Determinants.DeterminantOf: further determinant algebra is not stated. This includes the determinant of a product, linearity in a row, and the expansion along rows other than row 0.

## Findings

| source | as written | input that shows it | evidently intended | confidence | as-written member | corrected member |
|---|---|---|---|---|---|---|
| matrix.hpp:167-183 | the cofactor of a 1 x 1 matrix is the determinant of a 0 x 0 minor, which the determinant at matrix.hpp:134-150 returns as 0, so `[[a]]` inverts to `[[0]]` | `[[2]]` inverts to `[[0]]`, and `[[2]] * [[0]] = [[0]]`, not the identity | the empty minor has determinant 1, so `[[a]]` inverts to `[[1 / a]]` | not executed | Inversion.InverseOfOneByOne | Inversion.CofactorInverseIsInverse |

`Inversion.CofactorInverse` gives the empty minor determinant 1. Its inverse
is proved two-sided for invertible 1 x 1 and 2 x 2 matrices, and it is proved
equal to the library's inverse at every other size
(`Inversion.CofactorInverseAgrees`). The operations `Inversion.Inverted`,
`Inversion.Quotient`, `Operations.Inverse` and `Operations.Divide` keep the
library's behaviour as written.
