/** Failures of the matrix operations. Every operation that throws in the
    library returns a failure value here instead; no partial result exists. */
module Outcomes {

  /** The distinct error conditions the library raises. */
  datatype Error =
    | DimensionMismatch        // +, - with unequal shapes; * with cols != other.rows
    | ShapeMismatch            // addRow / addColumn with a vector of the wrong length
    | NotSquareForDeterminant  // determinant() of a non-square matrix
    | NotSquareForInversion    // the squareness check inside inverse()
    | Singular                 // inverse() of a matrix whose determinant is exactly zero
    | EmptyMatrix              // removeRow with no rows, removeColumn with no columns

  /** The value of an operation that may throw. */
  datatype Result<T> = Ok(value: T) | Err(error: Error)

  /** The outcome of an in-place operation that may throw. */
  datatype Outcome = Pass | Fail(error: Error)
}
