/** The exceptions the SUGAR core raises, and a failure-compatible result type.
    Python raises instead of returning; the model returns `Err` on exactly the
    inputs where the source raises. */
module Errors {

  datatype Error =
    | InvalidSigma          // ValueError from validate_sigma
    | IndexOutOfRange       // IndexError (knn row, labels[i], data[0] of an empty array)
    | ShapeMismatch         // broadcasting or matrix-product shape error
    | EmptyReduction        // min/max of an empty array, apply_along_axis over an empty axis
    | EmptyConcatenation    // np.vstack / np.hstack of an empty list

  datatype Result<+T> = Ok(value: T) | Err(error: Error) {

    predicate IsFailure() {
      Err?
    }

    function PropagateFailure<U>(): Result<U>
      requires Err?
    {
      Err(error)
    }

    function Extract(): T
      requires Ok?
    {
      value
    }
  }
}
