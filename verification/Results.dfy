/** Error codes and results (include/orbit/error.hpp). */
module Results {

  datatype ErrorCode =
    | Format | Integrity | Unsupported | QuerySyntax | QueryType | Conflict | NotFound | Temporal
    | Index | ResourceLimit | Backpressure | Cancelled | Io | InternalInvariant | Usage

  datatype Option<+T> = None | Some(value: T)

  datatype Result<+T> = Ok(value: T) | Err(error: ErrorCode) {
    predicate IsFailure() {
      Err?
    }

    function PropagateFailure<U>(): Result<U>
      requires Err?
    {
      Err(error)
    }

    function Extract(): T
      requires Ok?
    {
      value
    }
  }
}
