/** Failure-compatible wrappers shared by every layer of the to-do service model. */
module Wrappers {

  /** A value that may be absent: Python's `None` versus a present value. */
  datatype Option<+T> = None | Some(value: T)

  /** The ways an operation of the service can fail. */
  datatype Error =
    | NotFound                   // the referenced list or task does not exist
    | Invalid(field: string)     // a request body field failed schema validation
    | Conflict                   // a unique constraint of the database was violated
    | AttributeError(name: string) // Python raised on a missing attribute

  datatype Result<+T> = Ok(value: T) | Err(error: Error) {
    predicate IsFailure() {
      Err?
    }

    function PropagateFailure<U>(): Result<U>
      requires Err?
    {
      Err(error)
    }

    function Extract(): T
      requires Ok?
    {
      value
    }
  }
}
