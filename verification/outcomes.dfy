/** Failure-carrying datatypes shared by the controller model: Go's
    `(value, error)` returns become a `Result`, a nil-able reference becomes
    an `Option`. */
module Outcomes {

  datatype Option<+T> = None | Some(value: T)

  /** Either a value or the error that replaced it. A Go function returning
      `(nil, err)` is modelled as `Err(err)`. */
  datatype Result<+T, +E> = Ok(value: T) | Err(error: E)

  /** Errors reported by the Kubernetes API server and the DNS client. Only the
      distinction the controller branches on is kept: `NotFound` versus any
      other failure, identified by its message. */
  datatype ApiError =
    | NotFound
    | AlreadyExists
    | Failed(reason: string)
}
