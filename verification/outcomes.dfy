/** Result and failure types shared by the normalizer and the two request handlers.

    The backend signals every failure with a Python exception that the handler
    turns into an HTTP 400 response; here each such exception is a `Failure`
    value carried by `Err`.
 */
module Outcomes {

  /** The exceptions the handlers can catch. */
  datatype Failure =
    /** `left, right = s.split('=')` met more than two parts (a `ValueError`). */
    | TooManyValues(expected: nat, got: nat)
    /** An exception raised inside a black-box engine (SymPy's parser or solver,
        SciPy's minimizer, or the `eval` it calls), with its message. */
    | EngineFailure(message: string)

  datatype Result<+T> = Ok(value: T) | Err(failure: Failure)

  datatype Option<+T> = None | Some(value: T)
}
