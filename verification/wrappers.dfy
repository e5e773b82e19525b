/** Failure-compatible wrappers used across the model. */
module Wrappers {

  datatype Option<+T> = None | Some(value: T)

  /** The outcome of an operation that either returns a value or raises an error. */
  datatype Result<+T, +E> = Success(value: T) | Failure(error: E)
}

/** Every exception the modelled pipeline can raise, named after its cause. */
module Errors {

  datatype Error =
    | Transport             // the HTTP request itself raised (timeout, connection failure)
    | RateLimited           // status 429
    | ApiError(status: int) // any other rejected status
    | NotJson               // the body did not decode as JSON
    | UnexpectedShape       // choices/0/message/content missing or unusable
    | CallFailed            // no attempt was made at all (retry count of zero or less)
    | NotUnpackable         // translate_chunk returned None and the result could not be unpacked
    | SomeChunksFailed      // a slot was still empty before assembly (explicit check)
    | JoinTypeError         // a slot was still empty and "".join met None
    | NoWorkers             // the worker pool was asked for zero or fewer workers
    | NothingToTranslate    // the plan is empty
}
