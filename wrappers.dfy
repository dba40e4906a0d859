/** Optional values and the API's error results. */
module Wrappers {

  datatype Option<+T> = None | Some(value: T)

  /** The HTTP failures the core can produce: 404, 422 (request validation) and 500 (unhandled fault). */
  datatype ApiError = NotFound | Unprocessable | Internal

  datatype Result<+T> = Ok(value: T) | Err(error: ApiError)
}
