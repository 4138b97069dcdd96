/** Optional and error-carrying results shared by the navigation and find models. */
module Wrappers {

  /** A value that may be absent: the "nothing selected" / "not found" cases. */
  datatype Option<+T> = None | Some(value: T)

  /** A value or the error the source would raise instead of returning. */
  datatype Result<+R, +E> = Success(value: R) | Failure(error: E)
}
