/** Failure-carrying values used throughout the model: C++ exceptions and
    `std::string::npos`-style "not found" answers become explicit data. */
module Results {

  /** A value that may be absent. */
  datatype Option<+T> = None | Some(value: T)

  /** Either a successful value or the error that the C++ code throws. */
  datatype Result<+T, +E> = Ok(value: T) | Err(error: E)
}
