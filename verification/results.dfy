/** Failure-carrying values shared by the other modules.
    - Option<T> stands for a value that may be absent (Python's `None`).
    - Result<T, E> stands for an operation that either returns a value or ends
      the run with an error (a raised exception or a `sys.exit`).
 */
module Results {

  datatype Option<+T> = None | Some(value: T)

  datatype Result<+T, +E> = Ok(value: T) | Err(error: E)
}
