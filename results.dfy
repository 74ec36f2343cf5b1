/** Optional values and the success-or-terminate result of the library's operations. */
module Results {

  datatype Option<T> = None | Some(value: T)

  /**
   * What a call into the library does to the process: it returns a value,
   * or it terminates the process with `_exit (1)`.
   */
  datatype Outcome<T> = Returned(value: T) | Exited
}
