/** The success-or-error value returned by the steps of the pipeline that can fail. */
module Results {

  /** Either the value a step computed or the reason it stopped. */
  datatype Result<T, E> = Success(value: T) | Failure(error: E)
}
