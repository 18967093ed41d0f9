/** Option and Result types for the partial steps of the two pipelines.
    The Python code raises an exception where a step fails; the model
    returns a `Failure` carrying what went wrong instead. */
module Results {

  datatype Option<+T> = None | Some(value: T)

  datatype Result<+R, +E> = Success(value: R) | Failure(error: E)
}
