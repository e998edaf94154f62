/** Failure-carrying values shared by every module of the model.

    Python signals failure by returning `None` or by raising; the model turns
    the first into `Option` and the second into the `Err` arm of `Result`.
 */
module Results {

  datatype Option<+T> = None | Some(value: T)

  datatype Result<+T, +E> = Ok(value: T) | Err(error: E)
}
