/** Failure-carrying values shared by both diagnostic scripts: the exceptions the
    scripts raise become Err values instead of being excluded by preconditions. */
module Results {

  datatype Option<+T> = None | Some(value: T)

  datatype Result<+T, +E> = Ok(value: T) | Err(error: E)
}
