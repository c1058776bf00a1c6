/** Failure-carrying values shared by the model: every `assert!`, `unwrap`
    and out-of-bounds index that aborts the original program is returned
    here as a `Failure` naming what went wrong. */
module Results {

  datatype Option<+T> = None | Some(value: T)

  datatype Result<+T, +E> = Success(value: T) | Failure(error: E)
}
