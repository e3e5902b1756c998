/** Datatypes shared by the models. */
module Common {

  datatype Option<+T> = None | Some(value: T) {
    function GetOr(default: T): T {
      if None? then default else value
    }
  }

  /** The largest number of replicas of an instance. */
  const REPLICA_CAP_MAX := 128

  newtype byte = x: int | 0 <= x < 256

  datatype Result<+T, +E> = Ok(value: T) | Err(error: E)
}
