/** Optional values and failures, used for the absent keys, failed requests
    and raised exceptions of the modelled program. */
module Results {

  datatype Option<T> = None | Some(value: T) {
    /** The value if present, otherwise the given default (Python's `dict.get(key, default)`). */
    function GetOr(default: T): T {
      match this
      case Some(v) => v
      case None => default
    }
  }

  datatype Result<T, E> = Ok(value: T) | Err(error: E)
}
