/** Failure-carrying wrappers shared by every module of the model. */
module Common {

  /** Python's `None` or a present value. */
  datatype Option<+T> = None | Some(value: T) {

    /** `dict.get(key, default)` style: the value when present, the default otherwise. */
    function GetOr(default: T): T {
      match this
      case Some(v) => v
      case None => default
    }
  }

  /** A value or the error a route handler or client would have reported instead. */
  datatype Result<+T, +E> = Ok(value: T) | Err(error: E)

  /** Python's `dict.get(key)` on a map. */
  function Lookup<K, V>(m: map<K, V>, k: K): (r: Option<V>)
    ensures r.Some? <==> k in m
    ensures r.Some? ==> r.value == m[k]
  {
    if k in m then Some(m[k]) else None
  }
}
