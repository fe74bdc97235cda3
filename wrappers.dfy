/** `Option` and `Result`, shared by the other modules. */
module Wrappers {

  /** Ruby's `nil` or a value. */
  datatype Option<+T> = None | Some(value: T)

  /** A value, or the reason the run stops. */
  datatype Result<+T, +E> = Success(value: T) | Failure(error: E)

  /** Hash lookup: `h[k]` is `nil` for a missing key. */
  function Get<K, V>(m: map<K, V>, k: K): (r: Option<V>)
    ensures r.Some? <==> k in m
    ensures r.Some? ==> r.value == m[k]
  {
    if k in m then Some(m[k]) else None
  }
}
