/** Optional values, outcomes with an error, and dictionary lookup. */
module Wrappers {

  /** A value that may be absent, as Python's `None`. */
  datatype Option<T> = None | Some(value: T)

  /** The outcome of a step that either succeeds with a value or fails with a reason. */
  datatype Result<T, E> = Success(value: T) | Failure(error: E)

  /** `d.get(k)` on a Python dict. */
  function Get<K, V>(m: map<K, V>, k: K): (r: Option<V>)
    ensures r.Some? <==> k in m
    ensures r.Some? ==> r.value == m[k]
  {
    if k in m then Some(m[k]) else None
  }
}
