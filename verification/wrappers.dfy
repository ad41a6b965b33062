/** Absent values and failing operations, as the server and client code meet them. */
module Wrappers {

  /** A slot that may be empty: a JavaScript `undefined` / `null`. */
  datatype Option<T> = None | Some(value: T) {

    /** The held value; `fallback` for an empty slot. */
    function GetOr(fallback: T): (r: T)
      ensures this.Some? ==> r == value
      ensures this.None? ==> r == fallback
    {
      if this.Some? then value else fallback
    }
  }

  /** The outcome of an operation that the source may abort with an exception. */
  datatype Result<R, E> = Success(value: R) | Failure(error: E)

  /** Map lookup as an `Option`, mirroring `Map.prototype.get`. */
  function Get<K, V>(m: map<K, V>, k: K): (r: Option<V>)
    ensures r.Some? <==> k in m
    ensures r.Some? ==> r.value == m[k]
  {
    if k in m then Some(m[k]) else None
  }
}
