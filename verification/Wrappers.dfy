/** Option and Result stand for Python's `None` and raised exceptions, Dict for its ordered dictionaries. */
module Wrappers {
  datatype Option<+T> = None | Some(value: T)

  datatype Result<+T, +E> = Ok(value: T) | Err(error: E)

  /** A dictionary with its iteration order. */
  datatype Dict<K(==,!new), +V> = Dict(order: seq<K>, at: map<K, V>) {
    ghost predicate Valid() {
      && (forall k :: k in order <==> k in at)
      && forall i, j :: 0 <= i < j < |order| ==> order[i] != order[j]
    }
  }
}
