/** Optional values and results, used throughout in place of null and exceptions. */
module Outcome {

  datatype Option<+T> = None | Some(value: T)

  /** `Fail` carries the error a Rust `Result` would. */
  datatype Result<+T, +E> = Ok(value: T) | Fail(error: E)

  /** The value stored under `k`, if any. */
  function Get<K, V>(m: map<K, V>, k: K): Option<V> {
    if k in m then Some(m[k]) else None
  }

  function Max(a: nat, b: nat): nat {
    if a < b then b else a
  }

  /** Some element of a set; loops over a set's elements take them in an arbitrary order. */
  method Pick<T(==)>(s: set<T>) returns (x: T)
    requires s != {}
    ensures x in s
  {
    x :| x in s;
  }

  lemma Any<T>(s: set<T>) returns (x: T)
    requires s != {}
    ensures x in s
  {
    x :| x in s;
  }
}
