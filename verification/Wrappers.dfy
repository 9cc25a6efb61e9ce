/** Datatypes and functions shared by the models. */
module Wrappers {
  datatype Option<+T> = None | Some(value: T)
  datatype Result<+T, +E> = Ok(value: T) | Err(error: E)

  /** n copies of v. */
  function Filled<T>(n: nat, v: T): (s: seq<T>)
    ensures |s| == n && forall k :: 0 <= k < n ==> s[k] == v
  {
    seq(n, _ => v)
  }
}
