/** Results that may be missing or may have failed. */
module Wrappers {

  datatype Option<T> = None | Some(value: T)

  datatype Result<T> = Ok(value: T) | Error

  lemma Inhabited<T>(s: seq<T>)
    ensures s == [] || s[0] in s
  {
  }
}
