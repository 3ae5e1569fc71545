/** Types shared by the matching and the room components. */
module Common {

  /** The opaque user identifier handed out by the identity provider. */
  type UserId = string

  /** A value that may be absent (the source's `null`). */
  datatype Option<T> = None | Some(value: T)

  /** The outcome of a store call that either returns a row or an error. */
  datatype Result<T, E> = Ok(value: T) | Err(error: E)

  /** A key larger than the key of every element of `xs`: the store's choice of a fresh id. */
  function FreshKey<T>(xs: seq<T>, key: T -> nat): (r: nat)
    ensures forall i :: 0 <= i < |xs| ==> key(xs[i]) < r
  {
    if xs == [] then 0
    else
      var rest := FreshKey(xs[1..], key);
      if key(xs[0]) < rest then rest else key(xs[0]) + 1
  }
}
