/** Types shared by every component: optional values, results and byte strings. */
module Prelude {

  datatype Option<+T> = None | Some(value: T)

  datatype Result<+T, +E> = Success(value: T) | Failure(error: E)

  newtype byte = x: int | 0 <= x < 256

  type Bytes = seq<byte>

  /** A SHA-256 digest in hexadecimal. The hash itself is a parameter of the model. */
  type Digest = string

  type Hash = Bytes -> Digest

  function Min(a: int, b: int): int {
    if a <= b then a else b
  }

  /** Some element of a non-empty set. */
  ghost function Pick<T>(from: set<T>): (element: T)
    requires from != {}
    ensures element in from
  {
    var x :| x in from; x
  }
}
