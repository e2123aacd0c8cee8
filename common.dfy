/**
 * Small value types shared by the modules of this model: bytes (the
 * `unsigned char` ranges that the byte-wise algorithms and the FNV hash read),
 * and the optional / error-carrying results that stand for null pointers and
 * thrown exceptions.
 */
module Common {
  /** An `unsigned char`. */
  newtype byte = b: int | 0 <= b < 256

  datatype Option<T> = None | Some(value: T)

  datatype Result<T, E> = Ok(value: T) | Err(error: E)

  /** A sequence of `n` copies of `v`. */
  function Repeat<T>(v: T, n: nat): (r: seq<T>)
    ensures |r| == n
    ensures forall k :: 0 <= k < n ==> r[k] == v
  {
    seq(n, _ => v)
  }
}
