/** Byte sequences and the failure-carrying result types shared by every module. */
module Bytes {

  /** An unsigned machine byte (Rust's `u8`). Arithmetic on it is written out
      explicitly wherever the source truncates, e.g. a left shift is `x * 4 % 256`. */
  type byte = x: int | 0 <= x < 256

  datatype Option<+T> = None | Some(value: T)

  datatype Result<+T, +E> = Ok(value: T) | Err(error: E)

  /** `vec![k; n]`: n copies of k. */
  function Repeat<T>(k: T, n: nat): (r: seq<T>)
    ensures |r| == n
    ensures forall i :: 0 <= i < n ==> r[i] == k
  {
    seq(n, _ => k)
  }

  function Min(a: int, b: int): int
  {
    if a <= b then a else b
  }

  function Max(a: int, b: int): int
  {
    if a <= b then b else a
  }
}
