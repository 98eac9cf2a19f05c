/** Failure-compatible result types and the byte type shared by every model. */
module Wrappers {

  /** An octet. */
  type byte = x: int | 0 <= x < 256

  /** Rust's u64. */
  type u64 = x: int | 0 <= x < 0x1_0000_0000_0000_0000

  /** Rust's u32. */
  type u32 = x: int | 0 <= x < 0x1_0000_0000

  /** Rust's i64. */
  type i64 = x: int | -0x8000_0000_0000_0000 <= x < 0x8000_0000_0000_0000

  const U64_LIMIT: int := 0x1_0000_0000_0000_0000

  datatype Option<+T> = None | Some(value: T) {
    predicate IsFailure() {
      None?
    }

    function PropagateFailure<U>(): Option<U>
      requires None?
    {
      None
    }

    function Extract(): T
      requires Some?
    {
      value
    }

    function GetOr(default: T): T {
      if Some? then value else default
    }

    /** `ok_or`: the value, or the given error. */
    function OkOr<E>(error: E): Result<T, E> {
      if Some? then Success(value) else Failure(error)
    }
  }

  datatype Result<+T, +E> = Success(value: T) | Failure(error: E) {
    predicate IsFailure() {
      Failure?
    }

    function PropagateFailure<U>(): Result<U, E>
      requires Failure?
    {
      Failure(error)
    }

    function Extract(): T
      requires Success?
    {
      value
    }
  }

  /** `checked_add` on u64. */
  function CheckedAdd(a: u64, b: u64): Option<u64> {
    if a + b < U64_LIMIT then Some(a + b) else None
  }

  /** `checked_mul` on u64. */
  function CheckedMul(a: u64, b: u64): Option<u64> {
    if 0 <= a * b < U64_LIMIT then Some(a * b) else None
  }

  function Max(a: int, b: int): int {
    if a < b then b else a
  }

  function Min(a: int, b: int): int {
    if b < a then b else a
  }
}
