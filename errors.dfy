/**
 * Exceptions of the Java engine, as values, and the 32-bit integer range
 * the engine's `int` fields live in.
 */
module Errors {

  /** The unchecked exceptions the engine throws. */
  datatype Exception =
    | IllegalArgument
    | IllegalState
    | IndexOutOfBounds
    | NullPointer
    | ClassCast
    | NoSuchElement
    /** Not an exception: the call never returns, because a loop it runs can never end. */
    | NeverReturns

  datatype Option<T> = None | Some(value: T)

  /** The value a Java method returns, or the exception it throws. */
  datatype Result<T> = Ok(value: T) | Fail(error: Exception) {
    predicate IsFailure() { Fail? }
    function PropagateFailure<U>(): Result<U> requires Fail? { Fail(error) }
    function Extract(): T requires Ok? { value }
  }

  /** A `void` Java method: it returns normally or throws. */
  datatype Outcome = Pass | Throw(error: Exception) {
    predicate IsFailure() { Throw? }
    function PropagateFailure(): Outcome requires Throw? { this }
  }

  const MinInt: int := -0x8000_0000
  const MaxInt: int := 0x7fff_ffff

  predicate IsInt32(x: int) { MinInt <= x <= MaxInt }

  /** Java `int` arithmetic: the mathematical value taken modulo 2^32 into the signed range. */
  function Wrap32(x: int): (r: int)
    ensures IsInt32(r)
    ensures (r - x) % 0x1_0000_0000 == 0
    ensures IsInt32(x) ==> r == x
  {
    var m := (x - MinInt) % 0x1_0000_0000;
    m + MinInt
  }

  /** `x + 1` in `int` arithmetic: `MaxInt + 1` wraps to `MinInt`. */
  function Succ32(x: int): (r: int)
    requires IsInt32(x)
    ensures IsInt32(r)
    ensures x < MaxInt ==> r == x + 1
    ensures x == MaxInt ==> r == MinInt
  {
    Wrap32(x + 1)
  }
}
