/** 256-bit unsigned integers as the `uint` crate's `U256` behaves in the weighted-pool
    math: `+` and `*` abort on overflow, `-` aborts on underflow, `/` aborts on a zero
    divisor. Each abort is modelled as an explicit error value instead of a crash. */
module Uint {

  /** 2^256: one more than the largest `U256`. */
  const LIMIT: int := 0x1_0000_0000_0000_0000_0000_0000_0000_0000_0000_0000_0000_0000_0000_0000_0000_0000

  type U256 = x: int | 0 <= x < LIMIT

  /** Why a computation aborted. */
  datatype Error =
    | Overflow        // `+` or `*` past 2^256 - 1
    | Underflow       // `-` below zero
    | DivisionByZero  // `/` by zero
    | LengthMismatch  // an `assert_eq!` on vector lengths

  /** The outcome of a computation that may abort; usable with `:-`. */
  datatype Result<+T> = Ok(value: T) | Err(error: Error) {
    predicate IsFailure() { Err? }

    function PropagateFailure<U>(): Result<U>
      requires Err?
    {
      Err(error)
    }

    function Extract(): T
      requires Ok?
    {
      value
    }
  }

  /** Checked `a + b`. */
  function Add(a: U256, b: U256): (r: Result<U256>)
    ensures r.Ok? <==> a + b < LIMIT
    ensures r.Err? ==> r.error == Overflow
    ensures r.Ok? ==> r.value == a + b
  {
    if a + b < LIMIT then Ok(a + b) else Err(Overflow)
  }

  /** Checked `a - b`. */
  function Sub(a: U256, b: U256): (r: Result<U256>)
    ensures r.Ok? <==> b <= a
    ensures r.Err? ==> r.error == Underflow
    ensures r.Ok? ==> r.value + b == a
  {
    if b <= a then Ok(a - b) else Err(Underflow)
  }

  /** `a.saturating_sub(b)`: the clamped difference, never below zero. */
  function SatSub(a: U256, b: U256): (r: U256)
    ensures r <= a
    ensures b <= a ==> r + b == a
    ensures a < b ==> r == 0
  {
    if b <= a then a - b else 0
  }
}
