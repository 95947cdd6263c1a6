/** The result of a contract call. A Soroban call that returns an error or panics is rolled back
    by the host, so a failure carries nothing but its reason. */
module Outcomes {

  datatype Result<+T, +E> = Ok(value: T) | Err(error: E) {

    predicate IsFailure() {
      Err?
    }

    function PropagateFailure<U>(): Result<U, E>
      requires Err?
    {
      Err(error)
    }

    function Extract(): T
      requires Ok?
    {
      value
    }
  }

  datatype Option<+T> = None | Some(value: T)

  /** How a call ends that answers r: it leaves the specified state, or it fails with the specified
      reason and leaves the state it found. */
  ghost predicate Ends<S, T, E>(before: S, spec: Result<S, E>, r: Result<T, E>, after: S) {
    match spec
    case Ok(next) => r.Ok? && after == next
    case Err(e) => r == Err(e) && after == before
  }
}

/** Machine arithmetic shared by the contracts: the release profile compiles with overflow checks,
    so a result outside the integer type aborts the call. */
module Machine {

  const I64_LIMIT: int := 0x8000_0000_0000_0000
  const U64_SIZE: int := 0x1_0000_0000_0000_0000
  const I128_LIMIT: int := 0x8000_0000_0000_0000_0000_0000_0000_0000

  predicate FitsI64(x: int) {
    -I64_LIMIT <= x < I64_LIMIT
  }

  predicate FitsI128(x: int) {
    -I128_LIMIT <= x < I128_LIMIT
  }

  /** Rust's integer division truncates toward zero. */
  function Quot(a: int, b: int): (q: int)
    requires b != 0
  {
    if (a >= 0) == (b > 0) || a == 0 then Abs(a) / Abs(b) else -(Abs(a) / Abs(b))
  }

  function Abs(x: int): nat {
    if x < 0 then -x else x
  }
}
