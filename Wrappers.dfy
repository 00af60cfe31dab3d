/** Failure-carrying results shared by every module, and the exceptions the
    modelled Python code raises. */
module Wrappers {

  /** The Python exception classes the modelled code raises. */
  datatype Error = KeyError | ValueError | TypeError | IndexError | NotImplementedError | AttributeError

  datatype Option<+T> = None | Some(value: T)

  /** A value, or the exception that the Python code raises instead. */
  datatype Result<+T> = Ok(value: T) | Err(error: Error)

  /** The outcome of a Python call that returns nothing or raises. */
  datatype Outcome = Success | Fail(error: Error)

  /** Python list indexing: a negative index counts from the end; anything
      outside `-n .. n-1` raises IndexError (None here). */
  function PyIndex(n: nat, i: int): (r: Option<nat>)
    ensures r.Some? <==> -(n as int) <= i < n
    ensures r.Some? ==> r.value < n && (if i >= 0 then r.value == i else r.value == n + i)
  {
    if 0 <= i < n then Some(i)
    else if -(n as int) <= i < 0 then Some(n + i)
    else None
  }
}
