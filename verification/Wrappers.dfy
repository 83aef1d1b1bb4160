module Wrappers {
  datatype Option<+T> = None | Some(value: T)

  datatype Result<+T, +E> = Ok(value: T) | Err(error: E)

  /** `int(...)` of a clock reading truncates towards zero. */
  function Truncate(now: real): (n: int)
    ensures now >= 0.0 ==> n as real <= now < n as real + 1.0
    ensures now < 0.0 ==> n as real - 1.0 < now <= n as real
  {
    if now >= 0.0 then now.Floor else -((-now).Floor)
  }
}
