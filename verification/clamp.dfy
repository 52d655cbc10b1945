/** The clamp-with-warning helper every command value goes through before it
    reaches the servos. The helper lives outside the environment module; it is
    modelled here by its observable behaviour: the returned value, and whether a
    warning was logged (the log text itself is left out). */
module Clamping {

  /** What `clamp_and_warn` hands back: the value to use, and whether it logged
      a warning because the input lay outside the bounds. */
  datatype Clamped = Clamped(value: real, warned: bool)

  predicate OutOfBounds(x: real, lo: real, hi: real) {
    x < lo || hi < x
  }

  function Abs(x: real): real {
    if x < 0.0 then -x else x
  }

  /** Clamp `x` into `[lo, hi]`, checking the lower bound first. */
  function ClampAndWarn(x: real, lo: real, hi: real): (c: Clamped)
    ensures c.warned <==> OutOfBounds(x, lo, hi)
    ensures !c.warned ==> c.value == x
    ensures x < lo ==> c.value == lo
    ensures !(x < lo) && hi < x ==> c.value == hi
    ensures lo <= hi ==> lo <= c.value <= hi
  {
    if x < lo then Clamped(lo, true)
    else if x > hi then Clamped(hi, true)
    else Clamped(x, false)
  }

  /** With consistent bounds the clamped value is the point of `[lo, hi]`
      nearest to `x`: no admissible `y` is closer. */
  lemma ClampIsNearest(x: real, lo: real, hi: real, y: real)
    requires lo <= y <= hi
    ensures Abs(ClampAndWarn(x, lo, hi).value - x) <= Abs(y - x)
  {
  }

  /** Clamping an already clamped value changes nothing and warns no more. */
  lemma ClampIdempotent(x: real, lo: real, hi: real)
    requires lo <= hi
    ensures ClampAndWarn(ClampAndWarn(x, lo, hi).value, lo, hi) == Clamped(ClampAndWarn(x, lo, hi).value, false)
  {
  }
}
