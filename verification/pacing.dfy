/** getStepLengthMs: the pause between two steps, in milliseconds, derived from
    the speed level. */
module Pacing {

  /** 1000 ms at speed 1, 200 ms less per further level, never under 200 ms.
      The speed is a uint8_t, so the int32_t intermediate cannot overflow. */
  function StepLengthMs(speed: int): (ms: int)
    requires 0 <= speed < 256
    ensures ms >= 200
    ensures speed == 1 ==> ms == 1000
    ensures 1 <= speed ==> ms <= 1000
    ensures speed >= 5 ==> ms == 200
    ensures ms % 200 == 0
  {
    var stepLength := 1000 - 200 * (speed - 1);
    if stepLength < 200 then 200 else stepLength
  }

  /** A faster game never waits longer between steps. */
  lemma StepLengthNonIncreasing(slow: int, fast: int)
    requires 0 <= slow <= fast < 256
    ensures StepLengthMs(fast) <= StepLengthMs(slow)
  {
  }
}
