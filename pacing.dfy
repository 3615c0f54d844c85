// The broadcast pacing gate of jackwsmeter's main loop: once per iteration the
// microsecond field of the clock, as an `unsigned int`, is compared with the
// time of the last broadcast request, `oldus`, using 32-bit unsigned
// subtraction, and the gate re-arms when it fires.
module Pacing {

  /** C `unsigned int`. */
  newtype uint32 = x: int | 0 <= x < 0x1_0000_0000

  /** The threshold in microseconds (100 ms). */
  const IntervalUs: uint32 := 100000

  /** C unsigned subtraction `a - b`: a negative difference wraps around by 2^32. */
  function Minus(a: uint32, b: uint32): uint32
  {
    if a >= b then a - b else (a as int - b as int + 0x1_0000_0000) as uint32
  }

  /** Unsigned subtraction is subtraction modulo 2^32. */
  lemma MinusIsModular(a: uint32, b: uint32)
    ensures Minus(a, b) as int == (a as int - b as int) % 0x1_0000_0000
  {
  }

  /** The gate of the main loop: it fires when the 32-bit unsigned difference between the clock
      field and the last request time exceeds 100000, that is exactly when the elapsed time, taken
      modulo 2^32, exceeds 100 ms. */
  predicate Fires(nowUs: uint32, oldus: uint32): (fires: bool)
    ensures fires <==> (nowUs as int - oldus as int) % 0x1_0000_0000 > 100000
  {
    MinusIsModular(nowUs, oldus);
    Minus(nowUs, oldus) > IntervalUs
  }

  /** The value of `oldus` after the gate has been consulted at `nowUs`: the current time when the
      gate fired and the old value otherwise. Either way the gate is shut again at `nowUs`. */
  function Rearmed(nowUs: uint32, oldus: uint32): (r: uint32)
    ensures Fires(nowUs, oldus) ==> r == nowUs
    ensures !Fires(nowUs, oldus) ==> r == oldus
    ensures !Fires(nowUs, r)
  {
    if Fires(nowUs, oldus) then nowUs else oldus
  }

  /** When the clock field goes backwards, as `tv_usec` does at every second
      boundary, the gate fires and re-arms: the unsigned difference wraps to a
      huge value. Both values are microsecond fields, so below one million. */
  lemma BackwardJumpFires(nowUs: uint32, oldus: uint32)
    requires nowUs < oldus < 1000000
    ensures Fires(nowUs, oldus) && Rearmed(nowUs, oldus) == nowUs
  {
  }

  /** Within 100 ms after the last broadcast request, without a wrap of the
      clock field, the gate stays shut and `oldus` is kept. */
  lemma QuietWithinInterval(nowUs: uint32, oldus: uint32)
    requires oldus <= nowUs && nowUs as int <= oldus as int + 100000
    ensures !Fires(nowUs, oldus) && Rearmed(nowUs, oldus) == oldus
  {
  }

  /** More than 100 ms after the last broadcast request, without a wrap of the
      clock field, the gate fires and re-arms at the current time. */
  lemma FiresAfterInterval(nowUs: uint32, oldus: uint32)
    requires oldus as int + 100000 < nowUs as int
    ensures Fires(nowUs, oldus) && Rearmed(nowUs, oldus) == nowUs
  {
  }

  /** The clock field restarts at every second boundary, so a request fires
      when a boundary lies between it and the previous one even though at
      most 100 ms have passed: the gate measures field differences, not
      elapsed time. */
  lemma SecondBoundaryFiresEarly(nowUs: uint32, oldus: uint32)
    requires nowUs < oldus < 1000000
    requires nowUs as int + 1000000 - oldus as int <= 100000
    ensures Fires(nowUs, oldus) && Rearmed(nowUs, oldus) == nowUs
  {
  }
}
