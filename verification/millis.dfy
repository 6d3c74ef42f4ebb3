/**
  Arduino time: `millis()` is an `unsigned long` (32 bits) millisecond
  counter, and the firmware measures intervals by unsigned subtraction.
 */
module Millis {
  import opened Ascii

  /** `now - before` as `unsigned long` subtraction computes it (modulo 2^32). */
  function Since(now: uint32, before: uint32): (d: uint32)
    ensures now >= before ==> d == now - before
    ensures now < before ==> d == now - before + UINT_LIMIT
  {
    (now - before) % UINT_LIMIT
  }
}
