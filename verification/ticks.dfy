/**
 * Unsigned 32-bit arithmetic on millisecond ticks.
 *
 * The clock (`SDL_GetTicks`) and every `uint` field that stores one of its
 * readings is an unsigned 32-bit value, so subtraction and addition on them
 * wrap around modulo 2^32. The clock itself is not modelled: every operation
 * that reads it takes the reading as a parameter `now`.
 */
module Ticks {

  const TickModulus: nat := 0x1_0000_0000

  /** The C `uint` (and `Uint32`) type. */
  type uint32 = n: nat | n < TickModulus

  /** `now - since` evaluated on unsigned 32-bit operands: the number of
      ticks that brings `since` forward to `now`, even across a wrap. */
  function Elapsed(now: uint32, since: uint32): (e: uint32)
    ensures (since + e) % TickModulus == now
    ensures since <= now ==> e == now - since
    ensures now < since ==> e == now + TickModulus - since
  {
    (now - since) % TickModulus
  }

  /** `a + b` evaluated on unsigned 32-bit operands. */
  function WrappingAdd(a: uint32, b: uint32): (s: uint32)
    ensures a + b < TickModulus ==> s == a + b
    ensures TickModulus <= a + b ==> s == a + b - TickModulus && s < a
  {
    (a + b) % TickModulus
  }

  /** Measuring from `since` a reading taken `d` ticks later gives back `d`,
      whether or not the clock wrapped in between. */
  lemma ElapsedAfter(since: uint32, d: uint32)
    ensures Elapsed(WrappingAdd(since, d), since) == d
  {
  }
}
