/**
 * Debounce filter of the GPIO interrupt handler.
 *
 * Timestamps are microseconds since boot truncated to 32 bits, and the
 * elapsed time since the last accepted edge is an unsigned 32-bit
 * subtraction, so it wraps around modulo 2^32.
 */
module Debounce {

  const TWO_32: int := 0x1_0000_0000

  /** An unsigned 32-bit value (`uint32_t`). */
  type uint32 = x: int | 0 <= x < 0x1_0000_0000

  /** Quiet window in microseconds (200 ms). */
  const DEBOUNCE_TIME: uint32 := 200000

  /** Truncation of a 64-bit microsecond clock to the `uint32_t` the handler stores. */
  function Truncate(t: nat): (r: uint32)
    ensures (t - r) % TWO_32 == 0
  {
    t % TWO_32
  }

  /**
   * `now - last` computed in `uint32_t`: the unique 32-bit value that,
   * added to `last`, gives `now` modulo 2^32.
   */
  function Elapsed(now: uint32, last: uint32): (d: uint32)
    ensures (last + d) % TWO_32 == now
  {
    if now >= last then now - last else TWO_32 - (last - now)
  }

  /** An edge at `now` is accepted when strictly more than the quiet window has elapsed. */
  predicate Accepts(now: uint32, last: uint32)
    ensures Accepts(now, last) <==> (now - last) % TWO_32 > DEBOUNCE_TIME
  {
    Elapsed(now, last) > DEBOUNCE_TIME
  }

  /**
   * On the true (untruncated) clock, the handler's wrapped difference is the
   * real elapsed time reduced modulo 2^32.
   */
  lemma TruncatedElapsed(tLast: nat, tNow: nat)
    requires tLast <= tNow
    ensures Elapsed(Truncate(tNow), Truncate(tLast)) == (tNow - tLast) % TWO_32
  {
    var a, b := tLast / TWO_32, tNow / TWO_32;
    var ra, rb := tLast % TWO_32, tNow % TWO_32;
    assert tLast == a * TWO_32 + ra;
    assert tNow == b * TWO_32 + rb;
    var d := tNow - tLast;
    if rb >= ra {
      assert d == (b - a) * TWO_32 + (rb - ra);
      ModuloOfMultiplePlus(b - a, rb - ra);
    } else {
      assert d == (b - a - 1) * TWO_32 + (TWO_32 - (ra - rb));
      ModuloOfMultiplePlus(b - a - 1, TWO_32 - (ra - rb));
    }
  }

  lemma ModuloOfMultiplePlus(k: int, r: int)
    requires 0 <= r < TWO_32
    ensures (k * TWO_32 + r) % TWO_32 == r
  {
  }

  /** A second edge within the quiet window of the last accepted one is discarded. */
  lemma BounceIsRejected(tLast: nat, tNow: nat)
    requires tLast <= tNow <= tLast + DEBOUNCE_TIME
    ensures !Accepts(Truncate(tNow), Truncate(tLast))
  {
    TruncatedElapsed(tLast, tNow);
  }

  /** A second edge more than the quiet window (and less than one clock wrap) later is accepted. */
  lemma SlowPressIsAccepted(tLast: nat, tNow: nat)
    requires tLast + DEBOUNCE_TIME < tNow < tLast + TWO_32
    ensures Accepts(Truncate(tNow), Truncate(tLast))
  {
    TruncatedElapsed(tLast, tNow);
  }

  /**
   * Because the difference wraps, an edge that comes a whole number of
   * 32-bit clock periods (about 71.6 minutes each) after the last accepted
   * one, give or take the quiet window, is discarded as a bounce.
   */
  lemma WrappedPressIsRejected(tLast: nat, k: nat, delta: nat)
    requires delta <= DEBOUNCE_TIME
    ensures !Accepts(Truncate(tLast + k * TWO_32 + delta), Truncate(tLast))
  {
    TruncatedElapsed(tLast, tLast + k * TWO_32 + delta);
    ModuloOfMultiplePlus(k, delta);
  }
}
