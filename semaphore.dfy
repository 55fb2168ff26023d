/**
 * The two counting semaphores that carry entry and exit events from the
 * interrupt handler to the worker tasks. Each is created with a maximum
 * count of 10 and an initial count of 0; a give from the interrupt handler
 * when the count is already at its maximum fails and changes nothing.
 */
module Semaphore {

  /** Maximum count both event semaphores are created with. */
  const EVENT_MAX_COUNT: nat := 10

  /** Count both event semaphores are created with. */
  const EVENT_INITIAL_COUNT: nat := 0

  /**
   * Pending count after one give from the interrupt handler: one more,
   * unless the semaphore is already at its maximum count, where the give
   * is dropped.
   */
  function Give(pending: nat): (r: nat)
    ensures pending <= EVENT_MAX_COUNT ==> r <= EVENT_MAX_COUNT
    ensures r == pending + 1 <==> pending < EVENT_MAX_COUNT
    ensures r != pending + 1 ==> r == pending
  {
    if pending < EVENT_MAX_COUNT then pending + 1 else pending
  }

  /** Pending count after `n` gives and no take. */
  function GiveTimes(pending: nat, n: nat): nat
    decreases n
  {
    if n == 0 then pending else GiveTimes(Give(pending), n - 1)
  }

  /** Any burst of gives on a fresh semaphore leaves min(n, 10) pending: the excess is dropped. */
  lemma {:induction false} BurstFromEmpty(n: nat)
    ensures GiveTimes(EVENT_INITIAL_COUNT, n) == if n < EVENT_MAX_COUNT then n else EVENT_MAX_COUNT
  {
    BurstFrom(EVENT_INITIAL_COUNT, n);
  }

  lemma {:induction false} BurstFrom(pending: nat, n: nat)
    requires pending <= EVENT_MAX_COUNT
    ensures GiveTimes(pending, n) == if pending + n < EVENT_MAX_COUNT then pending + n else EVENT_MAX_COUNT
    decreases n
  {
    if n > 0 {
      BurstFrom(Give(pending), n - 1);
    }
  }
}
