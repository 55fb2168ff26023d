/**
 * The occupancy counter `eventosProcessados` (a `uint16_t`) and the two
 * updates the worker tasks apply to it: the entry task's increment, which
 * wraps back to 1 with an alert once the count passes MAX, and the exit
 * task's decrement, which stops at zero.
 */
module Occupancy {

  /** An unsigned 16-bit value (`uint16_t`). */
  type uint16 = x: int | 0 <= x < 0x1_0000

  /** Capacity of the parking lot. */
  const MAX: nat := 10

  /** The counter after one entry event, and whether the full-lot alert sounds. */
  datatype Tally = Tally(count: uint16, alert: bool)

  /**
   * One entry event: increment (in 16-bit arithmetic), and if the result is
   * past MAX, sound the alert and restart the count at 1.
   */
  function Increment(c: uint16): (r: Tally)
    ensures c <= MAX ==> 1 <= r.count <= MAX
    ensures r.alert <==> r.count != (c + 1) % 0x1_0000
  {
    var next := (c + 1) % 0x1_0000;
    if next > MAX then Tally(1, true) else Tally(next, false)
  }

  /** One exit event: decrement if positive; at zero nothing changes. */
  function Decrement(c: uint16): (r: uint16)
    ensures c <= MAX ==> r <= MAX
    ensures r <= c && (r == c <==> c == 0)
    ensures c > 0 ==> r == c - 1
  {
    if c > 0 then c - 1 else c
  }

  /** Below capacity, an entry adds exactly one and sounds no alert. */
  lemma EntryBelowCapacity(c: uint16)
    requires c < MAX
    ensures Increment(c) == Tally(c + 1, false)
  {
  }

  /** At capacity, an entry sounds the alert and wraps the count to 1 (it does not saturate). */
  lemma EntryAtCapacity(c: uint16)
    requires c == MAX
    ensures Increment(c) == Tally(1, true)
  {
  }

  /** Below capacity, an exit undoes an entry. */
  lemma ExitUndoesEntry(c: uint16)
    requires c < MAX
    ensures Decrement(Increment(c).count) == c
  {
  }

  /** Counter and number of alerts after `n` entry events and no exit. */
  function Entries(c: uint16, n: nat): (r: (uint16, nat))
    decreases n
  {
    if n == 0 then (c, 0)
    else
      var t := Increment(c);
      var rest := Entries(t.count, n - 1);
      (rest.0, rest.1 + (if t.alert then 1 else 0))
  }

  /**
   * From an empty lot, n entries show the count cycling through 1..MAX:
   * the count is ((n - 1) mod MAX) + 1 and an alert has sounded once for
   * every MAX entries after the first MAX.
   */
  lemma {:induction false} EntriesFromEmpty(n: nat)
    ensures n == 0 ==> Entries(0, n) == (0, 0)
    ensures n > 0 ==> Entries(0, n) == ((n - 1) % MAX + 1, (n - 1) / MAX)
  {
    if n > 0 {
      EntriesFrom(1, n - 1);
    }
  }

  /** From a count k in 1..MAX, m more entries give the count and alerts of k + m entries from empty. */
  lemma {:induction false} EntriesFrom(k: uint16, m: nat)
    requires 1 <= k <= MAX
    ensures Entries(k, m) == ((k - 1 + m) % MAX + 1, (k - 1 + m) / MAX)
    decreases m
  {
    if m > 0 {
      var t := Increment(k);
      if k < MAX {
        assert t == Tally(k + 1, false);
        EntriesFrom(k + 1, m - 1);
      } else {
        assert t == Tally(1, true);
        EntriesFrom(1, m - 1);
        assert (m - 1) % MAX + 1 == (k - 1 + m) % MAX + 1;
        assert (m - 1) / MAX + 1 == (k - 1 + m) / MAX;
      }
    }
  }
}
