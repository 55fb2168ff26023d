/**
 * The program's global state as one object whose fields the interrupt
 * handler and the worker tasks update in place. Each method is one atomic
 * run of the handler or one iteration of a worker loop, and is proved to
 * take the object exactly as the matching transition of `Machine` does.
 */
module ControleVaga {
  import opened Debounce
  import opened Semaphore
  import opened Display
  import opened Occupancy
  import opened Machine

  class Controller {
    var count: uint16          // eventosProcessados
    var lastA: uint32          // last_time_A
    var lastB: uint32          // last_time_B
    var lastJoy: uint32        // last_time_joy
    var entryPending: nat      // count of xContadorSem
    var exitPending: nat       // count of xSemaforoSaida
    var halted: bool           // reset_usb_boot was called
    var outputs: seq<Effect>   // what was shown on the display, beeped, or requested

    /** The object's fields as a state of the machine. */
    ghost function Abs(): State
      reads this
    {
      State(count, lastA, lastB, lastJoy, entryPending, exitPending, halted, outputs)
    }

    ghost predicate Valid()
      reads this
    {
      Inv(Abs())
    }

    /** Globals and semaphores as `main` leaves them when it starts the scheduler. */
    constructor ()
      ensures Valid() && Abs() == Init()
    {
      count := 0;
      lastA, lastB, lastJoy := 0, 0, 0;
      entryPending, exitPending := EVENT_INITIAL_COUNT, EVENT_INITIAL_COUNT;
      halted := false;
      outputs := [];
    }

    /** One falling edge on `gpio` at the truncated clock value `now`: `gpio_irq_handler`. */
    method OnEdge(gpio: uint32, now: uint32)
      requires Valid()
      modifies this
      ensures Valid()
      ensures Abs() == NextOnEdge(old(Abs()), gpio, now)
    {
      if halted {
        return;
      }
      if gpio == BUTTON_B {
        if (now - lastB) % TWO_32 > DEBOUNCE_TIME {
          if exitPending < EVENT_MAX_COUNT {
            exitPending := exitPending + 1;
          }
          lastB := now;
          return;
        }
      } else if gpio == BUTTON_A {
        if (now - lastA) % TWO_32 > DEBOUNCE_TIME {
          if entryPending < EVENT_MAX_COUNT {
            entryPending := entryPending + 1;
          }
          lastA := now;
          return;
        }
      } else if gpio == BUTTON_JOY {
        if (now - lastJoy) % TWO_32 > DEBOUNCE_TIME {
          outputs := outputs + [BootBeep];
          outputs := outputs + [RebootToBootloader];
          halted := true;
          lastJoy := now;
          return;
        }
      }
    }

    /** The idle screen an entry task draws before entering its loop. */
    method EntryTaskStart()
      requires Valid()
      modifies this
      ensures Valid()
      ensures Abs() == NextOnEntryTaskStart(old(Abs()))
    {
      if !halted {
        outputs := outputs + [Show(WaitingFrame)];
      }
    }

    /**
     * One iteration of the entry task's loop. `woke` is false when the entry
     * semaphore is empty: the task stays blocked and nothing changes.
     */
    method EntryStep() returns (woke: bool)
      requires Valid()
      modifies this
      ensures Valid()
      ensures woke == EntryReady(old(Abs()))
      ensures Abs() == NextOnEntry(old(Abs()))
    {
      woke := !halted && entryPending > 0;
      if !woke {
        return;
      }
      entryPending := entryPending - 1;
      count := (count + 1) % 0x1_0000;
      if count > MAX {
        outputs := outputs + [FullAlert];
        count := 1;
      }
      outputs := outputs + [Show(EntryFrame(count))];
      outputs := outputs + [Show(WaitingFrame)];
    }

    /**
     * One iteration of the exit task's loop. `woke` is false when the exit
     * semaphore is empty: the task stays blocked and nothing changes.
     */
    method ExitStep() returns (woke: bool)
      requires Valid()
      modifies this
      ensures Valid()
      ensures woke == ExitReady(old(Abs()))
      ensures Abs() == NextOnExit(old(Abs()))
    {
      woke := !halted && exitPending > 0;
      if !woke {
        return;
      }
      exitPending := exitPending - 1;
      if count > 0 {
        count := count - 1;
        outputs := outputs + [Show(ExitFrame(count))];
        outputs := outputs + [Show(WaitingFrame)];
      }
    }
  }
}
