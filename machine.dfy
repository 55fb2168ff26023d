/**
 * The parking-lot controller as a state machine. A state holds the
 * occupancy counter, the three per-button debounce timestamps, the pending
 * counts of the entry and exit semaphores, whether a reboot to the USB
 * bootloader was requested, and the trace of outputs (frames sent to the
 * display, buzzer beeps, the reboot).
 *
 * Three kinds of transition: an interrupt for a falling edge on a GPIO, one
 * iteration of the entry task's loop, one iteration of the exit task's
 * loop. Each worker iteration is atomic and fires only when its semaphore
 * has a pending signal (otherwise the task stays blocked and nothing
 * happens).
 */
module Machine {
  import opened Debounce
  import opened Semaphore
  import opened Display
  import opened Occupancy

  const BUTTON_A: uint32 := 5
  const BUTTON_B: uint32 := 6
  const BUTTON_JOY: uint32 := 22
  const BUZZER_PIN: nat := 21

  /** One observable output of the controller. */
  datatype Effect =
    | Show(frame: Frame)
    | Beep(pin: nat, times: nat, freqHz: nat, durationMs: nat)
    | RebootToBootloader

  /** The beep the entry task plays when the count passes capacity. */
  const FullAlert: Effect := Beep(BUZZER_PIN, 1, 1000, 500)

  /** The beep the interrupt handler plays before rebooting. */
  const BootBeep: Effect := Beep(BUZZER_PIN, 1, 1000, 100)

  datatype State = State(
    count: uint16,          // eventosProcessados
    lastA: uint32,          // last_time_A
    lastB: uint32,          // last_time_B
    lastJoy: uint32,        // last_time_joy
    entryPending: nat,      // count of xContadorSem
    exitPending: nat,       // count of xSemaforoSaida
    halted: bool,           // reset_usb_boot was called and never returns
    outputs: seq<Effect>)

  /** Something that can happen to the controller. */
  datatype Event =
    | Edge(gpio: uint32, now: uint32)   // falling edge; `now` is the truncated microsecond clock
    | EntryTaskStart                    // an entry task draws its first idle screen
    | EntryWake                         // one iteration of the entry task's loop
    | ExitWake                          // one iteration of the exit task's loop

  /**
   * The state once the scheduler starts: everything zero, nothing shown.
   * The invariant holds and both worker tasks start blocked.
   */
  function Init(): (r: State)
    ensures Inv(r) && !EntryReady(r) && !ExitReady(r) && !r.halted && r.outputs == []
  {
    State(0, 0, 0, 0, EVENT_INITIAL_COUNT, EVENT_INITIAL_COUNT, false, [])
  }

  /** Counter in range and both semaphores within their maximum count. */
  ghost predicate Inv(s: State)
  {
    s.count <= MAX && s.entryPending <= EVENT_MAX_COUNT && s.exitPending <= EVENT_MAX_COUNT
  }

  /**
   * The GPIO interrupt handler. It never touches the counter, only appends
   * to the outputs, keeps the invariant, and changes a semaphore only for
   * that semaphore's button, whose timestamp then becomes `now`.
   */
  function NextOnEdge(s: State, gpio: uint32, now: uint32): (r: State)
    ensures Inv(s) ==> Inv(r)
    ensures r.count == s.count && s.outputs <= r.outputs
    ensures r.entryPending != s.entryPending ==> gpio == BUTTON_A && r.lastA == now
    ensures r.exitPending != s.exitPending ==> gpio == BUTTON_B && r.lastB == now
  {
    if s.halted then s
    else if gpio == BUTTON_B then
      if Accepts(now, s.lastB) then s.(exitPending := Give(s.exitPending), lastB := now) else s
    else if gpio == BUTTON_A then
      if Accepts(now, s.lastA) then s.(entryPending := Give(s.entryPending), lastA := now) else s
    else if gpio == BUTTON_JOY then
      if Accepts(now, s.lastJoy) then
        s.(outputs := s.outputs + [BootBeep, RebootToBootloader], halted := true, lastJoy := now)
      else s
    else s
  }

  /**
   * An entry task, before its loop: the idle screen. On a running board
   * exactly one frame, which shows no count, is appended to the output
   * trace and nothing else changes; after the reboot request nothing does.
   */
  function NextOnEntryTaskStart(s: State): (r: State)
    ensures s.halted ==> r == s
    ensures !s.halted ==> |r.outputs| == |s.outputs| + 1
    ensures r.(outputs := s.outputs) == s
    ensures s.outputs <= r.outputs && |r.outputs| <= |s.outputs| + 1
    ensures |r.outputs| > |s.outputs| ==> r.outputs[|s.outputs|].Show? && ShownCount(r.outputs[|s.outputs|].frame) == None
  {
    WaitingFrameShowsNoCount();
    if s.halted then s else s.(outputs := s.outputs + [Show(WaitingFrame)])
  }

  predicate EntryReady(s: State)
  {
    !s.halted && s.entryPending > 0
  }

  predicate ExitReady(s: State)
  {
    !s.halted && s.exitPending > 0
  }

  /**
   * One iteration of the entry task's loop. It consumes one entry signal
   * exactly when it runs, touches neither the timestamps, the exit
   * semaphore nor the reboot flag, only appends to the outputs, and keeps
   * the invariant.
   */
  function NextOnEntry(s: State): (r: State)
    ensures Inv(s) ==> Inv(r)
    ensures r.entryPending == if EntryReady(s) then s.entryPending - 1 else s.entryPending
    ensures r == s.(count := r.count, entryPending := r.entryPending, outputs := r.outputs)
    ensures s.outputs <= r.outputs
  {
    if !EntryReady(s) then s
    else
      var t := Increment(s.count);
      var alert := if t.alert then [FullAlert] else [];
      s.(entryPending := s.entryPending - 1, count := t.count,
         outputs := s.outputs + alert + [Show(EntryFrame(t.count)), Show(WaitingFrame)])
  }

  /**
   * One iteration of the exit task's loop. It consumes one exit signal
   * exactly when it runs, touches neither the timestamps, the entry
   * semaphore nor the reboot flag, only appends to the outputs, and keeps
   * the invariant.
   */
  function NextOnExit(s: State): (r: State)
    ensures Inv(s) ==> Inv(r)
    ensures r.exitPending == if ExitReady(s) then s.exitPending - 1 else s.exitPending
    ensures r == s.(count := r.count, exitPending := r.exitPending, outputs := r.outputs)
    ensures s.outputs <= r.outputs
  {
    if !ExitReady(s) then s
    else if s.count > 0 then
      var c := Decrement(s.count);
      s.(exitPending := s.exitPending - 1, count := c,
         outputs := s.outputs + [Show(ExitFrame(c)), Show(WaitingFrame)])
    else s.(exitPending := s.exitPending - 1)
  }

  function Step(s: State, e: Event): State
  {
    match e
    case Edge(gpio, now) => NextOnEdge(s, gpio, now)
    case EntryTaskStart => NextOnEntryTaskStart(s)
    case EntryWake => NextOnEntry(s)
    case ExitWake => NextOnExit(s)
  }

  /** The state after a sequence of events, in order. */
  function Run(s: State, evs: seq<Event>): State
    decreases |evs|
  {
    if evs == [] then s else Run(Step(s, evs[0]), evs[1..])
  }

  // ---------------------------------------------------------------------
  // The counter and the semaphores stay in range.

  lemma InitInv()
    ensures Inv(Init())
    ensures Init().count == 0 && Init().entryPending == 0 && Init().exitPending == 0
  {
  }

  lemma StepPreservesInv(s: State, e: Event)
    requires Inv(s)
    ensures Inv(Step(s, e))
  {
    match e
    case Edge(gpio, now) =>
    case EntryTaskStart =>
    case EntryWake =>
    case ExitWake =>
  }

  lemma {:induction false} RunPreservesInv(s: State, evs: seq<Event>)
    requires Inv(s)
    ensures Inv(Run(s, evs))
    decreases |evs|
  {
    if evs != [] {
      StepPreservesInv(s, evs[0]);
      RunPreservesInv(Step(s, evs[0]), evs[1..]);
    }
  }

  /**
   * From power-on, after every prefix of any sequence of events, the counter
   * is in [0, MAX] and each semaphore holds at most 10 pending signals.
   */
  lemma AlwaysInRange(evs: seq<Event>)
    ensures forall k :: 0 <= k <= |evs| ==> Inv(Run(Init(), evs[..k]))
  {
    forall k | 0 <= k <= |evs|
      ensures Inv(Run(Init(), evs[..k]))
    {
      RunPreservesInv(Init(), evs[..k]);
    }
  }

  // ---------------------------------------------------------------------
  // The interrupt handler.

  /**
   * Button A: the edge is accepted iff the 32-bit wrapped time since the
   * last accepted A edge exceeds 200000 us; then one signal is given to the
   * entry semaphore (dropped if it already holds 10) and the timestamp
   * becomes `now`. Nothing else changes, and a rejected edge changes nothing.
   */
  lemma ButtonAEdge(s: State, now: uint32)
    requires !s.halted
    ensures var s' := NextOnEdge(s, BUTTON_A, now);
      if (now - s.lastA) % TWO_32 > DEBOUNCE_TIME
      then s' == s.(entryPending := Give(s.entryPending), lastA := now)
      else s' == s
  {
  }

  /** Button B: as button A, with the exit semaphore and `last_time_B`. */
  lemma ButtonBEdge(s: State, now: uint32)
    requires !s.halted
    ensures var s' := NextOnEdge(s, BUTTON_B, now);
      if (now - s.lastB) % TWO_32 > DEBOUNCE_TIME
      then s' == s.(exitPending := Give(s.exitPending), lastB := now)
      else s' == s
  {
  }

  /**
   * The joystick button: an accepted edge beeps, requests the reboot to the
   * bootloader and halts the controller; it gives no semaphore and leaves
   * the counter alone.
   */
  lemma JoystickEdge(s: State, now: uint32)
    requires !s.halted
    ensures var s' := NextOnEdge(s, BUTTON_JOY, now);
      if (now - s.lastJoy) % TWO_32 > DEBOUNCE_TIME
      then s' == s.(outputs := s.outputs + [BootBeep, RebootToBootloader], halted := true, lastJoy := now)
      else s' == s
  {
  }

  /** An edge on any other GPIO changes nothing. */
  lemma OtherGpioIgnored(s: State, gpio: uint32, now: uint32)
    requires gpio != BUTTON_A && gpio != BUTTON_B && gpio != BUTTON_JOY
    ensures NextOnEdge(s, gpio, now) == s
  {
  }

  /** Debounce state is per button: an edge on one button never changes another's timestamp or verdict. */
  lemma DebouncePerButton(s: State, gpio: uint32, now: uint32, later: uint32)
    ensures var s' := NextOnEdge(s, gpio, now);
      (gpio != BUTTON_A ==> s'.lastA == s.lastA && (Accepts(later, s'.lastA) <==> Accepts(later, s.lastA)))
      && (gpio != BUTTON_B ==> s'.lastB == s.lastB && (Accepts(later, s'.lastB) <==> Accepts(later, s.lastB)))
      && (gpio != BUTTON_JOY ==> s'.lastJoy == s.lastJoy)
  {
  }

  /** After the reboot request nothing the program does has any effect. */
  lemma {:induction false} HaltedIsFinal(s: State, evs: seq<Event>)
    requires s.halted
    ensures Run(s, evs) == s
    decreases |evs|
  {
    if evs != [] {
      assert Step(s, evs[0]) == s;
      HaltedIsFinal(s, evs[1..]);
    }
  }

  // ---------------------------------------------------------------------
  // The worker tasks.

  /**
   * Entry below capacity: one signal consumed, count up by exactly one, no
   * alert; the display shows the new count, then the idle screen.
   */
  lemma EntryBelowMax(s: State)
    requires EntryReady(s) && s.count < MAX
    ensures NextOnEntry(s) == s.(count := s.count + 1, entryPending := s.entryPending - 1,
      outputs := s.outputs + [Show(EntryFrame(s.count + 1)), Show(WaitingFrame)])
    ensures ShownCount(EntryFrame(s.count + 1)) == Some(s.count + 1)
  {
    EntryBelowCapacity(s.count);
  }

  /**
   * Entry at capacity: one signal consumed, exactly one alert, the count
   * wraps to 1 (it does not saturate at MAX).
   */
  lemma EntryAtMax(s: State)
    requires EntryReady(s) && s.count == MAX
    ensures NextOnEntry(s) == s.(count := 1, entryPending := s.entryPending - 1,
      outputs := s.outputs + [FullAlert, Show(EntryFrame(1)), Show(WaitingFrame)])
  {
    EntryAtCapacity(s.count);
  }

  /** Exit with cars in the lot: one signal consumed, count down by exactly one, display updated. */
  lemma ExitWithCars(s: State)
    requires ExitReady(s) && s.count > 0
    ensures NextOnExit(s) == s.(count := s.count - 1, exitPending := s.exitPending - 1,
      outputs := s.outputs + [Show(ExitFrame(s.count - 1)), Show(WaitingFrame)])
    ensures ShownCount(ExitFrame(s.count - 1)) == Some(s.count - 1)
  {
  }

  /** Exit on an empty lot: the signal is consumed and nothing else happens (no display, no alert). */
  lemma ExitWhenEmpty(s: State)
    requires ExitReady(s) && s.count == 0
    ensures NextOnExit(s) == s.(exitPending := s.exitPending - 1)
  {
  }

  /** The entry task with an empty semaphore stays blocked: its step changes nothing. */
  lemma EntryBlockedIdle(s: State)
    requires s.entryPending == 0
    ensures NextOnEntry(s) == s
  {
  }

  /** The exit task with an empty semaphore stays blocked: its step changes nothing. */
  lemma ExitBlockedIdle(s: State)
    requires s.exitPending == 0
    ensures NextOnExit(s) == s
  {
  }

  /**
   * End to end: an accepted press of button A on a lot below capacity,
   * followed by the entry task's iteration, admits exactly one car. The
   * entry semaphore ends as it was, or one below its maximum when it was
   * full and the press's give was dropped.
   */
  lemma PressAAdmitsOneCar(s: State, now: uint32)
    requires Inv(s) && !s.halted && s.count < MAX
    requires Accepts(now, s.lastA)
    ensures var s' := Run(s, [Edge(BUTTON_A, now), EntryWake]);
      s'.count == s.count + 1 && s'.lastA == now
      && s'.entryPending == if s.entryPending < EVENT_MAX_COUNT then s.entryPending else EVENT_MAX_COUNT - 1
  {
    var s1 := NextOnEdge(s, BUTTON_A, now);
    assert s1.entryPending == Give(s.entryPending) && s1.entryPending > 0;
    assert Run(s, [Edge(BUTTON_A, now), EntryWake]) == Run(s1, [EntryWake]);
    EntryBelowMax(s1);
  }

  /**
   * End to end: an accepted press of button B followed by the exit task's
   * iteration undoes an accepted press of button A followed by the entry
   * task's iteration, when the lot was below capacity, even when a full
   * semaphore drops one of the gives.
   */
  lemma PressBUndoesPressA(s: State, nowA: uint32, nowB: uint32)
    requires !s.halted && s.count < MAX
    requires Accepts(nowA, s.lastA) && Accepts(nowB, s.lastB)
    ensures Run(s, [Edge(BUTTON_A, nowA), EntryWake, Edge(BUTTON_B, nowB), ExitWake]).count == s.count
  {
    var evs := [Edge(BUTTON_A, nowA), EntryWake, Edge(BUTTON_B, nowB), ExitWake];
    var s1 := NextOnEdge(s, BUTTON_A, nowA);
    var s2 := NextOnEntry(s1);
    EntryBelowMax(s1);
    var s3 := NextOnEdge(s2, BUTTON_B, nowB);
    assert s3.exitPending > 0 && s3.count == s.count + 1;
    ExitWithCars(s3);
    assert Run(s, evs) == Run(s1, evs[1..]);
    assert Run(s1, evs[1..]) == Run(s2, evs[2..]);
    assert Run(s2, evs[2..]) == Run(s3, evs[3..]);
    assert Run(s3, evs[3..]) == NextOnExit(s3);
  }
}
