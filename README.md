# Controle de Vaga: a verified model of the parking-lot event logic

Controle de Vaga is a Raspberry Pi Pico firmware running FreeRTOS that counts cars in a
parking lot of capacity 10. Button A (GPIO 5) signals an entry and button B (GPIO 6) signals
an exit. The joystick button (GPIO 22) reboots the board into its USB bootloader. A GPIO
interrupt handler debounces the buttons. It gives the entry or exit counting semaphore (each has
a maximum count of 10 and starts at 0). Three worker tasks wait on those semaphores: two run the entry loop and one the exit loop. They update
the shared counter `eventosProcessados` and draw the count on an SSD1306 display. The entry task
sounds the buzzer when the count passes capacity and wraps the counter back to 1.

This project models that logic in Dafny and proves properties about it:

- `debounce.dfy` (module `Debounce`): the 32-bit wrap-around debounce test, and how it relates
  to the true microsecond clock.
- `semaphore.dfy` (module `Semaphore`): a counting semaphore's give, which saturates at 10.
- `occupancy.dfy` (module `Occupancy`): the 16-bit counter, the entry task's
  increment-or-wrap and the exit task's guarded decrement.
- `display.dfy` (module `Display`): the frames the tasks draw, `"Eventos: %d"` formatting and
  reading a count back from a frame.
- `machine.dfy` (module `Machine`): the whole controller as a state machine. There is one
  transition for the interrupt handler, one per iteration of each worker loop and one for the
  entry task's first idle screen. It also holds the invariants and the end-to-end properties.
- `controller.dfy` (module `ControleVaga`): class `Controller`. Its fields are the program's
  globals, and its methods update them in place just as the C code does. Each method is proved
  to match the corresponding `Machine` transition and to keep the invariant.

Outputs (frames sent to the display, buzzer beeps, the reboot request) are recorded as a
trace of `Effect` values in the state.

### Behaviour of the code that a reader might not expect (the model follows the code)

- A parking-lot counter would be expected to saturate at capacity: refuse the entry and sound
  the alert. The code (controle_vaga.c:88-92) increments instead, and when the result passes 10
  it beeps and sets the counter to 1. The model wraps, as the code does
  (`Occupancy.EntryAtCapacity`).
- The debounce accepts an edge only when the elapsed time is strictly greater than 200000 µs.
  An edge exactly 200000 µs after the last accepted one is discarded.
- There is no reset button, reset task or status light. The third button (the joystick) reboots
  the board into its USB bootloader instead.
- The comment on `DEBOUNCE_TIME` (controle_vaga.h:26) says milliseconds. The handler compares
  it with microsecond timestamps, so the window is 200 ms.

## Model

| member | source | states |
|---|---|---|
| `Debounce.Truncate` | controle_vaga.c:153 | the stored timestamp is the microsecond clock reduced to 32 bits: it differs from the clock by a multiple of 2^32 |
| `Debounce.Elapsed` | controle_vaga.c:156 | the `uint32_t` difference `now - last` is the unique 32-bit value that, added to `last`, gives `now` modulo 2^32 |
| `Debounce.TruncatedElapsed` | controle_vaga.c:153-156 | with the microsecond clock truncated to 32 bits, the handler's difference equals the real elapsed time modulo 2^32 |
| `Debounce.BounceIsRejected` | controle_vaga.c:164-171 | a second edge no more than 200000 µs after the last accepted one is discarded, including at exactly 200000 µs |
| `Debounce.SlowPressIsAccepted` | controle_vaga.c:164-171 | a second edge more than 200000 µs and less than 2^32 µs later is accepted |
| `Debounce.WrappedPressIsRejected` | controle_vaga.c:153-156 | an edge k·2^32 µs (about 71.6 minutes each) plus at most 200000 µs after the last accepted one is discarded, because the difference wraps |
| `Debounce.Accepts` | controle_vaga.c:165 | an edge is accepted exactly when (now - last) mod 2^32, the `uint32_t` difference from the button's last accepted edge, is strictly greater than 200000 µs |
| `Semaphore.Give` | controle_vaga.c:167 | a give never lifts a count of at most 10 above 10; it adds one exactly when the count was below 10, and otherwise it is dropped and the count is unchanged |
| `Semaphore.BurstFromEmpty` | controle_vaga.c:57-58 | n gives on a fresh semaphore leave min(n, 10) pending, so the excess is dropped |
| `Semaphore.BurstFrom` | controle_vaga.c:57-58 | n gives from a count p ≤ 10 leave min(p + n, 10) pending |
| `Occupancy.Increment` | controle_vaga.c:88-92 | from a count in [0, 10], an entry yields a count in [1, 10]; the alert sounds exactly when the result differs from the plain 16-bit increment |
| `Occupancy.Decrement` | controle_vaga.c:126-127 | an exit subtracts exactly one from a positive count and leaves 0 unchanged, so it never raises the count and keeps it within [0, 10] |
| `Occupancy.EntryBelowCapacity` | controle_vaga.c:88-92 | below 10, an entry adds exactly one and sounds no alert |
| `Occupancy.EntryAtCapacity` | controle_vaga.c:88-91 | at 10, an entry sounds the alert and the count becomes 1 (wrap, not saturation) |
| `Occupancy.ExitUndoesEntry` | controle_vaga.c:126-127 | below capacity, the exit update is the inverse of the entry update |
| `Occupancy.EntriesFromEmpty` | controle_vaga.c:88-92 | after n > 0 entries from an empty lot, the count is ((n-1) mod 10) + 1 and the alert has sounded (n-1) div 10 times |
| `Occupancy.EntriesFrom` | controle_vaga.c:88-92 | from a count k in [1, 10], m entries give the count and alerts that k + m entries from empty give |
| `Display.Decimal` | controle_vaga.c:97 | `%d` output is a non-empty string of digits without a leading zero, one digit long exactly for values below 10 |
| `Display.ReadDecimal` | controle_vaga.c:97 | reading back the formatted numeral gives the count that was formatted |
| `Display.FormatNumeral` | controle_vaga.c:97 | formatting the value of any numeral gives the numeral back, so formatting and reading are inverse |
| `Display.LeadingDigitBound` | controle_vaga.c:97 | a numeral of two or more digits denotes at least 10, and one with a non-zero first digit at least 1 |
| `Display.DecimalLength` | controle_vaga.c:97 | a value below 10^k formats to at most k digits |
| `Display.CountLineFitsBuffer` | controle_vaga.c:74-97 | for any `uint16_t` count, `"Eventos: %d"` plus its NUL fits the 32-byte buffer |
| `Display.DigitChar` | controle_vaga.c:97 | the character printed for a digit d < 10 is a decimal digit whose value is d |
| `Display.CountLine` | controle_vaga.c:97 | the `"Eventos: %d"` line starts with the prefix, and what follows is a numeral that reads back as the count |
| `Display.EntryFrame` | controle_vaga.c:96-100 | the frame the entry task draws displays exactly the count it was drawn for, and every text starts at column 5 |
| `Display.ExitFrame` | controle_vaga.c:129-132 | the frame the exit task draws displays exactly the count it was drawn for, and every text starts at column 5 |
| `Display.WaitingFrameShowsNoCount` | controle_vaga.c:109-111 | the idle "Aguardando evento..." frame displays no count |
| `Machine.NextOnEdge` | controle_vaga.c:152-181 | the interrupt handler never changes the counter, only appends to the outputs, keeps the invariant, and changes the entry (exit) semaphore only on a button A (B) edge, whose timestamp then becomes `now` |
| `Machine.NextOnEntryTaskStart` | controle_vaga.c:77-83 | on a running board the entry task's first screen appends exactly one frame, which shows no count, and changes nothing else; after the reboot request it changes nothing |
| `Machine.NextOnEntry` | controle_vaga.c:87-115 | an entry iteration consumes one entry signal exactly when it runs; it touches neither the timestamps, the exit semaphore nor the reboot flag, only appends to the outputs, and keeps the invariant |
| `Machine.NextOnExit` | controle_vaga.c:125-146 | an exit iteration consumes one exit signal exactly when it runs; it touches neither the timestamps, the entry semaphore nor the reboot flag, only appends to the outputs, and keeps the invariant |
| `Machine.Init` | controle_vaga.c:57-58 | the starting state satisfies the invariant, neither worker task can run (both semaphores empty), the board is running and nothing has been shown |
| `Machine.InitInv` | controle_vaga.c:57-58 | at start the counter is 0, both semaphores hold 0, and the invariant holds |
| `Machine.StepPreservesInv` | controle_vaga.c:85-181 | any single event keeps the counter in [0, 10] and both semaphores at most 10 |
| `Machine.RunPreservesInv` | controle_vaga.c:85-181 | any sequence of events keeps that invariant |
| `Machine.AlwaysInRange` | controle_vaga.c:12-13 | from power-on, after every prefix of any event sequence, 0 ≤ counter ≤ MAX and each semaphore holds at most 10 |
| `Machine.ButtonAEdge` | controle_vaga.c:164-172 | a button A edge is accepted iff (now - last_A) mod 2^32 > 200000; an accepted edge gives the entry semaphore once and sets last_A := now, and nothing else changes; a rejected edge changes nothing |
| `Machine.ButtonBEdge` | controle_vaga.c:155-163 | the same for button B, with the exit semaphore and last_B |
| `Machine.JoystickEdge` | controle_vaga.c:173-180 | an accepted joystick edge beeps, requests the reboot and halts, records the edge time in `last_time_joy` and changes nothing else; a rejected one changes nothing |
| `Machine.OtherGpioIgnored` | controle_vaga.c:152-181 | an edge on any GPIO other than 5, 6 and 22 changes nothing |
| `Machine.DebouncePerButton` | controle_vaga.h:27-29 | an edge on one button never changes another button's timestamp or its accept/reject verdict |
| `Machine.HaltedIsFinal` | controle_vaga.c:176 | after the reboot request, no sequence of events changes the state |
| `Machine.EntryBelowMax` | controle_vaga.c:87-114 | the whole new state of an entry iteration below capacity: one entry signal consumed, count up by exactly one, no alert, the new count shown and then the idle screen; nothing else changes |
| `Machine.EntryAtMax` | controle_vaga.c:87-114 | the whole new state of an entry iteration at capacity: one entry signal consumed, exactly one alert, count 1, the frame for 1 and then the idle screen; nothing else changes |
| `Machine.ExitWithCars` | controle_vaga.c:125-144 | the whole new state of an exit iteration with count > 0: one exit signal consumed, count down by exactly one, the new count shown and then the idle screen; nothing else changes |
| `Machine.ExitWhenEmpty` | controle_vaga.c:125-146 | an exit iteration at count 0 consumes its signal and changes nothing else: no decrement, no frame, no alert |
| `Machine.EntryBlockedIdle` | controle_vaga.c:87 | the entry task with an empty entry semaphore stays blocked: its step changes nothing, whatever the exit semaphore holds |
| `Machine.ExitBlockedIdle` | controle_vaga.c:125 | the exit task with an empty exit semaphore stays blocked: its step changes nothing, whatever the entry semaphore holds |
| `Machine.PressAAdmitsOneCar` | controle_vaga.c:164-170 | an accepted A press followed by an entry iteration, below capacity, adds exactly one car; the entry semaphore ends as it was, or at 9 when it was full and the press's give was dropped |
| `Machine.PressBUndoesPressA` | controle_vaga.c:155-161 | below capacity, an accepted A press and entry iteration followed by an accepted B press and exit iteration restores the count, also when a full semaphore drops one of the gives |
| `ControleVaga.Controller.constructor` | controle_vaga.c:57-58 | the globals and semaphores start in the machine's initial state |
| `ControleVaga.Controller.OnEdge` | controle_vaga.c:152-181 | the in-place interrupt handler moves the object exactly as `Machine.NextOnEdge` does and keeps the invariant |
| `ControleVaga.Controller.EntryTaskStart` | controle_vaga.c:76-83 | the entry task's first idle screen is appended to the output trace |
| `ControleVaga.Controller.EntryStep` | controle_vaga.c:85-116 | one in-place entry iteration runs iff the entry semaphore is non-empty, moves the object as `Machine.NextOnEntry` does and keeps the invariant |
| `ControleVaga.Controller.ExitStep` | controle_vaga.c:124-147 | one in-place exit iteration runs iff the exit semaphore is non-empty, moves the object as `Machine.NextOnExit` does and keeps the invariant |

## Left out

- FreeRTOS scheduling, preemption and blocking `xSemaphoreTake(..., portMAX_DELAY)`. Each loop
  iteration is one atomic step. It fires only when its semaphore is non-empty; otherwise the
  task stays blocked and the step changes nothing.
- The race between the two tasks that both run `vTaskEntrada` (controle_vaga.c:63-64) on the
  unsynchronised counter. Steps are atomic, so interleavings inside an iteration are not
  modelled. The model also allows any number of `EntryTaskStart` events at any time, including
  after loop iterations; the program has exactly two, each before its task's first iteration.
- The display mutex (controle_vaga.c:59). A take with `portMAX_DELAY` always succeeds, and an
  atomic step already draws each frame whole. The SSD1306 driver is reduced to the list of
  `ssd1306_draw_string` calls between a clear and a send.
- `vTaskDelay` (controle_vaga.c:106, 137). The count frame and the idle frame are appended one
  after the other.
- `portYIELD_FROM_ISR` is a scheduling hint with no effect on this state.
- The clock source `to_us_since_boot(get_absolute_time())`. The handler receives `now` as a
  `uint32` parameter. `Debounce.Truncate` relates it to the 64-bit clock.
- The `events` argument of `gpio_irq_handler` is not modelled, because the handler ignores it.
- `reset_usb_boot` never returns. It is modelled as the `halted` flag, after which every
  operation is a no-op. The `last_time_joy` write that follows it is kept as written, but it
  can never be observed.
- `main`: clock setup, I2C and GPIO setup, IRQ registration, task creation, `printf`, and
  `buzzer_setup_pwm`. The PWM arithmetic in lib/buzzer.c is not part of this model. Only the
  state `main` leaves behind is modelled, by the constructor and `Machine.Init`.
- `buzzer_play` (lib/buzzer.c:18-30) is recorded as an opaque `Beep` effect with its
  arguments. Its PWM calls and `sleep_ms` are not modelled.
- The unused global `vagas_preenchidas` (controle_vaga.c:14).
- A status light and a reset worker. No code for either exists in these files.
