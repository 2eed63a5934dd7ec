# HaroldPCB footswitch engine in Dafny

This project models the control-side logic of the HaroldPCB pedal board
facade (`src/HaroldPCB.cpp`). The centre of it is the footswitch service
pass. On each pass, every footswitch's raw pin level is debounced against a
minimum time since the last accepted change. Clicks are counted on accepted
presses. A long-press or double-long-press event is latched on release when
the switch was held long enough. A double-press event is latched on a quick
second press. Around it sit the read-and-clear event accessors, the
bounds-checked `FootswitchIsPressed` / `FootswitchIsReleased` /
`ReadToggle` / `SetLED`, and the zero-means-default handling of `Init`.

- `Footswitch.dfy`: one switch as a value (`SwitchState`). `Service` is one
  service step of one switch. `Run` is a sequence of steps. The lemmas are
  about these. All time differences are unsigned 32-bit subtractions that
  wrap modulo 2^32 (`Elapsed`), as `uint32_t` arithmetic does.
- `Board.dfy`: the `HaroldPCB` class. Its seven per-switch arrays are
  updated in place by `ServiceFootswitches`. That method is proved to give
  every switch exactly one `Footswitch.Service` step, switch by switch.
  The clock (`millis`) and the pin levels (`digitalRead`) are parameters.
  The LED pins written by `digitalWrite` are a sequence of output levels.

The main result is `Footswitch.NoMultiClickEvents`. A change is accepted
only when the raw level differs from the debounced state, so accepted
changes alternate between press and release. Every accepted release resets
the click count to 0. So a switch that starts released has a click count
of 1 while pressed and 0 otherwise. The count never reaches 2. The
double-press branch (`src/HaroldPCB.cpp:65-66`) and the double-long-press
branch (`src/HaroldPCB.cpp:74`) can never fire, and `FootswitchIsDoublePressed`
and `FootswitchIsDoubleLongPressed` always return false on a board in this
state (`Board.HaroldPCB.IsDoublePressed`). The model keeps both branches as
written and proves them dead. It does not invent a working multi-click
behaviour.

The counts of switches, toggles and LEDs (`HPCB_NUM_FOOTSWITCHES`,
`HPCB_NUM_TOGGLES`, `HPCB_NUM_LEDS` in the code) are not declared in
`src/HaroldPCB.cpp` or `src/HaroldPCB.h`. They are taken as `kNumFS = 2`, `kNumToggles = 4` and
`kNumLEDs = 2` from `src/HaroldPCB.h:9-12`. The header also declares fields
under other names than the code uses (`fs_pins_`, `pot_smooth_`,
`sample_rate_hz_`); the model follows `src/HaroldPCB.cpp`.

## Model

| member | source | states |
|---|---|---|
| `Footswitch.Elapsed` | src/HaroldPCB.cpp:54 | the time since a stamp, as unsigned 32-bit subtraction: adding it back to the stamp modulo 2^32 gives `now`, and it is `now - since + 2^32` when the clock has wrapped |
| `Footswitch.Service` | src/HaroldPCB.cpp:54-78 | a level that equals the debounced state, or comes before the debounce time has passed, changes nothing; an accepted level flips the state and stamps `now`; an accepted press stamps the press time and adds exactly one click; an accepted release resets the count to 0; each event flag stays latched and becomes set exactly on its condition (long: release with count 1 held at least the long-press time; double-long: the same with count 2; double: press that makes the count 2 within the multi-click gap) |
| `Footswitch.ServiceKeepsConsistent` | src/HaroldPCB.cpp:54-76 | one service step keeps the invariant "count is 1 while pressed, 0 while released, no double or double-long event latched", so the count stays at most 1 |
| `Footswitch.RunKeepsConsistent` | src/HaroldPCB.cpp:46-80 | any sequence of service steps keeps that invariant |
| `Footswitch.NoMultiClickEvents` | src/HaroldPCB.cpp:63-76 | from the released start state, for every sequence of readings and every timing, the click count is at most 1 and the double-press and double-long-press events are never latched |
| `Footswitch.AcceptedLevelIsStable` | src/HaroldPCB.cpp:54-56 | once a level is accepted, servicing again with the same level changes nothing, at any later time |
| `Footswitch.DebounceWindow` | src/HaroldPCB.cpp:54-57 | after an accepted change, any level is ignored until the debounce time has passed since that change |
| `Footswitch.HeldPressLatchesLong` | src/HaroldPCB.cpp:59-73 | from any released switch keeping the click-count invariant, whatever its stamps, a press and a release that each clear the debounce time and are at least the long-press time apart latch the long-press event; times are wrapped 32-bit differences, so this holds across the wrap of the millisecond clock |
| `Footswitch.ReleasedIsConsistent` | src/HaroldPCB.cpp:63-76 | a released switch with zero count and no events satisfies the click-count invariant |
| `Board.NonZeroOr` | src/HaroldPCB.cpp:84-85 | the stored value is never zero: a non-zero request is kept, zero selects the fallback |
| `Board.ReadToggle` | src/HaroldPCB.cpp:142-146 | an index past the last toggle reads OFF; otherwise the toggle reads ON exactly when its pin is low |
| `Board.SetLED` | src/HaroldPCB.cpp:188-192 | an index past the last LED drives nothing; otherwise that LED takes the requested level and every other LED keeps its level |
| `Board.HaroldPCB.constructor` | src/HaroldPCB.h:69-70 | a new board has 48000 Hz, 8-sample blocks (the header's initialisers, see "Left out"), the given timing, and every switch released with zeroed stamps, counts and events, which satisfies the click-count invariant |
| `Board.HaroldPCB.Init` | src/HaroldPCB.cpp:82-99 | stores the sample rate with 0 meaning 48000 and the block size with 0 meaning 8, returns true, and keeps the board invariant and the click-count invariant |
| `Board.HaroldPCB.ServiceFootswitches` | src/HaroldPCB.cpp:46-80 | after the pass, every switch equals one `Footswitch.Service` step of its old state with its own pin level, and the click-count invariant is kept |
| `Board.HaroldPCB.ServiceOne` | src/HaroldPCB.cpp:52-78 | the loop body for switch i performs the `Footswitch.Service` step on the index-i entries and leaves every other switch's entries unchanged |
| `Board.HaroldPCB.IsPressed` | src/HaroldPCB.cpp:148-152 | an index past the last switch reads not pressed; otherwise the debounced state |
| `Board.HaroldPCB.IsReleased` | src/HaroldPCB.cpp:154-157 | the negation of `IsPressed`, so an index past the last switch reads released |
| `Board.HaroldPCB.IsLongPressed` | src/HaroldPCB.cpp:159-165 | returns the latched long-press flag and clears only that entry; an index past the last switch returns false and changes nothing |
| `Board.HaroldPCB.IsDoublePressed` | src/HaroldPCB.cpp:167-173 | returns the latched double-press flag and clears only that entry; out of range returns false and changes nothing; on a board that keeps the click-count invariant it always returns false |
| `Board.HaroldPCB.IsDoubleLongPressed` | src/HaroldPCB.cpp:175-181 | as `IsDoublePressed`, for the double-long-press flag |
| `Board.ReadLongPressTwice` | src/HaroldPCB.cpp:159-165 | two consecutive long-press queries with no service pass in between return the latched flag and then false |
| `Board.HaroldPCB.SetFootswitchTiming` | src/HaroldPCB.cpp:183 | replaces the whole timing; keeps the board invariant and the click-count invariant |
| `Board.HaroldPCB.SetDebounce` | src/HaroldPCB.cpp:184 | replaces the debounce time and keeps the other thresholds; keeps the board invariant and the click-count invariant |
| `Board.HaroldPCB.SetLongPress` | src/HaroldPCB.cpp:185 | replaces the long-press time and keeps the other thresholds; keeps the board invariant and the click-count invariant |
| `Board.HaroldPCB.SetMultiClickGap` | src/HaroldPCB.cpp:186 | replaces the multi-click gap and keeps the other thresholds; keeps the board invariant and the click-count invariant |

## Left out

- The delay, reverb, mode-sweetening, parameter-smoothing, bypass and limiter engine of the effect sketches: none of it is in `src/HaroldPCB.cpp` or `src/HaroldPCB.h`, and it is floating-point signal processing in any case.
- `_BlockCB`, `StartAudio`, `StopAudio` and the `DAISY.*` calls in `Init` (src/HaroldPCB.cpp:9-22, 94-96, 101-109): audio-driver plumbing through a global callback pointer and a float output gain.
- `_applyCurve`, `_serviceMaster`, `ReadPot`, `ReadPotMapped`, `ReadPotSmoothed` and `SetLevel` (src/HaroldPCB.cpp:24-44, 117-140; src/HaroldPCB.h:57): floating-point curves (`powf`, `log10f`, `expf`) over analog reads.
- `Idle` (src/HaroldPCB.cpp:111-115): it runs `_serviceMaster`, left out above, and then the footswitch pass, which is `Board.HaroldPCB.ServiceFootswitches`.
- Pin setup in `Init` and the `digitalRead`, `digitalWrite`, `analogRead` and `millis` calls: hardware I/O. The clock and pin levels are parameters; LED outputs are a sequence of levels.
- The global `_g_instance` pointer set by `Init` (src/HaroldPCB.cpp:86): it only serves the audio callback.
- `Footswitch.Service`: the click count is an unbounded natural number. The width of `fs_click_count_` is not declared in `src/HaroldPCB.cpp` or `src/HaroldPCB.h`. This does not weaken any result: on a board that starts released the count is proved to stay at 0 or 1.
- `Footswitch.Timing`: the type of the timing struct `HPCB_FootswitchTiming` is not declared in `src/HaroldPCB.cpp` or `src/HaroldPCB.h`. Its three thresholds are modelled as unsigned 32-bit values; the 16-bit setter arguments fit in them.
- `Board.HaroldPCB.constructor`: the initial contents of the per-switch arrays are not given in `src/HaroldPCB.cpp` or `src/HaroldPCB.h`; the model takes them as zero, as for an object in static storage. The starting values of `sr_` and `block_` are not given there either; the model takes 48000 and 8 from the header's initialisers of the differently named `sample_rate_hz_` and `block_size_` (src/HaroldPCB.h:69-70). `Init` overwrites both before any use.
- `src/ThirdPartyDaisy.h` (vendor includes) and `src/shims/sdram_stub.c` (a stub that returns 0) hold no logic.
