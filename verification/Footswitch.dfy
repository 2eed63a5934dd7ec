/**
 The per-switch footswitch state machine of the HaroldPCB board: debounce,
 click counting and the latched long / double / double-long events.

 One switch is a value of `SwitchState`; `Service` is what one pass of the
 board's service loop does to one switch, given the debounced-to-be raw level
 and the current millisecond clock. Time stamps are unsigned 32-bit values and
 every time difference wraps modulo 2^32, as `uint32_t` subtraction does.
 */
module Footswitch {

  const Modulus: int := 0x1_0000_0000

  type U32 = x: int | 0 <= x < 0x1_0000_0000
  type U16 = x: int | 0 <= x < 0x1_0000
  type U8 = x: int | 0 <= x < 0x100

  /** `now - since` computed in unsigned 32-bit arithmetic. */
  function Elapsed(now: U32, since: U32): (r: U32)
    ensures (since + r) % Modulus == now
    ensures since <= now ==> r == now - since
    ensures now < since ==> r == Modulus - since + now
  {
    (now - since) % Modulus
  }

  /** Debounce, long-press and multi-click thresholds, in milliseconds. */
  datatype Timing = Timing(debounceMs: U32, longpressMs: U32, multiclickGapMs: U32)

  /** The index-i entries of the board's seven per-switch arrays. */
  datatype SwitchState = SwitchState(
    pressed: bool,
    lastChange: U32,
    lastPressTime: U32,
    clickCount: nat,
    evtLong: bool,
    evtDouble: bool,
    evtDoubleLong: bool)

  /** A switch as the board starts: released, all stamps and counts zero, no events. */
  const Released: SwitchState := SwitchState(false, 0, 0, 0, false, false, false)

  /** A raw level is taken as the new debounced state only when it differs from
      the current one and the debounce time has passed since the last change. */
  predicate Accepts(s: SwitchState, raw: bool, now: U32, t: Timing)
  {
    raw != s.pressed && Elapsed(now, s.lastChange) >= t.debounceMs
  }

  /** One service of one switch. */
  function Service(s: SwitchState, raw: bool, now: U32, t: Timing): (r: SwitchState)
    // a rejected level changes nothing at all
    ensures !Accepts(s, raw, now, t) ==> r == s
    // an accepted level flips the debounced state and stamps the change
    ensures Accepts(s, raw, now, t) ==> r.pressed == raw && r.pressed != s.pressed && r.lastChange == now
    // an accepted press stamps the press time and counts exactly one click
    ensures Accepts(s, raw, now, t) && raw ==>
      r.lastPressTime == now && r.clickCount == s.clickCount + 1
    // an accepted release keeps the press time and clears the click count
    ensures Accepts(s, raw, now, t) && !raw ==>
      r.lastPressTime == s.lastPressTime && r.clickCount == 0
    // each event flag is latched: it stays set, and becomes set exactly on its condition
    ensures r.evtLong == (s.evtLong ||
      (Accepts(s, raw, now, t) && !raw && s.clickCount == 1 &&
       Elapsed(now, s.lastPressTime) >= t.longpressMs))
    ensures r.evtDoubleLong == (s.evtDoubleLong ||
      (Accepts(s, raw, now, t) && !raw && s.clickCount == 2 &&
       Elapsed(now, s.lastPressTime) >= t.longpressMs))
    ensures r.evtDouble == (s.evtDouble ||
      (Accepts(s, raw, now, t) && raw && s.clickCount + 1 == 2 &&
       Elapsed(now, s.lastPressTime) <= t.multiclickGapMs))
  {
    if !Accepts(s, raw, now, t) then s
    else if raw then
      var gap := Elapsed(now, s.lastPressTime);
      var count := s.clickCount + 1;
      s.(pressed := true, lastChange := now, lastPressTime := now, clickCount := count,
         evtDouble := if gap <= t.multiclickGapMs && count == 2 then true else s.evtDouble)
    else
      var held := Elapsed(now, s.lastPressTime);
      s.(pressed := false, lastChange := now, clickCount := 0,
         evtLong := if held >= t.longpressMs && s.clickCount == 1 then true else s.evtLong,
         evtDoubleLong :=
           if held >= t.longpressMs && s.clickCount == 2 then true
           else s.evtDoubleLong)
  }

  /** One reading handed to a service pass: the pressed level and the clock. */
  datatype Reading = Reading(raw: bool, now: U32)

  /** A switch after a sequence of service passes, the first reading first. */
  function Run(s: SwitchState, readings: seq<Reading>, t: Timing): SwitchState
    decreases |readings|
  {
    if |readings| == 0 then s
    else Run(Service(s, readings[0].raw, readings[0].now, t), readings[1..], t)
  }

  /** What holds of every switch that starts as `Released`: its click count is one
      exactly while it is pressed and zero otherwise, and neither multi-click
      event has ever been latched. */
  ghost predicate Consistent(s: SwitchState)
  {
    s.clickCount == (if s.pressed then 1 else 0) && !s.evtDouble && !s.evtDoubleLong
  }

  lemma ReleasedIsConsistent()
    ensures Consistent(Released)
  {
  }

  /** Accepted changes alternate between press and release and every release
      clears the count, so one service keeps a consistent switch consistent. */
  lemma ServiceKeepsConsistent(s: SwitchState, raw: bool, now: U32, t: Timing)
    requires Consistent(s)
    ensures Consistent(Service(s, raw, now, t))
    ensures Service(s, raw, now, t).clickCount <= 1
  {
  }

  lemma {:induction false} RunKeepsConsistent(s: SwitchState, readings: seq<Reading>, t: Timing)
    requires Consistent(s)
    ensures Consistent(Run(s, readings, t))
    decreases |readings|
  {
    if |readings| > 0 {
      ServiceKeepsConsistent(s, readings[0].raw, readings[0].now, t);
      RunKeepsConsistent(Service(s, readings[0].raw, readings[0].now, t), readings[1..], t);
    }
  }

  /** Whatever the readings and the timing, a switch that starts released never
      reaches a click count of two, so the double-press and double-long-press
      events can never be reported. */
  lemma NoMultiClickEvents(readings: seq<Reading>, t: Timing)
    ensures Run(Released, readings, t).clickCount <= 1
    ensures !Run(Released, readings, t).evtDouble
    ensures !Run(Released, readings, t).evtDoubleLong
  {
    RunKeepsConsistent(Released, readings, t);
  }

  /** Once a level has been accepted, servicing again with the same level changes
      nothing, however much later. */
  lemma AcceptedLevelIsStable(s: SwitchState, raw: bool, now: U32, later: U32, t: Timing)
    requires Accepts(s, raw, now, t)
    ensures Service(Service(s, raw, now, t), raw, later, t) == Service(s, raw, now, t)
  {
  }

  /** After an accepted change, every level is ignored until the debounce time has passed. */
  lemma DebounceWindow(s: SwitchState, raw: bool, now: U32, raw2: bool, now2: U32, t: Timing)
    requires Accepts(s, raw, now, t)
    requires Elapsed(now2, now) < t.debounceMs
    ensures Service(Service(s, raw, now, t), raw2, now2, t) == Service(s, raw, now, t)
  {
  }

  /** From any released switch that keeps the click-count invariant, whatever its
      stamps, a press and a release that both clear the debounce time and are at
      least the long-press time apart latch the long-press event. The times are
      `Elapsed` differences, so this holds across the wrap of the 32-bit clock. */
  lemma HeldPressLatchesLong(s: SwitchState, pressAt: U32, releaseAt: U32, t: Timing)
    requires Consistent(s) && !s.pressed
    requires Elapsed(pressAt, s.lastChange) >= t.debounceMs
    requires Elapsed(releaseAt, pressAt) >= t.debounceMs
    requires Elapsed(releaseAt, pressAt) >= t.longpressMs
    ensures Run(s, [Reading(true, pressAt), Reading(false, releaseAt)], t).evtLong
  {
    var readings := [Reading(true, pressAt), Reading(false, releaseAt)];
    var pressed := Service(s, true, pressAt, t);
    assert pressed.clickCount == 1 && pressed.lastPressTime == pressAt && pressed.pressed;
    var released := Service(pressed, false, releaseAt, t);
    assert released.evtLong;
    assert Run(released, [], t) == released;
    assert readings[1..][1..] == [];
    assert Run(pressed, readings[1..], t) == released;
  }
}
