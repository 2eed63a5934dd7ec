/**
 The HaroldPCB board facade: the footswitch service pass over the board's
 per-switch arrays, the read-and-clear footswitch event accessors, the
 bounds-checked control accessors and the sample-rate / block-size defaults
 of `Init`.

 Hardware is outside the model: the millisecond clock and the pin levels read
 by `digitalRead` are parameters, and the LED pins driven by `digitalWrite`
 are a sequence of output levels.
 */
module Board {
  import opened Footswitch

  const NumFootswitches: nat := 2
  const NumToggles: nat := 4
  const NumLeds: nat := 2

  const DefaultSampleRate: U32 := 48000
  const DefaultBlockSize: U16 := 8

  /** A configuration value where zero stands for "use the default". */
  function NonZeroOr(v: int, fallback: int): (r: int)
    requires fallback != 0
    ensures r != 0
    ensures v != 0 ==> r == v
    ensures v == 0 ==> r == fallback
  {
    if v != 0 then v else fallback
  }

  /** A toggle reads ON when its pin is pulled low; an index past the last toggle reads OFF.
      `pinHigh` holds the level `digitalRead` reports for each toggle pin. */
  function ReadToggle(index: U8, pinHigh: seq<bool>): (r: bool)
    requires |pinHigh| == NumToggles
    ensures index >= NumToggles ==> !r
    ensures index < NumToggles ==> (r <==> !pinHigh[index])
  {
    if index >= NumToggles then false else !pinHigh[index]
  }

  /** The LED output levels after `SetLED`: the indexed LED is driven to `on`,
      every other LED keeps its level, and an index past the last LED drives nothing. */
  function SetLED(levels: seq<bool>, index: U8, on: bool): (r: seq<bool>)
    requires |levels| == NumLeds
    ensures |r| == |levels|
    ensures index >= NumLeds ==> r == levels
    ensures index < NumLeds ==> r[index] == on
    ensures forall j :: 0 <= j < |r| && j != index ==> r[j] == levels[j]
  {
    if index >= NumLeds then levels else levels[index := on]
  }

  class HaroldPCB {
    var sampleRate: U32
    var blockSize: U16
    var timing: Timing

    // the per-switch arrays, entry i belonging to footswitch i
    const pressed: array<bool>
    const lastChange: array<U32>
    const lastPressTime: array<U32>
    const clickCount: array<nat>
    const evtLong: array<bool>
    const evtDouble: array<bool>
    const evtDoubleLong: array<bool>

    ghost predicate Valid()
    {
      pressed.Length == NumFootswitches &&
      lastChange.Length == NumFootswitches &&
      lastPressTime.Length == NumFootswitches &&
      clickCount.Length == NumFootswitches &&
      evtLong.Length == NumFootswitches &&
      evtDouble.Length == NumFootswitches &&
      evtDoubleLong.Length == NumFootswitches &&
      pressed != evtLong && pressed != evtDouble && pressed != evtDoubleLong &&
      evtLong != evtDouble && evtLong != evtDoubleLong && evtDouble != evtDoubleLong &&
      lastChange != lastPressTime
    }

    /** Footswitch i as a value: its entries of the seven arrays. */
    ghost function Switch(i: nat): SwitchState
      reads pressed, lastChange, lastPressTime, clickCount, evtLong, evtDouble, evtDoubleLong
      requires Valid() && i < NumFootswitches
    {
      SwitchState(pressed[i], lastChange[i], lastPressTime[i], clickCount[i],
                  evtLong[i], evtDouble[i], evtDoubleLong[i])
    }

    /** Every footswitch satisfies the click-count invariant of `Footswitch.Consistent`. */
    ghost predicate AllConsistent()
      reads pressed, lastChange, lastPressTime, clickCount, evtLong, evtDouble, evtDoubleLong
      requires Valid()
    {
      forall i :: 0 <= i < NumFootswitches ==> Consistent(Switch(i))
    }

    /** A board as it comes up: every switch released with zeroed stamps, counts and events. */
    constructor (t: Timing)
      ensures Valid()
      ensures fresh(pressed) && fresh(lastChange) && fresh(lastPressTime) && fresh(clickCount)
      ensures fresh(evtLong) && fresh(evtDouble) && fresh(evtDoubleLong)
      ensures sampleRate == DefaultSampleRate && blockSize == DefaultBlockSize && timing == t
      ensures forall i :: 0 <= i < NumFootswitches ==> Switch(i) == Released
      ensures AllConsistent()
    {
      sampleRate, blockSize, timing := DefaultSampleRate, DefaultBlockSize, t;
      pressed := new bool[NumFootswitches](_ => false);
      lastChange := new U32[NumFootswitches](_ => 0);
      lastPressTime := new U32[NumFootswitches](_ => 0);
      clickCount := new nat[NumFootswitches](_ => 0);
      evtLong := new bool[NumFootswitches](_ => false);
      evtDouble := new bool[NumFootswitches](_ => false);
      evtDoubleLong := new bool[NumFootswitches](_ => false);
      new;
      ReleasedIsConsistent();
    }

    /** Stores the sample rate and block size, a zero selecting 48000 Hz and 8 samples. */
    method Init(requestedRate: U32, requestedBlock: U16) returns (ok: bool)
      requires Valid()
      modifies this`sampleRate, this`blockSize
      ensures Valid() && (old(AllConsistent()) ==> AllConsistent())
      ensures ok
      ensures sampleRate == NonZeroOr(requestedRate, DefaultSampleRate)
      ensures blockSize == NonZeroOr(requestedBlock, DefaultBlockSize)
    {
      sampleRate := NonZeroOr(requestedRate, DefaultSampleRate);
      blockSize := NonZeroOr(requestedBlock, DefaultBlockSize);
      ok := true;
    }

    /** One service pass over all footswitches at clock `now`; `pinHigh[i]` is the
        level `digitalRead` reports for switch i, pressed when low. Each switch
        takes exactly one `Footswitch.Service` step, independently of the others. */
    method ServiceFootswitches(now: U32, pinHigh: seq<bool>)
      requires Valid()
      requires |pinHigh| == NumFootswitches
      modifies pressed, lastChange, lastPressTime, clickCount, evtLong, evtDouble, evtDoubleLong
      ensures Valid()
      ensures forall i :: 0 <= i < NumFootswitches ==>
        Switch(i) == Service(old(Switch(i)), !pinHigh[i], now, timing)
      ensures old(AllConsistent()) ==> AllConsistent()
    {
      for i := 0 to NumFootswitches
        invariant forall j :: 0 <= j < i ==>
          Switch(j) == Service(old(Switch(j)), !pinHigh[j], now, timing)
        invariant forall j :: i <= j < NumFootswitches ==> Switch(j) == old(Switch(j))
      {
        ServiceOne(i, !pinHigh[i], now);
      }
      if old(AllConsistent()) {
        forall j | 0 <= j < NumFootswitches
          ensures Consistent(Switch(j))
        {
          ServiceKeepsConsistent(old(Switch(j)), !pinHigh[j], now, timing);
        }
      }
    }

    /** The body of the service loop for switch i, with `rawLevel` true when the
        switch's pin reads low. Only the index-i entries of the arrays change. */
    method ServiceOne(i: nat, rawLevel: bool, now: U32)
      requires Valid() && i < NumFootswitches
      modifies pressed, lastChange, lastPressTime, clickCount, evtLong, evtDouble, evtDoubleLong
      ensures Valid()
      ensures Switch(i) == Service(old(Switch(i)), rawLevel, now, timing)
      ensures forall j :: 0 <= j < NumFootswitches && j != i ==> Switch(j) == old(Switch(j))
    {
      ghost var before := Switch(i);
      if rawLevel != pressed[i] && Elapsed(now, lastChange[i]) >= timing.debounceMs {
        pressed[i] := rawLevel;
        lastChange[i] := now;
        if rawLevel {
          var gap := Elapsed(now, lastPressTime[i]);
          lastPressTime[i] := now;
          clickCount[i] := clickCount[i] + 1;
          if gap <= timing.multiclickGapMs && clickCount[i] == 2 {
            evtDouble[i] := true;
          }
        } else {
          var held := Elapsed(now, lastPressTime[i]);
          if held >= timing.longpressMs {
            if clickCount[i] == 1 {
              evtLong[i] := true;
            } else if clickCount[i] == 2 {
              evtDoubleLong[i] := true;
            }
          }
          clickCount[i] := 0;
        }
      }
      assert Switch(i) == Service(before, rawLevel, now, timing);
    }

    /** The debounced state of a switch; an index past the last switch reads released. */
    function IsPressed(index: U8): (r: bool)
      reads pressed
      requires Valid()
      ensures index >= NumFootswitches ==> !r
      ensures index < NumFootswitches ==> r == Switch(index).pressed
    {
      if index >= NumFootswitches then false else pressed[index]
    }

    /** Always the negation of `IsPressed`, so an index past the last switch reads released. */
    function IsReleased(index: U8): (r: bool)
      reads pressed
      requires Valid()
      ensures index >= NumFootswitches ==> r
      ensures index < NumFootswitches ==> r == !Switch(index).pressed
    {
      !IsPressed(index)
    }

    /** Reports and clears the latched long-press event of a switch. */
    method IsLongPressed(index: U8) returns (f: bool)
      requires Valid()
      modifies evtLong
      ensures Valid()
      ensures index >= NumFootswitches ==> !f && evtLong[..] == old(evtLong[..])
      ensures index < NumFootswitches ==>
        f == old(evtLong[index]) && evtLong[..] == old(evtLong[..])[index := false]
      ensures old(AllConsistent()) ==> AllConsistent()
    {
      if index >= NumFootswitches {
        return false;
      }
      f := evtLong[index];
      evtLong[index] := false;
      assert forall j :: 0 <= j < NumFootswitches ==>
        Switch(j) == old(Switch(j)).(evtLong := evtLong[j]);
      assert old(AllConsistent()) ==> old(Consistent(Switch(index)));
    }

    /** Reports and clears the latched double-press event of a switch. */
    method IsDoublePressed(index: U8) returns (f: bool)
      requires Valid()
      modifies evtDouble
      ensures Valid()
      ensures index >= NumFootswitches ==> !f && evtDouble[..] == old(evtDouble[..])
      ensures index < NumFootswitches ==>
        f == old(evtDouble[index]) && evtDouble[..] == old(evtDouble[..])[index := false]
      ensures old(AllConsistent()) ==> AllConsistent() && !f
    {
      if index >= NumFootswitches {
        return false;
      }
      f := evtDouble[index];
      evtDouble[index] := false;
      assert forall j :: 0 <= j < NumFootswitches ==>
        Switch(j) == old(Switch(j)).(evtDouble := evtDouble[j]);
      assert old(AllConsistent()) ==> old(Consistent(Switch(index)));
    }

    /** Reports and clears the latched double-long-press event of a switch. */
    method IsDoubleLongPressed(index: U8) returns (f: bool)
      requires Valid()
      modifies evtDoubleLong
      ensures Valid()
      ensures index >= NumFootswitches ==> !f && evtDoubleLong[..] == old(evtDoubleLong[..])
      ensures index < NumFootswitches ==>
        f == old(evtDoubleLong[index]) && evtDoubleLong[..] == old(evtDoubleLong[..])[index := false]
      ensures old(AllConsistent()) ==> AllConsistent() && !f
    {
      if index >= NumFootswitches {
        return false;
      }
      f := evtDoubleLong[index];
      evtDoubleLong[index] := false;
      assert forall j :: 0 <= j < NumFootswitches ==>
        Switch(j) == old(Switch(j)).(evtDoubleLong := evtDoubleLong[j]);
      assert old(AllConsistent()) ==> old(Consistent(Switch(index)));
    }

    method SetFootswitchTiming(t: Timing)
      requires Valid()
      modifies this`timing
      ensures Valid() && (old(AllConsistent()) ==> AllConsistent())
      ensures timing == t
    {
      timing := t;
    }

    method SetDebounce(ms: U16)
      requires Valid()
      modifies this`timing
      ensures Valid() && (old(AllConsistent()) ==> AllConsistent())
      ensures timing == old(timing).(debounceMs := ms)
    {
      timing := timing.(debounceMs := ms);
    }

    method SetLongPress(ms: U16)
      requires Valid()
      modifies this`timing
      ensures Valid() && (old(AllConsistent()) ==> AllConsistent())
      ensures timing == old(timing).(longpressMs := ms)
    {
      timing := timing.(longpressMs := ms);
    }

    method SetMultiClickGap(ms: U16)
      requires Valid()
      modifies this`timing
      ensures Valid() && (old(AllConsistent()) ==> AllConsistent())
      ensures timing == old(timing).(multiclickGapMs := ms)
    {
      timing := timing.(multiclickGapMs := ms);
    }
  }

  /** Asking for an event twice with no service pass in between reports it at most once. */
  method ReadLongPressTwice(board: HaroldPCB, index: U8) returns (first: bool, second: bool)
    requires board.Valid()
    modifies board.evtLong
    ensures first == (index < NumFootswitches && old(board.evtLong[index]))
    ensures !second
  {
    first := board.IsLongPressed(index);
    second := board.IsLongPressed(index);
  }
}
