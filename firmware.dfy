/**
 * The timer-interrupt handler `tim3` of the button firmware: persistent
 * debounce state and the LED output, updated once per handler run. The timer
 * is configured for a 1 kHz update, but the handler never clears the update
 * flag, so runs are counted here, not milliseconds.
 */
module Firmware {
  import opened Debounce

  /** Number of level changes along `levels`, starting from `level0`. */
  function Toggles(level0: bool, levels: seq<bool>): nat
    decreases |levels|
  {
    if levels == [] then 0
    else
      var p := levels[..|levels| - 1];
      Toggles(level0, p) + (if levels[|levels| - 1] != Last(level0, p) then 1 else 0)
  }

  /** The level at the end of `levels`, or `level0` when nothing happened. */
  function Last(level0: bool, levels: seq<bool>): bool {
    if levels == [] then level0 else levels[|levels| - 1]
  }

  /** An output that started at `level0` and changed `Toggles` times ends inverted iff that count is odd. */
  lemma {:induction false} ToggleParity(level0: bool, levels: seq<bool>)
    ensures Last(level0, levels) == (level0 != (Toggles(level0, levels) % 2 == 1))
    decreases |levels|
  {
    if levels != [] {
      ToggleParity(level0, levels[..|levels| - 1]);
    }
  }

  /**
   * The state `tim3` keeps between interrupts: the debounce manager (the
   * handler's persistent `state`) and the LED output level.
   */
  class Tim3 {
    var manager: ButtonManager
    var led: bool

    /** LED level before the first handler run. */
    ghost const initialLed: bool
    /** Every pin sample fed so far, oldest first. */
    ghost var samples: seq<bool>
    /** LED level after each of those handler runs. */
    ghost var levels: seq<bool>

    /**
     * The manager is what the samples leave behind, and the LED has changed
     * level once for every press reported.
     */
    ghost predicate Valid()
      reads this
    {
      manager == Run(New(), samples)
      && |levels| == |samples|
      && led == Last(initialLed, levels)
      && Toggles(initialLed, levels) == Presses(New(), samples)
    }

    /** The handler's initial state, `ButtonManager::UpState(0)`, with the LED at `ledLevel`. */
    constructor (ledLevel: bool)
      ensures Valid()
      ensures manager == New() && led == ledLevel && initialLed == ledLevel
      ensures samples == [] && levels == []
    {
      manager := UpState(0);
      led := ledLevel;
      initialLed := ledLevel;
      samples := [];
      levels := [];
    }

    /** `is_pressed`: count the sample in place, then flip the variant at the threshold. */
    method IsPressed(value: bool) returns (r: bool)
      requires manager.cnt < 0xFF
      modifies this`manager
      ensures manager == Step(old(manager), value).next
      ensures r == Step(old(manager), value).pressed
    {
      match manager {
        case UpState(cnt) =>
          if value { manager := UpState(0); } else { manager := UpState(cnt + 1); }
        case DownState(cnt) =>
          if value { manager := DownState(cnt + 1); } else { manager := DownState(0); }
      }
      match manager {
        case UpState(cnt) =>
          if cnt >= Threshold {
            manager := DownState(0);
            return true;
          }
        case DownState(cnt) =>
          if cnt >= Threshold {
            manager := UpState(0);
          }
      }
      return false;
    }

    /** One timer interrupt: debounce the sampled pin level, toggle the LED on a press. */
    method Tick(value: bool)
      requires Valid()
      modifies this
      ensures Valid()
      ensures samples == old(samples) + [value] && levels == old(levels) + [led]
      ensures manager == Step(old(manager), value).next
      // the LED is inverted exactly when the press is reported
      ensures led == (old(led) != Step(old(manager), value).pressed)
    {
      RunSnoc(New(), samples, value);
      var pressed := IsPressed(value);
      if pressed {
        if !led {
          led := true;
        } else {
          led := false;
        }
      }
      assert (levels + [led])[..|levels|] == levels;
      samples := samples + [value];
      levels := levels + [led];
    }
  }

  /**
   * The firmware running: after start-up `tim3` runs once per sample of the
   * pin levels `pins`. Returns the final LED level and
   * the number of times the LED was seen to change, which is the number of
   * presses the debounce filter reported.
   */
  method RunFirmware(pins: seq<bool>, ledLevel: bool) returns (led: bool, flips: nat)
    ensures flips == Presses(New(), pins)
    ensures led == (ledLevel != (flips % 2 == 1))
  {
    var h := new Tim3(ledLevel);
    flips := 0;
    var i := 0;
    while i < |pins|
      invariant 0 <= i <= |pins|
      invariant h.Valid() && h.initialLed == ledLevel
      invariant h.samples == pins[..i]
      invariant flips == Toggles(ledLevel, h.levels)
    {
      var before := h.led;
      h.Tick(pins[i]);
      if h.led != before {
        flips := flips + 1;
      }
      assert pins[..i + 1] == pins[..i] + [pins[i]];
      i := i + 1;
    }
    assert pins[..|pins|] == pins;
    ToggleParity(ledLevel, h.levels);
    led := h.led;
  }
}
