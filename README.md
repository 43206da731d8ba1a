# Button debounce firmware, modelled in Dafny

This firmware runs on an STM32F103 board. A push button sits on pin PB0 and an LED on pin PC13. Timer TIM3 is configured for a 1 kHz update interrupt (src/main.rs:60-62). Each time the handler `tim3` runs, it samples the button pin and feeds that level to a debounce filter, `ButtonManager`. When the filter reports a press, the handler inverts the LED.

The filter is a two-variant enum, `UpState(u8)` / `DownState(u8)`. The variant is the confirmed level: up means released with the pin high, down means pressed with the pin low. The `u8` counts consecutive samples that contradict the confirmed level. A sample that agrees with the confirmed level clears the count. A contrary sample adds one. When the count reaches 30, the variant flips and the count restarts at 0. Only the flip from up to down is reported as a press.

The project has two modules:

- `Debounce` (`debounce.dfy`) holds the filter as pure values: `ButtonManager`, its constructor `New` and one `is_pressed` call as `Step`. `Run` and `Outputs` give the state and the return values after a whole sequence of samples. The lemmas relate these to the sample history, to the 30-sample threshold and to holding the pin low.
- `Firmware` (`firmware.dfy`) holds the interrupt handler as a class, `Tim3`. It has the persistent manager and the LED level as fields. `IsPressed` updates the manager in place, the way the Rust code does through `&mut self`. `Tick` is one run of the handler. `RunFirmware` models the handler running once per sample of a pin trace.

The button read is the `value` parameter of `Tick`. The LED is the `led` field. The LED level before the first handler run belongs to the GPIO hardware, so it is a constructor parameter. Rust's `u8` is the newtype `Debounce.u8`.

Three facts of the code shape the model:

- Between calls the count stays within 0..29. It reaches 30 only inside a call and is reset to 0 before the call returns.
- `is_pressed` returns a `bool`, so a release is never reported. The predicate `Released` exists only to state the release side.
- `tim3` does not clear the timer's update flag. One model call (`Tick`) is one run of the handler, and the 30-sample window is 30 handler runs. With the flag left set the interrupt is pending again as soon as the handler returns, so those runs need not be 1 ms apart.

## Model

| member | source | states |
|---|---|---|
| `Debounce.New` | src/main.rs:23-25 | a fresh manager has confirmed the released (high) level, counts nothing, and meets the between-calls bound |
| `Debounce.Step` | src/main.rs:26-41 | an agreeing sample clears the count, keeps the variant and returns false; a contrary sample below the threshold adds one and returns false; a contrary sample that makes the count 30 confirms the sampled level with count 0 and returns true exactly when leaving `UpState`; true comes only from `UpState` on a low sample and leads to `DownState(0)`; the new count is always below 30, whatever the count before |
| `Debounce.Run` | src/main.rs:29-39 | after any sequence of calls the counter is below 30, so the next `*cnt += 1` on a `u8` cannot overflow |
| `Debounce.OutputsAt` | src/main.rs:26-41 | the t-th return value of a run is the return value of `is_pressed` in the state left by the first t samples |
| `Debounce.RunSnoc` | src/main.rs:26-41 | one more sample extends the run by one call and adds one to the press count exactly when that call returns true |
| `Debounce.StepExplained` | src/main.rs:28-40 | given a history that accounts for the state, one step keeps that account; it returns true iff the manager was up and the last 30 samples, this one included, were low; it confirms a release iff the manager was down and the last 30 samples were high |
| `Debounce.RunExplained` | src/main.rs:28-40 | from a fresh manager, the count always equals the number of trailing samples contrary to the confirmed level, and the sample before them agreed with that level |
| `Debounce.PressIffThirtyLows` | src/main.rs:29-36 | in any sample sequence from a fresh manager, call t returns true iff the manager was up and samples t-29..t were all low |
| `Debounce.ReleaseIffThirtyHighs` | src/main.rs:30-37 | in any sample sequence from a fresh manager, call t flips back to `UpState` iff the manager was down and samples t-29..t were all high |
| `Debounce.ContraryRunCounts` | src/main.rs:29-30 | n contrary samples that keep the count below 30 only add n to the count and return false each time, in either variant |
| `Debounce.TwentyNineLowsThenHigh` | src/main.rs:29-36 | 29 low samples and then a high one from `UpState(0)` never return true and end in `UpState(0)` |
| `Debounce.ThirtyLows` | src/main.rs:33-36 | 30 low samples from `UpState(0)` return true on the 30th call only and end in `DownState(0)` |
| `Debounce.ThirtyHighs` | src/main.rs:37-40 | 30 high samples from `DownState(0)` end in `UpState(0)` and never return true |
| `Debounce.HoldLowAfterPress` | src/main.rs:30 | holding the pin low in `DownState(0)` stays in `DownState(0)` and never returns true |
| `Debounce.ThirtyLowsOnePress` | src/main.rs:33-36 | 30 low samples from a fresh manager report exactly one press |
| `Debounce.HeldLowBase` | src/main.rs:29-36 | after exactly 30 low samples: `DownState(0)`, one press, on the 30th call |
| `Debounce.HeldLowStep` | src/main.rs:30 | once pressed, one more low sample adds a false return value and no press |
| `Debounce.HeldLowHasPattern` | src/main.rs:29-40 | every hold of at least 30 low samples from a fresh manager has that pattern |
| `Debounce.HeldLow` | src/main.rs:29-40 | holding the pin low for n >= 30 handler runs from a fresh manager returns true on call 30 and on no other, ends in `DownState(0)` and counts exactly one press |
| `Firmware.Tim3.constructor` | src/main.rs:73 | the handler's persistent state starts as `UpState(0)`, which is `ButtonManager::new()`, with no samples seen |
| `Firmware.Tim3.IsPressed` | src/main.rs:26-41 | the in-place update: the new manager and the return value are those of `Step` on the old manager |
| `Firmware.Tim3.Tick` | src/main.rs:74-85 | the sample is fed to the manager; the LED is inverted exactly when a press is reported and is unchanged otherwise; it keeps the invariant that the manager is the run of all samples so far and that the LED has changed once per reported press |
| `Firmware.RunFirmware` | src/main.rs:73-85 | over any trace of pin levels, the observed LED changes equal the presses the filter reports, and the final LED level is the initial one inverted iff that number is odd |

## Left out

- Hardware bring-up in `main` (src/main.rs:49-71) is left out. This covers taking the peripherals, freezing the clocks, configuring the GPIO pins and the timer, enabling the interrupt in the NVIC and the `wfi` idle loop. These are calls into the HAL, which is not part of this model. `RunFirmware` stands in for the handler running once per sample.
- The `static mut` globals `BUTTON` and `LED`, their `unsafe` access and the `unwrap` calls (src/main.rs:44-47, 75-77) are left out. The class `Tim3` owns the manager and the LED level directly.
- The `entry!`, `interrupt!` and `exception!` macros and the panicking `hard_fault` and `default_handler` (src/main.rs:15, 87-97) are left out. They are runtime glue and fatal diagnostics.
- Concurrency and re-entrancy of the interrupt are left out. One handler run is one sequential call of `Tick`.
- The timer flag acknowledgement is left out. The source's `tim3` does not clear the update flag, so after `timer.listen(Update)` (src/main.rs:61) the interrupt re-pends as soon as the handler returns. The model counts handler runs, not milliseconds: the 30-sample threshold is 30 runs, and their timing is outside the model.
- A melody or playback sequencer is left out. No such code exists in this revision of the firmware.
- Debounce.Step, Firmware.Tim3.IsPressed: the u8 overflow at a count of 255 is not modelled. A debug build would panic there and a release build would wrap. Instead, both require the count to be below 255. Its own ensures proves that every state it leaves has a count below 30, so the case never arises between calls.
- Firmware.Tim3.Tick: the LED's read-back through `is_set_low` is modelled as reading the `led` field. The model assumes the output register holds the last level written.
