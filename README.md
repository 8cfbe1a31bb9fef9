# Plant monitor firmware: the three tasks, modelled in Dafny

The firmware runs three cooperative tasks on a microcontroller:

- **Light-sensor task.** It measures a BH1750 ambient light sensor over I2C, in continuous high-resolution mode. Each reading is published to the display task.
- **Moisture-sensor task.** It samples a soil moisture sensor through the ADC. Each sample is published to the display task, and logged with the soil band it falls in.
- **Display task.** It draws both readings on an ST7789 panel, erasing the previous table before it draws the next one. When any panel call fails, it pauses and starts a fresh session.

This project models the core of those tasks and proves the following properties.

## What is modelled

**Environment as an event record.** Each task's environment is one object that records, in order, what the task does to it:

- `Display.Panel` for the display task. It records the panel calls and the timer waits. The readings the task waits for on its two signals are inputs of the model, not recorded calls, and its log lines are not recorded.
- `LightSensor.LightBus` for the light task. It records sensor calls, timer waits, the signal to the display task and the log lines.
- `MoistureSensor.MoistureBus` for the moisture task. It records converter reads, timer waits, the signal to the display task and the log lines.

Which calls fail, and what successful reads return, is fixed by a call's position in that record (`faults`, `failures`, `reading`, `sample`). Every possible interleaving of failures is therefore covered by choosing those parameters.

**Loops.** Each task's loop is a method with a `while` loop. Its `ensures` ties the record it produces to a pure function of the inputs:

- `DriverRun` for the display task.
- `LightRun` for the light task.
- `MoistureRun` for the moisture task.

The properties the firmware relies on are proved about those functions.

**Display.**
- Decimal formatting (`u16_to_string`) pushes digits least significant first into a five-character string, then collects them in reverse order. It is proved to produce exactly the canonical decimal digits of its argument, and never to overflow the string.
- Formatting is a bijection between the naturals and the canonical digit strings.
- Zero formats as the empty string, because the digit loop stops as soon as the value is zero. A reading of 0 (0 lx in the dark, or a moisture code of 0) is therefore drawn as a blank value.
- A session wakes the panel, clears it to black, then runs one redraw per pair of readings: erase the previous table's bounds, draw the new table, pause.
- The first panel call that fails ends the session. The supervisory loop then pauses for the retry delay and starts a fresh session.

**Light sensor.**
- A measurement sets the measurement-time register to 69, starts high-resolution mode, waits 120 ms and reads.
- A sensor-driver error is either passed through as a bus error or halts the system, exactly as the `match` does.
- The loop's reaction follows the outcome:
  - A reading is published, logged, then the 1 s cooldown.
  - An unresponsive device is logged, then the 5 s retry delay, with no cooldown.
  - Any other bus error is logged, then the cooldown.

**Moisture sensor.**
- The three thresholds (300, 700, 950) split the 16-bit range into four non-overlapping bands, and the classification is monotone.
- Each round reads once, publishes the sample when the conversion succeeded, logs it with its band's label or logs the error, then waits the cooldown.

The shared cooldown of 1 s (`COOLDOWN`, src/main.rs:25) is `Units.COOLDOWN`. The other constants keep their names and values:

- `DISPLAY_RETRY_DELAY` and `UPDATE_DELAY`, 1 s each.
- `UNRESPONSIVE_RETRY_DELAY`, 5 s.
- `HIGH_RES_MT`, 120 ms.
- `MTREG_DEFAULT`, 69.
- `MOISTURE_DRY_MAX`, `MOISTURE_WET_MAX` and `MOISTURE_SUB_MAX`.

**Restart after a display failure follows the code.** A restarted session re-runs `try_drive`, which wakes and clears the panel and starts again from the zero rectangle. It does not rebuild the display driver: `mipidsi::Builder::init` runs once, before the loop. The model therefore has no re-initialisation step: a restart is only a fresh session on the same driver.

## Model

| member | source | states |
|---|---|---|
| `Display.DigitChar` | src/display.rs:143 | the character pushed for a digit below ten (code 48 plus the digit) is an ASCII digit |
| `Display.Decimal` | src/display.rs:140-147 | the formatted text is a canonical digit string (digits only, no leading zero), and it is empty exactly when the number is zero |
| `Display.ParseDecimalOfDecimal` | src/display.rs:140-147 | reading the formatted digits back in base 10 gives the number formatted |
| `Display.DecimalOfParseDecimal` | src/display.rs:140-147 | every canonical digit string is the formatting of the number it reads as (the other half of the bijection) |
| `Display.DecimalLength` | src/display.rs:140-145 | a number below 10^k formats into at most k digits |
| `Display.U16DecimalFits` | src/display.rs:140-143 | every `u16` needs at most five digits, so the `String<5>` holds it |
| `Heapless.BoundedString.Push` | src/display.rs:143 | a push succeeds exactly when the string is below capacity, appending the character; a refused push changes nothing |
| `Display.U16ToString` | src/display.rs:140-147 | the digit loop and the reversing collect return exactly `Decimal(n)`, and at most five characters; no push is refused, so the `unwrap` never panics |
| `Display.CollectReversed` | src/display.rs:146 | collecting the characters in reverse gives the reverse of what was pushed |
| `Display.Panel.Issue` | src/display.rs:130-131 | a panel call or timer wait is appended to the trace; it reports failure exactly when it is a panel call at a failing position |
| `Display.ExecuteShape` | src/display.rs:86-136 | what a session performs is a prefix of its script; it is all of it exactly when no call fails, and otherwise ends with the first failing call, which is the error returned |
| `Display.ExecuteStopsInPrefix` | src/display.rs:86-136 | after a call fails, nothing later in the session is performed |
| `Display.WakeAndClear` | src/display.rs:87-88 | waking and clearing to black appends to the trace exactly what the script's first two calls perform, stopping at the first failure |
| `Display.RedrawFrame` | src/display.rs:109-135 | one redraw appends the fill of the last bounds, the draw of the table with both readings' decimal text, and the update pause, up to the first failing call |
| `Display.TryDrive` | src/display.rs:71-137 | a session's trace and outcome are those of its script (wake, clear, then the redraws) run against the failing positions |
| `Display.SessionOpening` | src/display.rs:86-101 | every session performs wake first and clear to black second; everything after them is a fill, a draw or a pause |
| `Display.FramesKinds` | src/display.rs:101-136 | n redraws are 3n entries, each a fill, a draw or a pause |
| `Display.FrameSlots` | src/display.rs:99-135 | redraw i erases the previous frame's table (the zero rectangle for the first), draws its own table with both readings in decimal, then pauses |
| `Display.SessionErases` | src/display.rs:99-133 | in every performed session, each draw comes right after a fill to black of the bounds that must be erased |
| `Display.Driver` | src/display.rs:53-63 | the supervisory loop's trace is `DriverRun`: each failed session is followed by the retry pause and a fresh session |
| `Display.DriverRunStartsWithWake` | src/display.rs:53-63 | whatever the display task does begins with a wake |
| `Display.DriverErasesPrevious` | src/display.rs:53-63 | over the task's whole life, every draw follows a fill of the previous table of its own session; a restart erases only the zero rectangle |
| `Display.DriverRetriesAfterFailures` | src/display.rs:53-63 | every failed panel call is immediately followed by the retry pause; every retry pause comes right after a failed call and is followed by a wake |
| `LightSensor.LightBus.SetMeasurementTimeRegister` | src/light_sensor.rs:56 | the call is recorded and fails exactly when its position is a failing one, with that error |
| `LightSensor.LightBus.StartContinuousMeasurement` | src/light_sensor.rs:57 | the call is recorded and fails exactly when its position is a failing one, with that error |
| `LightSensor.LightBus.GetCurrentMeasurement` | src/light_sensor.rs:59 | the read is recorded and returns the reading at its position, unless that position fails |
| `LightSensor.MeasureInnerStopsAtFirstFailure` | src/light_sensor.rs:53-60 | a measurement performs a prefix of its four steps; only the last performed step can fail, it fails exactly when that step fails, and success means all four ran and the read's value is returned |
| `LightSensor.MeasureInner` | src/light_sensor.rs:53-60 | register 69, high-resolution start, 120 ms wait, read, with `?` stopping at the first failure |
| `LightSensor.MapMeasurement` | src/light_sensor.rs:62-68 | the system halts exactly on an out-of-range register; readings and bus errors pass through unchanged |
| `LightSensor.Measure` | src/light_sensor.rs:52-69 | one measurement records its calls and yields the mapped outcome |
| `LightSensor.React` | src/light_sensor.rs:31-46 | a reading is published, logged, then cooled down; no acknowledge is logged and waited 5 s without cooldown; other bus errors are logged, then cooled down |
| `LightSensor.Round` | src/light_sensor.rs:31-46 | one loop pass records the measurement and, unless it halted, the reaction |
| `LightSensor.Driver` | src/light_sensor.rs:30-47 | the loop's record and halt flag are those of `LightRun` over the observed rounds |
| `LightSensor.CycleReaction` | src/light_sensor.rs:31-46 | the full outcome-to-action table of one round, in terms of the sensor driver's own result, including the halt |
| `LightSensor.CyclePublishesItsReading` | src/light_sensor.rs:31-35 | a round publishes exactly the value its read returned when the read succeeded, and nothing else |
| `LightSensor.LightRunPublishesReads` | src/light_sensor.rs:30-47 | over any number of rounds, the published values are exactly the successful readings, once each, in order |
| `MoistureSensor.Classify` | src/moisture_sensor.rs:29-34 | the band returned is the only band whose range, bounded by the thresholds, holds the sample; the four bands cover every `u16` without overlap |
| `MoistureSensor.ClassifyBoundaries` | src/moisture_sensor.rs:11-13 | 0 and 300 are dry soil, 301 and 700 wet soil, 701 and 950 submerged, 951 and 65535 unknown |
| `MoistureSensor.ClassifyMonotone` | src/moisture_sensor.rs:11-13 | a larger sample never falls in a drier band |
| `MoistureSensor.LabelDeterminesBand` | src/moisture_sensor.rs:30-33 | different bands are logged with different text |
| `MoistureSensor.MoistureBus.ReadAdc` | src/moisture_sensor.rs:23 | a conversion is recorded and returns what the converter gives at its position |
| `MoistureSensor.Round` | src/moisture_sensor.rs:23-40 | read; on success publish and log with the band label, on error log it; then the cooldown |
| `MoistureSensor.Driver` | src/moisture_sensor.rs:22-41 | the loop's record is `MoistureRun` over the observed rounds |
| `MoistureSensor.CycleSummary` | src/moisture_sensor.rs:23-40 | one round reads once, publishes exactly the sample it read when the conversion succeeded, and cools down once |
| `MoistureSensor.MoistureRunSummary` | src/moisture_sensor.rs:22-41 | over any number of rounds, exactly the successful samples are published, in order; there is one read and one cooldown per round, error or not |
| `MoistureSensor.PublishedIsLoggedWithBand` | src/moisture_sensor.rs:24-35 | every published sample is logged right after, with the label of its band |

## Left out

- Concurrency: the tasks, the `Signal`s between them and the `join` of the display task are not modelled. Each task is modelled alone.
  - The display task receives its inputs as a sequence of frames (a light reading, a moisture reading, the table bounds) per session.
  - Nothing is modelled about which readings a `Signal` overwrites before the display task takes them.
- Timers are recorded as wait entries in the trace, with their duration; time itself does not pass.
- The infinite loops are observed for a given number of rounds (the light and moisture tasks), or until the sessions given to the display task run out. A session that runs out of frames is left waiting, as the firmware would be, waiting on its signals.
- The light reading is a 32-bit float on the device. It is modelled as a `real`.
- The display task's `light as u16` narrowing is not modelled: a frame carries the light reading already as a `u16`.
- The layout geometry (label and value columns, centring on the panel, fonts and colours of text) is not modelled. The bounds of each rendered table are an input of the frame; only erase-then-draw and the bounds carried to the next redraw are modelled.
- Display driver construction (SPI interface, `mipidsi` builder, orientation, inversion, reset pin) happens once before the supervisory loop and is not part of this model. It `unwrap`s, so a failure there panics.
- The BH1750 and ADC driver internals are not part of this model. A sensor call's success, error and returned value are given per position in the record.
  - The I2C and ADC error types keep only what the tasks tell apart: an abort for a missing acknowledge versus any other error.
- The display task's two log lines are not recorded in its trace: the error logged for each failed session (src/display.rs:55-60), and the debug line with both readings before each redraw (src/display.rs:104-107). Its trace promises nothing about when they are logged.
- The sensor tasks' log lines are recorded as events carrying the values they print. Their text and formatting are not modelled, except the moisture band labels.
- Which panel calls fail is given per trace position, and every failing call is treated the same. The panel's own error kinds are not distinguished, because the task only logs them.
- `Heapless.BoundedString` models `heapless::String<5>` with capacity counted in characters, not in bytes. Every character this firmware pushes is an ASCII digit, so the two agree.
