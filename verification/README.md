# Therapy module session logic in Dafny

The repository implements one therapy-session state machine twice. The
Arduino peripheral's `TherapyController` defers starting: a write only
stores the value, and the main loop's `update()` derives start and stop
from intensity, target time and `millis()`. The Python virtual module
(`ble_testing/test_module.py`) starts immediately: a write starts a session
when the *other* value is already positive. A reconciliation thread then
completes the session once the target time has passed. Around the two
state machines sit the Arduino ASCII-decimal codecs (`BleUtils.cpp`) and
the module-information service's guards (`ModuleInfoService.cpp`).

Every step is a pure function of the current state. A step that reads the
clock takes the time as a parameter `now`:

- `ascii.dfy` (`Ascii`): bytes, `Option`, and decimal digit strings, with
  the value/representation bijection (`Decimal`, `ValueOf`).
- `pyint.dfy` (`PyInt`): Python's `int(text)` in base 10 (surrounding white
  space, an optional sign, and underscore grouping) and `str(value)`.
  The white space `int()` strips is tab to carriage return, space, and
  the bytes 0x85 and 0xA0, which `chr` turns into NEXT LINE and NO-BREAK
  SPACE. The ASCII separators 0x1C-0x1F are not white space to `int()`.
  Every other input this grammar rejects raises `ValueError`, modelled
  as `None`.
- `bleutils.dfy` (`BleUtils`): `uintToUtf8`/`utf8ToUint`,
  `byteToUtf8`/`utf8ToByte` and `boolToUtf8`/`utf8ToBool`. C's `atoi` is
  modelled exactly. A value outside `int` is undefined behaviour in C and
  is modelled as `None`.
- `millis.dfy` (`Millis`): unsigned 32-bit interval arithmetic,
  `millis() - before`.
- `moduleinfo.dfy` (`ModuleInfo`): the setters' guards and the periodic
  battery decrement.
- `controller.dfy` (`Controller`): the Arduino controller, including the
  wrapping battery counter. It also has an event-run model with its
  invariant.
- `virtualmodule.dfy` (`VirtualModule`): the Python module. It covers:
  - the two value writes, including their exception paths;
  - a reconciliation pass;
  - the elapsed-time read, which changes state;
  - the status read;
  - a battery-thread pass;
  - the metadata writes;
  - an event-run model, plus concrete sessions including the stale-start
    one.

Integer widths are explicit:
- Arduino `unsigned int` and `unsigned long` are `uint32`, with the
  subtraction taken modulo 2^32.
- `byte` is 0..255.
- Python integers are unbounded and so are modelled as `int`.

Behaviours of the handlers worth knowing, each stated by a lemma:
- A running session need not have a positive intensity. The Python
  handlers store any parsed value and test only the *other* field, so
  writing intensity 0 while the target is positive starts a session at
  intensity 0 (`VirtualModule.ActiveAtZeroIntensityIsReachable`). The
  status characteristic and the console then disagree
  (`VirtualModule.StatusNotionsDiverge`).
- A write that starts a session sends no notification. In the start
  branch the handler calls `showTherapyStarted()` without its two
  arguments. The resulting `TypeError` is caught after the state has
  changed, so `PropertiesChanged` is never reached (`WriteEffect.Raised`).
- Negative values parse and are stored; nothing checks the sign.

## Model

| member | source | states |
|---|---|---|
| Ascii.Decimal | arduino_peripheral/src/ble/BleUtils.cpp:6 | `String(value)` of a natural is a canonical digit string (no sign, no leading zero, "0" for zero) whose value is the number |
| Ascii.DecimalOfValue | arduino_peripheral/src/ble/BleUtils.cpp:5-9 | every canonical digit string is the decimal form of its own value, so decimal form and value are inverse bijections |
| Ascii.DecimalLength | arduino_peripheral/src/ble/BleUtils.cpp:7 | the decimal form has at most k digits exactly when the value is below 10^k |
| Ascii.ValueOfBound | arduino_peripheral/src/ble/BleUtils.cpp:7 | a string of k digits has a value below 10^k |
| Ascii.ValueOfLowerBound | arduino_peripheral/src/ble/BleUtils.cpp:7 | a digit string with no leading zero has a value of at least 10^(k-1) |
| PyInt.Parse | ble_testing/test_module.py:592-593 | `int()` of the payload: the empty payload is rejected, and a plain digit string is read as its value |
| PyInt.Str | ble_testing/test_module.py:581 | `str(v)`: the canonical digits of v, preceded by '-' exactly when v is negative |
| PyInt.ParseStr | ble_testing/test_module.py:581-593 | `int(str(v)) == v` for every integer below Python's 4300-digit conversion limit (the model has no limit), so a value read back and rewritten is stored unchanged |
| PyInt.ParseStrNatural | ble_testing/test_module.py:581-593 | the round trip for non-negative values |
| PyInt.ParseStrNegative | ble_testing/test_module.py:581-593 | the round trip for negative values |
| PyInt.ParseDigits | ble_testing/test_module.py:593 | a non-empty plain digit string parses to its value |
| PyInt.ParseNegative | ble_testing/test_module.py:593 | '-' followed by digits parses to the negated value |
| PyInt.ParsePositive | ble_testing/test_module.py:593 | '+' followed by digits parses to the value itself |
| PyInt.ParseSkipsLeadingSpace | ble_testing/test_module.py:592-593 | a leading byte that `int()` strips (tab to carriage return, space, and 0x85 and 0xA0, which `chr` turns into NEXT LINE and NO-BREAK SPACE) never changes the result |
| PyInt.ParseRejectsSeparator | ble_testing/test_module.py:592-593 | a payload that starts with an ASCII separator 0x1C-0x1F is rejected whatever follows, because `int()` does not count those as white space |
| PyInt.ParseGrouped | ble_testing/test_module.py:593 | for any two non-empty digit runs, one underscore between them only groups them: the text reads exactly as the two runs joined |
| PyInt.ParseRejectsLooseUnderscores | ble_testing/test_module.py:593 | any payload whose stripped text starts or ends with an underscore, or holds two underscores in a row, is rejected, with or without a sign |
| PyInt.StrInjective | ble_testing/test_module.py:581 | different integers never have the same `str` bytes |
| PyInt.ParseNeedsDigit | ble_testing/test_module.py:590-595 | a payload with no digit at all, such as "" or "abc", is rejected |
| BleUtils.AtoiSkipsSpace | arduino_peripheral/src/ble/BleUtils.cpp:15 | a leading C white-space byte never changes what `atoi` reads |
| BleUtils.AtoiReadsDigits | arduino_peripheral/src/ble/BleUtils.cpp:15 | a digit run followed by anything that is not a digit (or by nothing) reads as the run's value; the rest is ignored |
| BleUtils.AtoiReadsSigned | arduino_peripheral/src/ble/BleUtils.cpp:15 | one '-' or '+' before the digit run negates or keeps its value, whatever follows the run |
| BleUtils.AtoiIgnoresTerminator | arduino_peripheral/src/ble/BleUtils.cpp:12-15 | appending the NUL terminator to the copied payload never changes what `atoi` reads |
| BleUtils.AtoiOfDigits | arduino_peripheral/src/ble/BleUtils.cpp:12-15 | a plain digit string is read as its value, with or without the NUL terminator after it |
| BleUtils.UintToUtf8 | arduino_peripheral/src/ble/BleUtils.cpp:5-9 | the encoding is the canonical decimal digits of the value, and its length (1 to 10) is the digit count |
| BleUtils.UintToUtf8Length | arduino_peripheral/src/ble/TherapyService.cpp:55-59 | the encoding fits k bytes exactly when the value is below 10^k, so the five-byte elapsed-time buffer suffices exactly below 100000 |
| BleUtils.Utf8ToUint | arduino_peripheral/src/ble/BleUtils.cpp:11-16 | the result is defined exactly when `atoi` of the NUL-terminated copy is, and it equals that value modulo 2^32 |
| BleUtils.UintRoundTrip | arduino_peripheral/src/ble/BleUtils.cpp:5-16 | decoding the encoding gives the value back exactly when it fits in `int`; above `INT_MAX` decoding is undefined |
| BleUtils.Utf8ToUintOfDigits | arduino_peripheral/src/ble/BleUtils.cpp:11-16 | a digit string decodes to its value within `int` range, and is undefined above it |
| BleUtils.Utf8ToUintNegativeWraps | arduino_peripheral/src/ble/BleUtils.cpp:15 | "-1" is not rejected; it decodes to 2^32 - 1 |
| BleUtils.ByteToUtf8 | arduino_peripheral/src/ble/BleUtils.cpp:19-23 | a byte is encoded as 1 to 3 canonical decimal digits of its value |
| BleUtils.Utf8ToByte | arduino_peripheral/src/ble/BleUtils.cpp:25-31 | the result is defined exactly when `atoi` of the NUL-terminated copy is, and it is congruent to the `atoi` value modulo 256 (the 0xFF mask) |
| BleUtils.ByteRoundTrip | arduino_peripheral/src/ble/BleUtils.cpp:19-31 | every byte decodes back to itself |
| BleUtils.Utf8ToByteMasks | arduino_peripheral/src/ble/BleUtils.cpp:29-30 | out-of-range text is reduced, not rejected: "300" decodes to 44 |
| BleUtils.Utf8ToByteOfDigits | arduino_peripheral/src/ble/BleUtils.cpp:25-31 | a digit string within `int` range decodes to its value modulo 256 |
| BleUtils.BoolToUtf8 | arduino_peripheral/src/ble/BleUtils.cpp:34-37 | exactly one byte, '1' for true and '0' for false |
| BleUtils.Utf8ToBool | arduino_peripheral/src/ble/BleUtils.cpp:39-42 | true exactly when the first byte is '1'; at least one byte is required |
| BleUtils.Utf8ToBoolIgnoresRest | arduino_peripheral/src/ble/BleUtils.cpp:40-41 | bytes after the first never change the result |
| BleUtils.BoolRoundTrip | arduino_peripheral/src/ble/BleUtils.cpp:34-42 | decoding the encoding of a flag gives the flag back |
| Millis.Since | arduino_peripheral/src/ble/ModuleInfoService.cpp:65 | unsigned `millis() - before`: the plain difference when the clock has not wrapped, and the difference plus 2^32 when it has |
| ModuleInfo.Init | arduino_peripheral/src/ble/ModuleInfoService.cpp:30-36 | the initial values are "TMP-001", location 1, battery 100 and firmware "1.0.0", and they satisfy every guard |
| ModuleInfo.SetDeviceId | arduino_peripheral/src/ble/ModuleInfoService.cpp:38-42 | an id of at most 50 bytes is stored; a longer one leaves everything unchanged |
| ModuleInfo.SetLocationId | arduino_peripheral/src/ble/ModuleInfoService.cpp:44-46 | any location byte is stored, and nothing else changes |
| ModuleInfo.SetBatteryLife | arduino_peripheral/src/ble/ModuleInfoService.cpp:48-52 | the stored level is `min(level, 100)`, and nothing else changes |
| ModuleInfo.SetFirmwareVersion | arduino_peripheral/src/ble/ModuleInfoService.cpp:54-58 | a version of at most 20 bytes is stored; a longer one leaves everything unchanged |
| ModuleInfo.Update | arduino_peripheral/src/ble/ModuleInfoService.cpp:60-71 | nothing changes before 5000 ms have passed; afterwards the timer restarts and a positive battery drops by one, saturating at 0 |
| ModuleInfo.UpdatesOnlyDrain | arduino_peripheral/src/ble/ModuleInfoService.cpp:60-71 | over any run of updates the battery never rises or wraps, the guards keep holding, the level drops by at most one per call, and only the battery and the timer change |
| ModuleInfo.SpacedUpdatesCountDown | arduino_peripheral/src/ble/ModuleInfoService.cpp:63-70 | after k updates spaced at least 5000 ms apart, a level b reads `max(b - k, 0)` |
| Controller.StatusOf | arduino_peripheral/src/controller/TherapyController.cpp:95-110 | the status text is "Active" exactly when a session runs, and "Inactive" otherwise |
| Controller.Init | arduino_peripheral/src/controller/TherapyController.cpp:4-10 | the constructor's defaults: idle, target, intensity, elapsed time, start time and battery timestamp 0, empty timestamp and user, battery 0x64, status "Inactive", consistent |
| Controller.LinkModuleInfo | arduino_peripheral/src/controller/TherapyController.cpp:22-24 | links the module-information service and changes nothing else |
| Controller.OnTargetTimeUpdated | arduino_peripheral/src/controller/TherapyController.cpp:27-31 | stores the target; the activity flag, start, elapsed time, status and battery are untouched |
| Controller.OnIntensityUpdated | arduino_peripheral/src/controller/TherapyController.cpp:33-37 | stores the intensity; the activity flag, start, elapsed time, status and battery are untouched |
| Controller.OnTimeStampUpdated | arduino_peripheral/src/controller/TherapyController.cpp:39-43 | stores the time stamp and nothing else |
| Controller.OnUserIdUpdated | arduino_peripheral/src/controller/TherapyController.cpp:45-49 | stores the user id and nothing else |
| Controller.StartTherapy | arduino_peripheral/src/controller/TherapyController.cpp:53-62 | a no-op while running; otherwise active, started now, elapsed 0, status "Active", and nothing else changes |
| Controller.StopTherapy | arduino_peripheral/src/controller/TherapyController.cpp:64-88 | a no-op while idle; otherwise idle, with intensity, target and elapsed time 0 and status "Inactive"; metadata and battery survive |
| Controller.BatteryTick | arduino_peripheral/src/controller/TherapyController.cpp:138-139 | on 0..100 the counter is a countdown modulo 101: 0 wraps to 100 |
| Controller.UpdateBattery | arduino_peripheral/src/controller/TherapyController.cpp:134-142 | nothing changes without a linked service or before the interval has passed; otherwise one battery step, and the interval restarts now |
| Controller.BatteryCycle | arduino_peripheral/src/controller/TherapyController.cpp:134-142 | from the constructor's 0x64, after 101q + r steps the counter reads 100 - r: it cycles 100..0 with period 101 |
| Controller.ElapsedSeconds | arduino_peripheral/src/controller/TherapyController.cpp:93 | whole seconds since the start, computed by integer division of the unsigned millisecond difference |
| Controller.Reconcile | arduino_peripheral/src/controller/TherapyController.cpp:92-115 | after the session part of `update`, a running session has elapsed time below its target, and the status matches the activity flag |
| Controller.Update | arduino_peripheral/src/controller/TherapyController.cpp:90-118 | idle: elapsed time is 0, and a session starts now exactly when intensity and target are positive. Running: elapsed time is recomputed, and the session stops (clearing intensity and target) exactly when it reaches the target. Status always matches, and consistency is preserved |
| Controller.ZeroTargetStopsAtOnce | arduino_peripheral/src/controller/TherapyController.cpp:93-101 | a running session with target 0 stops on the next update |
| Controller.DeferredStart | arduino_peripheral/src/controller/TherapyController.cpp:105-115 | the writes alone never start a session; the next update starts it at its own clock reading |
| Controller.RunStaysConsistent | arduino_peripheral/src/controller/TherapyController.cpp:4-142 | in every controller reachable from construction, the status matches the flag and the battery stays within 0..100; after a main-loop pass, a running session is below its target |
| Controller.RunPreserves | arduino_peripheral/src/controller/TherapyController.cpp:22-142 | every sequence of callbacks and loop passes preserves consistency |
| VirtualModule.Init | ble_testing/test_module.py:379-389 | the service starts idle with everything 0 or empty, the cached start is the boot time, and the battery is 100 |
| VirtualModule.StartSession | ble_testing/test_module.py:605-607 | the session start: active, elapsed 0, started now; the values and metadata are kept |
| VirtualModule.ReadIntensity | ble_testing/test_module.py:579-588 | the read bytes parse back to the stored intensity |
| VirtualModule.ReadTargetTime | ble_testing/test_module.py:659-668 | the read bytes parse back to the stored target |
| VirtualModule.WriteIntensity | ble_testing/test_module.py:590-625 | a rejected payload changes nothing. Otherwise the value is stored as parsed (0 and negatives included). A positive target starts a session now and the notification is lost to the `TypeError`. Else intensity is the only change, and the notification carries the new value |
| VirtualModule.WriteTargetTime | ble_testing/test_module.py:670-706 | the mirror image: a positive intensity starts a session, else target is the only change |
| VirtualModule.Tick | ble_testing/test_module.py:462-501 | the cache is refreshed from the service. A running session whose elapsed time has reached its target completes: intensity, target and flag are cleared, and the cache moves to now. Start, elapsed time, metadata and battery are untouched. Any other pass changes no service field |
| VirtualModule.ReadElapsed | ble_testing/test_module.py:503-522 | idle: answers 0 and moves the cache and the service start to now. Running: answers now minus the cached start and writes that stale start back. The answer parses to the stored elapsed time, and no other service field changes |
| VirtualModule.ReadStatus | ble_testing/test_module.py:741-751 | "Active" exactly when the service flag is set, and "Inactive" exactly when it is not |
| VirtualModule.UiShowsActive | ble_testing/test_module.py:180 | the console shows "ACTIVE" exactly when intensity and target are both positive, whatever the service's running flag says |
| VirtualModule.StatusNotionsAgreeOnStart | ble_testing/test_module.py:593-606 | a positive intensity written while the target is positive starts a session, and then the status characteristic and the console rule at line 180 both say active |
| VirtualModule.StatusNotionsDiverge | ble_testing/test_module.py:744-746 | after a non-positive intensity write with a positive target, the status characteristic reads "Active" while the console rule at line 180 shows "INACTIVE" |
| VirtualModule.DrainBattery | ble_testing/test_module.py:311-317 | on 1..100 the level counts down modulo 100 and never shows 0; nothing else changes |
| VirtualModule.BatteryCycle | ble_testing/test_module.py:311-317 | from 100, after 100q + r passes the level reads 100 - r, so 1 steps to 100 |
| VirtualModule.Latin1 | ble_testing/test_module.py:792 | byte b of the payload becomes code point b of the text, position by position |
| VirtualModule.Latin1Injective | ble_testing/test_module.py:792 | different payloads are stored as different texts |
| VirtualModule.WriteTimeStamp | ble_testing/test_module.py:790-801 | the decoded text becomes the time stamp; nothing else changes |
| VirtualModule.WriteUserId | ble_testing/test_module.py:842-853 | the decoded text becomes the user id; nothing else changes |
| VirtualModule.StartRuleEitherOrder | ble_testing/test_module.py:590-706 | positive intensity and target written in either order leave a session running from the second write, with elapsed time 0 and no notification |
| VirtualModule.ScenarioCompletes | ble_testing/test_module.py:462-706 | intensity 50 then target 30 start a session, a pass 31 s later completes it and clears both values, and the elapsed time then reads "0" |
| VirtualModule.StaleStartEndsSessionEarly | ble_testing/test_module.py:462-522 | a read between a starting write and the next pass reverts the start to the stale cached instant, so a five-second session ends after one second |
| VirtualModule.StaleSetup | ble_testing/test_module.py:590-706 | the state of that run right after the second write |
| VirtualModule.WithoutReadSessionRuns | ble_testing/test_module.py:462-490 | without that read, the same session is still running at the pass one second later |
| VirtualModule.ParseSmallLiterals | ble_testing/test_module.py:593 | `int()` of the literals "50", "5", "30" and "0" |
| VirtualModule.RunInvariants | ble_testing/test_module.py:311-853 | over any interleaving of steps the battery stays within 1..100, and only the two metadata writes change the time stamp or user id |
| VirtualModule.ActiveAtZeroIntensityIsReachable | ble_testing/test_module.py:590-625 | target 5 and then intensity 0 leave a session running at intensity 0 |

## Left out

- BLE and D-Bus transport are not modelled: GATT objects, `PropertiesChanged` delivery, notifications, descriptors, advertising, `BleManager.cpp` and `main.cpp`. The Python notification is kept only as the bytes it would carry.
- `TherapyService.cpp` is not part of this model beyond the five-byte buffer bound in `UintToUtf8Length`. It calls an undeclared `uintToUtf8Bytes`, and its pushes are transport.
- The curses console is left out: windows, `bcolors`, the progress bar and the error line. The only part kept is the status rule at test_module.py:180, as `UiShowsActive`.
- VirtualModule.WriteIntensity, VirtualModule.WriteTargetTime, VirtualModule.WriteUserId, VirtualModule.Tick: the model assumes every console call returns normally. In curses, `addstr` raises `_curses.error` when its text reaches the last cell of its window, and the source makes these calls before the state change:
  - `updateStatusUi` at test_module.py:596 and :676 runs before the start test, and the `except` catches the error. An intensity or target of a few hundred digits is therefore stored, but no session starts.
  - `updateStatusUi` at :846 runs before `setUserId` at :853. A long user id or time stamp therefore stops every later user id from being stored.
  - `updateTherapyUi` and `updateStatusUi` at :474-475 in `reset_loop` have no handler. A long target or time stamp therefore ends the reconciliation thread, and no session completes after that.
  - All of these payloads fit in one 512-byte attribute write.
- PyInt.Parse / PyInt.Str: Python 3.11 and later refuse to convert between `int` and decimal text longer than 4300 digits (`int()` and `str()` raise `ValueError`). The model has no such limit, so it parses longer payloads and prints larger values. A payload that long cannot arrive in one 512-byte attribute write, but a value of 10^4300 or more could in principle be built up; the model does not follow that case.
- Threads and `time.sleep` are left out. Each write, reconciliation pass, read and battery pass is one atomic step; races between the threads are not modelled.
- Wall-clock time is an integer parameter. Python's float `time.time()` is taken in whole seconds, so `round()` at test_module.py:507 is the identity.
- `update()` in the controller is modelled with a single `now`, although it calls `millis()` more than once per pass.
- ModuleInfo.Update: `ModuleInfoService::update()` (arduino_peripheral/src/ble/ModuleInfoService.cpp:60-72) calls `millis()` twice, once for the test and once for the new `lastUpdate`; the model reads one `now` for both. The header declares `updateBatteryLevel()` instead (ModuleInfoService.h:20), and the call in the main loop is commented out (main.cpp:54), so the firmware as written never runs this code.
- Arduino side effects are left out: `Serial` logging, `delay(10)`, the stop "bump" writes, the LED, `updateBleStatus`, and `updateBleValues` with its `_lastBleSyncTime`.
- The characteristics' cached copies (`userId`, `timeStamp`) are left out. Their `ReadValue` handlers (ble_testing/test_module.py:807-811 and 859-863) return them, but both characteristics are declared write-only (:787, :839), so no client can read them. `TimeCharacteristic.moduleTime` is left out because nothing reads it. `BatteryLifeCharacteristic.getBatteryLife` is left out too.
- Strings are Dafny strings, and one `char` stands for one byte of an Arduino `String`. The length guards therefore count bytes only for ASCII text; a multi-byte UTF-8 character counts as one. Arduino `String` storage limits are not modelled.
- The battery interval of the controller is a parameter, because the header does not declare `_batteryUpdateInterval`. The header also omits `_status`, `_batteryLife`, `_lastBatteryUpdate` and `updateBattery`; the fields are taken from the constructor.
- The module-information service's battery is read as the stored byte. Its `update` timer is the function's static variable, here `lastUpdate`.
- PyInt.Parse: its contract covers only the empty payload and plain digit strings. The sign, leading white-space and grouping rules are stated by the lemmas beside it (`ParseNegative`, `ParsePositive`, `ParseSkipsLeadingSpace`, `ParseGrouped`, `ParseRejectsLooseUnderscores`). Trailing white space is stated only by the body.
- BleUtils.Utf8ToUint: a decimal value beyond `int` range is undefined behaviour in C's `atoi`; it is modelled as `None` rather than as any particular result.
