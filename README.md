# AutoTIG controller core in Dafny

AutoTIG is an Arduino controller firmware (the TIG-welding use is only
suggested by the repository's name). A resistor-ladder keypad on one analog
pin drives a 16×2 LCD menu. The menu selects, edits, stores and runs
programs. Each program is a type
(Empty, Linear or Rotary) plus five numeric values, and programs are kept in
numbered slots of a 1024-byte EEPROM behind a version header. A run arms a
5.5-second countdown, switches a relay on and waits out a pre-start delay.
Then a Linear program calls `startLinear()` (a Rotary one calls the empty
`startRotary()`), and the relay is switched off.

This project models three parts of the firmware (the keypad, the program store and the menu), in five modules:

- **`Keypad`** (`keypad.dfy`): the debounced keypad `KeyPad::read` and `KeyPad::HoldMultiplier`.
  - It includes the threshold table, the last-match-wins scan, the debounce window of more than 120 ms, and the hold multiplier that grows ×10 every ten repeats up to 10000.
  - The pure function `ReadStep` specifies one call. The class `KeyPad` has the `static` locals of `read()` as fields, and its method `Read` is proved equal to `ReadStep`.
- **`ProgramImage`** (`image.dfy`): the 21-byte `Program` record.
  - Byte 0 is the type and value k sits at bytes 1+4k..4+4k.
  - In place of IEEE floats a value is a little-endian two's-complement 32-bit count of hundredths.
- **`ProgramStore`** (`store.dfy`): the EEPROM.
  - The layout is a 5-byte `"0001\0"` header, then 48 slots of 21 bytes.
  - `initEEPROM`, `loadProgram` and `saveProgram` are imperative loops over an `array<byte>`. A ghost counter counts the `EEPROM.write` calls.
- **`Menu`** (`menu.dfy`): the 19-state `switch (state)` of `loop()` and `stateVal()`.
  - They are pure functions over a `Machine` value, with the lemmas about one pass.
- **`Firmware`** (`firmware.dfy`): the class `Controller`, whose fields are the globals (`state`, `curPrg`, `countdown`, the relay, `Program`, `KEY`, the EEPROM) and `tm_last`.
  - `Tick` and `Loop` are proved against `Menu.Step`.

`millis()` and `analogRead()` are parameters (`now`, `adc`). The relay pin is a boolean field. The calls of `startLinear()` are counted in a ghost field.

## Model

| member | source | states |
|---|---|---|
| Keypad.Code | src/keypad.h:22 | every button has one of the six codes 0..5, and the code is 5 exactly for None |
| Keypad.CodeIsInjective | src/keypad.h:22 | distinct buttons have distinct codes |
| Keypad.ThresholdsDecrease | src/keypad.h:24-30 | the table has five rows and its thresholds strictly decrease |
| Keypad.ScanIsPartition | src/keypad.cpp:48-52 | the last-match-wins scan maps ≥800 to None, 600–799 to Select, 400–599 to Left, 200–399 to Down, 50–199 to Up and <50 to Right |
| Keypad.ButtonOfIsSmallestThresholdAbove | src/keypad.h:24-30 | the result is None exactly when the sample is at or above every threshold; otherwise it is the button of the row with the smallest threshold above the sample |
| Keypad.MapAdc | src/keypad.cpp:49-52 | the scan loop returns the button the partition assigns to the sample |
| Keypad.Elapsed | src/keypad.cpp:64 | `millis() - lastTime` as unsigned 32-bit arithmetic: the plain difference, or the difference plus 2^32 after the clock wraps |
| Keypad.Grow | src/keypad.cpp:74-78 | one ×10 step keeps the multiplier in {1, 10, 100, 1000, 10000}, never lowers it, and leaves it fixed only at 10000 |
| Keypad.GrowBy | src/keypad.cpp:74-78 | any number of ×10 steps keeps the multiplier in {1, 10, 100, 1000, 10000} |
| Keypad.GrowBySaturates | src/keypad.cpp:74-78 | from 1, four or more ×10 steps reach 10000 |
| Keypad.GrowByFixed | src/keypad.cpp:75-76 | at 10000 the multiplier stays at 10000 |
| Keypad.KeyState.HoldMultiplier | src/keypad.cpp:89-94 | with `max > 0` the result is at most `max` and at most the multiplier, and equals one of them; with `max <= 0` (the default 0) it is the multiplier |
| Keypad.InitialIsValid | src/keypad.cpp:21-29 | the state after the constructor keeps the invariant (held in 0..9, the multiplier a power of ten up to 10000), and the uncapped multiplier starts at 1 |
| Keypad.ReadStep | src/keypad.cpp:31-85 | one call keeps the invariant, records the mapped code as the previous code, and returns either None or the mapped code |
| Keypad.ChangedCodeRestarts | src/keypad.cpp:54-61 | a code that differs from the previous one returns None and restarts everything: previous code updated, hold code None, held 0, multiplier 1, lastTime now |
| Keypad.InsideWindowChangesNothing | src/keypad.cpp:64-67 | an unchanged code within 120 ms of lastTime returns None and changes no state |
| Keypad.AcceptedReadReports | src/keypad.cpp:64-84 | an unchanged code more than 120 ms after lastTime is returned and moves lastTime to now |
| Keypad.NoneNeverGrows | src/keypad.cpp:71-82 | a None reading never increases held or the multiplier |
| Keypad.ChangingCodeNeverReported | src/keypad.cpp:54-61 | over a sequence of calls whose code changes every time, every result is None |
| Keypad.HeldKeyGrows | src/keypad.cpp:71-79 | over n accepted reads of one held non-None key, each read returns that key, held ends at (held+n) mod 10, and the multiplier has grown by (held+n) div 10 ×10 steps |
| Keypad.FirstAcceptedReadHolds | src/keypad.cpp:54-82 | a new non-None code first returns None; the next read more than 120 ms later returns the key and leaves it as the held key, with held 0 and multiplier 1 |
| Keypad.PressThenHold | src/keypad.cpp:31-85 | from any state, pressing a key and holding it with every read accepted reports None once and then the key on every read; after the first accepted read, every ten further reads multiply the multiplier by ten (up to 10000) |
| Keypad.KeyPad.constructor | src/keypad.cpp:21-29 | the object starts in the initial keypad state, with multiplier 1 |
| Keypad.KeyPad.Read | src/keypad.cpp:31-85 | `read()` updates the fields and returns exactly what `ReadStep` specifies |
| ProgramImage.ValueOffset | src/main.cpp:44-47 | each of the five 4-byte values lies inside the 21-byte record, after the type byte |
| ProgramImage.FromToBytes | src/main.cpp:50-55 | encoding a number below 256^n in n little-endian bytes and decoding it gives the number back |
| ProgramImage.ToFromBytes | src/main.cpp:50-55 | decoding a byte string and encoding it in as many bytes gives the string back |
| ProgramImage.DecodeValue | src/main.cpp:44-47 | every 4-byte field holds a 32-bit signed value |
| ProgramImage.DecodeEncode | src/main.cpp:44-47 | writing a 32-bit value into a field and reading it back gives the value |
| ProgramImage.EncodeDecode | src/main.cpp:44-47 | reading a field and writing the value back gives the same four bytes |
| ProgramImage.WithValue | src/main.cpp:520-522 | after `values[k] = v` the field k reads back as v, and every byte outside the field is unchanged |
| ProgramImage.OtherFieldsAgree | src/main.cpp:44-47 | two records that agree on every byte outside field k have the same type and the same value in every other field |
| ProgramImage.WithValueFrame | src/main.cpp:44-47 | setting one value keeps the type byte and every other value |
| ProgramImage.Clamp | src/main.cpp:519-522 | the clamp sends a negative value to 9999.99 and one at or above 10000 to 0, keeps values in between, and always lands in [0, 10000) |
| ProgramImage.Truncate | src/main.cpp:401 | the conversion to `int` truncates toward zero: the result times 100 lies within one unit below a non-negative value, or one unit above a negative one |
| ProgramImage.BlankIsEmpty | src/main.cpp:50-55 | the zero-filled global record has type Empty and every value 0 |
| ProgramStore.LayoutConstants | src/main.cpp:58 | the header is five bytes and `maxPrgs` is (1024 - 5) / 21 = 48 |
| ProgramStore.SlotAddr | src/main.cpp:156 | every slot 1..48 starts after the header and ends inside the 1024 bytes |
| ProgramStore.SlotsDisjoint | src/main.cpp:174 | distinct slots occupy disjoint address ranges, in slot order |
| ProgramStore.Stored | src/main.cpp:153-166 | the record of a slot is the 21 bytes at its address |
| ProgramStore.Saved | src/main.cpp:170-192 | saving a record replaces the slot's 21 bytes and keeps every other byte |
| ProgramStore.SaveLoadRoundTrip | src/main.cpp:153-192 | loading a slot after saving a record into it gives the record back |
| ProgramStore.SaveKeepsOtherSlots | src/main.cpp:170-192 | saving a slot leaves every other slot, and the header, unchanged |
| ProgramStore.SaveStoredIsIdentity | src/main.cpp:170-192 | saving the record a slot already holds changes nothing |
| ProgramStore.DiffCountZeroIff | src/main.cpp:181-182 | two byte strings differ at zero positions exactly when they are equal, so a diff-gated copy of an equal record writes nothing |
| ProgramStore.Eeprom.Write | src/main.cpp:138 | `EEPROM.write` changes one byte and counts one write |
| ProgramStore.HeaderDiff | src/main.cpp:122-127 | the first loop counts the header bytes that differ from the version, and the count is 0 exactly when the header is the version |
| ProgramStore.WipeBody | src/main.cpp:134-139 | the wipe zeroes every byte behind the header, keeps the header, and writes once per byte that was non-zero |
| ProgramStore.WriteHeader | src/main.cpp:143-148 | the header loop leaves the version in bytes 0..4, keeps the rest, and writes once per header byte that differed |
| ProgramStore.InitEeprom | src/main.cpp:117-150 | a matching header means no change and no write at all; otherwise the EEPROM ends as the version followed by 1019 zeros, after one write per non-zero body byte and one per differing header byte |
| ProgramStore.LoadProgram | src/main.cpp:153-166 | the active record becomes the record stored in the slot |
| ProgramStore.SaveProgram | src/main.cpp:170-192 | the EEPROM becomes the old contents with the slot replaced by the record, after exactly one write per byte that differed |
| Menu.Ordinal | src/main.cpp:27-34 | each state has its enum value below 19 |
| Menu.FromOrdinal | src/main.cpp:27-34 | every enum value below 19 belongs to a state |
| Menu.OrdinalRoundTrip | src/main.cpp:27-34 | the state of a state's enum value is the state itself |
| Menu.NextState | src/main.cpp:501 | `state++` moves to the state whose enum value is one higher |
| Menu.PrevState | src/main.cpp:508 | `state--` moves to the state whose enum value is one lower |
| Menu.StateVal | src/main.cpp:78-97 | `stateVal()` is below 5 exactly for the six field states, and 254 for every other state |
| Menu.StateValSharing | src/main.cpp:44-45 | two different field states edit the same value exactly when they are Length and Radius |
| Menu.Initial | src/main.cpp:55-62 | before the first pass the record is the zero-filled global (type Empty, every value 0), the state is the slot menu, the slot is 1, the countdown is 0, the relay is off and the EEPROM is as given |
| Menu.SlotUp | src/main.cpp:346-351 | Up keeps the slot in 1..48: it adds the step, or resets to 1 on an overshoot |
| Menu.SlotDown | src/main.cpp:352-357 | Down keeps the slot in 1..48: it subtracts the step, or resets to 48 on an overshoot |
| Menu.TypeCycle | src/main.cpp:461-472 | Up and Down keep Empty, Linear and Rotary among themselves, undo each other, and three Ups return to the start |
| Menu.FieldMove | src/main.cpp:491-518 | the key switch of a field state changes only the state and the record, and keeps the machine well formed |
| Menu.ClampField | src/main.cpp:519-522 | in a field state the guarded clamp replaces the current value by its clamp (so it lands in [0, 10000)) and keeps the state, the type and every other value; outside the field states it changes nothing |
| Menu.Step | src/main.cpp:328-553 | one pass keeps the slot in 1..48 and the record and EEPROM at their sizes |
| Menu.Handle | src/main.cpp:341-548 | the switch keeps the slot in 1..48 and the record and EEPROM at their sizes |
| Menu.SlotNavigation | src/main.cpp:343-357 | Up/Down in the slot menu move by the multiplier capped at 10, reset at the ends instead of wrapping, keep the EEPROM, and load the slot reached |
| Menu.SlotEnds | src/main.cpp:346-357 | Up from slot 48 reaches slot 1, and Down from slot 1 reaches slot 48 |
| Menu.EnterSlot | src/main.cpp:358-363 | Right in the slot menu goes to the run menu exactly for a non-Empty record, and to the edit menu otherwise |
| Menu.RunOnlyFromSelectRun | src/main.cpp:366-380 | the countdown is entered only by Select in the run menu, armed at 5500 ms |
| Menu.CountdownPhase | src/main.cpp:395-403 | the countdown ignores keys: below 1 the relay goes on, the state becomes pre-start and the countdown is the pre-start value as an `int`, with no seconds-to-ms conversion; otherwise only the countdown moves |
| Menu.PreStartPhase | src/main.cpp:404-421 | when the pre-start countdown is below 1 the relay goes off; only a Linear or Rotary record starts running, and only a Linear one counts a `startLinear` call |
| Menu.RunningPhase | src/main.cpp:422-428 | a run is left for the rewind menu exactly when a key is pressed |
| Menu.RewindReturnPhase | src/main.cpp:452-458 | Rewind and Return go back to the run menu on the next pass, whatever the key |
| Menu.RelayChangesOnlyAtRunBoundaries | src/main.cpp:395-421 | the relay changes only when the countdown ends (on) and when the pre-start countdown ends (off) |
| Menu.StorageChangesOnlyOnSave | src/main.cpp:536-547 | the EEPROM changes only on Select in "save: yes"; the save stores the record in the current slot, where loading finds it again, and keeps every other slot |
| Menu.SaveNoReverts | src/main.cpp:524-535 | Select in "save: no" reloads the record from its slot and returns to the slot menu |
| Menu.NoKeyIsIdle | src/main.cpp:341-548 | with no key the untimed states change only the countdown; a field state also wraps an out-of-range current value into range |
| Menu.EditTypeAdvance | src/main.cpp:474-478 | Right/Select in the type editor move to the first field exactly when the type is not Empty |
| Menu.EditTypeCycles | src/main.cpp:461-472 | Up/Down in the type editor change only the type byte, keep a program type a program type, and stay in the editor |
| Menu.FieldEdit | src/main.cpp:510-522 | Up/Down in a field state move the current value by the uncapped multiplier in hundredths and wrap it into [0, 10000), keeping the state, the type and every other value |
| Menu.FieldNavigationFollowsType | src/main.cpp:493-509 | navigation is type-aware: Rotary skips from pre-start to radius and back, Linear leaves length for "save: no", so Linear never reaches radius or circumference and Rotary never reaches length; in every other case Right moves to the next state and Left to the previous one |
| Menu.ClampIndexAsWritten | src/main.cpp:519-522 | as written, the clamp's index is out of the five values exactly after Left from steps, Right from circumference, or Right from the length of a Linear record |
| Menu.ClampIndexLeavesRecord | src/main.cpp:519-522 | in those three cases the clamp as written indexes `values[254]` |
| Menu.LeavingFieldsKeepsRecord | src/main.cpp:519-522 | with the guard, leaving the field states keeps the record unchanged, and a field state reached keeps its value in [0, 10000) |
| Firmware.Controller.constructor | src/main.cpp:55-66 | the globals start as the initial machine, with the keypad in its initial state |
| Firmware.Controller.Setup | src/main.cpp:298-313 | `setup()` turns the relay off and runs `initEEPROM`, with nothing else changed and no program loaded; a matching header costs no write, and otherwise there is one write per non-zero body byte and one per differing header byte |
| Firmware.Controller.SetValue | src/main.cpp:520-522 | writing a value into the record's bytes gives the record `WithValue` describes |
| Firmware.Controller.NavigateField | src/main.cpp:493-509 | Right/Left in a field state move as `FieldMove` specifies |
| Firmware.Controller.MoveField | src/main.cpp:491-518 | the key switch of the field states updates the globals as `FieldMove` specifies |
| Firmware.Controller.ClampCurrent | src/main.cpp:519-522 | the guarded clamp updates the record as `ClampField` specifies |
| Firmware.Controller.SelectPrgTick | src/main.cpp:343-365 | the slot menu updates the slot and record as `SelectPrgKey` specifies |
| Firmware.Controller.RunCountdownTick | src/main.cpp:395-403 | the countdown case acts as `CountdownTick` specifies |
| Firmware.Controller.RunPreStartTick | src/main.cpp:404-421 | the pre-start case acts as `PreStartTick` specifies |
| Firmware.Controller.EditTypeTick | src/main.cpp:459-484 | the type editor acts as `EditTypeKey` specifies |
| Firmware.Controller.SaveNoTick | src/main.cpp:524-535 | "save: no" acts as `SaveNoKey` specifies |
| Firmware.Controller.SaveYesTick | src/main.cpp:536-547 | "save: yes" acts as `SaveYesKey` specifies, writing once per record byte that differs from the slot |
| Firmware.Controller.MoveTick | src/main.cpp:366-458 | the state-only cases act as `MoveKey` specifies |
| Firmware.Controller.HandleTick | src/main.cpp:341-548 | every case except "save: yes" acts as `Handle` specifies |
| Firmware.Controller.Tick | src/main.cpp:328-553 | one pass after the key read updates the globals exactly as `Step`; the EEPROM is written only on Select in "save: yes", once per differing byte |
| Firmware.Controller.Loop | src/main.cpp:315-554 | `loop()` takes the elapsed time modulo 2^32, reads the keypad as `ReadStep`, updates the globals as `Step`, and remembers the clock; the EEPROM is written only when the key read is Select in "save: yes", and then once per record byte that differs from the slot |

## Left out

- Display: `UpdateLCD`, `lcd_putchar` and the LCD formatting are presentation only. This includes the unchecked `PRG_TYPES` index of the type byte.
- Serial debug output in `loadProgram`, `saveProgram` and `loop` has no effect on state.
- Stepper motion: `stepper.run()` (src/main.cpp:322) and the three AccelStepper calls in the body of `startLinear` (src/main.cpp:100-106) go to the AccelStepper library, which is not part of this model. A Linear start is counted in the ghost field `linearStarts` and nothing more. `startRotary` (src/main.cpp:109-113) is an empty function of the firmware that calls nothing, so the model of a Rotary start has nothing to do.
- Pin setup, `analogRead` and `millis()`. The relay is a boolean field, set where the code drives the relay pin high and cleared where it drives it low. The sample and the clock are parameters.
- Firmware.Controller.Loop: the clock is read once per pass. The firmware calls `millis()` separately in `loop()` (src/main.cpp:320) and inside `read()` (src/keypad.cpp:57, 64, 65), so its `lastTime` can be a millisecond or so later than the reading it was compared against; the model uses the one reading `now` for all of them.
- The jitter filter of `read()` is commented out in the source, and `m_threshold`, `oldADC` and `m_pin` are unused. They are not modelled.
- ProgramImage.DecodeValue: the values are IEEE-754 floats in the firmware. The model uses a 32-bit count of hundredths, so the rounding error of repeated `+= 0.01 * mult` is not modelled, and the four bytes of a field are not the float's bytes.
- Menu.FieldMove: the `+=`/`-=` and the clamp that follows are applied as one step, `Clamp(v ± mult)`. This keeps the sum inside the 32-bit stand-in. The float in the firmware would hold the unclamped sum only until the clamp a few lines later.
- Menu.Step: `countdown`, `ms` and `curPrg` are 16-bit `int`s on the AVR. The model uses unbounded integers, so the 16-bit overflow of `countdown -= ms` over a long idle time, or of a large `ms`, is not modelled.
- Menu.ClampIndexAsWritten: reading and writing `values[254]` is undefined behaviour, so only the index is modelled. Everything else uses the guarded clamp (see Findings).
- Behaviour of the code that the model keeps as written:
  - slot navigation resets to 1 or 48 on an overshoot and does not wrap modulo the slot count (src/main.cpp:348-349, 354-355);
  - the pre-start value is used as milliseconds, although the LCD labels it "Start Delay s" (src/main.cpp:232, 401);
  - `setup()` never loads a program, so the first record is the zero-filled global (src/main.cpp:298-313);
  - a run ends only on a key press; the check for the end of the motion is a TODO (src/main.cpp:422-428);
  - Rewind and Return go back to the run menu at once; the rewind motion is a TODO (src/main.cpp:452-458).

## Findings

| source | as written | input that shows it | evidently intended | confidence | as-written member | corrected member |
|---|---|---|---|---|---|---|
| src/main.cpp:519-522 | after the key switch of a field state, the clamp indexes `Program.P.values[stateVal()]` for the state just reached, which is 254 once Right/Left have left the field states | state EditCircumference with Right (also EditSteps with Left, or a Linear record in EditLength with Right): `stateVal()` is 254 and `values[254]` is read and possibly written, past the 21-byte record | clamp only while the state is a field state (`stateVal() < 5`), leaving the record untouched otherwise | high (not executed) | Menu.ClampIndexAsWritten | Menu.LeavingFieldsKeepsRecord |
