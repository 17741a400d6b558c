# Gamepad input translation — a Dafny model

This project models the gamepad object of the Limelight PC streaming client
(`src/com/limelight/input/gamepad/Gamepad.java`). The object turns raw samples from a
physical controller into the state of a virtual Xbox-style pad:

- a 16-bit button mask;
- two unsigned trigger bytes;
- four signed 16-bit stick coordinates.

The state is sent to the host as a controller packet. There are two input passes:

- **The button pass** looks each button id up in the mapping table. It sets or clears a flag
  with the sample truncated to an `int`, or packs the normalised sample into an analog field.
- **The axis pass** walks every entry of the mapping table. For each one it resolves a
  direction from the new sample and the cached previous one: the sign of the new value, with
  the previous value's sign breaking a tie at exactly zero. It applies only the entries whose
  key carries that direction.

Module layout:

- `JavaNum` (javanum.dfy) covers Java's `Math.abs` and `Math.round` and the `(int)`,
  `(short)` and `(byte)` casts. These are written out on unbounded numbers, with saturation
  and wrap-around made explicit.
- `Components` (components.dfy) holds the source keys, the closed set of virtual components,
  mapping entries, the packet's button flags and the analog fields.
- `Normalize` (normalize.dfy) holds `sanitizeValue` and the direction rule.
- `PadState` (padstate.dfy) holds the pad state as a value and what one analog or digital
  update does to it: stick and trigger packing, and toggling one flag.
- `Translate` (translate.dfy) defines the two passes as functions of the state and proves
  what they do.
- `GamepadObject` (gamepad.dfy) is the `Gamepad` class. Its fields are updated in place, and
  every method is proved to compute the corresponding function.
- `Scenarios` (scenarios.dfy) holds concrete runs.

Three behaviours of the code that are easy to misread:

- `toggle` sets the flag only when `pressed` is exactly 1. Any other value clears it,
  2 and -1 included.
- The axis pass walks every entry of the table, button keys included. A button key never
  fires, because its direction is null. But its id still indexes the axis vector, so a
  button id past the end of that vector throws and ends the walk.
- `Math.round` rounds halves upward, so it is not symmetric on negative halves.

## Model

| member | source | states |
|---|---|---|
| JavaNum.Abs | src/com/limelight/input/gamepad/Gamepad.java:122 | `Math.abs`: the result is non-negative and equals the value or its negation |
| JavaNum.SaturateInt | src/com/limelight/input/gamepad/Gamepad.java:55 | float-to-int conversions clamp to the `int` range and leave in-range values alone |
| JavaNum.Round | src/com/limelight/input/gamepad/Gamepad.java:99 | `Math.round(float)`: within the `int` range the result is within one half of the value, halves rounded up; beyond it the result saturates |
| JavaNum.TruncToInt | src/com/limelight/input/gamepad/Gamepad.java:55 | the `(int)` cast truncates toward zero: below the value for positive samples, above it for negative ones; beyond the `int` range it saturates |
| JavaNum.ToShort | src/com/limelight/input/gamepad/Gamepad.java:122 | the `(short)` cast keeps the value modulo 2^16 and is the identity on the `short` range |
| JavaNum.ToByte | src/com/limelight/input/gamepad/Gamepad.java:150 | the `(byte)` cast keeps the value modulo 2^8 and is the identity on 0..255 |
| Components.Flag | src/com/limelight/input/gamepad/Gamepad.java:166-217 | exactly the button components have a flag; analog components reach the mapping-error branch |
| Components.FlagIsSingleBit | src/com/limelight/input/gamepad/Gamepad.java:168-212 | every button's flag is a single bit of the mask |
| Components.FlagsDisjoint | src/com/limelight/input/gamepad/Gamepad.java:168-212 | distinct buttons toggle disjoint bits |
| Components.AnalogChannel | src/com/limelight/input/gamepad/Gamepad.java:119-164 | exactly the analog components have a target field; only the two triggers target a trigger byte |
| Normalize.SanitizeValue | src/com/limelight/input/gamepad/Gamepad.java:108-117 | keeps [-1, 1]; the trigger remap lands in [0, 1] and equals (1 ± value)/2; without it the magnitude is kept |
| Normalize.SanitizeIdentity | src/com/limelight/input/gamepad/Gamepad.java:108-117 | with neither flag the sample comes back unchanged |
| Normalize.TriggerRemapPoints | src/com/limelight/input/gamepad/Gamepad.java:113-115 | the trigger remap sends -1, 0, 1 to 0, 0.5, 1 |
| Normalize.InvertBeforeRemap | src/com/limelight/input/gamepad/Gamepad.java:110-115 | inversion is applied before the remap: inverting equals negating the sample |
| Normalize.ResolveDirection | src/com/limelight/input/gamepad/Gamepad.java:81-90 | a nonzero value takes its own sign; zero takes POSITIVE exactly when the last value is non-negative |
| Normalize.Applies | src/com/limelight/input/gamepad/Gamepad.java:92-94 | reference definition (no contract of its own): an entry is applied when its key's direction equals the direction resolved from the sanitised new and cached samples; the axis lemmas use it |
| Normalize.NoDirectionNeverApplies | src/com/limelight/input/gamepad/Gamepad.java:92-94 | a key with a null direction (every button key) is always skipped |
| Normalize.OppositeKeysExactlyOne | src/com/limelight/input/gamepad/Gamepad.java:77-94 | two keys with opposite directions and the same flags: exactly one matches, for every sample pair |
| Normalize.TriggerRangeSelectsPositive | src/com/limelight/input/gamepad/Gamepad.java:77-90 | a trigger-remapped axis sampled in [-1, 1] always resolves POSITIVE |
| PadState.ToggleBit | src/com/limelight/input/gamepad/Gamepad.java:239-245 | `toggle` leaves every bit outside the button unchanged |
| PadState.ToggleBitDecides | src/com/limelight/input/gamepad/Gamepad.java:239-245 | the button's bits end set when `pressed` is 1 and clear for any other value |
| PadState.ToggleKeepsDisjoint | src/com/limelight/input/gamepad/Gamepad.java:239-245 | toggling one button keeps every bit disjoint from it |
| PadState.StickValue | src/com/limelight/input/gamepad/Gamepad.java:121-144 | for abs(v) ≤ 1 the coordinate lies in [-32767, 32767], ≥ 0 for right/up and ≤ 0 for left/down |
| PadState.StickValueNearest | src/com/limelight/input/gamepad/Gamepad.java:121-144 | for abs(v) ≤ 1 the coordinate is the rounding of ±abs(v)·32767 (no `short` wrap) |
| PadState.TriggerValue | src/com/limelight/input/gamepad/Gamepad.java:145-158 | a magnitude below 0.9 stores 0 |
| PadState.TriggerValueNearest | src/com/limelight/input/gamepad/Gamepad.java:145-158 | from 0.9 to 1 the byte is the rounding of abs(v)·255, at least 230 |
| PadState.PackedValue | src/com/limelight/input/gamepad/Gamepad.java:119-158 | the dispatch of the switch: triggers store the trigger byte, right/up deflections the positive stick coordinate, left/down the negated one |
| PadState.ApplyAnalog | src/com/limelight/input/gamepad/Gamepad.java:159-161 | a button component reaching the analog dispatch changes nothing; no analog update touches the button mask |
| PadState.ApplyAnalogWrites | src/com/limelight/input/gamepad/Gamepad.java:119-158 | the component's own field ends holding its packed value |
| PadState.ApplyAnalogKeepsOthers | src/com/limelight/input/gamepad/Gamepad.java:119-164 | every analog field other than the component's own is unchanged |
| PadState.ApplyDigital | src/com/limelight/input/gamepad/Gamepad.java:166-217 | a digital update changes only the mask, by toggling the component's flag; an analog component changes nothing |
| PadState.ApplyDigitalDecides | src/com/limelight/input/gamepad/Gamepad.java:166-245 | after a digital update the button is pressed exactly when `pressed` is 1 |
| PadState.ApplyDigitalKeepsOtherBits | src/com/limelight/input/gamepad/Gamepad.java:166-245 | a digital update keeps the flag of every other button |
| Translate.ButtonStep | src/com/limelight/input/gamepad/Gamepad.java:48-58 | reference definition (no contract of its own) of one iteration of the button loop: an unmapped id changes nothing, a button target gets the `(int)` cast of the raw sample, an analog target the packed sanitised sample; the button lemmas use it |
| Translate.ButtonsUpTo | src/com/limelight/input/gamepad/Gamepad.java:47-63 | reference definition (no contract of its own) of the button loop over ids 0 .. n-1 in order; `HandleButtons` is proved to end at it |
| Translate.ButtonsUnmappedNoChange | src/com/limelight/input/gamepad/Gamepad.java:47-52 | button ids without a mapping change no state |
| Translate.ButtonsDigitalBit | src/com/limelight/input/gamepad/Gamepad.java:47-58 | the last id that targets a button component decides it: pressed exactly when that id's truncated sample is 1, earlier ids mapped onto the same button are overridden |
| Translate.ButtonsBitUntouched | src/com/limelight/input/gamepad/Gamepad.java:47-58 | a button that no mapped button id targets keeps its flag over the whole pass |
| Translate.ButtonsKeepBit | src/com/limelight/input/gamepad/Gamepad.java:47-58 | a step for an id not targeting a button keeps that button's flag |
| Translate.ButtonStepSetsBit | src/com/limelight/input/gamepad/Gamepad.java:54-55 | a digital target receives the `(int)`-truncated sample: pressed exactly when it truncates to 1 |
| Translate.ButtonStepKeepsBit | src/com/limelight/input/gamepad/Gamepad.java:48-58 | one id's step keeps the flags of components it does not target |
| Translate.ButtonsAnalogChannel | src/com/limelight/input/gamepad/Gamepad.java:47-58 | the last id that targets an analog field decides it: the field holds the packed value of that id's sanitised sample |
| Translate.ButtonStepWritesChannel | src/com/limelight/input/gamepad/Gamepad.java:56-57 | one button mapped onto an analog component writes the packed value of its sanitised sample into that component's field |
| Translate.ButtonsChannelUntouched | src/com/limelight/input/gamepad/Gamepad.java:47-58 | an analog field no mapped button targets is unchanged by the pass |
| Translate.ButtonStepKeepsChannel | src/com/limelight/input/gamepad/Gamepad.java:48-58 | one id's step keeps every analog field it does not target |
| Translate.ApplyEntry | src/com/limelight/input/gamepad/Gamepad.java:96-100 | reference definition (no contract of its own) of the axis dispatch as written: an analog target gets the sanitised value, a button target `Math.round` of it; the axis lemmas and the finding use it |
| Translate.AxesWalk | src/com/limelight/input/gamepad/Gamepad.java:73-94 | reference definition (no contract of its own) of the entry selection: which entries, in iteration order, are applied, and whether an out-of-range id stopped the walk; `HandleAxes` is proved to report its `completed` |
| Translate.AxesState | src/com/limelight/input/gamepad/Gamepad.java:73-104 | reference definition (no contract of its own) of the axis loop's effect on the state: each applied entry dispatched in turn, nothing after a stop; `HandleAxes` is proved to end at it |
| Translate.AxesAdvance | src/com/limelight/input/gamepad/Gamepad.java:73-100 | one step of a running walk: an out-of-range id stops it with the state unchanged; an in-range entry is applied, with its sanitised value, exactly when its direction matches |
| Translate.AxesCompletes | src/com/limelight/input/gamepad/Gamepad.java:73-78 | the walk completes exactly when every id indexes both the new and the cached samples |
| Translate.AxesStopIsFinal | src/com/limelight/input/gamepad/Gamepad.java:77-78 | after an out-of-range id, later entries neither apply nor change state |
| Translate.AxesAppliedFire | src/com/limelight/input/gamepad/Gamepad.java:73-100 | every applied entry is in the table and its direction matches the resolved one |
| Translate.AxesFiredApplied | src/com/limelight/input/gamepad/Gamepad.java:73-100 | in a completed walk an entry is applied exactly when its direction matches |
| Translate.AxesOppositePairExactlyOne | src/com/limelight/input/gamepad/Gamepad.java:73-100 | two entries on one axis with opposite directions and equal flags: exactly one is applied |
| Translate.AxesStateStep | src/com/limelight/input/gamepad/Gamepad.java:73-100 | each step either changes nothing or applies its in-range entry to the state |
| Translate.AxesChannelUntouched | src/com/limelight/input/gamepad/Gamepad.java:73-100 | an analog field no applied entry targets is unchanged |
| Translate.AxesBitUntouched | src/com/limelight/input/gamepad/Gamepad.java:73-100 | a button no applied entry targets keeps its flag |
| Translate.ApplyEntryKeepsBit | src/com/limelight/input/gamepad/Gamepad.java:96-100 | applying an entry keeps the flag of every other button |
| Translate.ApplyEntryKeepsChannel | src/com/limelight/input/gamepad/Gamepad.java:96-100 | applying an entry keeps every analog field it does not target |
| Translate.AxesBitSoleWriter | src/com/limelight/input/gamepad/Gamepad.java:73-100 | a button written by one applied entry is pressed exactly when that entry's sanitised value rounds to 1, in any iteration order |
| Translate.AxesNegativeEntryReleases | src/com/limelight/input/gamepad/Gamepad.java:81-99 | an applied negative-direction entry that alone targets a button leaves it released |
| Translate.IntendedApplyEntry | src/com/limelight/input/gamepad/Gamepad.java:96-100 | the corrected dispatch: a button target is pressed exactly when the rounded magnitude of the value is 1 |
| Translate.IntendedNegativeEntryPresses | src/com/limelight/input/gamepad/Gamepad.java:96-100 | a full negative deflection presses the button under the corrected dispatch, and releases it under the code as written |
| Translate.AxesChannelSoleWriter | src/com/limelight/input/gamepad/Gamepad.java:73-100 | a field written by one applied entry only holds that entry's packed value, in any iteration order |
| Translate.AxesPairDecidesChannel | src/com/limelight/input/gamepad/Gamepad.java:73-100 | a stick axis split into a positive and a negative entry leaves its field at the packed value of the entry the direction rule picks |
| GamepadObject.Gamepad.constructor | src/com/limelight/input/gamepad/Gamepad.java:22-38 | a new gamepad is neutral: no button, triggers released, sticks centred |
| GamepadObject.Gamepad.SetConnection | src/com/limelight/input/gamepad/Gamepad.java:40-42 | replaces the connection and leaves the controller state alone |
| GamepadObject.Gamepad.HandleButtons | src/com/limelight/input/gamepad/Gamepad.java:44-66 | the fields end as the button pass prescribes for every id in order |
| GamepadObject.Gamepad.HandleAxes | src/com/limelight/input/gamepad/Gamepad.java:68-106 | the fields end as the axis pass prescribes; the result reports whether the walk ran to the end |
| GamepadObject.Gamepad.HandleAnalogComponent | src/com/limelight/input/gamepad/Gamepad.java:119-164 | the fields become the analog update of the old state |
| GamepadObject.Gamepad.HandleDigitalComponent | src/com/limelight/input/gamepad/Gamepad.java:166-217 | the fields become the digital update of the old state |
| GamepadObject.Gamepad.Toggle | src/com/limelight/input/gamepad/Gamepad.java:239-245 | only the mask changes, to the toggled mask |
| GamepadObject.Gamepad.FireControllerPacket | src/com/limelight/input/gamepad/Gamepad.java:251-256 | the packet is the current seven fields when connected and nothing otherwise; no field changes |
| Scenarios.StickAxisScenario | src/com/limelight/input/gamepad/Gamepad.java:73-144 | axis 0 going from 0.3 to 0.6 through a right/left pair sets the left stick X to 19660, in either order |
| Scenarios.ZeroCrossingScenario | src/com/limelight/input/gamepad/Gamepad.java:81-94 | at exactly 0, coming from 0.4 picks the positive entry and coming from -0.4 the negative one; either drives a deflected stick back to 0 |
| Scenarios.AxisButtonScenario | src/com/limelight/input/gamepad/Gamepad.java:98-100 | an axis mapped onto a D-pad button presses it at 0.7 (rounds to 1) but not at 0.4 |
| Scenarios.ButtonScenario | src/com/limelight/input/gamepad/Gamepad.java:54-55 | samples 1.0 press, 0.99 (truncates to 0) and 2.0 (not 1) release |
| Scenarios.SharedButtonScenario | src/com/limelight/input/gamepad/Gamepad.java:47-58 | with two button ids mapped onto A, the higher id decides: 1.0 then 0.0 releases A, 0.0 then 1.0 presses it |
| Scenarios.TriggerScenario | src/com/limelight/input/gamepad/Gamepad.java:145-151 | 0.85 gives 0, 0.95 gives 242, -1.0 gives 255 |
| Scenarios.StickExtremesScenario | src/com/limelight/input/gamepad/Gamepad.java:121-126 | full deflection packs to ±32767, signed by the component, not the sample |
| Scenarios.OutOfRangeScenario | src/com/limelight/input/gamepad/Gamepad.java:73-77 | a button key whose id is past the axis vector stops the walk before the entries after it |
| Scenarios.PressAndSendScenario | src/com/limelight/input/gamepad/Gamepad.java:44-58 | pressing A on a connected gamepad sends a packet with only A set |
| Scenarios.DisconnectedScenario | src/com/limelight/input/gamepad/Gamepad.java:251-256 | a gamepad without a connection sends nothing |

## Findings

| source | as written | input that shows it | evidently intended | confidence | as-written member | corrected member |
|---|---|---|---|---|---|---|
| src/com/limelight/input/gamepad/Gamepad.java:98-99 | an applied button target receives `Math.round(newValue)`, and the direction rule only applies a negative-direction key when `newValue <= 0`, so the rounding is at most 0 and `toggle` always clears the flag | an axis key with direction NEGATIVE mapped onto `DPAD_LEFT`, sample -1.0: the button is released | press on the rounded magnitude, `Math.round(Math.abs(newValue))`, so that either deflection can press its button | medium, not executed | Translate.AxesNegativeEntryReleases | Translate.IntendedApplyEntry |

The rest of the model keeps to the code as written. `IntendedApplyEntry` and
`IntendedNegativeEntryPresses` state the corrected dispatch beside it.

## Left out

- The network send (`NvConnection.sendControllerInput`) is not modelled. `FireControllerPacket` returns the packet instead, and the connection is reduced to a flag saying whether one is attached.
- The settings singleton that supplies the mapping table is not part of this model. The table is a parameter: a map for the button pass, and for the axis pass its entry set as a sequence in the order `HashMap` iterates it. That order is unspecified, so the lemmas hold for every order. Where the final state depends on it (two different axes writing one field), the model states nothing.
- The device cache is a parameter: a sequence of previous samples, indexed where `getAxisState(id)` reads it. What it does with ids out of its range is not part of this model; such an id stops the walk, like an out-of-range `axesStates[id]`. The final `setButtonsState` / `setAxesState` writes belong to the cache and are not modelled.
- Logging (`LimeLog`) and `printInfo` are not modelled; the mapping-error branches change no state.
- `ControllerPacket` and `GamepadComponent` are not part of this model. The flag values follow the XInput button layout; each is proved to be a distinct single bit. `isAnalog` is taken to be true exactly for the eight stick deflections and the two triggers, the components `handleAnalogComponent` packs.
- IEEE-754 single-precision arithmetic is modelled by exact reals. The model therefore leaves out the rounding of `abs(v) * 0x7FFF` and of the trigger remap, NaN and the infinities, and the sign of zero. It also compares the trigger threshold with 0.9 exactly, not with the double nearest to it.
- Calls from several threads (polling against packet sending) are not modelled; the object is used sequentially.
- An exception ends the Java method. In the model, an out-of-range id ends the axis walk with `completed == false` and the fields updated so far. An out-of-range button sample cannot happen, since the button loop stays within `buttonStates`.
- Samples are not required to lie in [-1, 1]. The casts are written out for every value, so the range and nearest-integer facts of `StickValue`, `StickValueNearest`, `SanitizeValue` and `TriggerValueNearest` are stated conditionally on |v| ≤ 1.
