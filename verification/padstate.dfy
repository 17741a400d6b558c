/**
 * The virtual controller state as a value, and what one analog or digital
 * update does to it: stick and trigger packing, and setting or clearing one
 * button flag.
 */
module PadState {
  import opened Components
  import opened JavaNum

  /** The seven fields a controller packet carries, in wire order. */
  datatype Pad = Pad(inputMap: bv16, leftTrigger: UInt8, rightTrigger: UInt8,
                     leftStickX: Int16, leftStickY: Int16, rightStickX: Int16, rightStickY: Int16)

  /** A freshly created gamepad: no button down, triggers released, sticks centred. */
  const Neutral: Pad := Pad(0, 0, 0, 0, 0, 0, 0)

  /** The value of one analog field. */
  function Read(s: Pad, ch: Channel): int
  {
    match ch
    case LeftTrigger => s.leftTrigger
    case RightTrigger => s.rightTrigger
    case LeftStickX => s.leftStickX
    case LeftStickY => s.leftStickY
    case RightStickX => s.rightStickX
    case RightStickY => s.rightStickY
  }

  /**
   * Sets the bits of `button` when `pressed` is exactly 1 and clears them for
   * any other value (ToggleBitDecides); the other bits of the mask are kept.
   */
  function ToggleBit(inputMap: bv16, button: bv16, pressed: int): (r: bv16)
    ensures r & !button == inputMap & !button
  {
    if pressed == 1 then inputMap | button else inputMap & !button
  }

  /** The toggled bits end up set when `pressed` is 1 and clear for every other value, 0, 2 and -1 included. */
  lemma ToggleBitDecides(inputMap: bv16, button: bv16, pressed: int)
    ensures ToggleBit(inputMap, button, pressed) & button == (if pressed == 1 then button else 0)
  {
    if pressed == 1 {
      assert ToggleBit(inputMap, button, pressed) == inputMap | button;
      OrKeepsMask(inputMap, button);
    } else {
      assert ToggleBit(inputMap, button, pressed) == inputMap & !button;
      AndNotClearsMask(inputMap, button);
    }
  }

  lemma OrKeepsMask(a: bv16, b: bv16)
    ensures (a | b) & b == b
  {
  }

  lemma AndNotClearsMask(a: bv16, b: bv16)
    ensures (a & !b) & b == 0
  {
  }

  /**
   * A stick coordinate: the magnitude of `value` scaled to 0x7FFF and rounded,
   * negated for the left and down deflections. Within [-1, 1] it is the nearest
   * integer to the scaled value and the `(short)` cast does not wrap.
   */
  function StickValue(value: real, negative: bool): (r: Int16)
    ensures -1.0 <= value <= 1.0 ==> -0x7FFF <= r <= 0x7FFF
    ensures -1.0 <= value <= 1.0 ==> (if negative then r <= 0 else r >= 0)
  {
    ToShort(Round((if negative then -Abs(value) else Abs(value)) * 32767.0))
  }

  /** Within [-1, 1] the stick coordinate is the integer nearest to the signed, scaled magnitude. */
  lemma StickValueNearest(value: real, negative: bool)
    requires -1.0 <= value <= 1.0
    ensures var scaled := (if negative then -Abs(value) else Abs(value)) * 32767.0;
            scaled - 0.5 < StickValue(value, negative) as real <= scaled + 0.5
  {
  }

  /**
   * A trigger byte: magnitudes below 0.9 count as released; otherwise the
   * magnitude scaled to 0xFF and rounded.
   */
  function TriggerValue(value: real): (r: UInt8)
    ensures Abs(value) < 0.9 ==> r == 0
  {
    var v := if Abs(value) < 0.9 then 0.0 else value;
    ToByte(Round(Abs(v) * 255.0))
  }

  /** From the 0.9 threshold up to full deflection the byte is the nearest integer to the magnitude scaled to 0xFF. */
  lemma TriggerValueNearest(value: real)
    requires 0.9 <= Abs(value) <= 1.0
    ensures var r := TriggerValue(value);
            230 <= r && Abs(value) * 255.0 - 0.5 < r as real <= Abs(value) * 255.0 + 0.5
  {
  }

  /**
   * What an analog component stores into its field for a normalised value: the
   * trigger byte for the two triggers, otherwise the stick coordinate, negated
   * exactly for the left and down deflections.
   */
  function PackedValue(c: GamepadComponent, value: real): (r: int)
    requires IsAnalog(c)
    ensures c == Lt || c == Rt ==> r == TriggerValue(value)
    ensures c in {LsRight, LsUp, RsRight, RsUp} ==> r == StickValue(value, false)
    ensures c in {LsLeft, LsDown, RsLeft, RsDown} ==> r == StickValue(value, true)
  {
    if c == Lt || c == Rt then TriggerValue(value) else StickValue(value, IsNegativeDeflection(c))
  }

  /**
   * An analog update writes exactly the field of its component; a button
   * component reaching it is a mapping error and changes nothing.
   */
  function ApplyAnalog(s: Pad, c: GamepadComponent, value: real): (r: Pad)
    ensures !IsAnalog(c) ==> r == s
    ensures r.inputMap == s.inputMap
  {
    match c
    case LsRight => s.(leftStickX := StickValue(value, false))
    case LsLeft => s.(leftStickX := StickValue(value, true))
    case LsUp => s.(leftStickY := StickValue(value, false))
    case LsDown => s.(leftStickY := StickValue(value, true))
    case RsUp => s.(rightStickY := StickValue(value, false))
    case RsDown => s.(rightStickY := StickValue(value, true))
    case RsRight => s.(rightStickX := StickValue(value, false))
    case RsLeft => s.(rightStickX := StickValue(value, true))
    case Lt => s.(leftTrigger := TriggerValue(value))
    case Rt => s.(rightTrigger := TriggerValue(value))
    case _ => s
  }

  /** An analog update stores its component's packed value into its component's field. */
  lemma ApplyAnalogWrites(s: Pad, c: GamepadComponent, value: real)
    requires IsAnalog(c)
    ensures Read(ApplyAnalog(s, c, value), AnalogChannel(c).value) == PackedValue(c, value)
  {
  }

  /** An analog update leaves every field other than its component's own as it was. */
  lemma ApplyAnalogKeepsOthers(s: Pad, c: GamepadComponent, value: real, ch: Channel)
    requires AnalogChannel(c) != Some(ch)
    ensures Read(ApplyAnalog(s, c, value), ch) == Read(s, ch)
  {
  }

  /**
   * A digital update toggles its component's flag and changes no analog field;
   * an analog component reaching it is a mapping error and changes nothing.
   */
  function ApplyDigital(s: Pad, c: GamepadComponent, pressed: int): (r: Pad)
    ensures IsAnalog(c) ==> r == s
    ensures r == s.(inputMap := r.inputMap)
    ensures !IsAnalog(c) ==> r.inputMap == ToggleBit(s.inputMap, Flag(c).value, pressed)
  {
    if IsAnalog(c) then s else s.(inputMap := ToggleBit(s.inputMap, Flag(c).value, pressed))
  }

  /** Whether the flag of button component `c` is set in the mask of `s`. */
  predicate Pressed(s: Pad, c: GamepadComponent)
    requires !IsAnalog(c)
  {
    s.inputMap & Flag(c).value != 0
  }

  /** A digital update leaves its button pressed exactly when `pressed` is 1. */
  lemma ApplyDigitalDecides(s: Pad, c: GamepadComponent, pressed: int)
    requires !IsAnalog(c)
    ensures Pressed(ApplyDigital(s, c, pressed), c) <==> pressed == 1
  {
    var f := Flag(c).value;
    FlagIsSingleBit(c);
    ToggleBitDecides(s.inputMap, f, pressed);
  }

  /** A digital update of one button keeps the flag of every other button. */
  lemma ApplyDigitalKeepsOtherBits(s: Pad, c: GamepadComponent, d: GamepadComponent, pressed: int)
    requires !IsAnalog(c) && d != c
    ensures Pressed(ApplyDigital(s, d, pressed), c) == Pressed(s, c)
  {
    if !IsAnalog(d) {
      FlagsDisjoint(c, d);
      ToggleKeepsDisjoint(s.inputMap, Flag(d).value, pressed, Flag(c).value);
    }
  }

  /** Toggling `button` keeps every bit set disjoint from it. */
  lemma ToggleKeepsDisjoint(inputMap: bv16, button: bv16, pressed: int, other: bv16)
    requires other & button == 0
    ensures ToggleBit(inputMap, button, pressed) & other == inputMap & other
  {
  }
}
