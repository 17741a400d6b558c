/**
 * The gamepad object: seven fields of virtual controller state updated in
 * place by the button and axis handlers, and a packet snapshot. Every method
 * is proved to compute the corresponding function of module Translate or
 * PadState on the state it starts from.
 */
module GamepadObject {
  import opened Components
  import opened JavaNum
  import opened Normalize
  import opened PadState
  import opened Translate

  class Gamepad {
    var inputMap: bv16
    var leftTrigger: UInt8
    var rightTrigger: UInt8
    var rightStickX: Int16
    var rightStickY: Int16
    var leftStickX: Int16
    var leftStickY: Int16

    /** Whether a connection to the host is attached; the connection itself is not modelled. */
    var connected: bool

    /** The controller state the fields hold. */
    function State(): Pad
      reads this
    {
      Pad(inputMap, leftTrigger, rightTrigger, leftStickX, leftStickY, rightStickX, rightStickY)
    }

    /** A new gamepad starts neutral, with or without a connection. */
    constructor (connected: bool)
      ensures State() == Neutral && this.connected == connected
    {
      inputMap, leftTrigger, rightTrigger := 0, 0, 0;
      rightStickX, rightStickY, leftStickX, leftStickY := 0, 0, 0, 0;
      this.connected := connected;
    }

    method SetConnection(connected: bool)
      modifies this
      ensures State() == old(State()) && this.connected == connected
    {
      this.connected := connected;
    }

    /**
     * Looks every button sample up in the table, in id order, and hands mapped
     * ones to the digital or analog handler.
     */
    method HandleButtons(table: map<SourceComponent, Mapping>, buttonStates: seq<real>)
      modifies this
      ensures State() == ButtonsUpTo(old(State()), table, buttonStates, |buttonStates|)
      ensures connected == old(connected)
    {
      for id := 0 to |buttonStates|
        invariant State() == ButtonsUpTo(old(State()), table, buttonStates, id)
        invariant connected == old(connected)
      {
        var key := SourceComponent(Button, id, None);
        if key !in table {
          continue;
        }
        var mapped := table[key];
        if !IsAnalog(mapped.padComp) {
          HandleDigitalComponent(mapped, TruncToInt(buttonStates[id]));
        } else {
          HandleAnalogComponent(mapped.padComp, SanitizeValue(mapped, buttonStates[id]));
        }
      }
    }

    /**
     * Walks every entry of the table in iteration order, resolves the direction
     * of each entry's sample against the cached one, and applies the entries whose
     * direction matches. `completed` is false when an entry's id lies outside a
     * sample vector: the walk stops there, as the array access throws.
     */
    method HandleAxes(entries: seq<Entry>, axesStates: seq<real>, lastStates: seq<real>) returns (completed: bool)
      modifies this
      ensures State() == AxesState(old(State()), entries, axesStates, lastStates, |entries|)
      ensures completed == AxesWalk(entries, axesStates, lastStates, |entries|).completed
      ensures connected == old(connected)
    {
      ghost var applied: seq<Entry> := [];
      completed := true;
      var i := 0;
      while i < |entries|
        invariant 0 <= i <= |entries|
        invariant AxesWalk(entries, axesStates, lastStates, i) == Walk(applied, true)
        invariant AxesState(old(State()), entries, axesStates, lastStates, i) == State()
        invariant connected == old(connected)
      {
        var key, mapped := entries[i].0, entries[i].1;
        var id := key.id;
        if !(0 <= id < |axesStates|) || !(0 <= id < |lastStates|) {
          completed := false;
          AxesStopIsFinal(old(State()), entries, axesStates, lastStates, i + 1, |entries|);
          return;
        }
        AxesAdvance(old(State()), entries, axesStates, lastStates, i);
        var newValue := SanitizeValue(mapped, axesStates[id]);
        var lastValue := SanitizeValue(mapped, lastStates[id]);
        var mappedDir := ResolveDirection(newValue, lastValue);
        if Some(mappedDir) == key.direction {
          if IsAnalog(mapped.padComp) {
            HandleAnalogComponent(mapped.padComp, newValue);
          } else {
            HandleDigitalComponent(mapped, Round(newValue));
          }
          applied := applied + [entries[i]];
        }
        i := i + 1;
      }
    }

    /** Packs a normalised value into the field of an analog component. */
    method HandleAnalogComponent(padComp: GamepadComponent, value: real)
      modifies this
      ensures State() == ApplyAnalog(old(State()), padComp, value)
      ensures connected == old(connected)
    {
      match padComp
      case LsRight => leftStickX := StickValue(value, false);
      case LsLeft => leftStickX := StickValue(value, true);
      case LsUp => leftStickY := StickValue(value, false);
      case LsDown => leftStickY := StickValue(value, true);
      case RsUp => rightStickY := StickValue(value, false);
      case RsDown => rightStickY := StickValue(value, true);
      case RsRight => rightStickX := StickValue(value, false);
      case RsLeft => rightStickX := StickValue(value, true);
      case Lt => leftTrigger := TriggerValue(value);
      case Rt => rightTrigger := TriggerValue(value);
      case _ =>
    }

    /** Sets or clears the flag of a button component. */
    method HandleDigitalComponent(mapped: Mapping, pressed: int)
      modifies this
      ensures State() == ApplyDigital(old(State()), mapped.padComp, pressed)
      ensures connected == old(connected)
    {
      match Flag(mapped.padComp)
      case Some(flag) => Toggle(flag, pressed);
      case None =>
    }

    /** Sets `button` in the mask when `pressed` is 1 and clears it otherwise. */
    method Toggle(button: bv16, pressed: int)
      modifies this
      ensures State() == old(State()).(inputMap := ToggleBit(old(inputMap), button, pressed))
      ensures connected == old(connected)
    {
      if pressed == 1 {
        inputMap := inputMap | button;
      } else {
        inputMap := inputMap & !button;
      }
    }

    /**
     * The packet sent to the host: the current state when a connection is
     * attached, nothing otherwise. No field changes.
     */
    method FireControllerPacket() returns (sent: Option<Pad>)
      ensures sent == (if connected then Some(State()) else None)
    {
      if connected {
        sent := Some(Pad(inputMap, leftTrigger, rightTrigger, leftStickX, leftStickY, rightStickX, rightStickY));
      } else {
        sent := None;
      }
    }
  }
}
