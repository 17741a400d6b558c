/**
 * Worked examples of the translator on fixed inputs: a stick axis split into two directional
 * entries, the zero-crossing rule, button truncation, the trigger threshold,
 * an id outside the sample vector, and a packet read off a gamepad object.
 */
module Scenarios {
  import opened Components
  import opened JavaNum
  import opened Normalize
  import opened PadState
  import opened Translate
  import opened GamepadObject

  /** Axis 0 split into a right and a left deflection of the left stick. */
  const StickRight: Entry := (SourceComponent(Axis, 0, Some(Positive)), Mapping(LsRight, false, false))
  const StickLeft: Entry := (SourceComponent(Axis, 0, Some(Negative)), Mapping(LsLeft, false, false))

  /** Axis 0 moving from 0.3 to 0.6 puts the left stick at round(0.6 * 0x7FFF), in either iteration order. */
  lemma StickAxisScenario(entries: seq<Entry>)
    requires entries == [StickRight, StickLeft] || entries == [StickLeft, StickRight]
    ensures AxesState(Neutral, entries, [0.6], [0.3], |entries|).leftStickX == 19660
    ensures AxesWalk(entries, [0.6], [0.3], |entries|).applied == [StickRight]
  {
    assert SanitizeValue(StickRight.1, 0.6) == 0.6 && SanitizeValue(StickRight.1, 0.3) == 0.3;
    assert ResolveDirection(0.6, 0.3) == Positive;
    assert StickValue(0.6, false) == 19660;
    AxesPairDecidesChannel(Neutral, entries, [0.6], [0.3], StickRight, StickLeft, LeftStickX);
  }

  /**
   * At exactly 0 the direction is taken from the cached sample: from 0.4 the
   * right entry fires, from -0.4 the left one, and either drives a deflected
   * stick back to 0.
   */
  lemma ZeroCrossingScenario()
    ensures AxesWalk([StickRight, StickLeft], [0.0], [0.4], 2).applied == [StickRight]
    ensures AxesWalk([StickRight, StickLeft], [0.0], [-0.4], 2).applied == [StickLeft]
    ensures AxesState(Neutral.(leftStickX := 1000), [StickRight, StickLeft], [0.0], [0.4], 2).leftStickX == 0
    ensures AxesState(Neutral.(leftStickX := -1000), [StickRight, StickLeft], [0.0], [-0.4], 2).leftStickX == 0
  {
    assert SanitizeValue(StickRight.1, 0.0) == 0.0 && StickValue(0.0, false) == 0 && StickValue(0.0, true) == 0;
  }

  /** An axis mapped onto a D-pad button presses it only once its value rounds to 1. */
  lemma AxisButtonScenario()
    ensures var e := (SourceComponent(Axis, 1, Some(Positive)), Mapping(DpadRight, false, false));
            Pressed(AxesState(Neutral, [e], [0.0, 0.7], [0.0, 0.0], 1), DpadRight) &&
            !Pressed(AxesState(Neutral, [e], [0.0, 0.4], [0.0, 0.0], 1), DpadRight)
  {
  }

  /** Button 0 mapped onto A: a sample of 1.0 presses it; 0.99 truncates to 0 and 2.0 is not 1, so both release it. */
  lemma ButtonScenario()
    ensures var table := map[ButtonKey(0) := Mapping(BtnA, false, false)];
            Pressed(ButtonsUpTo(Neutral, table, [1.0], 1), BtnA) &&
            !Pressed(ButtonsUpTo(Neutral.(inputMap := AFlag), table, [0.99], 1), BtnA) &&
            !Pressed(ButtonsUpTo(Neutral.(inputMap := AFlag), table, [2.0], 1), BtnA)
  {
  }

  /** Buttons 0 and 1 both mapped onto A: the higher id decides, so button 1 at 0.0 masks button 0 at 1.0. */
  lemma SharedButtonScenario()
    ensures var table := map[ButtonKey(0) := Mapping(BtnA, false, false), ButtonKey(1) := Mapping(BtnA, false, false)];
            !Pressed(ButtonsUpTo(Neutral, table, [1.0, 0.0], 2), BtnA) &&
            Pressed(ButtonsUpTo(Neutral, table, [0.0, 1.0], 2), BtnA)
  {
  }

  /** Trigger bytes: below 0.9 the trigger is released, 0.95 gives round(0.95 * 0xFF), full travel 0xFF. */
  lemma TriggerScenario()
    ensures TriggerValue(0.85) == 0
    ensures TriggerValue(0.95) == 242
    ensures TriggerValue(-1.0) == 255
  {
  }

  /** Full deflection packs to 0x7FFF in magnitude, signed by the component and not by the sample. */
  lemma StickExtremesScenario()
    ensures StickValue(1.0, false) == 0x7FFF && StickValue(-1.0, false) == 0x7FFF
    ensures StickValue(1.0, true) == -0x7FFF && StickValue(-1.0, true) == -0x7FFF
  {
  }

  /** A button key whose id lies past the axis vector stops the axis walk before the entries after it. */
  lemma OutOfRangeScenario()
    ensures var buttonKey := (ButtonKey(5), Mapping(BtnA, false, false));
            var w := AxesWalk([buttonKey, StickRight], [0.6], [0.3], 2);
            !w.completed && w.applied == []
  {
  }

  /** A new gamepad with a connection, after button 0 (mapped onto A) reads 1.0, sends a packet with only A set. */
  method PressAndSendScenario() returns (sent: Option<Pad>)
    ensures sent == Some(Neutral.(inputMap := AFlag))
  {
    var pad := new Gamepad(true);
    var table := map[ButtonKey(0) := Mapping(BtnA, false, false)];
    pad.HandleButtons(table, [1.0]);
    sent := pad.FireControllerPacket();
  }

  /** Without a connection nothing is sent. */
  method DisconnectedScenario() returns (sent: Option<Pad>)
    ensures sent == None
  {
    var pad := new Gamepad(false);
    sent := pad.FireControllerPacket();
  }
}
