/**
 * The vocabulary of the translator: physical source components, the closed
 * set of virtual gamepad components, mapping entries, the controller
 * packet's button flags and the analog fields of the virtual pad.
 */
module Components {

  datatype Option<+T> = None | Some(value: T)

  /** Kind of a physical input channel. */
  datatype SourceType = Button | Axis

  /** Polarity of an axis-derived mapping. */
  datatype Direction = Positive | Negative

  /**
   * A key of the mapping table. Button keys carry no direction (Java `null`);
   * an axis may appear twice, once per direction.
   */
  datatype SourceComponent = SourceComponent(kind: SourceType, id: int, direction: Option<Direction>)

  /** The virtual controller components a physical input can be mapped to. */
  datatype GamepadComponent =
    | BtnA | BtnB | BtnX | BtnY
    | DpadUp | DpadDown | DpadLeft | DpadRight
    | LsThumb | RsThumb | Lb | Rb
    | BtnStart | BtnBack | BtnSpecial
    | LsRight | LsLeft | LsUp | LsDown
    | RsRight | RsLeft | RsUp | RsDown
    | Lt | Rt

  /** Stick deflections and triggers are analog; every other component is a button. */
  predicate IsAnalog(c: GamepadComponent)
  {
    c.LsRight? || c.LsLeft? || c.LsUp? || c.LsDown? || c.RsRight? || c.RsLeft? || c.RsUp? || c.RsDown? || c.Lt? || c.Rt?
  }

  /** The deflections whose packed magnitude is stored negated. */
  predicate IsNegativeDeflection(c: GamepadComponent)
  {
    c.LsLeft? || c.LsDown? || c.RsLeft? || c.RsDown?
  }

  /** A mapping entry: the target component and the normalisation flags. */
  datatype Mapping = Mapping(padComp: GamepadComponent, invert: bool, trigger: bool)

  /** One element of the mapping table's entry set. */
  type Entry = (SourceComponent, Mapping)

  /** Button flags of the controller packet (XInput layout). */
  const UpFlag: bv16 := 0x0001
  const DownFlag: bv16 := 0x0002
  const LeftFlag: bv16 := 0x0004
  const RightFlag: bv16 := 0x0008
  const PlayFlag: bv16 := 0x0010
  const BackFlag: bv16 := 0x0020
  const LsClkFlag: bv16 := 0x0040
  const RsClkFlag: bv16 := 0x0080
  const LbFlag: bv16 := 0x0100
  const RbFlag: bv16 := 0x0200
  const SpecialButtonFlag: bv16 := 0x0400
  const AFlag: bv16 := 0x1000
  const BFlag: bv16 := 0x2000
  const XFlag: bv16 := 0x4000
  const YFlag: bv16 := 0x8000

  predicate SingleBit(b: bv16)
  {
    b != 0 && b & (b - 1) == 0
  }

  /**
   * The flag a button component toggles; analog components have none, which is
   * the mapping-error branch of the digital dispatch.
   */
  function Flag(c: GamepadComponent): (r: Option<bv16>)
    ensures r.Some? <==> !IsAnalog(c)
  {
    match c
    case BtnA => Some(AFlag)
    case BtnX => Some(XFlag)
    case BtnY => Some(YFlag)
    case BtnB => Some(BFlag)
    case DpadUp => Some(UpFlag)
    case DpadDown => Some(DownFlag)
    case DpadLeft => Some(LeftFlag)
    case DpadRight => Some(RightFlag)
    case LsThumb => Some(LsClkFlag)
    case RsThumb => Some(RsClkFlag)
    case Lb => Some(LbFlag)
    case Rb => Some(RbFlag)
    case BtnStart => Some(PlayFlag)
    case BtnBack => Some(BackFlag)
    case BtnSpecial => Some(SpecialButtonFlag)
    case _ => None
  }

  /** Every button owns a single bit of the button mask. */
  lemma FlagIsSingleBit(c: GamepadComponent)
    requires !IsAnalog(c)
    ensures SingleBit(Flag(c).value)
  {
  }

  /** Distinct buttons own disjoint bits of the button mask. */
  lemma FlagsDisjoint(c: GamepadComponent, d: GamepadComponent)
    requires Flag(c).Some? && Flag(d).Some? && c != d
    ensures Flag(c).value & Flag(d).value == 0
  {
  }

  /** The six analog fields of the virtual pad. */
  datatype Channel = LeftTrigger | RightTrigger | LeftStickX | LeftStickY | RightStickX | RightStickY

  /**
   * The field an analog component writes; button components have none, which is
   * the mapping-error branch of the analog dispatch.
   */
  function AnalogChannel(c: GamepadComponent): (r: Option<Channel>)
    ensures r.Some? <==> IsAnalog(c)
    ensures r == Some(LeftTrigger) || r == Some(RightTrigger) <==> c == Lt || c == Rt
  {
    match c
    case LsRight => Some(LeftStickX)
    case LsLeft => Some(LeftStickX)
    case LsUp => Some(LeftStickY)
    case LsDown => Some(LeftStickY)
    case RsRight => Some(RightStickX)
    case RsLeft => Some(RightStickX)
    case RsUp => Some(RightStickY)
    case RsDown => Some(RightStickY)
    case Lt => Some(LeftTrigger)
    case Rt => Some(RightTrigger)
    case _ => None
  }
}
