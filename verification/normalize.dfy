/**
 * Normalisation of raw samples and the zero-crossing direction rule that
 * decides which of two opposite axis mappings a sample belongs to.
 */
module Normalize {
  import opened Components
  import opened JavaNum

  /** Optional negation, then the optional remap of [-1, 1] onto [0, 1]. */
  function SanitizeValue(mapped: Mapping, value: real): (r: real)
    ensures -1.0 <= value <= 1.0 ==> -1.0 <= r <= 1.0
    ensures -1.0 <= value <= 1.0 && mapped.trigger ==> 0.0 <= r <= 1.0
    ensures !mapped.trigger ==> Abs(r) == Abs(value)
    ensures mapped.trigger ==> r == (if mapped.invert then 1.0 - value else 1.0 + value) / 2.0
  {
    var retVal := if mapped.invert then -value else value;
    if mapped.trigger then (retVal + 1.0) / 2.0 else retVal
  }

  /** With neither flag set, a sample passes through unchanged. */
  lemma SanitizeIdentity(mapped: Mapping, value: real)
    requires !mapped.invert && !mapped.trigger
    ensures SanitizeValue(mapped, value) == value
  {
  }

  /** The trigger remap sends -1, 0 and 1 to 0, 1/2 and 1. */
  lemma TriggerRemapPoints(mapped: Mapping)
    requires mapped.trigger && !mapped.invert
    ensures SanitizeValue(mapped, -1.0) == 0.0
    ensures SanitizeValue(mapped, 0.0) == 0.5
    ensures SanitizeValue(mapped, 1.0) == 1.0
  {
  }

  /** Inversion happens before the remap: it is the same as negating the sample. */
  lemma InvertBeforeRemap(mapped: Mapping, value: real)
    ensures SanitizeValue(mapped.(invert := true), value) == SanitizeValue(mapped.(invert := false), -value)
  {
  }

  /**
   * The direction a new sample selects: its own sign when nonzero, and when it
   * is exactly zero the sign of the previous sample, zero counting as positive.
   */
  function ResolveDirection(newValue: real, lastValue: real): (d: Direction)
    ensures newValue != 0.0 ==> (d == Positive <==> newValue > 0.0)
    ensures newValue == 0.0 ==> (d == Positive <==> lastValue >= 0.0)
  {
    if newValue == 0.0 then
      (if lastValue >= 0.0 then Positive else Negative)
    else if newValue > 0.0 then Positive else Negative
  }

  /** Whether an entry of the table is applied for a (new, last) sample pair. */
  predicate Applies(key: SourceComponent, mapped: Mapping, newSample: real, lastSample: real)
  {
    key.direction == Some(ResolveDirection(SanitizeValue(mapped, newSample), SanitizeValue(mapped, lastSample)))
  }

  /** A key without a direction (every button key) is never applied by the axis walk. */
  lemma NoDirectionNeverApplies(key: SourceComponent, mapped: Mapping, newSample: real, lastSample: real)
    requires key.direction == None
    ensures !Applies(key, mapped, newSample, lastSample)
  {
  }

  /**
   * Two keys for one sample with opposite directions and the same flags: exactly
   * one of them is applied, whatever the samples.
   */
  lemma OppositeKeysExactlyOne(kp: SourceComponent, mp: Mapping, kn: SourceComponent, mn: Mapping,
                               newSample: real, lastSample: real)
    requires kp.direction == Some(Positive) && kn.direction == Some(Negative)
    requires mp.invert == mn.invert && mp.trigger == mn.trigger
    ensures Applies(kp, mp, newSample, lastSample) != Applies(kn, mn, newSample, lastSample)
  {
  }

  /**
   * A trigger-range axis sampled within [-1, 1] only ever selects the positive
   * direction: the remapped values are never negative.
   */
  lemma TriggerRangeSelectsPositive(mapped: Mapping, newSample: real, lastSample: real)
    requires mapped.trigger
    requires -1.0 <= newSample <= 1.0 && -1.0 <= lastSample <= 1.0
    ensures ResolveDirection(SanitizeValue(mapped, newSample), SanitizeValue(mapped, lastSample)) == Positive
  {
  }
}
