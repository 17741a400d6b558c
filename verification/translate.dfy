/**
 * The two translation passes as functions of the pad state: the button pass
 * (one table lookup per button id) and the axis pass (a walk over every
 * entry of the table with the zero-crossing direction rule). The class in
 * gamepad.dfy is proved to compute exactly these.
 */
module Translate {
  import opened Components
  import opened JavaNum
  import opened Normalize
  import opened PadState

  /** The table key a button sample is looked up under. */
  function ButtonKey(id: int): SourceComponent
  {
    SourceComponent(Button, id, None)
  }

  /**
   * One iteration of the button pass: unmapped ids are skipped, a button target
   * receives the sample truncated by the `(int)` cast, an analog target the
   * normalised sample.
   */
  function ButtonStep(s: Pad, table: map<SourceComponent, Mapping>, buttonStates: seq<real>, id: nat): Pad
    requires id < |buttonStates|
  {
    var key := ButtonKey(id);
    if key !in table then s
    else
      var mapped := table[key];
      if !IsAnalog(mapped.padComp) then ApplyDigital(s, mapped.padComp, TruncToInt(buttonStates[id]))
      else ApplyAnalog(s, mapped.padComp, SanitizeValue(mapped, buttonStates[id]))
  }

  /** The state once the button pass has handled ids 0 .. n-1. */
  function ButtonsUpTo(s: Pad, table: map<SourceComponent, Mapping>, buttonStates: seq<real>, n: nat): Pad
    requires n <= |buttonStates|
    decreases n
  {
    if n == 0 then s
    else ButtonStep(ButtonsUpTo(s, table, buttonStates, n - 1), table, buttonStates, n - 1)
  }

  /** Button ids without a table entry change nothing. */
  lemma {:induction false} ButtonsUnmappedNoChange(s: Pad, table: map<SourceComponent, Mapping>, buttonStates: seq<real>, n: nat)
    requires n <= |buttonStates|
    requires forall id :: 0 <= id < n ==> ButtonKey(id) !in table
    ensures ButtonsUpTo(s, table, buttonStates, n) == s
  {
    if n > 0 {
      ButtonsUnmappedNoChange(s, table, buttonStates, n - 1);
    }
  }

  /**
   * A button mapped to a button component, and the last id below n mapped to
   * that component, decides its flag: set exactly when the truncated sample is 1.
   * Earlier ids mapped to the same component are overridden.
   */
  lemma {:induction false} ButtonsDigitalBit(s: Pad, table: map<SourceComponent, Mapping>, buttonStates: seq<real>,
                                             i: nat, n: nat)
    requires i < n <= |buttonStates|
    requires ButtonKey(i) in table && !IsAnalog(table[ButtonKey(i)].padComp)
    requires forall j :: i < j < n && ButtonKey(j) in table ==>
               table[ButtonKey(j)].padComp != table[ButtonKey(i)].padComp
    ensures Pressed(ButtonsUpTo(s, table, buttonStates, n), table[ButtonKey(i)].padComp) <==> TruncToInt(buttonStates[i]) == 1
  {
    if n - 1 == i {
      ButtonStepSetsBit(ButtonsUpTo(s, table, buttonStates, i), table, buttonStates, i);
    } else {
      ButtonsDigitalBit(s, table, buttonStates, i, n - 1);
      ButtonsKeepBit(s, table, buttonStates, n, table[ButtonKey(i)].padComp);
    }
  }

  /** One more step of the button pass keeps the flag of a component the new id does not target. */
  lemma ButtonsKeepBit(s: Pad, table: map<SourceComponent, Mapping>, buttonStates: seq<real>, n: nat, c: GamepadComponent)
    requires 0 < n <= |buttonStates| && !IsAnalog(c)
    requires ButtonKey(n - 1) in table ==> table[ButtonKey(n - 1)].padComp != c
    ensures Pressed(ButtonsUpTo(s, table, buttonStates, n), c) == Pressed(ButtonsUpTo(s, table, buttonStates, n - 1), c)
  {
    ButtonStepKeepsBit(ButtonsUpTo(s, table, buttonStates, n - 1), table, buttonStates, n - 1, c);
  }

  /** The flag of a button component that no mapped button id targets is left as it was. */
  lemma {:induction false} ButtonsBitUntouched(s: Pad, table: map<SourceComponent, Mapping>, buttonStates: seq<real>,
                                               c: GamepadComponent, n: nat)
    requires n <= |buttonStates| && !IsAnalog(c)
    requires forall id :: 0 <= id < n && ButtonKey(id) in table ==> table[ButtonKey(id)].padComp != c
    ensures Pressed(ButtonsUpTo(s, table, buttonStates, n), c) == Pressed(s, c)
  {
    if n > 0 {
      ButtonsBitUntouched(s, table, buttonStates, c, n - 1);
      ButtonsKeepBit(s, table, buttonStates, n, c);
    }
  }

  /** The step of a button mapped to a button component sets or clears its flag. */
  lemma ButtonStepSetsBit(s: Pad, table: map<SourceComponent, Mapping>, buttonStates: seq<real>, id: nat)
    requires id < |buttonStates|
    requires ButtonKey(id) in table && !IsAnalog(table[ButtonKey(id)].padComp)
    ensures Pressed(ButtonStep(s, table, buttonStates, id), table[ButtonKey(id)].padComp) <==> TruncToInt(buttonStates[id]) == 1
  {
    var c := table[ButtonKey(id)].padComp;
    assert ButtonStep(s, table, buttonStates, id) == ApplyDigital(s, c, TruncToInt(buttonStates[id]));
    ApplyDigitalDecides(s, c, TruncToInt(buttonStates[id]));
  }

  /** The step of a button not mapped to component `c` keeps the flag of `c`. */
  lemma ButtonStepKeepsBit(s: Pad, table: map<SourceComponent, Mapping>, buttonStates: seq<real>, id: nat, c: GamepadComponent)
    requires id < |buttonStates| && !IsAnalog(c)
    requires ButtonKey(id) in table ==> table[ButtonKey(id)].padComp != c
    ensures Pressed(ButtonStep(s, table, buttonStates, id), c) == Pressed(s, c)
  {
    var key := ButtonKey(id);
    if key in table && !IsAnalog(table[key].padComp) {
      ApplyDigitalKeepsOtherBits(s, c, table[key].padComp, TruncToInt(buttonStates[id]));
    }
  }

  /** An analog field that no mapped button id targets is left as it was. */
  lemma {:induction false} ButtonsChannelUntouched(s: Pad, table: map<SourceComponent, Mapping>, buttonStates: seq<real>,
                                                   ch: Channel, n: nat)
    requires n <= |buttonStates|
    requires forall id :: 0 <= id < n && ButtonKey(id) in table ==> AnalogChannel(table[ButtonKey(id)].padComp) != Some(ch)
    ensures Read(ButtonsUpTo(s, table, buttonStates, n), ch) == Read(s, ch)
  {
    if n > 0 {
      ButtonsChannelUntouched(s, table, buttonStates, ch, n - 1);
      ButtonStepKeepsChannel(ButtonsUpTo(s, table, buttonStates, n - 1), table, buttonStates, n - 1, ch);
    }
  }

  /**
   * A button id mapped onto an analog field, and the last id below n mapped
   * onto that field, leaves it holding the packed value of its sanitised sample.
   */
  lemma {:induction false} ButtonsAnalogChannel(s: Pad, table: map<SourceComponent, Mapping>, buttonStates: seq<real>,
                                                i: nat, n: nat, ch: Channel)
    requires i < n <= |buttonStates|
    requires ButtonKey(i) in table && AnalogChannel(table[ButtonKey(i)].padComp) == Some(ch)
    requires forall j :: i < j < n && ButtonKey(j) in table ==>
               AnalogChannel(table[ButtonKey(j)].padComp) != Some(ch)
    ensures Read(ButtonsUpTo(s, table, buttonStates, n), ch) ==
            PackedValue(table[ButtonKey(i)].padComp, SanitizeValue(table[ButtonKey(i)], buttonStates[i]))
  {
    var mapped := table[ButtonKey(i)];
    if n - 1 == i {
      ButtonStepWritesChannel(ButtonsUpTo(s, table, buttonStates, i), table, buttonStates, i);
    } else {
      ButtonsAnalogChannel(s, table, buttonStates, i, n - 1, ch);
      ButtonStepKeepsChannel(ButtonsUpTo(s, table, buttonStates, n - 1), table, buttonStates, n - 1, ch);
    }
  }

  /** The step of a button mapped onto an analog component writes that component's field. */
  lemma ButtonStepWritesChannel(s: Pad, table: map<SourceComponent, Mapping>, buttonStates: seq<real>, id: nat)
    requires id < |buttonStates|
    requires ButtonKey(id) in table && IsAnalog(table[ButtonKey(id)].padComp)
    ensures Read(ButtonStep(s, table, buttonStates, id), AnalogChannel(table[ButtonKey(id)].padComp).value) ==
            PackedValue(table[ButtonKey(id)].padComp, SanitizeValue(table[ButtonKey(id)], buttonStates[id]))
  {
    var mapped := table[ButtonKey(id)];
    ApplyAnalogWrites(s, mapped.padComp, SanitizeValue(mapped, buttonStates[id]));
  }

  /** The step of a button not mapped onto analog field `ch` keeps that field. */
  lemma ButtonStepKeepsChannel(s: Pad, table: map<SourceComponent, Mapping>, buttonStates: seq<real>, id: nat, ch: Channel)
    requires id < |buttonStates|
    requires ButtonKey(id) in table ==> AnalogChannel(table[ButtonKey(id)].padComp) != Some(ch)
    ensures Read(ButtonStep(s, table, buttonStates, id), ch) == Read(s, ch)
  {
    var key := ButtonKey(id);
    if key in table && IsAnalog(table[key].padComp) {
      ApplyAnalogKeepsOthers(s, table[key].padComp, SanitizeValue(table[key], buttonStates[id]), ch);
    }
  }

  /**
   * The selection side of a (partial) axis pass: the entries applied so far,
   * in walk order, and whether the walk got through without an out-of-range id.
   */
  datatype Walk = Walk(applied: seq<Entry>, completed: bool)

  predicate InRange(id: int, samples: seq<real>)
  {
    0 <= id < |samples|
  }

  /** Every key's id indexes both the new and the cached sample vector. */
  predicate AllInRange(entries: seq<Entry>, axesStates: seq<real>, lastStates: seq<real>)
  {
    forall e :: e in entries ==> InRange(e.0.id, axesStates) && InRange(e.0.id, lastStates)
  }

  /** Whether the axis pass applies entry `e`: its id is in range and its direction is the resolved one. */
  predicate Fires(e: Entry, axesStates: seq<real>, lastStates: seq<real>)
  {
    InRange(e.0.id, axesStates) && InRange(e.0.id, lastStates) &&
    Applies(e.0, e.1, axesStates[e.0.id], lastStates[e.0.id])
  }

  /** The dispatch of an applied entry: analog targets get the value, button targets its rounding. */
  function ApplyEntry(s: Pad, mapped: Mapping, newValue: real): Pad
  {
    if IsAnalog(mapped.padComp) then ApplyAnalog(s, mapped.padComp, newValue)
    else ApplyDigital(s, mapped.padComp, Round(newValue))
  }

  /**
   * Which of the first n entries, in iteration order, the axis pass applies. An
   * id outside either sample vector stops the walk, as the out-of-bounds array
   * access does.
   */
  function AxesWalk(entries: seq<Entry>, axesStates: seq<real>, lastStates: seq<real>, n: nat): Walk
    requires n <= |entries|
    decreases n
  {
    if n == 0 then Walk([], true)
    else
      var prev := AxesWalk(entries, axesStates, lastStates, n - 1);
      var e := entries[n - 1];
      if !prev.completed then prev
      else if !InRange(e.0.id, axesStates) || !InRange(e.0.id, lastStates) then prev.(completed := false)
      else if !Applies(e.0, e.1, axesStates[e.0.id], lastStates[e.0.id]) then prev
      else Walk(prev.applied + [e], true)
  }

  /** The pad state once the axis pass has walked the first n entries. */
  function AxesState(s: Pad, entries: seq<Entry>, axesStates: seq<real>, lastStates: seq<real>, n: nat): Pad
    requires n <= |entries|
    decreases n
  {
    if n == 0 then s
    else
      var prev := AxesState(s, entries, axesStates, lastStates, n - 1);
      var e := entries[n - 1];
      if AxesWalk(entries, axesStates, lastStates, n - 1).completed && Fires(e, axesStates, lastStates)
      then ApplyEntry(prev, e.1, SanitizeValue(e.1, axesStates[e.0.id]))
      else prev
  }

  /**
   * One step of a walk that is still going: an entry whose id is out of range
   * stops it and leaves the state alone; otherwise the entry is applied to the
   * state exactly when its direction is the resolved one.
   */
  lemma AxesAdvance(s: Pad, entries: seq<Entry>, axesStates: seq<real>, lastStates: seq<real>, i: nat)
    requires i < |entries|
    requires AxesWalk(entries, axesStates, lastStates, i).completed
    ensures var e := entries[i];
            var prev := AxesWalk(entries, axesStates, lastStates, i);
            var state := AxesState(s, entries, axesStates, lastStates, i);
            if !InRange(e.0.id, axesStates) || !InRange(e.0.id, lastStates) then
              AxesWalk(entries, axesStates, lastStates, i + 1) == prev.(completed := false) &&
              AxesState(s, entries, axesStates, lastStates, i + 1) == state
            else
            var newValue := SanitizeValue(e.1, axesStates[e.0.id]);
            if Applies(e.0, e.1, axesStates[e.0.id], lastStates[e.0.id]) then
              AxesWalk(entries, axesStates, lastStates, i + 1) == Walk(prev.applied + [e], true) &&
              AxesState(s, entries, axesStates, lastStates, i + 1) == ApplyEntry(state, e.1, newValue)
            else
              AxesWalk(entries, axesStates, lastStates, i + 1) == prev &&
              AxesState(s, entries, axesStates, lastStates, i + 1) == state
  {
  }

  /** The walk completes exactly when every id it meets is in range. */
  lemma {:induction false} AxesCompletes(entries: seq<Entry>, axesStates: seq<real>, lastStates: seq<real>, n: nat)
    requires n <= |entries|
    ensures AxesWalk(entries, axesStates, lastStates, n).completed <==>
            forall i :: 0 <= i < n ==> InRange(entries[i].0.id, axesStates) && InRange(entries[i].0.id, lastStates)
  {
    if n > 0 {
      AxesCompletes(entries, axesStates, lastStates, n - 1);
    }
  }

  /** Once the walk has stopped, the remaining entries neither get applied nor change the state. */
  lemma {:induction false} AxesStopIsFinal(s: Pad, entries: seq<Entry>, axesStates: seq<real>, lastStates: seq<real>,
                                           n: nat, m: nat)
    requires n <= m <= |entries|
    requires !AxesWalk(entries, axesStates, lastStates, n).completed
    ensures AxesWalk(entries, axesStates, lastStates, m) == AxesWalk(entries, axesStates, lastStates, n)
    ensures AxesState(s, entries, axesStates, lastStates, m) == AxesState(s, entries, axesStates, lastStates, n)
  {
    if m > n {
      AxesStopIsFinal(s, entries, axesStates, lastStates, n, m - 1);
    }
  }

  /** Every applied entry is one of the entries walked so far, and it fires. */
  lemma {:induction false} AxesAppliedFire(entries: seq<Entry>, axesStates: seq<real>, lastStates: seq<real>, n: nat)
    requires n <= |entries|
    ensures forall e :: e in AxesWalk(entries, axesStates, lastStates, n).applied ==>
              e in entries[..n] && Fires(e, axesStates, lastStates)
  {
    if n > 0 {
      AxesAppliedFire(entries, axesStates, lastStates, n - 1);
      assert entries[..n] == entries[..n - 1] + [entries[n - 1]];
    }
  }

  /** When the walk completes, an entry it met was applied exactly when it fires. */
  lemma {:induction false} AxesFiredApplied(entries: seq<Entry>, axesStates: seq<real>, lastStates: seq<real>, n: nat)
    requires n <= |entries|
    ensures var w := AxesWalk(entries, axesStates, lastStates, n);
            w.completed ==> forall i :: 0 <= i < n ==> (entries[i] in w.applied <==> Fires(entries[i], axesStates, lastStates))
  {
    if n > 0 {
      var prev := AxesWalk(entries, axesStates, lastStates, n - 1);
      var w := AxesWalk(entries, axesStates, lastStates, n);
      AxesFiredApplied(entries, axesStates, lastStates, n - 1);
      if w.completed {
        AxesAppliedFire(entries, axesStates, lastStates, n - 1);
        var last := entries[n - 1];
        assert last in prev.applied ==> Fires(last, axesStates, lastStates);
        forall i | 0 <= i < n
          ensures entries[i] in w.applied <==> Fires(entries[i], axesStates, lastStates)
        {
          if entries[i] != last {
            assert entries[i] in w.applied <==> entries[i] in prev.applied;
          }
        }
      }
    }
  }

  /**
   * Two entries on one physical axis with opposite directions and the same
   * flags: a completed pass applies exactly one of them.
   */
  lemma AxesOppositePairExactlyOne(entries: seq<Entry>, axesStates: seq<real>, lastStates: seq<real>, ep: Entry, en: Entry)
    requires ep in entries && en in entries
    requires ep.0.id == en.0.id
    requires ep.0.direction == Some(Positive) && en.0.direction == Some(Negative)
    requires ep.1.invert == en.1.invert && ep.1.trigger == en.1.trigger
    requires AllInRange(entries, axesStates, lastStates)
    ensures var w := AxesWalk(entries, axesStates, lastStates, |entries|);
            (ep in w.applied) != (en in w.applied)
  {
    var n := |entries|;
    AxesCompletes(entries, axesStates, lastStates, n);
    AxesFiredApplied(entries, axesStates, lastStates, n);
    var id := ep.0.id;
    OppositeKeysExactlyOne(ep.0, ep.1, en.0, en.1, axesStates[id], lastStates[id]);
  }

  /**
   * One step of the pass either leaves the applied entries and the state as
   * they were, or finds its entry in range, appends it and applies it.
   */
  lemma AxesStateStep(s: Pad, entries: seq<Entry>, axesStates: seq<real>, lastStates: seq<real>, n: nat)
    requires 0 < n <= |entries|
    ensures var prev := AxesWalk(entries, axesStates, lastStates, n - 1);
            var w := AxesWalk(entries, axesStates, lastStates, n);
            var state := AxesState(s, entries, axesStates, lastStates, n - 1);
            var e := entries[n - 1];
            (w.applied == prev.applied && AxesState(s, entries, axesStates, lastStates, n) == state) ||
            (InRange(e.0.id, axesStates) && w.applied == prev.applied + [e] &&
             AxesState(s, entries, axesStates, lastStates, n) == ApplyEntry(state, e.1, SanitizeValue(e.1, axesStates[e.0.id])))
  {
  }

  /** An analog field that no applied entry targets is left as it was. */
  lemma {:induction false} AxesChannelUntouched(s: Pad, entries: seq<Entry>, axesStates: seq<real>, lastStates: seq<real>,
                                                ch: Channel, n: nat)
    requires n <= |entries|
    requires forall e :: e in AxesWalk(entries, axesStates, lastStates, n).applied ==> AnalogChannel(e.1.padComp) != Some(ch)
    ensures Read(AxesState(s, entries, axesStates, lastStates, n), ch) == Read(s, ch)
  {
    if n > 0 {
      var prev := AxesWalk(entries, axesStates, lastStates, n - 1);
      var w := AxesWalk(entries, axesStates, lastStates, n);
      AxesStateStep(s, entries, axesStates, lastStates, n);
      assert forall e :: e in prev.applied ==> e in w.applied;
      AxesChannelUntouched(s, entries, axesStates, lastStates, ch, n - 1);
      if w.applied != prev.applied {
        var e := entries[n - 1];
        assert e in w.applied;
        ApplyEntryKeepsChannel(AxesState(s, entries, axesStates, lastStates, n - 1), e.1, SanitizeValue(e.1, axesStates[e.0.id]), ch);
      }
    }
  }

  /** The flag of a button component that no applied entry targets is left as it was. */
  lemma {:induction false} AxesBitUntouched(s: Pad, entries: seq<Entry>, axesStates: seq<real>, lastStates: seq<real>,
                                            c: GamepadComponent, n: nat)
    requires n <= |entries| && !IsAnalog(c)
    requires forall e :: e in AxesWalk(entries, axesStates, lastStates, n).applied ==> e.1.padComp != c
    ensures Pressed(AxesState(s, entries, axesStates, lastStates, n), c) == Pressed(s, c)
  {
    if n > 0 {
      var prev := AxesWalk(entries, axesStates, lastStates, n - 1);
      var w := AxesWalk(entries, axesStates, lastStates, n);
      AxesStateStep(s, entries, axesStates, lastStates, n);
      assert forall e :: e in prev.applied ==> e in w.applied;
      AxesBitUntouched(s, entries, axesStates, lastStates, c, n - 1);
      if w.applied != prev.applied {
        var e := entries[n - 1];
        assert e in w.applied;
        ApplyEntryKeepsBit(AxesState(s, entries, axesStates, lastStates, n - 1), e.1, SanitizeValue(e.1, axesStates[e.0.id]), c);
      }
    }
  }

  /** Applying an entry keeps the flag of every button component other than its target. */
  lemma ApplyEntryKeepsBit(s: Pad, mapped: Mapping, newValue: real, c: GamepadComponent)
    requires !IsAnalog(c) && mapped.padComp != c
    ensures Pressed(ApplyEntry(s, mapped, newValue), c) == Pressed(s, c)
  {
    if !IsAnalog(mapped.padComp) {
      ApplyDigitalKeepsOtherBits(s, c, mapped.padComp, Round(newValue));
    }
  }

  /** Applying an entry that does not target analog field `ch` keeps that field. */
  lemma ApplyEntryKeepsChannel(s: Pad, mapped: Mapping, newValue: real, ch: Channel)
    requires AnalogChannel(mapped.padComp) != Some(ch)
    ensures Read(ApplyEntry(s, mapped, newValue), ch) == Read(s, ch)
  {
    if IsAnalog(mapped.padComp) {
      ApplyAnalogKeepsOthers(s, mapped.padComp, newValue, ch);
    }
  }

  /**
   * When a single applied entry targets an analog field, the field holds that
   * entry's packed value, whatever the order of the walk.
   */
  lemma {:induction false} AxesChannelSoleWriter(s: Pad, entries: seq<Entry>, axesStates: seq<real>, lastStates: seq<real>,
                                                 e: Entry, ch: Channel, n: nat)
    requires n <= |entries|
    requires e in AxesWalk(entries, axesStates, lastStates, n).applied
    requires AnalogChannel(e.1.padComp) == Some(ch)
    requires forall x :: x in AxesWalk(entries, axesStates, lastStates, n).applied && AnalogChannel(x.1.padComp) == Some(ch) ==> x == e
    ensures InRange(e.0.id, axesStates) &&
            Read(AxesState(s, entries, axesStates, lastStates, n), ch) == PackedValue(e.1.padComp, SanitizeValue(e.1, axesStates[e.0.id]))
  {
    var prev := AxesWalk(entries, axesStates, lastStates, n - 1);
    var w := AxesWalk(entries, axesStates, lastStates, n);
    AxesStateStep(s, entries, axesStates, lastStates, n);
    if w.applied == prev.applied {
      AxesChannelSoleWriter(s, entries, axesStates, lastStates, e, ch, n - 1);
    } else {
      var x := entries[n - 1];
      var state := AxesState(s, entries, axesStates, lastStates, n - 1);
      var newValue := SanitizeValue(x.1, axesStates[x.0.id]);
      assert w.applied == prev.applied + [x];
      if x != e {
        assert e in prev.applied && AnalogChannel(x.1.padComp) != Some(ch);
        assert forall y :: y in prev.applied ==> y in w.applied;
        AxesChannelSoleWriter(s, entries, axesStates, lastStates, e, ch, n - 1);
        ApplyEntryKeepsChannel(state, x.1, newValue, ch);
      } else {
        ApplyAnalogWrites(state, x.1.padComp, newValue);
      }
    }
  }

  /**
   * When a single applied entry targets a button component, its flag is set
   * exactly when that entry's sanitised value rounds to 1, whatever the order of
   * the walk.
   */
  lemma {:induction false} AxesBitSoleWriter(s: Pad, entries: seq<Entry>, axesStates: seq<real>, lastStates: seq<real>,
                                             e: Entry, n: nat)
    requires n <= |entries|
    requires e in AxesWalk(entries, axesStates, lastStates, n).applied
    requires !IsAnalog(e.1.padComp)
    requires forall x :: x in AxesWalk(entries, axesStates, lastStates, n).applied && x.1.padComp == e.1.padComp ==> x == e
    ensures InRange(e.0.id, axesStates) &&
            (Pressed(AxesState(s, entries, axesStates, lastStates, n), e.1.padComp) <==>
             Round(SanitizeValue(e.1, axesStates[e.0.id])) == 1)
  {
    var prev := AxesWalk(entries, axesStates, lastStates, n - 1);
    var w := AxesWalk(entries, axesStates, lastStates, n);
    AxesStateStep(s, entries, axesStates, lastStates, n);
    if w.applied == prev.applied {
      AxesBitSoleWriter(s, entries, axesStates, lastStates, e, n - 1);
    } else {
      var x := entries[n - 1];
      var state := AxesState(s, entries, axesStates, lastStates, n - 1);
      var newValue := SanitizeValue(x.1, axesStates[x.0.id]);
      assert w.applied == prev.applied + [x];
      if x != e {
        assert e in prev.applied && x.1.padComp != e.1.padComp;
        assert forall y :: y in prev.applied ==> y in w.applied;
        AxesBitSoleWriter(s, entries, axesStates, lastStates, e, n - 1);
        ApplyEntryKeepsBit(state, x.1, newValue, e.1.padComp);
      } else {
        assert ApplyEntry(state, x.1, newValue) == ApplyDigital(state, x.1.padComp, Round(newValue));
        ApplyDigitalDecides(state, x.1.padComp, Round(newValue));
      }
    }
  }

  /**
   * An applied entry whose key has the negative direction and which alone
   * targets a button component leaves that button released: the direction rule
   * only picks it for a value of at most 0, and that never rounds to 1.
   */
  lemma AxesNegativeEntryReleases(s: Pad, entries: seq<Entry>, axesStates: seq<real>, lastStates: seq<real>,
                                  e: Entry, n: nat)
    requires n <= |entries|
    requires e in AxesWalk(entries, axesStates, lastStates, n).applied
    requires e.0.direction == Some(Negative) && !IsAnalog(e.1.padComp)
    requires forall x :: x in AxesWalk(entries, axesStates, lastStates, n).applied && x.1.padComp == e.1.padComp ==> x == e
    ensures !Pressed(AxesState(s, entries, axesStates, lastStates, n), e.1.padComp)
  {
    AxesBitSoleWriter(s, entries, axesStates, lastStates, e, n);
    AxesAppliedFire(entries, axesStates, lastStates, n);
    assert SanitizeValue(e.1, axesStates[e.0.id]) <= 0.0;
  }

  /**
   * The dispatch the axis pass evidently means for button targets: the rounded
   * magnitude of the value, so that a negative deflection can press a button too.
   */
  function IntendedApplyEntry(s: Pad, mapped: Mapping, newValue: real): (r: Pad)
    ensures !IsAnalog(mapped.padComp) ==> (Pressed(r, mapped.padComp) <==> Round(Abs(newValue)) == 1)
  {
    if IsAnalog(mapped.padComp) then ApplyAnalog(s, mapped.padComp, newValue)
    else
      ApplyDigitalDecides(s, mapped.padComp, Round(Abs(newValue)));
      ApplyDigital(s, mapped.padComp, Round(Abs(newValue)))
  }

  /**
   * Under the intended dispatch, a full negative deflection presses a button,
   * which the code as written never does.
   */
  lemma IntendedNegativeEntryPresses(s: Pad, mapped: Mapping, newValue: real)
    requires !IsAnalog(mapped.padComp) && -1.5 < newValue <= -0.5
    ensures Pressed(IntendedApplyEntry(s, mapped, newValue), mapped.padComp)
    ensures !Pressed(ApplyEntry(s, mapped, newValue), mapped.padComp)
  {
    assert Round(Abs(newValue)) == 1;
    assert Round(newValue) <= 0;
    ApplyDigitalDecides(s, mapped.padComp, Round(newValue));
  }

  /**
   * The stick (or trigger) field fed by one physical axis through a positive and
   * a negative entry with the same flags, and by no other entry, ends up holding
   * the packed value of the entry whose direction the zero-crossing rule picks.
   */
  lemma AxesPairDecidesChannel(s: Pad, entries: seq<Entry>, axesStates: seq<real>, lastStates: seq<real>,
                               ep: Entry, en: Entry, ch: Channel)
    requires ep in entries && en in entries
    requires ep.0.id == en.0.id
    requires ep.0.direction == Some(Positive) && en.0.direction == Some(Negative)
    requires ep.1.invert == en.1.invert && ep.1.trigger == en.1.trigger
    requires AnalogChannel(ep.1.padComp) == Some(ch) && AnalogChannel(en.1.padComp) == Some(ch)
    requires forall e :: e in entries && AnalogChannel(e.1.padComp) == Some(ch) ==> e == ep || e == en
    requires AllInRange(entries, axesStates, lastStates)
    ensures var id := ep.0.id;
            var newValue := SanitizeValue(ep.1, axesStates[id]);
            var d := ResolveDirection(newValue, SanitizeValue(ep.1, lastStates[id]));
            Read(AxesState(s, entries, axesStates, lastStates, |entries|), ch) ==
              PackedValue(if d == Positive then ep.1.padComp else en.1.padComp, newValue)
  {
    var n := |entries|;
    var w := AxesWalk(entries, axesStates, lastStates, n);
    AxesCompletes(entries, axesStates, lastStates, n);
    AxesAppliedFire(entries, axesStates, lastStates, n);
    AxesOppositePairExactlyOne(entries, axesStates, lastStates, ep, en);
    var winner := if ep in w.applied then ep else en;
    AxesChannelSoleWriter(s, entries, axesStates, lastStates, winner, ch, n);
  }
}
