/**
 * Save-time reconciliation of a generator's occurrences
 * (`GeneratorModel.save`, eventtools/models/generator.py). Each of the
 * steps of `save` walks over a selection of the occurrence table and, for
 * each row, saves it changed, saves it unchanged, or deletes it; a `Phase`
 * names one such step and `Step` says what it does to one row.
 */
module Reconcile {
  import opened Wrappers
  import opened Instants
  import opened GeneratorRules

  /** Which of the generator's occurrences a shift applies to. */
  datatype Selector =
    | StartIn(dates: seq<int>)       // `occurrences.filter(start__in=dates)`
    | StartTimeIs(timeOfDay: int)    // occurrences whose start has this time of day
    | EndTimeIs(timeOfDay: int)      // occurrences whose end has this time of day

  predicate Selected(sel: Selector, pk: nat, o: Occurrence) {
    o.generator == pk &&
    match sel
    case StartIn(dates) => o.start in dates
    case StartTimeIs(t) => TimeOf(o.start) == t
    case EndTimeIs(t) => TimeOf(o.end) == t
  }

  /** One pass of `save` over the occurrence table. */
  datatype Phase =
    | ShiftStart(sel: Selector, pk: nat, shift: int, duration: int, repeatUntil: Option<int>)
    | ShiftStartAsWritten(sel: Selector, pk: nat, shift: int, duration: int, repeatUntil: Option<int>)
    | ShiftEnd(sel: Selector, pk: nat, shift: int, duration: int)
    | PruneAfter(pk: nat, limit: int)
    | PruneNonConforming(pk: nat, dates: seq<int>, exceptions: Option<set<int>>)

  /** `occ.start += start_shift; occ.end = occ.start + duration`. */
  function Shifted(o: Occurrence, shift: int, duration: int): Occurrence {
    o.(start := o.start + shift, end := o.start + shift + duration)
  }

  /** `occ.end += end_shift`, repaired to `start + duration` when it would precede the start. */
  function EndShifted(o: Occurrence, shift: int, duration: int): Occurrence {
    var e := o.end + shift;
    o.(end := if e < o.start then o.start + duration else e)
  }

  /** A shifted occurrence is saved rather than deleted: it starts before `repeat_until`, or there is no limit. */
  predicate KeepShifted(repeatUntil: Option<int>, start: int) {
    repeatUntil.None? || start < repeatUntil.value
  }

  /** The keep test as the source writes it: `self.repeat_until and occ.start < self.repeat_until`. */
  predicate KeepShiftedAsWritten(repeatUntil: Option<int>, start: int) {
    repeatUntil.Some? && start < repeatUntil.value
  }

  /** What a phase leaves of one occurrence row: nothing (deleted) or its saved value. */
  function Step(ph: Phase, o: Occurrence): (r: seq<Occurrence>)
    ensures |r| <= 1
  {
    match ph
    case ShiftStart(sel, pk, shift, duration, repeatUntil) =>
      if !Selected(sel, pk, o) then [o]
      else if KeepShifted(repeatUntil, o.start + shift) then [Shifted(o, shift, duration)]
      else []
    case ShiftStartAsWritten(sel, pk, shift, duration, repeatUntil) =>
      if !Selected(sel, pk, o) then [o]
      else if KeepShiftedAsWritten(repeatUntil, o.start + shift) then [Shifted(o, shift, duration)]
      else []
    case ShiftEnd(sel, pk, shift, duration) =>
      if Selected(sel, pk, o) then [EndShifted(o, shift, duration)] else [o]
    case PruneAfter(pk, limit) =>
      if o.generator == pk && o.start > limit then [] else [o]
    case PruneNonConforming(pk, dates, exceptions) =>
      if o.generator == pk && o.start !in dates && !IsException(exceptions, o.start) then [] else [o]
  }

  /** The occurrence table after a phase has visited every row. */
  function Rewrite(occs: seq<Occurrence>, ph: Phase): seq<Occurrence> {
    if occs == [] then [] else Rewrite(occs[..|occs| - 1], ph) + Step(ph, occs[|occs| - 1])
  }

  /** A row survives a phase exactly when some original row's step leaves it. */
  lemma {:induction false} RewriteMembership(occs: seq<Occurrence>, ph: Phase, o: Occurrence)
    ensures o in Rewrite(occs, ph) <==> exists i :: 0 <= i < |occs| && o in Step(ph, occs[i])
  {
    if occs != [] {
      var init := occs[..|occs| - 1];
      RewriteMembership(init, ph, o);
      if o in Rewrite(init, ph) {
        var i :| 0 <= i < |init| && o in Step(ph, init[i]);
        assert occs[i] == init[i];
      }
      if exists i :: 0 <= i < |occs| && o in Step(ph, occs[i]) {
        var i :| 0 <= i < |occs| && o in Step(ph, occs[i]);
        if i < |init| {
          assert init[i] == occs[i];
        }
      }
    }
  }

  /** A phase never adds rows. */
  lemma {:induction false} RewriteNeverGrows(occs: seq<Occurrence>, ph: Phase)
    ensures |Rewrite(occs, ph)| <= |occs|
  {
    if occs != [] {
      RewriteNeverGrows(occs[..|occs| - 1], ph);
    }
  }

  /** A phase that keeps every row rewrites the table position by position. */
  lemma {:induction false} RewriteKeepsEveryRow(occs: seq<Occurrence>, ph: Phase)
    requires forall i :: 0 <= i < |occs| ==> |Step(ph, occs[i])| == 1
    ensures |Rewrite(occs, ph)| == |occs|
    ensures forall i :: 0 <= i < |occs| ==> Rewrite(occs, ph)[i] == Step(ph, occs[i])[0]
  {
    if occs != [] {
      var init := occs[..|occs| - 1];
      RewriteKeepsEveryRow(init, ph);
      var r := Rewrite(occs, ph);
      forall i | 0 <= i < |occs| ensures r[i] == Step(ph, occs[i])[0] {
        if i < |init| {
          assert r[i] == Rewrite(init, ph)[i];
          assert init[i] == occs[i];
        }
      }
    }
  }

  // ---------------------------------------------------------------------
  // What each phase does
  // ---------------------------------------------------------------------

  /**
   * Start shift: an unselected row is kept as it is; a selected row is kept
   * moved by the shift, with the new duration, when it still starts before
   * the limit; every other row is deleted.
   */
  lemma ShiftStartSpec(occs: seq<Occurrence>, sel: Selector, pk: nat, shift: int, duration: int,
                       repeatUntil: Option<int>, o: Occurrence)
    ensures o in Rewrite(occs, ShiftStart(sel, pk, shift, duration, repeatUntil)) <==>
      (o in occs && !Selected(sel, pk, o)) ||
      (exists o0 :: o0 in occs && Selected(sel, pk, o0) && o == Shifted(o0, shift, duration) &&
                    KeepShifted(repeatUntil, o.start))
  {
    var ph := ShiftStart(sel, pk, shift, duration, repeatUntil);
    RewriteMembership(occs, ph, o);
    if o in occs && !Selected(sel, pk, o) {
      var i :| 0 <= i < |occs| && occs[i] == o;
      assert o in Step(ph, occs[i]);
    }
    if exists o0 :: o0 in occs && Selected(sel, pk, o0) && o == Shifted(o0, shift, duration) && KeepShifted(repeatUntil, o.start) {
      var o0 :| o0 in occs && Selected(sel, pk, o0) && o == Shifted(o0, shift, duration) && KeepShifted(repeatUntil, o.start);
      var i :| 0 <= i < |occs| && occs[i] == o0;
      assert o in Step(ph, occs[i]);
    }
  }

  /** Without a `repeat_until` limit no row is deleted: each selected row is moved in place. */
  lemma ShiftStartKeepsAllWithoutLimit(occs: seq<Occurrence>, sel: Selector, pk: nat, shift: int, duration: int)
    ensures var r := Rewrite(occs, ShiftStart(sel, pk, shift, duration, None));
      |r| == |occs| &&
      forall i :: 0 <= i < |occs| ==> r[i] == if Selected(sel, pk, occs[i]) then Shifted(occs[i], shift, duration) else occs[i]
  {
    RewriteKeepsEveryRow(occs, ShiftStart(sel, pk, shift, duration, None));
  }

  /** As written, the start shift deletes every selected row when there is no `repeat_until`. */
  lemma ShiftStartAsWrittenDeletesWithoutLimit(occs: seq<Occurrence>, sel: Selector, pk: nat, shift: int, duration: int,
                                               o: Occurrence)
    ensures o in Rewrite(occs, ShiftStartAsWritten(sel, pk, shift, duration, None)) <==> o in occs && !Selected(sel, pk, o)
  {
    var ph := ShiftStartAsWritten(sel, pk, shift, duration, None);
    RewriteMembership(occs, ph, o);
    if o in occs && !Selected(sel, pk, o) {
      var i :| 0 <= i < |occs| && occs[i] == o;
      assert o in Step(ph, occs[i]);
    }
  }

  /** The smallest case: a one-day shift of a generator without `repeat_until` loses its occurrence as written. */
  lemma ShiftStartAsWrittenCounterexample()
    ensures Rewrite([Occurrence(1, 7, 0, 3600)], ShiftStartAsWritten(StartIn([0]), 1, 86400, 3600, None)) == []
    ensures Rewrite([Occurrence(1, 7, 0, 3600)], ShiftStart(StartIn([0]), 1, 86400, 3600, None)) == [Occurrence(1, 7, 86400, 90000)]
  {
    var o := Occurrence(1, 7, 0, 3600);
    assert [o][..0] == [];
    assert Selected(StartIn([0]), 1, o);
  }

  /**
   * End shift: every row is kept; a selected row gets its end moved (its
   * start is untouched) and, when the start is not after the end before the
   * shift's repair, never ends before it starts afterwards.
   */
  lemma ShiftEndSpec(occs: seq<Occurrence>, sel: Selector, pk: nat, shift: int, duration: int)
    requires duration >= 0
    ensures var r := Rewrite(occs, ShiftEnd(sel, pk, shift, duration));
      |r| == |occs| &&
      forall i :: 0 <= i < |occs| ==>
        (Selected(sel, pk, occs[i]) ==>
           r[i] == occs[i].(end := r[i].end) && r[i].start <= r[i].end &&
           (occs[i].end + shift >= occs[i].start ==> r[i].end == occs[i].end + shift)) &&
        (!Selected(sel, pk, occs[i]) ==> r[i] == occs[i])
  {
    RewriteKeepsEveryRow(occs, ShiftEnd(sel, pk, shift, duration));
  }

  /** Tightened `repeat_until`: exactly this generator's rows that start after the limit are deleted. */
  lemma PruneAfterSpec(occs: seq<Occurrence>, pk: nat, limit: int, o: Occurrence)
    ensures o in Rewrite(occs, PruneAfter(pk, limit)) <==> o in occs && !(o.generator == pk && o.start > limit)
  {
    var ph := PruneAfter(pk, limit);
    RewriteMembership(occs, ph, o);
    if o in occs && !(o.generator == pk && o.start > limit) {
      var i :| 0 <= i < |occs| && occs[i] == o;
      assert o in Step(ph, occs[i]);
    }
  }

  /** Changed rule: exactly this generator's rows whose start is neither a new date nor an exception are deleted. */
  lemma PruneNonConformingSpec(occs: seq<Occurrence>, pk: nat, dates: seq<int>, exceptions: Option<set<int>>, o: Occurrence)
    ensures o in Rewrite(occs, PruneNonConforming(pk, dates, exceptions)) <==>
      o in occs && (o.generator != pk || o.start in dates || IsException(exceptions, o.start))
  {
    var ph := PruneNonConforming(pk, dates, exceptions);
    RewriteMembership(occs, ph, o);
    if o in occs && (o.generator != pk || o.start in dates || IsException(exceptions, o.start)) {
      var i :| 0 <= i < |occs| && occs[i] == o;
      assert o in Step(ph, occs[i]);
    }
  }

  // ---------------------------------------------------------------------
  // The whole of `save`'s reconciliation
  // ---------------------------------------------------------------------

  /** Rows are selected for a start shift by the old dates when the day moved, else by the old start time. */
  function StartSelector(saved: GeneratorRow, row: GeneratorRow, cfg: Config): Selector {
    if DateOf(row.eventStart) != DateOf(saved.eventStart)
    then StartIn(GeneratedDates(saved.eventStart, saved.rule, saved.repeatUntil, cfg))
    else StartTimeIs(TimeOf(saved.eventStart))
  }

  /** Rows are selected for an end shift by the new dates when the end day moved, else by the old end time. */
  function EndSelector(saved: GeneratorRow, row: GeneratorRow, cfg: Config): Selector {
    if DateOf(row.eventEnd) != DateOf(saved.eventEnd)
    then StartIn(GeneratedDates(row.eventStart, row.rule, row.repeatUntil, cfg))
    else EndTimeIs(TimeOf(saved.eventEnd))
  }

  /**
   * A non-zero shift on the same day always changes the time of day, so one
   * of the two selections of `save` applies whenever an instant moved.
   */
  lemma SameDayShiftChangesTime(old_: int, new_: int)
    requires new_ - old_ != 0 && DateOf(new_) == DateOf(old_)
    ensures TimeOf(new_) != TimeOf(old_)
  {
    if TimeOf(new_) == TimeOf(old_) {
      DateAndTimeDetermineInstant(new_, old_);
    }
  }

  /** The shift `save` applies, if the start or (failing that) the end moved. */
  function ShiftPhase(saved: GeneratorRow, row: GeneratorRow, pk: nat, cfg: Config): Option<Phase> {
    var startShift := row.eventStart - saved.eventStart;
    var endShift := row.eventEnd - saved.eventEnd;
    if startShift != 0 then Some(ShiftStart(StartSelector(saved, row, cfg), pk, startShift, EventDuration(row), row.repeatUntil))
    else if endShift != 0 then Some(ShiftEnd(EndSelector(saved, row, cfg), pk, endShift, EventDuration(row)))
    else None
  }

  /** `repeat_until` was newly set or lowered. */
  predicate RepeatUntilTightened(saved: GeneratorRow, row: GeneratorRow) {
    row.repeatUntil.Some? && (saved.repeatUntil.None? || row.repeatUntil.value < saved.repeatUntil.value)
  }

  /** The rule reference changed (Django compares rules by primary key). */
  predicate RuleChanged(saved: GeneratorRow, row: GeneratorRow) {
    (if row.rule.Some? then Some(row.rule.value.pk) else None) !=
    (if saved.rule.Some? then Some(saved.rule.value.pk) else None)
  }

  function AfterShift(saved: GeneratorRow, row: GeneratorRow, pk: nat, occs: seq<Occurrence>, cfg: Config)
    : (r: seq<Occurrence>)
    ensures |r| <= |occs|
  {
    match ShiftPhase(saved, row, pk, cfg)
    case Some(ph) => RewriteNeverGrows(occs, ph); Rewrite(occs, ph)
    case None => occs
  }

  function AfterLimit(saved: GeneratorRow, row: GeneratorRow, pk: nat, occs: seq<Occurrence>): (r: seq<Occurrence>)
    ensures |r| <= |occs|
  {
    if RepeatUntilTightened(saved, row) then
      RewriteNeverGrows(occs, PruneAfter(pk, row.repeatUntil.value));
      Rewrite(occs, PruneAfter(pk, row.repeatUntil.value))
    else occs
  }

  function AfterRule(saved: GeneratorRow, row: GeneratorRow, pk: nat, occs: seq<Occurrence>, cfg: Config)
    : (r: seq<Occurrence>)
    ensures |r| <= |occs|
  {
    if RuleChanged(saved, row) then
      var prune := PruneNonConforming(pk, GeneratedDates(row.eventStart, row.rule, row.repeatUntil, cfg), row.exceptions);
      RewriteNeverGrows(occs, prune);
      Rewrite(occs, prune)
    else occs
  }

  /**
   * The occurrence table after `save` has compared the stored row `saved`
   * with the new fields `row`; reconciliation only moves and deletes rows.
   */
  function ReconcileOnSave(saved: GeneratorRow, row: GeneratorRow, pk: nat, occs: seq<Occurrence>, cfg: Config)
    : (r: seq<Occurrence>)
    ensures |r| <= |occs|
  {
    AfterRule(saved, row, pk, AfterLimit(saved, row, pk, AfterShift(saved, row, pk, occs, cfg)), cfg)
  }

  /** A phase with its start-shift keep test as the source writes it. */
  function AsWritten(ph: Phase): Phase {
    match ph
    case ShiftStart(sel, pk, shift, duration, repeatUntil) => ShiftStartAsWritten(sel, pk, shift, duration, repeatUntil)
    case _ => ph
  }

  /** `ReconcileOnSave` with the start-shift keep test of generator.py:141-144 as written. */
  function ReconcileOnSaveAsWritten(saved: GeneratorRow, row: GeneratorRow, pk: nat, occs: seq<Occurrence>, cfg: Config)
    : seq<Occurrence>
  {
    var shifted :=
      match ShiftPhase(saved, row, pk, cfg)
      case Some(ph) => Rewrite(occs, AsWritten(ph))
      case None => occs;
    AfterRule(saved, row, pk, AfterLimit(saved, row, pk, shifted), cfg)
  }

  /** Two phases that treat every row alike rewrite every table alike. */
  lemma {:induction false} RewriteSameSteps(occs: seq<Occurrence>, ph1: Phase, ph2: Phase)
    requires forall o :: Step(ph1, o) == Step(ph2, o)
    ensures Rewrite(occs, ph1) == Rewrite(occs, ph2)
  {
    if occs != [] {
      RewriteSameSteps(occs[..|occs| - 1], ph1, ph2);
    }
  }

  /** The save as written and the corrected one differ only when `repeat_until` is None. */
  lemma AsWrittenAgreesWithLimit(saved: GeneratorRow, row: GeneratorRow, pk: nat, occs: seq<Occurrence>, cfg: Config)
    requires row.repeatUntil.Some?
    ensures ReconcileOnSaveAsWritten(saved, row, pk, occs, cfg) == ReconcileOnSave(saved, row, pk, occs, cfg)
  {
    match ShiftPhase(saved, row, pk, cfg)
    case Some(ph) =>
      RewriteSameSteps(occs, AsWritten(ph), ph);
    case None =>
  }

  /** A phase keeps other generators' rows, and only those, untouched. */
  lemma StepLeavesOthers(ph: Phase, pk: nat, o: Occurrence, x: Occurrence)
    requires ph.pk == pk
    ensures o.generator != pk ==> Step(ph, o) == [o]
    ensures x in Step(ph, o) ==> x.generator == o.generator
  {
  }

  lemma OthersThrough(occs: seq<Occurrence>, ph: Phase, pk: nat, o: Occurrence)
    requires ph.pk == pk && o.generator != pk
    ensures o in Rewrite(occs, ph) <==> o in occs
  {
    RewriteMembership(occs, ph, o);
    if o in Rewrite(occs, ph) {
      var i :| 0 <= i < |occs| && o in Step(ph, occs[i]);
      StepLeavesOthers(ph, pk, occs[i], o);
    }
    if o in occs {
      var i :| 0 <= i < |occs| && occs[i] == o;
      StepLeavesOthers(ph, pk, occs[i], o);
      assert o in Step(ph, occs[i]);
    }
  }

  /** Saving one generator leaves the occurrences of every other generator as they were. */
  lemma ReconcileLeavesOtherGenerators(saved: GeneratorRow, row: GeneratorRow, pk: nat, occs: seq<Occurrence>, cfg: Config,
                                       o: Occurrence)
    requires o.generator != pk
    ensures o in ReconcileOnSave(saved, row, pk, occs, cfg) <==> o in occs
  {
    var a := AfterShift(saved, row, pk, occs, cfg);
    if ShiftPhase(saved, row, pk, cfg).Some? {
      OthersThrough(occs, ShiftPhase(saved, row, pk, cfg).value, pk, o);
    }
    var b := AfterLimit(saved, row, pk, a);
    if RepeatUntilTightened(saved, row) {
      OthersThrough(a, PruneAfter(pk, row.repeatUntil.value), pk, o);
    }
    if RuleChanged(saved, row) {
      OthersThrough(b, PruneNonConforming(pk, GeneratedDates(row.eventStart, row.rule, row.repeatUntil, cfg), row.exceptions), pk, o);
    }
  }

  /** Re-saving a generator whose schedule did not change touches no occurrence. */
  lemma ResaveChangesNothing(saved: GeneratorRow, row: GeneratorRow, pk: nat, occs: seq<Occurrence>, cfg: Config)
    requires saved.eventStart == row.eventStart && saved.eventEnd == row.eventEnd
    requires saved.rule == row.rule && saved.repeatUntil == row.repeatUntil
    ensures ReconcileOnSave(saved, row, pk, occs, cfg) == occs
  {
  }

  /**
   * After tightening `repeat_until`, none of the generator's remaining
   * occurrences starts after it.
   */
  lemma ReconcileRespectsRepeatUntil(saved: GeneratorRow, row: GeneratorRow, pk: nat, occs: seq<Occurrence>, cfg: Config,
                                     o: Occurrence)
    requires RepeatUntilTightened(saved, row)
    requires o in ReconcileOnSave(saved, row, pk, occs, cfg) && o.generator == pk
    ensures o.start <= row.repeatUntil.value
  {
    var a := AfterShift(saved, row, pk, occs, cfg);
    var b := AfterLimit(saved, row, pk, a);
    if RuleChanged(saved, row) {
      PruneNonConformingSpec(b, pk, GeneratedDates(row.eventStart, row.rule, row.repeatUntil, cfg), row.exceptions, o);
    }
    PruneAfterSpec(a, pk, row.repeatUntil.value, o);
  }

  /**
   * After a rule change, each of the generator's remaining occurrences
   * starts on a date of the new rule or on an exception.
   */
  lemma ReconcileConformsToNewRule(saved: GeneratorRow, row: GeneratorRow, pk: nat, occs: seq<Occurrence>, cfg: Config,
                                   o: Occurrence)
    requires RuleChanged(saved, row)
    requires o in ReconcileOnSave(saved, row, pk, occs, cfg) && o.generator == pk
    ensures o.start in GeneratedDates(row.eventStart, row.rule, row.repeatUntil, cfg) || IsException(row.exceptions, o.start)
  {
    var b := AfterLimit(saved, row, pk, AfterShift(saved, row, pk, occs, cfg));
    PruneNonConformingSpec(b, pk, GeneratedDates(row.eventStart, row.rule, row.repeatUntil, cfg), row.exceptions, o);
  }

  /**
   * Moving the first occurrence by whole days (same rule, same limit) moves
   * every occurrence the old schedule generated by the same amount, keeps
   * the ones still before `repeat_until` and deletes the others.
   */
  lemma DayShiftMovesGenerated(saved: GeneratorRow, row: GeneratorRow, pk: nat, occs: seq<Occurrence>, cfg: Config,
                               days: int, o: Occurrence)
    requires days != 0
    requires row.eventStart == saved.eventStart + days * SecondsPerDay && row.eventEnd == saved.eventEnd + days * SecondsPerDay
    requires row.rule == saved.rule && row.repeatUntil == saved.repeatUntil
    requires forall x :: x in occs && x.generator == pk ==> x.start in GeneratedDates(saved.eventStart, saved.rule, saved.repeatUntil, cfg)
    requires o.generator == pk
    ensures o in ReconcileOnSave(saved, row, pk, occs, cfg) <==>
      exists o0 :: o0 in occs && o0.generator == pk && o == Shifted(o0, days * SecondsPerDay, EventDuration(row)) &&
                   KeepShifted(row.repeatUntil, o.start)
  {
    assert DateOf(row.eventStart) != DateOf(saved.eventStart) by {
      assert row.eventStart == saved.eventStart + days * SecondsPerDay;
      assert DateOf(row.eventStart) == DateOf(saved.eventStart) + days;
    }
    var sel := StartSelector(saved, row, cfg);
    var shift := days * SecondsPerDay;
    assert ReconcileOnSave(saved, row, pk, occs, cfg) == Rewrite(occs, ShiftStart(sel, pk, shift, EventDuration(row), row.repeatUntil));
    ShiftStartSpec(occs, sel, pk, shift, EventDuration(row), row.repeatUntil, o);
  }

  /**
   * As written, moving the first span by whole days without `repeat_until`
   * deletes every row the generator had generated, and keeps none of its own.
   */
  lemma DayShiftAsWrittenDeletesGenerated(saved: GeneratorRow, row: GeneratorRow, pk: nat, occs: seq<Occurrence>, cfg: Config,
                                          days: int, o: Occurrence)
    requires days != 0
    requires row.eventStart == saved.eventStart + days * SecondsPerDay && row.eventEnd == saved.eventEnd + days * SecondsPerDay
    requires row.rule == saved.rule && row.repeatUntil == saved.repeatUntil && row.repeatUntil.None?
    requires forall x :: x in occs && x.generator == pk ==> x.start in GeneratedDates(saved.eventStart, saved.rule, saved.repeatUntil, cfg)
    requires o in ReconcileOnSaveAsWritten(saved, row, pk, occs, cfg)
    ensures o.generator != pk
  {
    assert DateOf(row.eventStart) != DateOf(saved.eventStart) by {
      assert row.eventStart == saved.eventStart + days * SecondsPerDay;
      assert DateOf(row.eventStart) == DateOf(saved.eventStart) + days;
    }
    var sel := StartSelector(saved, row, cfg);
    var shift := days * SecondsPerDay;
    assert ReconcileOnSaveAsWritten(saved, row, pk, occs, cfg) ==
      Rewrite(occs, ShiftStartAsWritten(sel, pk, shift, EventDuration(row), None));
    ShiftStartAsWrittenDeletesWithoutLimit(occs, sel, pk, shift, EventDuration(row), o);
  }
}
