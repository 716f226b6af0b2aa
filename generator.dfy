/**
 * `GeneratorModel` (eventtools/models/generator.py) as an object over an
 * in-memory database: the generator's fields are updated in place by
 * `clean`, `save` and the exception methods, and `save`, `generate` and
 * `create_occurrence` change the occurrence table. Every method is proved
 * against the functions of GeneratorRules and Reconcile.
 */
module GeneratorModel {
  import opened Wrappers
  import opened Instants
  import opened GeneratorRules
  import opened Reconcile

  /** The two tables the generator touches: the generator table (by primary key) and the occurrence table. */
  class OccurrenceStore {
    var occurrences: seq<Occurrence>
    var generators: map<nat, GeneratorRow>
    var nextPk: nat

    /** Primary keys are handed out in increasing order. */
    ghost predicate Valid()
      reads this
    {
      forall k :: k in generators ==> k < nextPk
    }

    constructor ()
      ensures Valid()
      ensures occurrences == [] && generators == map[]
    {
      occurrences := [];
      generators := map[];
      nextPk := 1;
    }
  }

  /** Why `save` raised: a refused schedule, or a primary key whose row is gone (`DoesNotExist`). */
  datatype SaveError = Invalid(reason: Invalid) | DoesNotExist

  /**
   * The occurrence table a successful `save` leaves before generation: the
   * stored occurrences reconciled against the stored row when the generator
   * already had a primary key, and untouched for a new generator.
   */
  function SavedOccurrences(stored: map<nat, GeneratorRow>, oldPk: Option<nat>, row: GeneratorRow,
                            occs: seq<Occurrence>, cfg: Config): seq<Occurrence>
    requires oldPk.Some? ==> oldPk.value in stored
  {
    if oldPk.Some? then ReconcileOnSave(stored[oldPk.value], row, oldPk.value, occs, cfg) else occs
  }

  /** `generate_dates`: pull from the rule's iterator until a date passes the drop-dead date. */
  method GenerateDates(eventStart: int, rule: Option<RuleRef>, repeatUntil: Option<int>, cfg: Config)
    returns (dates: seq<int>)
    ensures dates == GeneratedDates(eventStart, rule, repeatUntil, cfg)
    ensures rule.None? ==> dates == [eventStart]
    ensures rule.Some? ==>
      var candidates := cfg.ruleDates(rule.value, eventStart);
      var bound := DropDeadDate(repeatUntil, cfg);
      |dates| <= |candidates| && dates == candidates[..|dates|] &&
      (forall i :: 0 <= i < |dates| ==> dates[i] <= bound) &&
      (|dates| < |candidates| ==> candidates[|dates|] > bound)
  {
    if rule.None? {
      return [eventStart];
    }
    var candidates := cfg.ruleDates(rule.value, eventStart);
    var bound := DropDeadDate(repeatUntil, cfg);
    dates := [];
    var i := 0;
    while i < |candidates|
      invariant 0 <= i <= |candidates|
      invariant dates == candidates[..i]
      invariant forall j :: 0 <= j < i ==> candidates[j] <= bound
    {
      var d := candidates[i];
      if d > bound {
        break;
      }
      dates := dates + [d];
      i := i + 1;
    }
    TakeUntilBeyondAt(candidates, bound, i);
  }

  /** One of `save`'s loops: visit every occurrence row and keep what the phase leaves of it. */
  method VisitOccurrences(db: OccurrenceStore, ph: Phase)
    modifies db`occurrences
    ensures db.occurrences == Rewrite(old(db.occurrences), ph)
  {
    var occs := db.occurrences;
    var kept: seq<Occurrence> := [];
    var i := 0;
    while i < |occs|
      invariant 0 <= i <= |occs|
      invariant kept == Rewrite(occs[..i], ph)
    {
      kept := kept + Step(ph, occs[i]);
      assert occs[..i + 1][..i] == occs[..i];
      i := i + 1;
    }
    assert occs[..|occs|] == occs;
    db.occurrences := kept;
  }

  class Generator {
    var pk: Option<nat>
    const event: nat
    var eventStart: int
    var eventEnd: Option<int>
    var rule: Option<RuleRef>
    var repeatUntil: Option<int>
    var exceptions: Option<set<int>>

    /** A new, unsaved generator; the exception dictionary defaults to `{}`. */
    constructor (event: nat, eventStart: int, eventEnd: Option<int>, rule: Option<RuleRef>, repeatUntil: Option<int>)
      ensures this.pk == None && this.event == event && this.eventStart == eventStart && this.eventEnd == eventEnd
      ensures this.rule == rule && this.repeatUntil == repeatUntil && this.exceptions == Some({})
    {
      this.pk := None;
      this.event := event;
      this.eventStart := eventStart;
      this.eventEnd := eventEnd;
      this.rule := rule;
      this.repeatUntil := repeatUntil;
      this.exceptions := Some({});
    }

    /** The row `save` writes for the current fields. */
    function Row(): GeneratorRow
      reads this
      requires eventEnd.Some?
    {
      GeneratorRow(eventStart, eventEnd.value, rule, repeatUntil, exceptions)
    }

    /** `clean`: default the end to the start, then refuse an invalid schedule. */
    method Clean(cfg: Config) returns (r: Outcome<Invalid>)
      modifies this`eventEnd
      ensures eventEnd == Some(old(eventEnd).GetOr(eventStart))
      ensures var check := ScheduleCheck(eventStart, eventEnd.value, eventEnd.value, repeatUntil, rule, cfg.frequencyTimeMap);
              r == if check.Some? then Fail(check.value) else Pass
    {
      if eventEnd.None? {
        eventEnd := Some(eventStart);
      }
      var check := ScheduleCheck(eventStart, eventEnd.value, eventEnd.value, repeatUntil, rule, cfg.frequencyTimeMap);
      if check.Some? {
        return Fail(check.value);
      }
      return Pass;
    }

    /** `create_occurrence(start, end, honour_exceptions)`; the generator has been saved, so it has a key. */
    method CreateOccurrence(db: OccurrenceStore, cfg: Config, start: int, end: int, honourExceptions: bool)
      requires pk.Some?
      modifies db`occurrences
      ensures db.occurrences ==
        CreateOccurrenceResult(old(db.occurrences), pk.value, event, exceptions, start, end,
                               honourExceptions, cfg.allowClashingOccurrences)
    {
      if !honourExceptions || !IsException(exceptions, start) {
        if cfg.allowClashingOccurrences {
          // already generated by this generator
          if exists o :: o in db.occurrences && o.generator == pk.value && o.start == start && o.end == end {
            return;
          }
        } else {
          // already scheduled for this event, by any generator
          if exists o :: o in db.occurrences && o.event == event && o.start == start && o.end == end {
            return;
          }
        }
        db.occurrences := db.occurrences + [Occurrence(pk.value, event, start, end)];
      }
    }

    /** `generate`: the single occurrence, or one per generated date, honouring exceptions. */
    method Generate(db: OccurrenceStore, cfg: Config)
      requires pk.Some? && eventEnd.Some?
      modifies db`occurrences
      ensures db.occurrences ==
        GenerateResult(old(db.occurrences), pk.value, event, exceptions, GenerationSpans(Row(), cfg),
                       cfg.allowClashingOccurrences)
    {
      ghost var occs0 := db.occurrences;
      ghost var spans := GenerationSpans(Row(), cfg);
      if rule.None? {
        CreateOccurrence(db, cfg, eventStart, eventEnd.value, true);
        assert spans[..0] == [];
        return;
      }
      var duration := eventEnd.value - eventStart;
      var dates := GenerateDates(eventStart, rule, repeatUntil, cfg);
      var i := 0;
      while i < |dates|
        invariant 0 <= i <= |dates| == |spans|
        invariant db.occurrences ==
          GenerateResult(occs0, pk.value, event, exceptions, spans[..i], cfg.allowClashingOccurrences)
      {
        var oStart := dates[i];
        assert spans[i] == (oStart, oStart + duration);
        GenerateResultExtend(occs0, pk.value, event, exceptions, spans, i, cfg.allowClashingOccurrences);
        CreateOccurrence(db, cfg, oStart, oStart + duration, true);
        i := i + 1;
      }
      assert spans[..|dates|] == spans;
    }

    /** The shift step of `save`: move starts, or failing that ends, of the selected occurrences. */
    method ShiftStored(db: OccurrenceStore, cfg: Config, saved: GeneratorRow)
      requires pk.Some? && eventEnd.Some?
      modifies db`occurrences
      ensures db.occurrences == AfterShift(saved, Row(), pk.value, old(db.occurrences), cfg)
    {
      var key := pk.value;
      var startShift := eventStart - saved.eventStart;
      var endShift := eventEnd.value - saved.eventEnd;
      var duration := EventDuration(Row());
      if startShift != 0 {
        var sel;
        if DateOf(eventStart) != DateOf(saved.eventStart) {
          // shifting days (and times): select by the old schedule's dates
          var oldDates := GenerateDates(saved.eventStart, saved.rule, saved.repeatUntil, cfg);
          sel := StartIn(oldDates);
        } else {
          // shifting only times: select by the old start time
          SameDayShiftChangesTime(saved.eventStart, eventStart);
          sel := StartTimeIs(TimeOf(saved.eventStart));
        }
        assert ShiftPhase(saved, Row(), key, cfg) == Some(ShiftStart(sel, key, startShift, duration, repeatUntil));
        VisitOccurrences(db, ShiftStart(sel, key, startShift, duration, repeatUntil));
      } else if endShift != 0 {
        var sel;
        if DateOf(eventEnd.value) != DateOf(saved.eventEnd) {
          // shifting end days: select by the new schedule's dates
          var newDates := GenerateDates(eventStart, rule, repeatUntil, cfg);
          sel := StartIn(newDates);
        } else {
          // shifting only the end time: select by the old end time
          SameDayShiftChangesTime(saved.eventEnd, eventEnd.value);
          sel := EndTimeIs(TimeOf(saved.eventEnd));
        }
        assert ShiftPhase(saved, Row(), key, cfg) == Some(ShiftEnd(sel, key, endShift, duration));
        VisitOccurrences(db, ShiftEnd(sel, key, endShift, duration));
      }
    }

    /** The reconciliation of `save` against the stored row `saved`: shift, prune past the limit, prune off-rule. */
    method ReconcileStored(db: OccurrenceStore, cfg: Config, saved: GeneratorRow)
      requires pk.Some? && eventEnd.Some?
      modifies db`occurrences
      ensures db.occurrences == ReconcileOnSave(saved, Row(), pk.value, old(db.occurrences), cfg)
    {
      var key := pk.value;
      ShiftStored(db, cfg, saved);
      if repeatUntil.Some? && (saved.repeatUntil.None? || repeatUntil.value < saved.repeatUntil.value) {
        VisitOccurrences(db, PruneAfter(key, repeatUntil.value));
      }
      if RuleChanged(saved, Row()) {
        var newDates := GenerateDates(eventStart, rule, repeatUntil, cfg);
        VisitOccurrences(db, PruneNonConforming(key, newDates, exceptions));
      }
    }

    /**
     * `save(generate)`: default the end, refuse an invalid schedule, bring the
     * stored occurrences in line with the changed fields, write the row, and
     * (unless told not to) generate what is missing.
     */
    method Save(db: OccurrenceStore, cfg: Config, generate: bool) returns (r: Outcome<SaveError>)
      requires db.Valid()
      modifies this`eventEnd, this`pk, db
      ensures db.Valid()
      ensures eventEnd == Some(old(eventEnd).GetOr(eventStart))
      ensures var check := ScheduleCheck(eventStart, eventEnd.value, eventStart, repeatUntil, rule, cfg.frequencyTimeMap);
        (check.Some? ==> r == Fail(Invalid(check.value))) &&
        (r == Fail(DoesNotExist) <==> check.None? && old(pk).Some? && old(pk).value !in old(db.generators))
      ensures r.Pass? <==>
        ScheduleCheck(eventStart, eventEnd.value, eventStart, repeatUntil, rule, cfg.frequencyTimeMap).None? &&
        (old(pk).Some? ==> old(pk).value in old(db.generators))
      ensures r.Fail? ==>
        pk == old(pk) && db.occurrences == old(db.occurrences) && db.generators == old(db.generators)
      ensures r.Pass? ==>
        pk.Some? && (old(pk).Some? ==> pk == old(pk)) && (old(pk).None? ==> pk.value !in old(db.generators)) &&
        db.generators == old(db.generators)[pk.value := Row()]
      ensures r.Pass? ==>
        var reconciled := SavedOccurrences(old(db.generators), old(pk), Row(), old(db.occurrences), cfg);
        db.occurrences ==
          if generate then GenerateResult(reconciled, pk.value, event, exceptions, GenerationSpans(Row(), cfg),
                                          cfg.allowClashingOccurrences)
          else reconciled
      ensures !generate ==> |db.occurrences| <= |old(db.occurrences)|
    {
      if eventEnd.None? {
        eventEnd := Some(eventStart);
      }
      var check := ScheduleCheck(eventStart, eventEnd.value, eventStart, repeatUntil, rule, cfg.frequencyTimeMap);
      if check.Some? {
        return Fail(Invalid(check.value));
      }
      if pk.Some? {
        if pk.value !in db.generators {
          return Fail(DoesNotExist);
        }
        var saved := db.generators[pk.value];
        ReconcileStored(db, cfg, saved);
      }
      if pk.None? {
        pk := Some(db.nextPk);
        db.nextPk := db.nextPk + 1;
      }
      db.generators := db.generators[pk.value := Row()];
      if generate {
        Generate(db, cfg);
      }
      r := Pass;
    }

    /** `reset_exceptions`: an empty dictionary, saved without generation. */
    method ResetExceptions(db: OccurrenceStore, cfg: Config) returns (r: Outcome<SaveError>)
      requires db.Valid()
      modifies this`exceptions, this`eventEnd, this`pk, db
      ensures db.Valid()
      ensures exceptions == Some({})
      ensures forall dt :: !IsException(exceptions, dt)
      ensures eventEnd == Some(old(eventEnd).GetOr(eventStart))
      ensures r.Pass? <==>
        ScheduleCheck(eventStart, eventEnd.value, eventStart, repeatUntil, rule, cfg.frequencyTimeMap).None? &&
        (old(pk).Some? ==> old(pk).value in old(db.generators))
      ensures r.Fail? ==> pk == old(pk) && db.occurrences == old(db.occurrences) && db.generators == old(db.generators)
      ensures r.Pass? ==>
        pk.Some? && (old(pk).Some? ==> pk == old(pk)) &&
        db.generators == old(db.generators)[pk.value := Row()] &&
        db.occurrences == SavedOccurrences(old(db.generators), old(pk), Row(), old(db.occurrences), cfg)
      ensures |db.occurrences| <= |old(db.occurrences)|
    {
      exceptions := Some({});
      r := Save(db, cfg, false);
    }

    /**
     * `add_exception(dt)`: mark `dt` as an exception and save without
     * generation. A missing dictionary is first reset, which saves once
     * more; that earlier save reconciles against the row with the empty
     * dictionary, and the second one then changes no occurrence.
     */
    method AddException(db: OccurrenceStore, cfg: Config, dt: int) returns (r: Outcome<SaveError>)
      requires db.Valid()
      modifies this`exceptions, this`eventEnd, this`pk, db
      ensures db.Valid()
      ensures exceptions == WithException(old(exceptions), dt) || (old(exceptions).None? && exceptions == Some({}) && r.Fail?)
      ensures eventEnd == Some(old(eventEnd).GetOr(eventStart))
      ensures r.Pass? <==>
        ScheduleCheck(eventStart, eventEnd.value, eventStart, repeatUntil, rule, cfg.frequencyTimeMap).None? &&
        (old(pk).Some? ==> old(pk).value in old(db.generators))
      ensures r.Pass? ==> IsException(exceptions, dt)
      ensures r.Fail? ==> pk == old(pk) && db.occurrences == old(db.occurrences) && db.generators == old(db.generators)
      ensures r.Pass? ==>
        pk.Some? && (old(pk).Some? ==> pk == old(pk)) &&
        db.generators == old(db.generators)[pk.value := Row()] &&
        db.occurrences == SavedOccurrences(old(db.generators), old(pk),
                                           Row().(exceptions := if old(exceptions).None? then Some({}) else exceptions),
                                           old(db.occurrences), cfg)
      ensures |db.occurrences| <= |old(db.occurrences)|
    {
      if exceptions.None? {
        r := ResetExceptions(db, cfg);
        if r.Fail? {
          return;
        }
        ghost var first := Row();
        ghost var reconciled := db.occurrences;
        exceptions := Some(exceptions.value + {dt});
        r := Save(db, cfg, false);
        ResaveChangesNothing(first, Row(), pk.value, reconciled, cfg);
      } else {
        exceptions := Some(exceptions.value + {dt});
        r := Save(db, cfg, false);
      }
    }

    /** `remove_exception(dt)`: unmark `dt` and save without generation; nothing is saved if it was not marked. */
    method RemoveException(db: OccurrenceStore, cfg: Config, dt: int) returns (r: Outcome<SaveError>)
      requires db.Valid()
      modifies this`exceptions, this`eventEnd, this`pk, db
      ensures db.Valid()
      ensures exceptions == WithoutException(old(exceptions), dt)
      ensures !IsException(exceptions, dt)
      ensures old(exceptions).Some? && !IsException(old(exceptions), dt) ==>
        r == Pass && db.occurrences == old(db.occurrences) && db.generators == old(db.generators)
      ensures old(exceptions).None? || IsException(old(exceptions), dt) ==>
        eventEnd == Some(old(eventEnd).GetOr(eventStart)) &&
        (r.Pass? <==>
           ScheduleCheck(eventStart, eventEnd.value, eventStart, repeatUntil, rule, cfg.frequencyTimeMap).None? &&
           (old(pk).Some? ==> old(pk).value in old(db.generators))) &&
        (r.Fail? ==> pk == old(pk) && db.occurrences == old(db.occurrences) && db.generators == old(db.generators)) &&
        (r.Pass? ==>
           pk.Some? && (old(pk).Some? ==> pk == old(pk)) &&
           db.generators == old(db.generators)[pk.value := Row()] &&
           db.occurrences == SavedOccurrences(old(db.generators), old(pk), Row(), old(db.occurrences), cfg))
      ensures |db.occurrences| <= |old(db.occurrences)|
    {
      if exceptions.None? {
        r := ResetExceptions(db, cfg);
        if r.Fail? {
          assert exceptions.value - {dt} == exceptions.value;
          return;
        }
      }
      if IsException(exceptions, dt) {
        exceptions := Some(exceptions.value - {dt});
        r := Save(db, cfg, false);
      } else {
        assert exceptions.value - {dt} == exceptions.value;
        r := Pass;
      }
    }
  }

  /** Generating twice in a row, with nothing changed in between, creates nothing the second time. */
  method GenerateTwice(g: Generator, db: OccurrenceStore, cfg: Config)
    requires g.pk.Some? && g.eventEnd.Some?
    modifies db`occurrences
    ensures db.occurrences ==
      GenerateResult(old(db.occurrences), g.pk.value, g.event, g.exceptions, GenerationSpans(g.Row(), cfg),
                     cfg.allowClashingOccurrences)
  {
    g.Generate(db, cfg);
    ghost var once := db.occurrences;
    g.Generate(db, cfg);
    GenerateIdempotent(old(db.occurrences), g.pk.value, g.event, g.exceptions, GenerationSpans(g.Row(), cfg),
                       cfg.allowClashingOccurrences);
  }
}
