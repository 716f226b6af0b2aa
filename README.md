# eventtools recurrence and reconciliation, in Dafny

This project models the scheduling core of glamkit-eventtools. An event has
occurrence generators. Each generator has a first span (`event_start` to
`event_end`), an optional repetition rule, an optional `repeat_until` bound
and a dictionary of exception instants. From these it creates occurrence
rows, and it keeps those rows in line with its schedule whenever it is saved.
The older revision of the models reads a window of occurrences instead. It
computes unpersisted candidates from the rule, and then merges them with the
persisted, possibly moved, occurrences.

Instants are whole seconds. An instant's calendar date is `t / 86400` and its
time of day is `t % 86400`.

Modules:

- `Wrappers` holds `Option`, `Result` and `Outcome`.
- `Instants` holds the date and time-of-day split.
- `GeneratorRules` holds the pure rules of `GeneratorModel`: schedule
  validation, bounded date expansion, the exception set, `create_occurrence`
  and `generate` over an occurrence table, and `get_spans`.
- `Reconcile` holds the passes `save` makes over the occurrence table: start
  shift, end shift, pruning past `repeat_until`, and pruning rows off the new
  rule.
- `GeneratorModel` holds the `Generator` class, whose fields `clean`, `save`
  and the exception methods update in place. It also holds an
  `OccurrenceStore` with the generator and occurrence tables. Its methods are
  proved equal to the functions of the two modules above.
- `RuleParams` holds `Rule.get_params`, including Python's `str.split` and
  `int()` restricted to ASCII digits and ASCII whitespace.
- `LegacyEvents` holds the window logic of the older `models.py`:
  `_get_occurrence_list`, `get_occurrences`, `_occurrences_after_generator`,
  `_create_occurrence`, the occurrence ordering and equality, and
  `get_last_day`.

The environment is passed in explicitly. `Config` carries the clock,
`DEFAULT_GENERATOR_LIMIT`, `ALLOW_CLASHING_OCCURRENCES` and
`FREQUENCY_TIME_MAP`. It also carries the dateutil expansion of a rule from a
start, as the finite list of starts its iterator yields before it is
exhausted. In `LegacyEvents` a rule is given as the starts of its complex
rule when that parses (`None` otherwise) and the starts of its simple rule
set. The simple rule set already has the Good Friday and Christmas exclusions
applied. `OccurrenceReplacer` is not part of this model. It is given an
assumed contract:

- a persisted occurrence stands for a candidate when their
  `(original_start, original_end)` agree, and the first such one is used;
- the "additional" occurrences are the persisted ones whose original span
  fails the window test but whose current span passes it.

The window test is the one `get_occurrences` applies: `start < end_of_window`
and `end >= start_of_window`.

## Model

| member | source | states |
|---|---|---|
| GeneratorRules.ScheduleCheck | eventtools/models/generator.py:55-69 | the result names the first failing check, in source order: start after end, `repeat_until` before the floor, `repeat_until` without a rule, span longer than the frequency's period; each is returned exactly when it fails and the earlier checks pass; `None` means all four hold |
| GeneratorModel.Generator.Clean | eventtools/models/generator.py:51-70 | a missing end becomes the start; the outcome fails with the check's reason exactly when the check with `repeat_until` compared to the end fails |
| GeneratorRules.CleanAcceptedImpliesSaveAccepted | eventtools/models/generator.py:88-102 | a schedule `clean` accepts passes the guards of `save` |
| GeneratorRules.SaveAcceptsRepeatUntilInsideFirstSpan | eventtools/models/generator.py:91-92 | `save` compares `repeat_until` with the start, so it accepts a `repeat_until` inside the first span that `clean` refuses |
| GeneratorRules.TakeUntilBeyond | eventtools/models/generator.py:219-223 | the dates taken are a prefix of the rule's dates, none is past the bound, and the next date (if any) is past it |
| GeneratorRules.TakeUntilBeyondAt | eventtools/models/generator.py:219-223 | the prefix ends exactly at the first date past the bound |
| GeneratorRules.TakeUntilBeyondIsFilter | eventtools/models/generator.py:215-223 | for increasing rule dates, a date is generated iff it is a rule date not past the bound |
| GeneratorRules.GeneratedDatesWithinRepeatUntil | eventtools/models/generator.py:217-223 | with a rule and `repeat_until`, no generated date exceeds `repeat_until` |
| GeneratorModel.GenerateDates | eventtools/models/generator.py:210-223 | without a rule, exactly `[event_start]`; with a rule, the rule's dates up to the first one past `repeat_until` or `now + DEFAULT_GENERATOR_LIMIT`, as a prefix |
| GeneratorRules.WithException | eventtools/models/generator.py:267-272 | after adding `dt` it is an exception, and no other instant's status changes; a missing dictionary is replaced by an empty one first |
| GeneratorRules.WithoutException | eventtools/models/generator.py:274-279 | after removing `dt` it is not an exception, and no other instant's status changes |
| GeneratorRules.CreateOccurrenceResult | eventtools/models/generator.py:188-208 | when the start is not an honoured exception and no clash exists (same span for this generator if clashes are allowed, for this event otherwise), exactly one occurrence with the given span is appended; otherwise the table is unchanged |
| GeneratorRules.CreateOccurrenceIdempotent | eventtools/models/generator.py:195-206 | creating the same occurrence twice changes the table at most once |
| GeneratorRules.SpansFrom | eventtools/models/generator.py:235-238 | one span per generated start, ending `duration` after it |
| GeneratorRules.GenerationSpans | eventtools/models/generator.py:226-238 | the spans asked for are `(event_start, event_end)` without a rule, else `(d, d + duration)` for each generated date `d`, in order |
| GeneratorRules.GenerateOnlyAppends | eventtools/models/generator.py:226-238 | generation keeps the old rows as a prefix and appends only this generator's rows, each for a requested span whose start is not an exception |
| GeneratorRules.GenerateCovers | eventtools/models/generator.py:226-238 | after generation every requested span is an exception or exists |
| GeneratorRules.GenerateUnchangedWhenCovered | eventtools/models/generator.py:195-204 | when every requested span is covered, generation changes nothing |
| GeneratorRules.GenerateIdempotent | eventtools/models/generator.py:226-238 | a second `generate` with no change in between creates nothing |
| GeneratorRules.OwnRows | eventtools/models/generator.py:247-257 | `self.occurrences` holds exactly the table's rows that carry the generator's key, and no more rows than the table |
| GeneratorRules.GetSpans | eventtools/models/generator.py:245-259 | without a rule, or with more than three of the generator's rows, one span (the first span), repeating until `repeat_until` when ruled; otherwise one non-repeating span per row of the generator, in table order |
| GeneratorRules.OneOffSpanIsGenerated | eventtools/models/generator.py:226-259 | without a rule, the single span shown over the table `generate` leaves is one that exists in that table, unless its start is an exception |
| GeneratorRules.RuledSpansShowOccurrences | eventtools/models/generator.py:245-259 | with a rule and at most three rows of the generator in the table, as many spans as rows are shown, every span shown is the span of one of the generator's rows, and every such row's span is shown |
| GeneratorRules.EventDuration | eventtools/models/generator.py:181-182 | the duration is what takes `event_start` to `event_end`; it is non-negative exactly when the start is not after the end |
| GeneratorRules.IsException | eventtools/models/generator.py:262-265 | no instant is an exception without a dictionary; with one, exactly its keys are |
| Reconcile.SameDayShiftChangesTime | eventtools/models/generator.py:133-136 | a non-zero shift within the same day changes the time of day, so one of the two selections always applies |
| Reconcile.ShiftStartSpec | eventtools/models/generator.py:132-144 | after a start shift, a row is present iff it was present and unselected, or it is a selected row moved by the shift, with end at start plus the new duration, that still passes the keep test |
| Reconcile.ShiftStartKeepsAllWithoutLimit | eventtools/models/generator.py:141-144 | with the corrected keep test and no `repeat_until`, every row stays in place and each selected one is moved |
| Reconcile.ShiftStartAsWrittenDeletesWithoutLimit | eventtools/models/generator.py:141-144 | with the keep test as written and no `repeat_until`, exactly the unselected rows survive |
| Reconcile.ShiftStartAsWrittenCounterexample | eventtools/models/generator.py:138-144 | a one-day shift without `repeat_until` deletes the only occurrence as written, and moves it under the corrected test |
| Reconcile.ShiftEndSpec | eventtools/models/generator.py:146-158 | an end shift keeps every row in place; a selected row keeps its start, ends `end_shift` later unless that would precede its start, and never ends before it starts; other rows are untouched |
| Reconcile.PruneAfterSpec | eventtools/models/generator.py:160-163 | a tightened `repeat_until` deletes exactly this generator's rows that start after it |
| Reconcile.PruneNonConformingSpec | eventtools/models/generator.py:165-170 | a rule change deletes exactly this generator's rows whose start is neither a new rule date nor an exception |
| Reconcile.ReconcileOnSave | eventtools/models/generator.py:126-170 | reconciliation only moves and deletes rows, so the table never grows |
| Reconcile.ReconcileLeavesOtherGenerators | eventtools/models/generator.py:126-170 | rows of other generators survive reconciliation unchanged, and no new ones appear |
| Reconcile.ResaveChangesNothing | eventtools/models/generator.py:126-170 | re-saving an unchanged schedule touches no row |
| Reconcile.ReconcileRespectsRepeatUntil | eventtools/models/generator.py:160-170 | after `repeat_until` is tightened, no row of the generator starts after it |
| Reconcile.ReconcileConformsToNewRule | eventtools/models/generator.py:165-170 | after a rule change, each row of the generator starts on a new rule date or on an exception |
| Reconcile.AsWrittenAgreesWithLimit | eventtools/models/generator.py:141-144 | whenever `repeat_until` is set, the save as written and the corrected save leave the same table |
| Reconcile.DayShiftAsWrittenDeletesGenerated | eventtools/models/generator.py:132-144 | as written, moving the first span by whole days without `repeat_until` leaves no row of the generator after reconciliation; `save` then runs `generate` by default (eventtools/models/generator.py:173-174), which creates fresh rows at the new dates, but only up to the generation horizon, and the moved rows' identity is lost |
| Reconcile.DayShiftMovesGenerated | eventtools/models/generator.py:132-144 | moving the first span by whole days (same rule and limit) moves every generated row by the same amount, with the new duration; the ones that fail the keep test are deleted |
| GeneratorModel.VisitOccurrences | eventtools/models/generator.py:138-170 | one pass over the rows leaves exactly what the pass's per-row step leaves, in order |
| GeneratorModel.Generator.constructor | eventtools/models/generator.py:38-42 | a new generator has no key and an empty exception dictionary |
| GeneratorModel.Generator.CreateOccurrence | eventtools/models/generator.py:188-208 | the table becomes the one `CreateOccurrenceResult` gives |
| GeneratorModel.Generator.Generate | eventtools/models/generator.py:226-238 | the table becomes the one obtained by creating, honouring exceptions, each span of `GenerationSpans` in order |
| GeneratorModel.Generator.ShiftStored | eventtools/models/generator.py:126-158 | the start shift (selected by the old dates, or by the old start time) or else the end shift (selected by the new dates, or by the old end time) is applied |
| GeneratorModel.Generator.ReconcileStored | eventtools/models/generator.py:126-170 | shift, then prune past a tightened `repeat_until`, then prune rows off a changed rule |
| GeneratorModel.Generator.Save | eventtools/models/generator.py:73-174 | a missing end becomes the start; the save passes exactly when the schedule is valid and the stored row (if any) exists; an invalid schedule fails before any table changes; a missing stored row fails; otherwise the row is written under its (possibly new) key, the stored occurrences are reconciled against the previous row, and generation runs only when asked; without generation the table never grows |
| GeneratorModel.Generator.ResetExceptions | eventtools/models/generator.py:281-283 | the dictionary becomes empty and no instant is an exception; the save passes exactly when the schedule is valid and the stored row exists; on success the row is written and the occurrences are reconciled against the stored row, with no generation; on failure no table changes |
| GeneratorModel.Generator.AddException | eventtools/models/generator.py:267-272 | the dictionary becomes the one with `dt` added (left as a fresh empty one only when the save fails) and `dt` is an exception once saved; success and failure as for `save`; on success the row is written and the occurrences are reconciled against the stored row (with the empty dictionary when there was none, the second save then changing nothing), with no generation |
| GeneratorModel.Generator.RemoveException | eventtools/models/generator.py:274-279 | `dt` leaves the dictionary and is no exception; when it was not one, nothing is saved and nothing changes; otherwise success and failure as for `save`, and on success the row is written and the occurrences are reconciled against the stored row, with no generation |
| GeneratorModel.GenerateTwice | eventtools/models/generator.py:226-238 | two `generate` calls in a row leave the table that one call leaves |
| RuleParams.Split | eventtools/models.py:423-428 | at least one piece, none containing the separator |
| RuleParams.JoinSplit | eventtools/models.py:423-428 | joining the pieces of a split restores the text |
| RuleParams.ParseShowInt | eventtools/models.py:428 | `int(str(n)) == n` |
| RuleParams.ParseIntDecimal | eventtools/models.py:428 | bare decimal digits read as their decimal value |
| RuleParams.ParseIntAccepts | eventtools/models.py:428 | text `int()` accepts holds only whitespace, digits and signs, has at least one digit, and has a minus sign when the value is negative |
| RuleParams.ParseInts | eventtools/models.py:428 | the list comprehension succeeds exactly when every piece parses, then gives each piece's value in order; otherwise it raises for the first piece that does not parse |
| RuleParams.Collapse | eventtools/models.py:429-430 | one value becomes a scalar, two or more stay a list in the same order |
| RuleParams.GetParams | eventtools/models.py:414-432 | the loop returns what `ParseParams` gives: `{}` for None, otherwise the dictionary of the well-formed segments, or the first error raised |
| RuleParams.ParamsComeFromSegments | eventtools/models.py:423-432 | every returned name comes from a segment with exactly one `:`; a list value holds at least two integers |
| RuleParams.ToDictLastWins | eventtools/models.py:432 | a name maps to the value of its last pair |
| RuleParams.ParseFormatParams | eventtools/models.py:384-386 | parameters written in the `name:int[,int]*;...` format read back as the dictionary of their collapsed values |
| RuleParams.DocumentedExample | eventtools/models.py:416-418 | `count:1;bysecond:1;byminute:1,2,4,5` gives `{count: 1, bysecond: 1, byminute: [1, 2, 4, 5]}` |
| LegacyEvents.RuleDates | eventtools/models.py:106-122 | a parsed complex rule's dates are used; without one, the simple rule set's dates |
| LegacyEvents.Cmp | eventtools/models.py:254-256 | Python's `cmp`: negative, zero or positive as the first is smaller, equal or larger |
| LegacyEvents.Compare | eventtools/models.py:253-257 | the result is -1, 0 or 1; negative exactly when the first occurrence comes earlier by start, then by end; positive exactly when the second does; zero exactly when start and end agree |
| LegacyEvents.CompareAntisymmetric | eventtools/models.py:253-257 | swapping the operands negates the comparison |
| LegacyEvents.CompareTransitive | eventtools/models.py:253-257 | the ordering is transitive |
| LegacyEvents.Same | eventtools/models.py:259-260 | two occurrences are equal exactly when they belong to the same event and have the same original span, that is, when the replacer would match them and their events agree |
| LegacyEvents.MovedStaysSame | eventtools/models.py:259-260 | equality ignores the current span and the cancelled flag |
| LegacyEvents.EqualityIsNotOrder | eventtools/models.py:253-260 | equal occurrences can compare unequal, and occurrences that compare equal can be unequal |
| LegacyEvents.CreateOccurrence | eventtools/models.py:124-128 | original span equals current span, not cancelled; a missing end is the start plus the generator's duration |
| LegacyEvents.Between | eventtools/models.py:161 | the dates kept are exactly the rule's dates in the inclusive range |
| LegacyEvents.BetweenIncreasing | eventtools/models.py:161 | selection keeps increasing dates increasing |
| LegacyEvents.ClampedEnd | eventtools/models.py:158-159 | the window's end is brought forward to `end_recurring_period` when that is earlier, and never moved later |
| LegacyEvents.GetOccurrenceList | eventtools/models.py:151-171 | the loop returns the candidate list `OccurrenceList` gives |
| LegacyEvents.OneOffOccurrenceList | eventtools/models.py:166-171 | without a rule there is one unmoved candidate exactly when `start < window end` and `end >= window start`, and none otherwise |
| LegacyEvents.RuledOccurrenceList | eventtools/models.py:155-165 | with a rule, each candidate starts on a rule date in `[start - difference, clamped end]`, ends `difference` later and is unmoved; every rule date in that range gives a candidate |
| LegacyEvents.CandidatesDistinct | eventtools/models.py:155-165 | for increasing rule dates no two candidates share an original span |
| LegacyEvents.MatchIndex | eventtools/models.py:90-91 | the replacer finds the first persisted occurrence whose original span is the candidate's, or reports that none has it |
| LegacyEvents.Replace | eventtools/models.py:88-96 | a candidate contributes at most one occurrence: itself when no persisted occurrence stands for it; otherwise the first persisted occurrence standing for it when that passes the window test, and nothing when it fails |
| LegacyEvents.UnmatchedCandidateKept | eventtools/models.py:95-96 | a candidate no persisted occurrence stands for is returned |
| LegacyEvents.Additional | eventtools/models.py:99 | an occurrence is additional iff it is persisted, its original span fails the window test and its current span passes it |
| LegacyEvents.GetOccurrences | eventtools/models.py:65-100 | the loop returns the candidates with persisted counterparts substituted (dropped when out of the window), followed by the additional occurrences |
| LegacyEvents.MergedInWindowOrFresh | eventtools/models.py:84-100 | every returned occurrence passes the window test, or is a candidate that nothing persisted stands for |
| LegacyEvents.ReplaceCount | eventtools/models.py:89-96 | with unique original spans, a candidate contributes a persisted occurrence once if it stands for it and it is in the window, else never |
| LegacyEvents.SubstitutedCount | eventtools/models.py:88-96 | the first pass returns a persisted occurrence once if some candidate stands for it and it is in the window, else never |
| LegacyEvents.AdditionalCount | eventtools/models.py:99 | a persisted occurrence is appended as additional at most once, exactly when only its current span is in the window |
| LegacyEvents.PersistedInWindowExactlyOnce | eventtools/models.py:84-100 | when candidates stand exactly for the persisted occurrences whose original span is in the window, every persisted occurrence whose current span is in the window is returned exactly once |
| LegacyEvents.CandidatesStandForInWindow | eventtools/models.py:155-171 | for an original span the schedule gives, not starting at the window's end, a candidate stands for it exactly when it passes the window test |
| LegacyEvents.PersistedScheduledExactlyOnce | eventtools/models.py:84-100 | with the generator's own candidates, persisted occurrences with unique scheduled original spans (none at the window's end) are each returned exactly once when their current span is in the window |
| LegacyEvents.WindowEndReturnedTwice | eventtools/models.py:93-99 | an occurrence originally at the window's end and moved into the window is returned twice |
| LegacyEvents.ClampedOriginalDropped | eventtools/models.py:158-161 | an occurrence originally past a lowered `end_recurring_period`, currently in the window, is not returned |
| LegacyEvents.NothingPersisted | eventtools/models.py:84-100 | with nothing persisted the candidates are returned unchanged |
| LegacyEvents.MonthlyCandidates | eventtools/models.py:155-165 | a monthly rule from 2008-01-01 gives the 2008-02-01 and 2008-03-01 candidates for the window 2008-01-24 to 2008-03-02 |
| LegacyEvents.MonthlyExample | eventtools/models.py:67-74 | that window returns the occurrences of 2008-02-01 and 2008-03-01, each one day long |
| LegacyEvents.OneOffExample | eventtools/models.py:76-81 | a one-off event on 2008-01-01 08:00-09:00 returns nothing for that window |
| LegacyEvents.EndingAfter | eventtools/models.py:192-194 | each yielded occurrence ends after `after`, lasts the difference and starts on a given date |
| LegacyEvents.EndingAfterComplete | eventtools/models.py:192-194 | every date whose occurrence ends after `after` is yielded |
| LegacyEvents.OccurrencesAfter | eventtools/models.py:173-194 | iteration raises only for a ruled generator without `end_recurring_period` whose rule has a date |
| LegacyEvents.RuledOccurrencesAfter | eventtools/models.py:186-194 | the comparison with a missing `end_recurring_period` raises exactly when the rule yields a date |
| LegacyEvents.OccurrencesAfterGenerator | eventtools/models.py:173-194 | draining the generator gives `OccurrencesAfter`, with `after` defaulting to now |
| LegacyEvents.PullRuleDates | eventtools/models.py:186-194 | the `while True` loop yields what `RuledOccurrencesAfter` gives |
| LegacyEvents.OneOffAfter | eventtools/models.py:181-185 | without a rule, one occurrence is yielded iff `end > after`, and never more |
| LegacyEvents.RuledAfter | eventtools/models.py:186-194 | with a rule, each yielded occurrence ends after `after`, starts on a rule date no later than `end_recurring_period`, and lasts the difference |
| LegacyEvents.RuledAfterComplete | eventtools/models.py:186-194 | for increasing rule dates, every rule start no later than `end_recurring_period` whose occurrence ends after `after` is yielded |
| LegacyEvents.GetLastDay | eventtools/models.py:324-331 | `False` when some generator has no `end_recurring_period`; `IndexError` for no generators; otherwise the largest of them |

## Left out

- Storage is an in-memory table with no row ids. A delete drops the row and a save replaces it in place. Transactions (`commit_on_success`) and the `unique_together` enforcement are not modelled. The uniqueness of original spans is a hypothesis (`UniqueOriginals`) of the lemmas that need it.
- The dateutil rule expansion (`rrule`, `rrulestr`, `between`, iteration, the Good Friday and Christmas exclusion rules) is foreign code. It is an input, given as a finite list of starts. An iterator that never ends is given as a prefix long enough for every bound used.
- `datetime.now()`, `DEFAULT_GENERATOR_LIMIT`, `ALLOW_CLASHING_OCCURRENCES` and `FREQUENCY_TIME_MAP` are parameters.
- The `datetimeify` clamping in `save` (eventtools/models/generator.py:80-83) is left out. Instants are already exact seconds here.
- The comparison at eventtools/models/generator.py:85-86 does nothing, so it is not modelled.
- `create_occurrence` is always called with an end in the source, so its `end=None` default is not modelled.
- Exception keys are instants, not their `isoformat()` strings. Two instants get the same key exactly when they are equal.
- The accessors at eventtools/models.py:25-55 use attributes that do not exist. The legacy generator's `start`, `end` and `end_recurring_period` are plain fields instead.
- `occurrence_model`, `get_one_occurrence`, `get_occurrence`, `occurrences_after`, `next_occurrences`, `primary_generator` and `get_first_occurrence` are not part of this model. They depend on the unseen `Period` class, on database indexing, or on the broken `occurrence_model`.
- `OccurrenceReplacer` is not part of this model. Its behaviour is the contract stated above.
- The `move`, `cancel` and `uncancel` methods of the occurrence are commented out in the source. Only their effect on equality is stated, by `MovedStaysSame`.
- `get_last_day` sorts the list and takes its last element. This is modelled as a scan for the maximum, which gives the same value.
- `get_params` raises `UnicodeEncodeError` from `str()` of a non-ASCII name. This is modelled as an error value, and the message text is left out.
- Metaclass plumbing (`EventModelBase`, `EventVariationBase`), `__unicode__`, `robot_description`, `has_multiple_occurrences`, `get_absolute_url`, translations and the HTTP views are presentation or framework code. They are left out.
- `GetSpans` keeps the case split of `get_spans` but not the description text.
- RuleParams.ParseInt: the `params` field is a unicode string, so Python 2's `int()` accepts any Unicode decimal digit and Unicode whitespace. The model accepts only ASCII digits and ASCII whitespace, and calls any other text an error.
- GeneratorModel.Generator.Save: it reconciles with the corrected start-shift keep test. Without `repeat_until` it keeps shifted rows that eventtools/models/generator.py:141-144 deletes. The save as written is `Reconcile.ReconcileOnSaveAsWritten`. `Reconcile.AsWrittenAgreesWithLimit` shows the two agree whenever `repeat_until` is set.
- LegacyEvents.PersistedInWindowExactlyOnce: it holds only under its hypothesis that a candidate stands for a persisted occurrence exactly when that occurrence's original span passes the window test. The source's own candidates meet it when the original spans are scheduled ones and none starts at the window's end (`PersistedScheduledExactlyOnce`). Two cases fall outside it. An occurrence originally at the window's end and moved into the window is returned twice (`WindowEndReturnedTwice`). An occurrence originally past a lowered `end_recurring_period` and moved into the window is lost (`ClampedOriginalDropped`). Both depend on the assumed replacer contract, so they are not claimed as defects.
- LegacyEvents.MergedInWindowOrFresh: the ruled candidates are taken with `between(..., inc=True)`. So a candidate that nothing persisted stands for, and that starts exactly at the window's end, is returned although it fails the window test. The lemma states this exception rather than the unconditional "every returned occurrence is in the window".

## Findings

| source | as written | input that shows it | evidently intended | confidence | as-written member | corrected member |
|---|---|---|---|---|---|---|
| eventtools/models/generator.py:141-144 | a start-shifted occurrence is saved only when `repeat_until` is set and the new start is before it, so without `repeat_until` every selected occurrence is deleted; the default `generate` at eventtools/models/generator.py:173-174 then creates fresh rows at the new dates, so the stored rows lose their identity and a shifted row past the generation horizon is not re-created | a generator without `repeat_until`, with one occurrence at its start, moved one day later | without a limit every shifted occurrence is kept, and only those at or past `repeat_until` are deleted | medium, not executed | Reconcile.ShiftStartAsWrittenCounterexample | Reconcile.ShiftStartKeepsAllWithoutLimit |

`Save` uses the corrected keep test. `Reconcile.Phase.ShiftStartAsWritten` keeps the test as written, and `Reconcile.ReconcileOnSaveAsWritten` is the whole save with it.
