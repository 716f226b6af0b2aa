/**
 * The pure rules of `GeneratorModel` (eventtools/models/generator.py):
 * schedule validation, bounded date expansion, the exception set, the
 * occurrence records a generator creates, and the idempotent generation
 * they follow. The imperative class lives in module GeneratorModel; its
 * methods are proved against the functions below.
 */
module GeneratorRules {
  import opened Wrappers
  import opened Instants

  /** A repetition rule row. Django compares model instances by primary key. */
  datatype RuleRef = RuleRef(pk: nat, frequency: string)

  /**
   * What the generator reads from its environment: the clock
   * (`datetime.now()`), the settings `DEFAULT_GENERATOR_LIMIT` and
   * `ALLOW_CLASHING_OCCURRENCES`, the table `FREQUENCY_TIME_MAP`, and the
   * rule expansion `rule.get_rrule(dtstart)` of the dateutil library, given
   * as the finite list of starts its iterator produces before it is
   * exhausted (or a prefix of it long enough for every bound used).
   */
  datatype Config = Config(
    now: int,
    defaultGeneratorLimit: int,
    allowClashingOccurrences: bool,
    frequencyTimeMap: map<string, int>,
    ruleDates: (RuleRef, int) -> seq<int>)

  /** A generator's schedule as stored in its table row; `exceptions` is the JSON dictionary's key set. */
  datatype GeneratorRow = GeneratorRow(
    eventStart: int,
    eventEnd: int,
    rule: Option<RuleRef>,
    repeatUntil: Option<int>,
    exceptions: Option<set<int>>)

  /** An occurrence row of the newer model: its generator, its event and its span. */
  datatype Occurrence = Occurrence(generator: nat, event: nat, start: int, end: int)

  // ---------------------------------------------------------------------
  // Validation (`clean` and the guards at the top of `save`)
  // ---------------------------------------------------------------------

  /** The four reasons a schedule is refused, in the order they are checked. */
  datatype Invalid = StartAfterEnd | RepeatUntilTooEarly | RepeatUntilWithoutRule | SpanLongerThanFrequency

  /** The span is longer than the nominal period of the rule's frequency. */
  predicate SpanTooLong(start: int, end: int, rule: Option<RuleRef>, timeMap: map<string, int>) {
    rule.Some? && rule.value.frequency in timeMap && end - start > timeMap[rule.value.frequency]
  }

  /**
   * The checks shared by `clean` and `save`. `repeatFloor` is the instant
   * `repeat_until` may not precede: `clean` passes the end, `save` passes
   * the start. The first failing check decides the error.
   */
  function ScheduleCheck(start: int, end: int, repeatFloor: int, repeatUntil: Option<int>,
                         rule: Option<RuleRef>, timeMap: map<string, int>): (r: Option<Invalid>)
    ensures r == Some(StartAfterEnd) <==> start > end
    ensures r == Some(RepeatUntilTooEarly) <==>
      start <= end && repeatUntil.Some? && repeatUntil.value < repeatFloor
    ensures r == Some(RepeatUntilWithoutRule) <==>
      start <= end && repeatUntil.Some? && repeatFloor <= repeatUntil.value && rule.None?
    ensures r == Some(SpanLongerThanFrequency) <==>
      start <= end && (repeatUntil.Some? ==> repeatFloor <= repeatUntil.value && rule.Some?) &&
      SpanTooLong(start, end, rule, timeMap)
    ensures r.None? ==>
      0 <= end - start &&
      (repeatUntil.Some? ==> repeatFloor <= repeatUntil.value && rule.Some?) &&
      (rule.Some? && rule.value.frequency in timeMap ==> end - start <= timeMap[rule.value.frequency])
  {
    if start > end then Some(StartAfterEnd)
    else if repeatUntil.Some? && repeatUntil.value < repeatFloor then Some(RepeatUntilTooEarly)
    else if repeatUntil.Some? && rule.None? then Some(RepeatUntilWithoutRule)
    else if SpanTooLong(start, end, rule, timeMap) then Some(SpanLongerThanFrequency)
    else None
  }

  /** A schedule `clean` accepts is also accepted by the guards of `save`. */
  lemma CleanAcceptedImpliesSaveAccepted(start: int, end: int, repeatUntil: Option<int>,
                                         rule: Option<RuleRef>, timeMap: map<string, int>)
    requires ScheduleCheck(start, end, end, repeatUntil, rule, timeMap).None?
    ensures ScheduleCheck(start, end, start, repeatUntil, rule, timeMap).None?
  {
  }

  /**
   * The converse fails: `save` compares `repeat_until` with the start, so it
   * lets through a `repeat_until` that falls inside the first occurrence,
   * which `clean` refuses.
   */
  lemma SaveAcceptsRepeatUntilInsideFirstSpan()
    ensures ScheduleCheck(0, 3600, 0, Some(1800), Some(RuleRef(1, "DAILY")), map["DAILY" := 86400]).None?
    ensures ScheduleCheck(0, 3600, 3600, Some(1800), Some(RuleRef(1, "DAILY")), map["DAILY" := 86400])
            == Some(RepeatUntilTooEarly)
  {
  }

  /** `event_duration`: the length of the first occurrence. */
  function EventDuration(row: GeneratorRow): (r: int)
    ensures row.eventStart + r == row.eventEnd
    ensures r >= 0 <==> row.eventStart <= row.eventEnd
  {
    row.eventEnd - row.eventStart
  }

  // ---------------------------------------------------------------------
  // Bounded date expansion (`generate_dates`)
  // ---------------------------------------------------------------------

  /** `drop_dead_date`: `repeat_until`, or the default limit after now. */
  function DropDeadDate(repeatUntil: Option<int>, cfg: Config): int {
    repeatUntil.GetOr(cfg.now + cfg.defaultGeneratorLimit)
  }

  /**
   * The candidates pulled from the rule's iterator before the first one
   * beyond `bound` (or before the iterator is exhausted).
   */
  function TakeUntilBeyond(candidates: seq<int>, bound: int): (r: seq<int>)
    ensures |r| <= |candidates| && r == candidates[..|r|]
    ensures forall i :: 0 <= i < |r| ==> r[i] <= bound
    ensures |r| < |candidates| ==> candidates[|r|] > bound
  {
    if |candidates| == 0 || candidates[0] > bound then []
    else [candidates[0]] + TakeUntilBeyond(candidates[1..], bound)
  }

  /** The prefix is determined by where the first candidate beyond the bound is. */
  lemma TakeUntilBeyondAt(candidates: seq<int>, bound: int, k: nat)
    requires k <= |candidates|
    requires forall i :: 0 <= i < k ==> candidates[i] <= bound
    requires k < |candidates| ==> candidates[k] > bound
    ensures TakeUntilBeyond(candidates, bound) == candidates[..k]
  {
  }

  predicate StrictlyIncreasing(s: seq<int>) {
    forall i, j :: 0 <= i < j < |s| ==> s[i] < s[j]
  }

  /** For a rule whose dates increase, the expansion is exactly the rule's dates within the bound. */
  lemma TakeUntilBeyondIsFilter(candidates: seq<int>, bound: int, d: int)
    requires StrictlyIncreasing(candidates)
    ensures d in TakeUntilBeyond(candidates, bound) <==> d in candidates && d <= bound
  {
    var r := TakeUntilBeyond(candidates, bound);
    if d in candidates && d <= bound {
      var i :| 0 <= i < |candidates| && candidates[i] == d;
      assert i < |r|;
    }
  }

  /** The dates a generator's schedule yields (`generate_dates`). */
  function GeneratedDates(eventStart: int, rule: Option<RuleRef>, repeatUntil: Option<int>, cfg: Config): seq<int> {
    if rule.None? then [eventStart]
    else TakeUntilBeyond(cfg.ruleDates(rule.value, eventStart), DropDeadDate(repeatUntil, cfg))
  }

  /** Generated dates never pass `repeat_until`. */
  lemma GeneratedDatesWithinRepeatUntil(eventStart: int, rule: Option<RuleRef>, repeatUntil: Option<int>, cfg: Config, d: int)
    requires rule.Some? && repeatUntil.Some?
    requires d in GeneratedDates(eventStart, rule, repeatUntil, cfg)
    ensures d <= repeatUntil.value
  {
    var r := GeneratedDates(eventStart, rule, repeatUntil, cfg);
    var i :| 0 <= i < |r| && r[i] == d;
  }

  // ---------------------------------------------------------------------
  // The exception set
  // ---------------------------------------------------------------------

  /** `is_exception`: false when there is no exception dictionary. */
  predicate IsException(exceptions: Option<set<int>>, dt: int): (r: bool)
    ensures exceptions.None? ==> !r
    ensures exceptions.Some? ==> (r <==> dt in exceptions.value)
  {
    exceptions.Some? && dt in exceptions.value
  }

  /** The dictionary after `exceptions[dt] = True` (a missing one is reset to `{}` first). */
  function WithException(exceptions: Option<set<int>>, dt: int): (r: Option<set<int>>)
    ensures IsException(r, dt)
    ensures forall x :: x != dt ==> (IsException(r, x) <==> IsException(exceptions, x))
  {
    Some(exceptions.GetOr({}) + {dt})
  }

  /** The dictionary after `del exceptions[dt]`. */
  function WithoutException(exceptions: Option<set<int>>, dt: int): (r: Option<set<int>>)
    ensures !IsException(r, dt)
    ensures forall x :: x != dt ==> (IsException(r, x) <==> IsException(exceptions, x))
  {
    Some(exceptions.GetOr({}) - {dt})
  }

  // ---------------------------------------------------------------------
  // Creation (`create_occurrence`) and generation (`generate`)
  // ---------------------------------------------------------------------

  /**
   * An occurrence with this span already exists: one of this generator's
   * when clashes are allowed, otherwise one of the same event's.
   */
  predicate Clashes(occs: seq<Occurrence>, pk: nat, event: nat, start: int, end: int, allowClashing: bool) {
    exists o :: o in occs && o.start == start && o.end == end &&
      (if allowClashing then o.generator == pk else o.event == event)
  }

  /** `create_occurrence` goes ahead: not a honoured exception and no clash. */
  predicate Creates(occs: seq<Occurrence>, pk: nat, event: nat, exceptions: Option<set<int>>,
                    start: int, end: int, honourExceptions: bool, allowClashing: bool) {
    (!honourExceptions || !IsException(exceptions, start)) && !Clashes(occs, pk, event, start, end, allowClashing)
  }

  /** The occurrence table after `create_occurrence(start, end, honour_exceptions)`. */
  function CreateOccurrenceResult(occs: seq<Occurrence>, pk: nat, event: nat, exceptions: Option<set<int>>,
                                  start: int, end: int, honourExceptions: bool, allowClashing: bool): (r: seq<Occurrence>)
    ensures Creates(occs, pk, event, exceptions, start, end, honourExceptions, allowClashing) ==>
      r == occs + [Occurrence(pk, event, start, end)]
    ensures !Creates(occs, pk, event, exceptions, start, end, honourExceptions, allowClashing) ==> r == occs
  {
    if honourExceptions && IsException(exceptions, start) then occs
    else if Clashes(occs, pk, event, start, end, allowClashing) then occs
    else occs + [Occurrence(pk, event, start, end)]
  }

  /** Creating the same occurrence twice creates it once. */
  lemma CreateOccurrenceIdempotent(occs: seq<Occurrence>, pk: nat, event: nat, exceptions: Option<set<int>>,
                                   start: int, end: int, honourExceptions: bool, allowClashing: bool)
    ensures var once := CreateOccurrenceResult(occs, pk, event, exceptions, start, end, honourExceptions, allowClashing);
            CreateOccurrenceResult(once, pk, event, exceptions, start, end, honourExceptions, allowClashing) == once
  {
    var once := CreateOccurrenceResult(occs, pk, event, exceptions, start, end, honourExceptions, allowClashing);
    if once != occs {
      var o := Occurrence(pk, event, start, end);
      assert o in once && o.start == start && o.end == end;
      assert Clashes(once, pk, event, start, end, allowClashing);
    }
  }

  /** The spans `generate` asks for: the first span alone, or one per generated date. */
  function GenerationSpans(row: GeneratorRow, cfg: Config): (spans: seq<(int, int)>)
    ensures row.rule.None? ==> spans == [(row.eventStart, row.eventEnd)]
    ensures row.rule.Some? ==> |spans| == |GeneratedDates(row.eventStart, row.rule, row.repeatUntil, cfg)|
    ensures row.rule.Some? ==> forall i :: 0 <= i < |spans| ==>
      var d := GeneratedDates(row.eventStart, row.rule, row.repeatUntil, cfg)[i];
      spans[i] == (d, d + EventDuration(row))
  {
    if row.rule.None? then [(row.eventStart, row.eventEnd)]
    else SpansFrom(GeneratedDates(row.eventStart, row.rule, row.repeatUntil, cfg), EventDuration(row))
  }

  /** One span of the given duration per start. */
  function SpansFrom(starts: seq<int>, duration: int): (spans: seq<(int, int)>)
    ensures |spans| == |starts|
    ensures forall i :: 0 <= i < |starts| ==> spans[i] == (starts[i], starts[i] + duration)
  {
    if starts == [] then [] else SpansFrom(starts[..|starts| - 1], duration) + [(starts[|starts| - 1], starts[|starts| - 1] + duration)]
  }

  /** The occurrence table after `create_occurrence` (honouring exceptions) for each span in turn. */
  function GenerateResult(occs: seq<Occurrence>, pk: nat, event: nat, exceptions: Option<set<int>>,
                          spans: seq<(int, int)>, allowClashing: bool): seq<Occurrence>
  {
    if spans == [] then occs
    else
      var last := spans[|spans| - 1];
      CreateOccurrenceResult(GenerateResult(occs, pk, event, exceptions, spans[..|spans| - 1], allowClashing),
                             pk, event, exceptions, last.0, last.1, true, allowClashing)
  }

  /** Generating one more span creates that span's occurrence on top of what the earlier spans left. */
  lemma GenerateResultExtend(occs: seq<Occurrence>, pk: nat, event: nat, exceptions: Option<set<int>>,
                             spans: seq<(int, int)>, i: nat, allowClashing: bool)
    requires i < |spans|
    ensures GenerateResult(occs, pk, event, exceptions, spans[..i + 1], allowClashing) ==
      CreateOccurrenceResult(GenerateResult(occs, pk, event, exceptions, spans[..i], allowClashing),
                             pk, event, exceptions, spans[i].0, spans[i].1, true, allowClashing)
  {
    assert spans[..i + 1][..i] == spans[..i];
  }

  /** A span needs nothing more from `generate`: it is an exception or it already exists. */
  predicate Covered(occs: seq<Occurrence>, pk: nat, event: nat, exceptions: Option<set<int>>,
                    span: (int, int), allowClashing: bool) {
    IsException(exceptions, span.0) || Clashes(occs, pk, event, span.0, span.1, allowClashing)
  }

  /** Generation only appends, and only occurrences of this generator for requested, non-exception spans. */
  lemma {:induction false} GenerateOnlyAppends(occs: seq<Occurrence>, pk: nat, event: nat, exceptions: Option<set<int>>,
                                               spans: seq<(int, int)>, allowClashing: bool)
    ensures var r := GenerateResult(occs, pk, event, exceptions, spans, allowClashing);
            |occs| <= |r| && r[..|occs|] == occs &&
            forall i :: |occs| <= i < |r| ==>
              r[i].generator == pk && r[i].event == event && (r[i].start, r[i].end) in spans &&
              !IsException(exceptions, r[i].start)
  {
    if spans != [] {
      var init := spans[..|spans| - 1];
      GenerateOnlyAppends(occs, pk, event, exceptions, init, allowClashing);
      var prev := GenerateResult(occs, pk, event, exceptions, init, allowClashing);
      var r := GenerateResult(occs, pk, event, exceptions, spans, allowClashing);
      assert r[..|prev|] == prev;
      forall i | |occs| <= i < |r|
        ensures r[i].generator == pk && r[i].event == event && (r[i].start, r[i].end) in spans &&
                !IsException(exceptions, r[i].start)
      {
        if i < |prev| {
          assert r[i] == prev[i];
          assert (prev[i].start, prev[i].end) in init;
        } else {
          assert r[i] == Occurrence(pk, event, spans[|spans| - 1].0, spans[|spans| - 1].1);
        }
      }
    }
  }

  /** A covered span stays covered when occurrences are appended. */
  lemma CoveredGrows(occs: seq<Occurrence>, more: seq<Occurrence>, pk: nat, event: nat, exceptions: Option<set<int>>,
                     span: (int, int), allowClashing: bool)
    requires Covered(occs, pk, event, exceptions, span, allowClashing)
    ensures Covered(occs + more, pk, event, exceptions, span, allowClashing)
  {
    if !IsException(exceptions, span.0) {
      var o :| o in occs && o.start == span.0 && o.end == span.1 &&
        (if allowClashing then o.generator == pk else o.event == event);
      assert o in occs + more;
    }
  }

  /** After `generate`, every requested span is covered. */
  lemma {:induction false} GenerateCovers(occs: seq<Occurrence>, pk: nat, event: nat, exceptions: Option<set<int>>,
                                          spans: seq<(int, int)>, allowClashing: bool, span: (int, int))
    requires span in spans
    ensures Covered(GenerateResult(occs, pk, event, exceptions, spans, allowClashing), pk, event, exceptions, span, allowClashing)
  {
    var init := spans[..|spans| - 1];
    var last := spans[|spans| - 1];
    var prev := GenerateResult(occs, pk, event, exceptions, init, allowClashing);
    var r := GenerateResult(occs, pk, event, exceptions, spans, allowClashing);
    var more := r[|prev|..];
    assert r == prev + more;
    if span in init {
      GenerateCovers(occs, pk, event, exceptions, init, allowClashing, span);
      CoveredGrows(prev, more, pk, event, exceptions, span, allowClashing);
    } else {
      assert span == last;
      if !IsException(exceptions, span.0) && !Clashes(prev, pk, event, span.0, span.1, allowClashing) {
        var o := Occurrence(pk, event, span.0, span.1);
        assert o in r;
      }
    }
  }

  /** When every span is already covered, `generate` changes nothing. */
  lemma {:induction false} GenerateUnchangedWhenCovered(occs: seq<Occurrence>, pk: nat, event: nat, exceptions: Option<set<int>>,
                                                        spans: seq<(int, int)>, allowClashing: bool)
    requires forall s :: s in spans ==> Covered(occs, pk, event, exceptions, s, allowClashing)
    ensures GenerateResult(occs, pk, event, exceptions, spans, allowClashing) == occs
  {
    if spans != [] {
      var init := spans[..|spans| - 1];
      GenerateUnchangedWhenCovered(occs, pk, event, exceptions, init, allowClashing);
      assert spans[|spans| - 1] in spans;
    }
  }

  /** `generate` is idempotent: a second run with nothing changed creates no occurrence. */
  lemma GenerateIdempotent(occs: seq<Occurrence>, pk: nat, event: nat, exceptions: Option<set<int>>,
                           spans: seq<(int, int)>, allowClashing: bool)
    ensures var once := GenerateResult(occs, pk, event, exceptions, spans, allowClashing);
            GenerateResult(once, pk, event, exceptions, spans, allowClashing) == once
  {
    var once := GenerateResult(occs, pk, event, exceptions, spans, allowClashing);
    forall s | s in spans ensures Covered(once, pk, event, exceptions, s, allowClashing) {
      GenerateCovers(occs, pk, event, exceptions, spans, allowClashing, s);
    }
    GenerateUnchangedWhenCovered(once, pk, event, exceptions, spans, allowClashing);
  }

  // ---------------------------------------------------------------------
  // `get_spans`: the case split behind the generator's description
  // ---------------------------------------------------------------------

  /** How a described span repeats (the text itself is presentation). */
  datatype Repeat = Once | Repeating(until: Option<int>)

  datatype Span = Span(start: int, end: int, repeat: Repeat)

  /** `self.occurrences`: the rows of the table that belong to generator `pk`, in table order. */
  function OwnRows(occs: seq<Occurrence>, pk: nat): (own: seq<Occurrence>)
    ensures |own| <= |occs|
    ensures forall o :: o in own <==> o in occs && o.generator == pk
  {
    if occs == [] then []
    else
      var last := occs[|occs| - 1];
      var init := occs[..|occs| - 1];
      assert occs == init + [last];
      OwnRows(init, pk) + (if last.generator == pk then [last] else [])
  }

  /** `get_spans` of generator `pk` over the occurrence table `occs`. */
  function GetSpans(row: GeneratorRow, occs: seq<Occurrence>, pk: nat): (spans: seq<Span>)
    ensures var own := OwnRows(occs, pk);
            row.rule.None? || |own| > 3 ==> |spans| == 1 && spans[0].start == row.eventStart && spans[0].end == row.eventEnd
    ensures row.rule.None? ==> spans[0].repeat == Once
    ensures row.rule.Some? && |OwnRows(occs, pk)| > 3 ==> spans[0].repeat == Repeating(row.repeatUntil)
    ensures var own := OwnRows(occs, pk);
            row.rule.Some? && |own| <= 3 ==>
              |spans| == |own| && forall i :: 0 <= i < |own| ==> spans[i] == Span(own[i].start, own[i].end, Once)
  {
    var own := OwnRows(occs, pk);
    if row.rule.Some? then
      if |own| > 3 then [Span(row.eventStart, row.eventEnd, Repeating(row.repeatUntil))]
      else seq(|own|, i requires 0 <= i < |own| => Span(own[i].start, own[i].end, Once))
    else [Span(row.eventStart, row.eventEnd, Once)]
  }

  /**
   * Without a rule, the one span `get_spans` shows is the span `generate`
   * asks for: once generation has run, an occurrence with that span exists
   * (for this generator, or for this event when clashes are refused) unless
   * its start is an exception.
   */
  lemma OneOffSpanIsGenerated(occs: seq<Occurrence>, pk: nat, event: nat, row: GeneratorRow, cfg: Config)
    requires row.rule.None?
    ensures var table := GenerateResult(occs, pk, event, row.exceptions, GenerationSpans(row, cfg), cfg.allowClashingOccurrences);
            var s := GetSpans(row, table, pk)[0];
            s.repeat == Once &&
            (IsException(row.exceptions, s.start) || Clashes(table, pk, event, s.start, s.end, cfg.allowClashingOccurrences))
  {
    GenerateCovers(occs, pk, event, row.exceptions, GenerationSpans(row, cfg), cfg.allowClashingOccurrences,
                   (row.eventStart, row.eventEnd));
  }

  /**
   * With a rule and at most three rows of generator `pk`, one span is shown
   * per row: every span shown is the span of one of its rows, and every
   * such row's span is shown.
   */
  lemma RuledSpansShowOccurrences(row: GeneratorRow, occs: seq<Occurrence>, pk: nat)
    requires row.rule.Some? && |OwnRows(occs, pk)| <= 3
    ensures |GetSpans(row, occs, pk)| == |OwnRows(occs, pk)|
    ensures forall sp :: sp in GetSpans(row, occs, pk) ==>
      sp.repeat == Once && exists o :: o in occs && o.generator == pk && o.start == sp.start && o.end == sp.end
    ensures forall o :: o in occs && o.generator == pk ==> Span(o.start, o.end, Once) in GetSpans(row, occs, pk)
  {
    var own := OwnRows(occs, pk);
    var spans := GetSpans(row, occs, pk);
    forall sp | sp in spans
      ensures sp.repeat == Once && exists o :: o in occs && o.generator == pk && o.start == sp.start && o.end == sp.end
    {
      var i :| 0 <= i < |spans| && spans[i] == sp;
      assert own[i] in own;
    }
    forall o | o in occs && o.generator == pk ensures Span(o.start, o.end, Once) in spans {
      assert o in own;
      var i :| 0 <= i < |own| && own[i] == o;
      assert spans[i] == Span(o.start, o.end, Once);
    }
  }
}
