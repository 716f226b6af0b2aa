/**
 * The older occurrence model of eventtools/models.py: unpersisted
 * occurrences computed for a window from an `OccurrenceGeneratorBase`,
 * merged with the persisted (possibly moved or cancelled) ones, the
 * occurrences after an instant, the occurrence ordering and equality, and
 * the last day of an event.
 *
 * The generator's `start`, `end` and `end_recurring_period` are broken
 * properties in that revision, so they are plain fields here. The rule
 * expansion of the dateutil library is an input: the ordered starts of the
 * complex rule when it parses, and those of the simple rule set (with its
 * Good Friday and Christmas exclusions) otherwise.
 */
module LegacyEvents {
  import opened Wrappers
  import GeneratorRules

  /** An occurrence: its event, its current span, the span its rule gave it, and whether it is cancelled. */
  datatype Occurrence = Occurrence(event: nat, start: int, end: int, originalStart: int, originalEnd: int, cancelled: bool)

  /**
   * What `get_rrule_object` expands to. `complexDates` is the expansion of
   * `rrulestr(complex_rule)`, or None when the text is blank or does not
   * parse; `simpleDates` is the expansion of the frequency and parameters
   * less the two exclusion rules.
   */
  datatype Rule = Rule(complexDates: Option<seq<int>>, simpleDates: seq<int>)

  /** An occurrence generator of one event. */
  datatype Generator = Generator(event: nat, start: int, end: int, rule: Option<Rule>, endRecurringPeriod: Option<int>)

  /** The starts the generator's rule yields: the complex rule wins when it parsed. */
  function RuleDates(rule: Rule): (dates: seq<int>)
    ensures rule.complexDates.Some? ==> dates == rule.complexDates.value
    ensures rule.complexDates.None? ==> dates == rule.simpleDates
  {
    rule.complexDates.GetOr(rule.simpleDates)
  }

  /** The test `get_occurrences` applies to a span before it keeps it for the window. */
  predicate InWindow(s: int, e: int, start: int, end: int) {
    s < end && e >= start
  }

  // ---------------------------------------------------------------------
  // `OccurrenceBase.__cmp__` and `__eq__`
  // ---------------------------------------------------------------------

  /** Python 2's `cmp` on instants. */
  function Cmp(x: int, y: int): (r: int)
    ensures r == -1 || r == 0 || r == 1
    ensures r < 0 <==> x < y
    ensures r == 0 <==> x == y
  {
    if x < y then -1 else if x > y then 1 else 0
  }

  /** `__cmp__`: by start, then by end; its sign is the lexicographic order of `(start, end)`. */
  function Compare(a: Occurrence, b: Occurrence): (r: int)
    ensures r == -1 || r == 0 || r == 1
    ensures r < 0 <==> SpanBefore(a, b)
    ensures r > 0 <==> SpanBefore(b, a)
    ensures r == 0 <==> a.start == b.start && a.end == b.end
  {
    var rank := Cmp(a.start, b.start);
    if rank == 0 then Cmp(a.end, b.end) else rank
  }

  /** The lexicographic order of current spans. */
  predicate SpanBefore(a: Occurrence, b: Occurrence) {
    a.start < b.start || (a.start == b.start && a.end < b.end)
  }

  /** Swapping the operands negates the comparison. */
  lemma CompareAntisymmetric(a: Occurrence, b: Occurrence)
    ensures Compare(a, b) == -Compare(b, a)
  {
  }

  /** The ordering is transitive, so sorting by it is well defined. */
  lemma CompareTransitive(a: Occurrence, b: Occurrence, c: Occurrence)
    requires Compare(a, b) <= 0 && Compare(b, c) <= 0
    ensures Compare(a, c) <= 0
  {
  }

  /** `__eq__`: the same event and the same original span; the current span is ignored. */
  predicate Same(a: Occurrence, b: Occurrence): (r: bool)
    ensures r <==> a.event == b.event && Matches(a, b)
  {
    a.event == b.event && a.originalStart == b.originalStart && a.originalEnd == b.originalEnd
  }

  /** Moving or cancelling an occurrence leaves it equal to what it was. */
  lemma MovedStaysSame(o: Occurrence, s: int, e: int, cancelled: bool)
    ensures Same(o, o.(start := s, end := e, cancelled := cancelled))
  {
  }

  /** Equality and the ordering disagree both ways: they look at different spans. */
  lemma EqualityIsNotOrder()
    ensures var a := Occurrence(1, 0, 10, 0, 10, false);
            var moved := a.(start := 20, end := 30);
            var other := Occurrence(2, 0, 10, 0, 10, false);
            Same(a, moved) && Compare(a, moved) != 0 && !Same(a, other) && Compare(a, other) == 0
  {
  }

  // ---------------------------------------------------------------------
  // `_create_occurrence` and `_get_occurrence_list`
  // ---------------------------------------------------------------------

  /** `_create_occurrence(start, end)`: an unmoved occurrence, by default as long as the generator's span. */
  function CreateOccurrence(g: Generator, start: int, end: Option<int>): (o: Occurrence)
    ensures o.originalStart == o.start && o.originalEnd == o.end && !o.cancelled && o.event == g.event
    ensures o.start == start
    ensures end.Some? ==> o.end == end.value
    ensures end.None? ==> o.end - o.start == g.end - g.start
  {
    var e := end.GetOr(start + (g.end - g.start));
    Occurrence(g.event, start, e, start, e, false)
  }

  /** `rule.between(lo, hi, inc=True)`: the rule's starts from `lo` to `hi` inclusive, in order. */
  function Between(dates: seq<int>, lo: int, hi: int): (r: seq<int>)
    ensures forall d :: d in r <==> d in dates && lo <= d <= hi
  {
    if dates == [] then []
    else Between(dates[..|dates| - 1], lo, hi) + if lo <= dates[|dates| - 1] <= hi then [dates[|dates| - 1]] else []
  }

  /** Selecting from increasing starts keeps them increasing. */
  lemma {:induction false} BetweenIncreasing(dates: seq<int>, lo: int, hi: int)
    requires GeneratorRules.StrictlyIncreasing(dates)
    ensures GeneratorRules.StrictlyIncreasing(Between(dates, lo, hi))
  {
    if dates != [] {
      var init := dates[..|dates| - 1];
      var last := dates[|dates| - 1];
      BetweenIncreasing(init, lo, hi);
      var prev := Between(init, lo, hi);
      var r := Between(dates, lo, hi);
      forall x | x in prev ensures x < last {
        var k :| 0 <= k < |init| && init[k] == x;
        assert dates[k] == x;
      }
      forall i, j | 0 <= i < j < |r| ensures r[i] < r[j] {
        assert r[i] == prev[i];
        assert prev[i] in prev;
        if j < |prev| {
          assert r[j] == prev[j];
        }
      }
    }
  }

  /** The window's end, brought forward to `end_recurring_period` when that comes first. */
  function ClampedEnd(endRecurringPeriod: Option<int>, end: int): (e: int)
    ensures e <= end
    ensures endRecurringPeriod.Some? ==> e <= endRecurringPeriod.value
    ensures e == end || e == endRecurringPeriod.GetOr(end)
  {
    if endRecurringPeriod.Some? && endRecurringPeriod.value < end then endRecurringPeriod.value else end
  }

  /** One unmoved occurrence per start, each as long as the given difference. */
  function OccurrencesAt(g: Generator, starts: seq<int>, difference: int): (occs: seq<Occurrence>)
    ensures |occs| == |starts|
  {
    seq(|starts|, i requires 0 <= i < |starts| => CreateOccurrence(g, starts[i], Some(starts[i] + difference)))
  }

  /** The candidate occurrences `_get_occurrence_list(start, end)` computes for a window. */
  function OccurrenceList(g: Generator, start: int, end: int): seq<Occurrence> {
    var difference := g.end - g.start;
    match g.rule
    case Some(rule) =>
      OccurrencesAt(g, Between(RuleDates(rule), start - difference, ClampedEnd(g.endRecurringPeriod, end)), difference)
    case None =>
      if g.start < end && g.end >= start then [CreateOccurrence(g, g.start, None)] else []
  }

  /** `_get_occurrence_list`: walk the rule's starts in range, creating one occurrence for each. */
  method GetOccurrenceList(g: Generator, start: int, end: int) returns (occurrences: seq<Occurrence>)
    ensures occurrences == OccurrenceList(g, start, end)
  {
    var difference := g.end - g.start;
    if g.rule.None? {
      // the event is in the period or it is not
      if g.start < end && g.end >= start {
        return [CreateOccurrence(g, g.start, None)];
      }
      return [];
    }
    var hi := end;
    if g.endRecurringPeriod.Some? && g.endRecurringPeriod.value < end {
      hi := g.endRecurringPeriod.value;
    }
    var oStarts := Between(RuleDates(g.rule.value), start - difference, hi);
    occurrences := [];
    var i := 0;
    while i < |oStarts|
      invariant 0 <= i <= |oStarts|
      invariant occurrences == OccurrencesAt(g, oStarts[..i], difference)
    {
      var oStart := oStarts[i];
      var oEnd := oStart + difference;
      occurrences := occurrences + [CreateOccurrence(g, oStart, Some(oEnd))];
      i := i + 1;
    }
    assert oStarts[..i] == oStarts;
  }

  /**
   * A generator without a rule gives its one occurrence exactly when its
   * span passes the window test, and nothing otherwise.
   */
  lemma OneOffOccurrenceList(g: Generator, start: int, end: int)
    requires g.rule.None?
    ensures |OccurrenceList(g, start, end)| <= 1
    ensures |OccurrenceList(g, start, end)| == 1 <==> InWindow(g.start, g.end, start, end)
    ensures InWindow(g.start, g.end, start, end) ==>
      OccurrenceList(g, start, end)[0] == Occurrence(g.event, g.start, g.end, g.start, g.end, false)
  {
  }

  /**
   * With a rule, each candidate starts in `[start - difference, end]` with
   * `end` clamped to `end_recurring_period`, ends `difference` later, is
   * unmoved, and every rule start in that range gives one.
   */
  lemma {:induction false} RuledOccurrenceList(g: Generator, start: int, end: int)
    requires g.rule.Some?
    ensures var occs := OccurrenceList(g, start, end);
            var difference := g.end - g.start;
            var hi := ClampedEnd(g.endRecurringPeriod, end);
            (forall o :: o in occs ==>
               o.start in RuleDates(g.rule.value) &&
               start - difference <= o.start <= hi && o.end == o.start + difference &&
               o.originalStart == o.start && o.originalEnd == o.end && !o.cancelled) &&
            (forall d :: d in RuleDates(g.rule.value) && start - difference <= d <= hi ==>
               exists o :: o in occs && o.start == d)
  {
    var occs := OccurrenceList(g, start, end);
    var difference := g.end - g.start;
    var hi := ClampedEnd(g.endRecurringPeriod, end);
    var starts := Between(RuleDates(g.rule.value), start - difference, hi);
    forall o | o in occs
      ensures o.start in RuleDates(g.rule.value)
      ensures start - difference <= o.start <= hi && o.end == o.start + difference
    {
      var k :| 0 <= k < |occs| && occs[k] == o;
      assert starts[k] in starts;
    }
    forall d | d in RuleDates(g.rule.value) && start - difference <= d <= hi
      ensures exists o :: o in occs && o.start == d
    {
      var k :| 0 <= k < |starts| && starts[k] == d;
      assert occs[k] in occs;
    }
  }

  /** The original spans of a list of occurrences are pairwise different. */
  predicate DistinctOriginals(occs: seq<Occurrence>) {
    forall i, j :: 0 <= i < j < |occs| ==>
      (occs[i].originalStart, occs[i].originalEnd) != (occs[j].originalStart, occs[j].originalEnd)
  }

  /** For a rule whose starts increase, no two candidates share an original span. */
  lemma CandidatesDistinct(g: Generator, start: int, end: int)
    requires g.rule.Some? ==> GeneratorRules.StrictlyIncreasing(RuleDates(g.rule.value))
    ensures DistinctOriginals(OccurrenceList(g, start, end))
  {
    if g.rule.Some? {
      var difference := g.end - g.start;
      BetweenIncreasing(RuleDates(g.rule.value), start - difference, ClampedEnd(g.endRecurringPeriod, end));
    }
  }

  // ---------------------------------------------------------------------
  // `get_occurrences`: candidates merged with the persisted occurrences
  // ---------------------------------------------------------------------

  /** A persisted occurrence stands for a candidate when their original spans agree. */
  predicate Matches(p: Occurrence, c: Occurrence) {
    p.originalStart == c.originalStart && p.originalEnd == c.originalEnd
  }

  /** The replacer's lookup: the first persisted occurrence standing for the candidate. */
  function MatchIndex(persisted: seq<Occurrence>, c: Occurrence): (r: Option<nat>)
    ensures r.Some? ==> r.value < |persisted| && Matches(persisted[r.value], c)
    ensures r.Some? ==> forall j :: 0 <= j < r.value ==> !Matches(persisted[j], c)
    ensures r.None? ==> forall j :: 0 <= j < |persisted| ==> !Matches(persisted[j], c)
  {
    if persisted == [] then None
    else if Matches(persisted[0], c) then Some(0)
    else match MatchIndex(persisted[1..], c)
      case None => None
      case Some(k) => Some(k + 1)
  }

  /**
   * What one candidate contributes: itself when nothing persisted stands for
   * it, else its persisted counterpart if that is still in the window, else
   * nothing.
   */
  function Replace(persisted: seq<Occurrence>, c: Occurrence, start: int, end: int): (r: seq<Occurrence>)
    ensures |r| <= 1
    ensures (forall p :: p in persisted ==> !Matches(p, c)) ==> r == [c]
    ensures forall k :: 0 <= k < |persisted| && Matches(persisted[k], c) && (forall j :: 0 <= j < k ==> !Matches(persisted[j], c)) ==>
      r == if InWindow(persisted[k].start, persisted[k].end, start, end) then [persisted[k]] else []
  {
    match MatchIndex(persisted, c)
    case None => [c]
    case Some(k) => if InWindow(persisted[k].start, persisted[k].end, start, end) then [persisted[k]] else []
  }

  /** The first pass of `get_occurrences`, over the candidates in order. */
  function Substituted(persisted: seq<Occurrence>, candidates: seq<Occurrence>, start: int, end: int): seq<Occurrence> {
    if candidates == [] then []
    else Substituted(persisted, candidates[..|candidates| - 1], start, end) +
         Replace(persisted, candidates[|candidates| - 1], start, end)
  }

  /**
   * The replacer's additional occurrences: persisted ones whose original
   * span is outside the window but whose current span is inside it.
   */
  function Additional(persisted: seq<Occurrence>, start: int, end: int): (r: seq<Occurrence>)
    ensures forall o :: o in r <==>
      o in persisted && !InWindow(o.originalStart, o.originalEnd, start, end) && InWindow(o.start, o.end, start, end)
  {
    if persisted == [] then []
    else
      var p := persisted[|persisted| - 1];
      Additional(persisted[..|persisted| - 1], start, end) +
      if !InWindow(p.originalStart, p.originalEnd, start, end) && InWindow(p.start, p.end, start, end) then [p] else []
  }

  /** The list `get_occurrences(start, end)` returns. */
  function Merged(persisted: seq<Occurrence>, candidates: seq<Occurrence>, start: int, end: int): seq<Occurrence> {
    Substituted(persisted, candidates, start, end) + Additional(persisted, start, end)
  }

  /** `get_occurrences`: replace candidates by their persisted counterparts, then add those moved into the window. */
  method GetOccurrences(g: Generator, persisted: seq<Occurrence>, start: int, end: int) returns (finalOccurrences: seq<Occurrence>)
    ensures finalOccurrences == Merged(persisted, OccurrenceList(g, start, end), start, end)
  {
    var occurrences := GetOccurrenceList(g, start, end);
    finalOccurrences := [];
    var i := 0;
    while i < |occurrences|
      invariant 0 <= i <= |occurrences|
      invariant finalOccurrences == Substituted(persisted, occurrences[..i], start, end)
    {
      var occ := occurrences[i];
      assert occurrences[..i + 1][..i] == occurrences[..i];
      var k := MatchIndex(persisted, occ);
      if k.Some? {
        var pOcc := persisted[k.value];
        // only if the persisted one is within this period
        if pOcc.start < end && pOcc.end >= start {
          finalOccurrences := finalOccurrences + [pOcc];
        }
      } else {
        finalOccurrences := finalOccurrences + [occ];
      }
      i := i + 1;
    }
    assert occurrences[..i] == occurrences;
    finalOccurrences := finalOccurrences + Additional(persisted, start, end);
  }

  /** Every returned occurrence passes the window test, except a candidate that nothing persisted stands for. */
  lemma {:induction false} MergedInWindowOrFresh(persisted: seq<Occurrence>, candidates: seq<Occurrence>, start: int, end: int,
                                                 o: Occurrence)
    requires o in Merged(persisted, candidates, start, end)
    ensures InWindow(o.start, o.end, start, end) ||
            (o in candidates && forall p :: p in persisted ==> !Matches(p, o))
  {
    if o !in Additional(persisted, start, end) {
      SubstitutedFrom(persisted, candidates, start, end, o);
    }
  }

  lemma {:induction false} SubstitutedFrom(persisted: seq<Occurrence>, candidates: seq<Occurrence>, start: int, end: int,
                                           o: Occurrence)
    requires o in Substituted(persisted, candidates, start, end)
    ensures InWindow(o.start, o.end, start, end) ||
            (o in candidates && forall p :: p in persisted ==> !Matches(p, o))
  {
    var init := candidates[..|candidates| - 1];
    var c := candidates[|candidates| - 1];
    if o in Substituted(persisted, init, start, end) {
      SubstitutedFrom(persisted, init, start, end, o);
    } else if MatchIndex(persisted, c).None? {
      assert o == c;
      forall p | p in persisted ensures !Matches(p, o) {
        var j :| 0 <= j < |persisted| && persisted[j] == p;
      }
    }
  }

  /** No two persisted occurrences share an original span (the table's uniqueness constraint). */
  predicate UniqueOriginals(persisted: seq<Occurrence>) {
    forall i, j :: 0 <= i < j < |persisted| ==> !Matches(persisted[i], persisted[j])
  }

  /** With unique original spans, a candidate contributes `p` exactly when `p` stands for it and is in the window. */
  lemma ReplaceCount(persisted: seq<Occurrence>, c: Occurrence, start: int, end: int, p: Occurrence)
    requires UniqueOriginals(persisted) && p in persisted
    ensures multiset(Replace(persisted, c, start, end))[p] ==
      if Matches(p, c) && InWindow(p.start, p.end, start, end) then 1 else 0
  {
    var i :| 0 <= i < |persisted| && persisted[i] == p;
    match MatchIndex(persisted, c)
    case None =>
      assert !Matches(p, c);
      assert c != p;
    case Some(k) =>
      if Matches(p, c) {
        assert Matches(persisted[k], persisted[i]);
        assert k == i;
      } else {
        assert persisted[k] != p;
      }
  }

  /** Some candidate's original span is the persisted occurrence's. */
  predicate StandsFor(candidates: seq<Occurrence>, p: Occurrence) {
    exists c :: c in candidates && Matches(p, c)
  }

  lemma StandsForLast(candidates: seq<Occurrence>, p: Occurrence)
    requires candidates != []
    ensures StandsFor(candidates, p) <==>
      StandsFor(candidates[..|candidates| - 1], p) || Matches(p, candidates[|candidates| - 1])
  {
    var init := candidates[..|candidates| - 1];
    if StandsFor(candidates, p) && !Matches(p, candidates[|candidates| - 1]) {
      var c :| c in candidates && Matches(p, c);
      var j :| 0 <= j < |candidates| && candidates[j] == c;
      assert init[j] == c;
    }
    if StandsFor(init, p) {
      var c :| c in init && Matches(p, c);
      assert c in candidates;
    }
  }

  /**
   * With unique persisted original spans and candidates with distinct
   * original spans, the first pass returns a persisted occurrence once if
   * some candidate stands for it and it is in the window, and never otherwise.
   */
  lemma {:induction false} SubstitutedCount(persisted: seq<Occurrence>, candidates: seq<Occurrence>, start: int, end: int,
                                            p: Occurrence)
    requires UniqueOriginals(persisted) && DistinctOriginals(candidates) && p in persisted
    ensures multiset(Substituted(persisted, candidates, start, end))[p] ==
      if StandsFor(candidates, p) && InWindow(p.start, p.end, start, end) then 1 else 0
  {
    if candidates != [] {
      var init := candidates[..|candidates| - 1];
      var c := candidates[|candidates| - 1];
      assert DistinctOriginals(init) by {
        forall i, j | 0 <= i < j < |init| ensures
          (init[i].originalStart, init[i].originalEnd) != (init[j].originalStart, init[j].originalEnd)
        {
          assert init[i] == candidates[i] && init[j] == candidates[j];
        }
      }
      SubstitutedCount(persisted, init, start, end, p);
      ReplaceCount(persisted, c, start, end, p);
      StandsForLast(candidates, p);
      assert Substituted(persisted, candidates, start, end) ==
        Substituted(persisted, init, start, end) + Replace(persisted, c, start, end);
      if Matches(p, c) {
        forall c' | c' in init ensures !Matches(p, c') {
          var j :| 0 <= j < |init| && init[j] == c';
          assert candidates[j] == c';
        }
      }
    }
  }

  /** With unique original spans, a persisted occurrence is additional at most once. */
  lemma {:induction false} AdditionalCount(persisted: seq<Occurrence>, start: int, end: int, p: Occurrence)
    requires UniqueOriginals(persisted) && p in persisted
    ensures multiset(Additional(persisted, start, end))[p] ==
      if !InWindow(p.originalStart, p.originalEnd, start, end) && InWindow(p.start, p.end, start, end) then 1 else 0
  {
    var init := persisted[..|persisted| - 1];
    var last := persisted[|persisted| - 1];
    if last == p {
      forall j | 0 <= j < |init| ensures init[j] != p {
        assert init[j] == persisted[j];
        assert !Matches(persisted[j], persisted[|persisted| - 1]);
      }
      assert p !in Additional(init, start, end);
    } else {
      assert p in init;
      AdditionalCount(init, start, end, p);
    }
  }

  /**
   * The reconciliation promise: when the persisted occurrences have unique
   * original spans, the candidates have distinct ones, and a candidate
   * stands for a persisted occurrence exactly when its original span passes
   * the window test, every persisted occurrence whose current span passes
   * it is returned exactly once.
   */
  lemma PersistedInWindowExactlyOnce(persisted: seq<Occurrence>, candidates: seq<Occurrence>, start: int, end: int,
                                     p: Occurrence)
    requires UniqueOriginals(persisted) && DistinctOriginals(candidates)
    requires forall q :: q in persisted ==> (StandsFor(candidates, q) <==> InWindow(q.originalStart, q.originalEnd, start, end))
    requires p in persisted && InWindow(p.start, p.end, start, end)
    ensures multiset(Merged(persisted, candidates, start, end))[p] == 1
  {
    SubstitutedCount(persisted, candidates, start, end, p);
    AdditionalCount(persisted, start, end, p);
  }

  /** A candidate that no persisted occurrence stands for is returned as it is. */
  lemma {:induction false} UnmatchedCandidateKept(persisted: seq<Occurrence>, candidates: seq<Occurrence>, start: int, end: int,
                                                  c: Occurrence)
    requires c in candidates && forall p :: p in persisted ==> !Matches(p, c)
    ensures c in Merged(persisted, candidates, start, end)
  {
    UnmatchedCandidateSubstituted(persisted, candidates, start, end, c);
  }

  lemma {:induction false} UnmatchedCandidateSubstituted(persisted: seq<Occurrence>, candidates: seq<Occurrence>, start: int,
                                                         end: int, c: Occurrence)
    requires c in candidates && forall p :: p in persisted ==> !Matches(p, c)
    ensures c in Substituted(persisted, candidates, start, end)
  {
    var init := candidates[..|candidates| - 1];
    if c == candidates[|candidates| - 1] {
      assert Replace(persisted, c, start, end) == [c];
    } else {
      var k :| 0 <= k < |candidates| && candidates[k] == c;
      assert init[k] == c;
      UnmatchedCandidateSubstituted(persisted, init, start, end, c);
    }
  }

  /**
   * The original span of a persisted occurrence is one the generator's
   * schedule gives: its own span without a rule; with a rule, a rule start no
   * later than `end_recurring_period`, lasting the generator's duration.
   */
  predicate ScheduledOriginal(g: Generator, q: Occurrence) {
    match g.rule
    case None => q.originalStart == g.start && q.originalEnd == g.end
    case Some(rule) =>
      q.originalStart in RuleDates(rule) && q.originalEnd == q.originalStart + (g.end - g.start) &&
      (g.endRecurringPeriod.Some? ==> q.originalStart <= g.endRecurringPeriod.value)
  }

  /**
   * For a scheduled original span that does not start exactly at the
   * window's end, some candidate stands for it exactly when it passes the
   * window test: the hypothesis `PersistedInWindowExactlyOnce` needs.
   */
  lemma CandidatesStandForInWindow(g: Generator, start: int, end: int, q: Occurrence)
    requires ScheduledOriginal(g, q) && q.originalStart != end
    ensures StandsFor(OccurrenceList(g, start, end), q) <==> InWindow(q.originalStart, q.originalEnd, start, end)
  {
    var occs := OccurrenceList(g, start, end);
    if g.rule.None? {
      OneOffOccurrenceList(g, start, end);
      if InWindow(q.originalStart, q.originalEnd, start, end) {
        assert Matches(q, occs[0]);
      }
    } else {
      RuledOccurrenceList(g, start, end);
      var difference := g.end - g.start;
      var hi := ClampedEnd(g.endRecurringPeriod, end);
      if InWindow(q.originalStart, q.originalEnd, start, end) {
        assert start - difference <= q.originalStart <= hi;
        var o :| o in occs && o.start == q.originalStart;
        assert Matches(q, o);
      }
    }
  }

  /**
   * `get_occurrences` over the generator's own candidates: when the persisted
   * occurrences have unique, scheduled original spans none of which starts
   * at the window's end, each one whose current span passes the window test
   * is returned exactly once.
   */
  lemma PersistedScheduledExactlyOnce(g: Generator, persisted: seq<Occurrence>, start: int, end: int, p: Occurrence)
    requires g.rule.Some? ==> GeneratorRules.StrictlyIncreasing(RuleDates(g.rule.value))
    requires UniqueOriginals(persisted)
    requires forall q :: q in persisted ==> ScheduledOriginal(g, q) && q.originalStart != end
    requires p in persisted && InWindow(p.start, p.end, start, end)
    ensures multiset(Merged(persisted, OccurrenceList(g, start, end), start, end))[p] == 1
  {
    var candidates := OccurrenceList(g, start, end);
    CandidatesDistinct(g, start, end);
    forall q | q in persisted
      ensures StandsFor(candidates, q) <==> InWindow(q.originalStart, q.originalEnd, start, end)
    {
      CandidatesStandForInWindow(g, start, end, q);
    }
    PersistedInWindowExactlyOnce(persisted, candidates, start, end, p);
  }

  /**
   * A persisted occurrence originally at the window's end and moved into the
   * window is returned twice: its candidate comes from the inclusive
   * `between`, and its original span fails the window test, so the replacer
   * also lists it as additional.
   */
  lemma WindowEndReturnedTwice()
    ensures var g := Generator(1, 0, 10, Some(Rule(None, [100])), None);
            var p := Occurrence(1, 50, 60, 100, 110, false);
            multiset(Merged([p], OccurrenceList(g, 50, 100), 50, 100))[p] == 2
  {
    var g := Generator(1, 0, 10, Some(Rule(None, [100])), None);
    var p := Occurrence(1, 50, 60, 100, 110, false);
    var c := Occurrence(1, 100, 110, 100, 110, false);
    WindowEndCandidate(g, c);
    WindowEndMerged(p, c);
    assert multiset([p, p])[p] == 2;
  }

  /** The one candidate behind `WindowEndReturnedTwice`: the rule start at the window's end. */
  lemma WindowEndCandidate(g: Generator, c: Occurrence)
    requires g == Generator(1, 0, 10, Some(Rule(None, [100])), None) && c == Occurrence(1, 100, 110, 100, 110, false)
    ensures OccurrenceList(g, 50, 100) == [c]
  {
    assert [100][..0] == [];
    assert Between([100], 40, 100) == [100];
  }

  /** The merge behind `WindowEndReturnedTwice`, once the candidate is known. */
  lemma WindowEndMerged(p: Occurrence, c: Occurrence)
    requires p == Occurrence(1, 50, 60, 100, 110, false) && c == Occurrence(1, 100, 110, 100, 110, false)
    ensures Merged([p], [c], 50, 100) == [p, p]
  {
    assert MatchIndex([p], c) == Some(0);
    assert Replace([p], c, 50, 100) == [p];
    assert [c][..0] == [];
    assert Substituted([p], [c], 50, 100) == [p];
    assert [p][..0] == [];
    assert Additional([p], 50, 100) == [p];
  }

  /**
   * A persisted occurrence whose original start lies past a lowered
   * `end_recurring_period` but inside the window is lost although it sits
   * in the window: no candidate stands for it, and its original span passes
   * the window test, so it is not additional either.
   */
  lemma ClampedOriginalDropped()
    ensures var g := Generator(1, 0, 10, Some(Rule(None, [90])), Some(80));
            var p := Occurrence(1, 60, 70, 90, 100, false);
            InWindow(p.start, p.end, 50, 100) &&
            multiset(Merged([p], OccurrenceList(g, 50, 100), 50, 100))[p] == 0
  {
    var g := Generator(1, 0, 10, Some(Rule(None, [90])), Some(80));
    var p := Occurrence(1, 60, 70, 90, 100, false);
    assert [90][..0] == [];
    assert Between([90], 40, 80) == [];
    assert OccurrenceList(g, 50, 100) == [];
    assert Additional([p], 50, 100) == [];
  }

  /** With nothing persisted, `get_occurrences` returns the candidates unchanged. */
  lemma {:induction false} NothingPersisted(candidates: seq<Occurrence>, start: int, end: int)
    ensures Merged([], candidates, start, end) == candidates
  {
    if candidates != [] {
      var init := candidates[..|candidates| - 1];
      NothingPersisted(init, start, end);
      assert Replace([], candidates[|candidates| - 1], start, end) == [candidates[|candidates| - 1]];
      assert init + [candidates[|candidates| - 1]] == candidates;
    }
  }

  /** The candidates of the documented monthly scenario. */
  lemma MonthlyCandidates()
    ensures var jan1, feb1, mar1, apr1 := 1199145600, 1201824000, 1204329600, 1207008000;
            var day := 86400;
            var g := Generator(1, jan1, jan1 + day, Some(Rule(None, [jan1, feb1, mar1, apr1])), None);
            OccurrenceList(g, 1201132800, 1204416000) ==
              [Occurrence(1, feb1, feb1 + day, feb1, feb1 + day, false), Occurrence(1, mar1, mar1 + day, mar1, mar1 + day, false)]
  {
    var jan1, feb1, mar1, apr1 := 1199145600, 1201824000, 1204329600, 1207008000;
    var dates := [jan1, feb1, mar1, apr1];
    var lo, hi := 1201132800 - 86400, 1204416000;
    assert dates[..3][..2][..1] == [jan1] && dates[..3][..2] == [jan1, feb1] && dates[..3] == [jan1, feb1, mar1];
    assert [jan1][..0] == [];
    assert Between([jan1], lo, hi) == [];
    assert Between([jan1, feb1], lo, hi) == [feb1];
    assert Between([jan1, feb1, mar1], lo, hi) == [feb1, mar1];
    assert Between(dates, lo, hi) == [feb1, mar1];
  }

  /** The documented scenario: a monthly rule from 2008-01-01, one day long, seen from 2008-01-24 to 2008-03-02. */
  lemma MonthlyExample()
    ensures var jan1, feb1, mar1, apr1 := 1199145600, 1201824000, 1204329600, 1207008000;
            var day := 86400;
            var g := Generator(1, jan1, jan1 + day, Some(Rule(None, [jan1, feb1, mar1, apr1])), None);
            Merged([], OccurrenceList(g, 1201132800, 1204416000), 1201132800, 1204416000) ==
              [Occurrence(1, feb1, feb1 + day, feb1, feb1 + day, false), Occurrence(1, mar1, mar1 + day, mar1, mar1 + day, false)]
  {
    var jan1 := 1199145600;
    var g := Generator(1, jan1, jan1 + 86400, Some(Rule(None, [jan1, 1201824000, 1204329600, 1207008000])), None);
    MonthlyCandidates();
    NothingPersisted(OccurrenceList(g, 1201132800, 1204416000), 1201132800, 1204416000);
  }

  /** The documented scenario: a one-off event on 2008-01-01 from 08:00 to 09:00 is not in that window. */
  lemma OneOffExample()
    ensures var g := Generator(1, 1199174400, 1199178000, None, None);
            Merged([], OccurrenceList(g, 1201132800, 1204416000), 1201132800, 1204416000) == []
  {
  }

  // ---------------------------------------------------------------------
  // `_occurrences_after_generator`
  // ---------------------------------------------------------------------

  /** Comparing a datetime with None raises `TypeError` in Python 2. */
  datatype CompareError = TypeError

  /** The unmoved occurrences for the given starts that end after `after`, in order. */
  function EndingAfter(g: Generator, starts: seq<int>, difference: int, after: int): (occs: seq<Occurrence>)
    ensures forall k :: 0 <= k < |occs| ==>
              occs[k].end > after && occs[k].end == occs[k].start + difference && occs[k].start in starts
  {
    if starts == [] then []
    else
      var s := starts[|starts| - 1];
      EndingAfter(g, starts[..|starts| - 1], difference, after) +
      if s + difference > after then [CreateOccurrence(g, s, Some(s + difference))] else []
  }

  /** Every start whose occurrence ends after `after` is yielded. */
  lemma {:induction false} EndingAfterComplete(g: Generator, starts: seq<int>, difference: int, after: int, s: int)
    requires s in starts && s + difference > after
    ensures CreateOccurrence(g, s, Some(s + difference)) in EndingAfter(g, starts, difference, after)
  {
    var init := starts[..|starts| - 1];
    if s != starts[|starts| - 1] {
      var k :| 0 <= k < |starts| && starts[k] == s;
      assert init[k] == s;
      EndingAfterComplete(g, init, difference, after, s);
    }
  }

  /**
   * Everything `_occurrences_after_generator(after)` yields until it
   * stops: the one-off occurrence if it ends after `after`; or, for a rule,
   * what `RuledOccurrencesAfter` gives.
   */
  function OccurrencesAfter(g: Generator, after: int): (r: Result<seq<Occurrence>, CompareError>)
    ensures r.Err? ==> g.rule.Some? && g.endRecurringPeriod.None? && |RuleDates(g.rule.value)| > 0
  {
    match g.rule
    case None =>
      Ok(if g.end > after then [CreateOccurrence(g, g.start, Some(g.end))] else [])
    case Some(rule) => RuledOccurrencesAfter(g, RuleDates(rule), after)
  }

  /**
   * For a rule: the occurrences ending after `after` among the rule's starts
   * up to the first one past `end_recurring_period`. Without that period the
   * first comparison raises.
   */
  function RuledOccurrencesAfter(g: Generator, dates: seq<int>, after: int): (r: Result<seq<Occurrence>, CompareError>)
    ensures r.Err? <==> g.endRecurringPeriod.None? && |dates| > 0
  {
    if |dates| == 0 then Ok([])
    else if g.endRecurringPeriod.None? then Err(TypeError)
    else Ok(EndingAfter(g, GeneratorRules.TakeUntilBeyond(dates, g.endRecurringPeriod.value), g.end - g.start, after))
  }

  /** Taking one more start extends what is yielded by that start's occurrence, if it ends after `after`. */
  lemma EndingAfterExtend(g: Generator, starts: seq<int>, i: nat, difference: int, after: int)
    requires i < |starts|
    ensures starts[i] + difference > after ==>
            EndingAfter(g, starts[..i + 1], difference, after) ==
            EndingAfter(g, starts[..i], difference, after) + [CreateOccurrence(g, starts[i], Some(starts[i] + difference))]
    ensures starts[i] + difference <= after ==>
            EndingAfter(g, starts[..i + 1], difference, after) == EndingAfter(g, starts[..i], difference, after)
  {
    assert starts[..i + 1][..i] == starts[..i];
  }

  /** `_occurrences_after_generator`, drained: `after` defaults to the clock's `now`. */
  method OccurrencesAfterGenerator(g: Generator, after: Option<int>, now: int) returns (r: Result<seq<Occurrence>, CompareError>)
    ensures r == OccurrencesAfter(g, after.GetOr(now))
  {
    var since := after.GetOr(now);
    if g.rule.None? {
      if g.end > since {
        return Ok([CreateOccurrence(g, g.start, Some(g.end))]);
      }
      return Ok([]);
    }
    r := PullRuleDates(g, RuleDates(g.rule.value), since);
  }

  /** The `while True` loop of `_occurrences_after_generator` over the rule's iterator. */
  method PullRuleDates(g: Generator, dates: seq<int>, since: int) returns (r: Result<seq<Occurrence>, CompareError>)
    ensures r == RuledOccurrencesAfter(g, dates, since)
  {
    var difference := g.end - g.start;
    var yielded: seq<Occurrence> := [];
    var i := 0;
    while i < |dates|
      invariant 0 <= i <= |dates|
      invariant i > 0 ==> g.endRecurringPeriod.Some?
      invariant g.endRecurringPeriod.Some? ==> forall j :: 0 <= j < i ==> dates[j] <= g.endRecurringPeriod.value
      invariant yielded == EndingAfter(g, dates[..i], difference, since)
    {
      var oStart := dates[i];
      if g.endRecurringPeriod.None? {
        return Err(TypeError);
      }
      if oStart > g.endRecurringPeriod.value {
        break;
      }
      var oEnd := oStart + difference;
      EndingAfterExtend(g, dates, i, difference, since);
      if oEnd > since {
        yielded := yielded + [CreateOccurrence(g, oStart, Some(oEnd))];
      }
      i := i + 1;
    }
    if |dates| == 0 {
      return Ok([]);
    }
    GeneratorRules.TakeUntilBeyondAt(dates, g.endRecurringPeriod.value, i);
    assert RuledOccurrencesAfter(g, dates, since) == Ok(EndingAfter(g, dates[..i], difference, since));
    r := Ok(yielded);
  }

  /** A one-off generator yields its occurrence exactly when it ends after `after`. */
  lemma OneOffAfter(g: Generator, after: int)
    requires g.rule.None?
    ensures OccurrencesAfter(g, after).Ok?
    ensures |OccurrencesAfter(g, after).value| == 1 <==> g.end > after
    ensures |OccurrencesAfter(g, after).value| <= 1
  {
  }

  /**
   * A ruled generator yields only occurrences ending after `after` and
   * starting no later than `end_recurring_period`, each a rule start.
   */
  lemma {:induction false} RuledAfter(g: Generator, after: int, o: Occurrence)
    requires g.rule.Some? && OccurrencesAfter(g, after).Ok? && o in OccurrencesAfter(g, after).value
    ensures o.end > after && o.start in RuleDates(g.rule.value) && o.end == o.start + (g.end - g.start)
    ensures o.start <= g.endRecurringPeriod.value
  {
    var dates := RuleDates(g.rule.value);
    var taken := GeneratorRules.TakeUntilBeyond(dates, g.endRecurringPeriod.value);
    assert o.start in taken;
    var k :| 0 <= k < |taken| && taken[k] == o.start;
    assert dates[k] == o.start;
  }

  /**
   * For a rule whose starts increase, every rule start no later than
   * `end_recurring_period` whose occurrence ends after `after` is yielded.
   */
  lemma RuledAfterComplete(g: Generator, after: int, d: int)
    requires g.rule.Some? && g.endRecurringPeriod.Some?
    requires GeneratorRules.StrictlyIncreasing(RuleDates(g.rule.value))
    requires d in RuleDates(g.rule.value) && d <= g.endRecurringPeriod.value && d + (g.end - g.start) > after
    ensures OccurrencesAfter(g, after).Ok?
    ensures CreateOccurrence(g, d, Some(d + (g.end - g.start))) in OccurrencesAfter(g, after).value
  {
    var dates := RuleDates(g.rule.value);
    var taken := GeneratorRules.TakeUntilBeyond(dates, g.endRecurringPeriod.value);
    GeneratorRules.TakeUntilBeyondIsFilter(dates, g.endRecurringPeriod.value, d);
    assert d in taken;
    EndingAfterComplete(g, taken, g.end - g.start, after, d);
    var occ := CreateOccurrence(g, d, Some(d + (g.end - g.start)));
    var ys := EndingAfter(g, taken, g.end - g.start, after);
    assert occ in ys;
    BoundedAfter(g, after);
    assert OccurrencesAfter(g, after) == Ok(ys);
  }

  /** With `end_recurring_period` set, iteration never raises and yields from the bounded prefix. */
  lemma BoundedAfter(g: Generator, after: int)
    requires g.rule.Some? && g.endRecurringPeriod.Some?
    ensures OccurrencesAfter(g, after) ==
            Ok(EndingAfter(g, GeneratorRules.TakeUntilBeyond(RuleDates(g.rule.value), g.endRecurringPeriod.value),
                           g.end - g.start, after))
  {
    var dates := RuleDates(g.rule.value);
    if |dates| == 0 {
      assert GeneratorRules.TakeUntilBeyond(dates, g.endRecurringPeriod.value) == [];
    }
  }

  // ---------------------------------------------------------------------
  // `EventBase.get_last_day`
  // ---------------------------------------------------------------------

  /** `get_last_day`'s answer: `False` when some generator has no end, else the latest end. */
  datatype LastDay = NoLastDay | LastDay(day: int)

  /** Indexing the empty list of last days raises `IndexError`. */
  datatype LookupError = IndexError

  /** `get_last_day` over the `end_recurring_period` of each of the event's generators. */
  method GetLastDay(periods: seq<Option<int>>) returns (r: Result<LastDay, LookupError>)
    ensures (exists i :: 0 <= i < |periods| && periods[i].None?) ==> r == Ok(NoLastDay)
    ensures |periods| == 0 ==> r == Err(IndexError)
    ensures (forall i :: 0 <= i < |periods| ==> periods[i].Some?) && |periods| > 0 ==>
      r.Ok? && r.value.LastDay? &&
      (forall i :: 0 <= i < |periods| ==> periods[i].value <= r.value.day) &&
      (exists i :: 0 <= i < |periods| && periods[i].value == r.value.day)
  {
    var lastdays: seq<int> := [];
    var i := 0;
    while i < |periods|
      invariant 0 <= i <= |periods| && |lastdays| == i
      invariant forall j :: 0 <= j < i ==> periods[j] == Some(lastdays[j])
    {
      if periods[i].None? {
        return Ok(NoLastDay);
      }
      lastdays := lastdays + [periods[i].value];
      i := i + 1;
    }
    if |lastdays| == 0 {
      return Err(IndexError);
    }
    // the last of the sorted list is the largest
    var latest := lastdays[0];
    var k := 1;
    while k < |lastdays|
      invariant 1 <= k <= |lastdays|
      invariant forall j :: 0 <= j < k ==> lastdays[j] <= latest
      invariant exists j :: 0 <= j < k && lastdays[j] == latest
    {
      if lastdays[k] > latest {
        latest := lastdays[k];
      }
      k := k + 1;
    }
    r := Ok(LastDay(latest));
  }
}
