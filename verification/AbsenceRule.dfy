/** What the rule on long absences means for the lengths that were measured, summarised as (length, count) pairs or
    not (habitus/temporal/absence.py). */
module AbsenceRule {
  import opened Orders
  import opened Sequences
  import opened Ledger
  import opened Gaps
  import opened Compaction
  import opened Protocol
  import opened Absence
  import Percentiles

  /** The lengths a summary stands for, one by one. */
  function Spread(items: seq<(real, nat)>): seq<real> {
    if items == [] then [] else seq(items[0].1, i => items[0].0) + Spread(items[1..])
  }

  lemma {:induction false} RankedIsSpread(items: seq<(real, nat)>, rank: nat)
    ensures |Spread(items)| == Count(items)
    ensures rank < Count(items) ==> Ranked(items, rank) == Spread(items)[rank]
  {
    if items != [] {
      RankedIsSpread(items[1..], if rank < items[0].1 then 0 else rank - items[0].1);
    }
  }

  /** Keys strictly ascending, each at least once. */
  predicate WellCounted(items: seq<(real, nat)>) {
    && (forall i, j :: 0 <= i < j < |items| ==> items[i].0 < items[j].0)
    && (forall i :: 0 <= i < |items| ==> items[i].1 >= 1)
  }

  lemma {:induction false} SpreadHas(items: seq<(real, nat)>, x: real)
    requires WellCounted(items)
    ensures x in Spread(items) <==> exists i :: 0 <= i < |items| && items[i].0 == x
  {
    if items != [] {
      var first, rest := items[0], items[1..];
      SpreadHas(rest, x);
      var run := seq(first.1, i => first.0);
      assert x in run <==> x == first.0 by {
        assert run[0] == first.0;
      }
      if i :| 0 <= i < |rest| && rest[i].0 == x {
        assert items[i + 1].0 == x;
      }
      if i :| 0 <= i < |items| && items[i].0 == x {
        assert i > 0 ==> rest[i - 1].0 == x;
      }
    }
  }

  lemma {:induction false} SpreadIsSorted(items: seq<(real, nat)>)
    requires WellCounted(items)
    ensures Sorted(RealLe, Spread(items))
  {
    if items != [] {
      var first, rest := items[0], items[1..];
      var run := seq(first.1, i => first.0);
      SpreadIsSorted(rest);
      forall y | y in Spread(rest) ensures first.0 <= y {
        SpreadHas(rest, y);
        var i :| 0 <= i < |rest| && rest[i].0 == y;
        assert items[i + 1].0 == y;
      }
      RunThenSorted(run, first.0, Spread(rest));
    }
  }

  lemma RunThenSorted(run: seq<real>, x: real, s: seq<real>)
    requires (forall i :: 0 <= i < |run| ==> run[i] == x) && Sorted(RealLe, s) && forall y :: y in s ==> x <= y
    ensures Sorted(RealLe, run + s)
  {
    forall i, j | 0 <= i < j < |run + s| ensures RealLe((run + s)[i], (run + s)[j]) {
      if i < |run| <= j {
        assert s[j - |run|] in s;
      } else if i >= |run| {
        assert RealLe(s[i - |run|], s[j - |run|]);
      }
    }
  }

  lemma {:induction false} RunBag(x: real, n: nat)
    ensures multiset(seq(n, i => x)) == multiset{}[x := n]
  {
    if n > 0 {
      RunBag(x, n - 1);
      assert seq(n, i => x) == seq(n - 1, i => x) + [x];
    }
  }

  lemma FromItemsHas(items: seq<(real, nat)>, x: real)
    requires forall i :: 0 <= i < |items| ==> items[i].0 != x
    ensures FromItems(items)[x] == 0
  {
    if items != [] {
      assert items[0].0 != x;
      FromItemsHas(items[1..], x);
    }
  }

  lemma {:induction false} SpreadBag(items: seq<(real, nat)>)
    requires WellCounted(items)
    ensures multiset(Spread(items)) == FromItems(items)
  {
    if items != [] {
      var first, rest := items[0], items[1..];
      SpreadBag(rest);
      RunBag(first.0, first.1);
      FromItemsHas(rest, first.0);
      UpdateIsSum(FromItems(rest), first.0, first.1);
    }
  }

  lemma UpdateIsSum(m: multiset<real>, x: real, n: nat)
    requires m[x] == 0
    ensures m[x := n] == multiset{}[x := n] + m
  {
  }

  /** The summary's own checks hold of what is written out of a counter. */
  lemma ItemsAreWellCounted(m: multiset<real>)
    ensures WellCounted(Distribution(m))
  {
    NumbersAreOrdered();
    ListingLists(RealLe, Keys(m));
    var keys := Listing(RealLe, Keys(m));
    forall i | 0 <= i < |keys| ensures m[keys[i]] >= 1 {
      assert keys[i] in keys;
    }
  }

  /** Spreading a summary out again gives the lengths in order. */
  lemma SpreadSorts(lengths: seq<real>)
    ensures Spread(Distribution(multiset(lengths))) == Sort(RealLe, lengths)
  {
    var m := multiset(lengths);
    ItemsAreWellCounted(m);
    var items := Distribution(m);
    SpreadIsSorted(items);
    SpreadBag(items);
    DistributionRoundTrip(m);
    Percentiles.SortedReals(lengths);
    Percentiles.SortedUniqueReals(Spread(items), Sort(RealLe, lengths));
  }

  /** The middle one of the lengths, or the mean of the middle two. */
  function Median(lengths: seq<real>): real {
    var s := Sort(RealLe, lengths);
    if s == [] then 0.0 else (s[(|s| - 1) / 2] + s[|s| / 2]) / 2.0
  }

  lemma {:induction false} LongestIsLast(items: seq<(real, nat)>)
    requires WellCounted(items) && items != []
    ensures Spread(items) != [] && Spread(items)[|Spread(items)| - 1] == Longest(items)
  {
    var run := seq(items[0].1, i => items[0].0);
    assert |run| >= 1 && run[|run| - 1] == items[0].0;
    if |items| > 1 {
      LongestIsLast(items[1..]);
    } else {
      assert Spread(items) == run;
    }
  }

  lemma TypicalIsMiddle(items: seq<(real, nat)>, s: seq<real>)
    requires Spread(items) == s
    ensures Count(items) == |s|
    ensures Typical(items) == if s == [] then 0.0 else (s[(|s| - 1) / 2] + s[|s| / 2]) / 2.0
  {
    RankedIsSpread(items, 0);
    if s != [] {
      RankedIsSpread(items, (|s| - 1) / 2);
      RankedIsSpread(items, |s| / 2);
    }
  }

  lemma LastIsGreatest(lengths: seq<real>)
    requires lengths != []
    ensures var s := Sort(RealLe, lengths);
      s != [] && s[|s| - 1] in lengths && forall i :: 0 <= i < |lengths| ==> lengths[i] <= s[|s| - 1]
  {
    var s := Sort(RealLe, lengths);
    Percentiles.SortedReals(lengths);
    assert s[|s| - 1] in s;
    forall i | 0 <= i < |lengths| ensures lengths[i] <= s[|s| - 1] { Percentiles.NoneAboveLast(lengths, lengths[i]); }
  }

  /** The figures of a summary are those of the lengths it was made from. */
  lemma SummaryFigures(lengths: seq<real>)
    ensures var items := Distribution(multiset(lengths));
      && Count(items) == |lengths|
      && Typical(items) == Median(lengths)
      && (lengths != [] ==> Longest(items) in lengths && forall i :: 0 <= i < |lengths| ==> lengths[i] <= Longest(items))
  {
    var items := Distribution(multiset(lengths));
    SpreadSorts(lengths);
    Percentiles.SortedReals(lengths);
    TypicalIsMiddle(items, Sort(RealLe, lengths));
    if lengths != [] {
      ItemsAreWellCounted(multiset(lengths));
      LastIsGreatest(lengths);
      LongestIsLast(items);
    }
  }

  /** The rule: at least two gaps, all of them outlasted, and their median the given number of times over. */
  predicate Long(lengths: seq<real>, length: real, multiple: HalfLife) {
    |lengths| >= 2 && (forall i :: 0 <= i < |lengths| ==> lengths[i] < length) && length >= multiple * Median(lengths)
  }

  lemma DecideByFigures(summary: seq<(real, nat)>, lengths: seq<real>, length: real, multiple: HalfLife)
    requires Count(summary) == |lengths| && Typical(summary) == Median(lengths)
    requires lengths != [] ==> Longest(summary) in lengths && forall i :: 0 <= i < |lengths| ==> lengths[i] <= Longest(summary)
    ensures Decide(summary, length, multiple) == Exceeds <==> Long(lengths, length, multiple)
  {
    if lengths != [] {
      var k :| 0 <= k < |lengths| && lengths[k] == Longest(summary);
    }
  }

  /** A summary is judged as the rule judges the lengths it was made from. */
  lemma LongExactlyWhen(summary: seq<(real, nat)>, lengths: seq<real>, length: real, multiple: HalfLife)
    requires summary == Distribution(multiset(lengths))
    ensures Decide(summary, length, multiple) == Exceeds <==> Long(lengths, length, multiple)
  {
    SummaryFigures(lengths);
    DecideByFigures(summary, lengths, length, multiple);
  }

  lemma OpenIsJudgedByTheRule(
    whole: seq<int>, today: int, t: Table, multiple: HalfLife, none: GapPart, types: set<DayKind>, last: int)
    requires Ascending(IntLe, whole) && (forall d :: d in whole ==> d < today) && none == NOTHING
    requires types == TypesOf(whole, Some(t)) && whole != [] && last == whole[|whole| - 1]
    ensures Judged(whole, today, t, none, multiple) <==>
            Long(LengthsWith(t, types, Pairs(whole)), Length(RulersFor(whole, today, t, types), last, today), multiple)
  {
    AnchorsAlone(whole);
    NoKinds(types, none);
    assert last in whole;
    JudgedByParts(whole, today, t, none, multiple, whole, types);
    WholeDistribution(whole, today, t, types);
    LongExactlyWhen(Including(none.lengths, EffectiveGaps(whole, RulersFor(whole, today, t, types))),
                    LengthsWith(t, types, Pairs(whole)), Length(RulersFor(whole, today, t, types), last, today), multiple);
  }

  /** On a whole history the judgement is that rule, taken over the lengths between neighbouring days of opportunity
      and the length since the last of them. */
  lemma WholeHistoryIsJudgedByTheRule(whole: seq<int>, today: int, t: Table, multiple: HalfLife, none: GapPart)
    requires Ascending(IntLe, whole) && (forall d :: d in whole ==> d < today) && none == NOTHING
    ensures Judged(whole, today, t, none, multiple) <==>
      && whole != []
      && var types := TypesOf(whole, Some(t));
         Long(LengthsWith(t, types, Pairs(whole)),
              Length(RulersFor(whole, today, t, types), whole[|whole| - 1], today), multiple)
  {
    AnchorsAlone(whole);
    if whole == [] {
      NothingOpen(whole, today, t, none, multiple, whole);
    } else {
      OpenIsJudgedByTheRule(whole, today, t, multiple, none, TypesOf(whole, Some(t)), whole[|whole| - 1]);
    }
  }

  /** The answer itself. Without a table it is no. On an uncompacted account it is the rule, with the given multiple, over
      the days of opportunity before the expectation and up to the day it formed. */
  lemma ReturnsExactlyAfterALongAbsence(
    facts: seq<Fact>, item: Expectation, t: Table, unsettled: seq<Expectation>, multiple: HalfLife, day: int -> int)
    ensures !ReturnedAfterAbsence(facts, item, None, None, unsettled, multiple, day)
    ensures var days, today := DaysBefore(facts, item, None, unsettled, day), day(item.formedAt);
      ReturnedAfterAbsence(facts, item, Some(t), None, unsettled, multiple, day) <==>
        && days != [] && days[|days| - 1] < today
        && var types := TypesOf(days, Some(t));
           Long(LengthsWith(t, types, Pairs(days)), Length(RulersFor(days, today, t, types), days[|days| - 1], today), multiple)
  {
    DaysAscend(facts, item, None, unsettled, day);
    JudgedExactlyWhen(DaysBefore(facts, item, None, unsettled, day), day(item.formedAt), t, multiple, NOTHING);
  }

  lemma NoAnswerWithoutATable(
    facts: seq<Fact>, item: Expectation, base: Option<Summary>, unsettled: seq<Expectation>, multiple: HalfLife, day: int -> int)
    ensures !ReturnedAfterAbsence(facts, item, None, base, unsettled, multiple, day)
  {
  }

  lemma JudgedExactlyWhen(days: seq<int>, today: int, t: Table, multiple: HalfLife, none: GapPart)
    requires Ascending(IntLe, days) && none == NOTHING
    ensures Judged(days, today, t, none, multiple) <==>
        && days != [] && days[|days| - 1] < today
        && var types := TypesOf(days, Some(t));
           Long(LengthsWith(t, types, Pairs(days)), Length(RulersFor(days, today, t, types), days[|days| - 1], today), multiple)
  {
    AnchorsAlone(days);
    if Open(days, today) {
      forall d | d in days ensures d < today {
        var k :| 0 <= k < |days| && days[k] == d;
        assert k == |days| - 1 || IntLe(days[k], days[|days| - 1]);
      }
      WholeHistoryIsJudgedByTheRule(days, today, t, multiple, none);
    } else {
      NothingOpen(days, today, t, none, multiple, days);
    }
  }

  // ---- What a summary may get wrong ----

  lemma MedianFollows(a: seq<real>, b: seq<real>)
    requires |a| == |b| && forall i :: 0 <= i < |a| ==> a[i] <= b[i]
    ensures Median(a) <= Median(b)
  {
    Percentiles.SortedReals(a);
    Percentiles.SortedReals(b);
    if a != [] {
      Percentiles.SmallerRankLower(a, b, (|a| - 1) / 2);
      Percentiles.SmallerRankLower(a, b, |a| / 2);
    }
  }

  lemma TimesFollows(x: real, y: real, multiple: HalfLife)
    requires x <= y
    ensures multiple * x <= multiple * y
  {
  }

  /** Shorter gaps behind it make an absence no less long. */
  lemma LongFollows(a: seq<real>, b: seq<real>, length: real, multiple: HalfLife)
    requires |a| == |b| && (forall i :: 0 <= i < |a| ==> a[i] <= b[i]) && Long(b, length, multiple)
    ensures Long(a, length, multiple)
  {
    MedianFollows(a, b);
    TimesFollows(Median(a), Median(b), multiple);
  }

  /** What the cuts measured, and then what the leftovers measure. */
  function SeenLengths(cuts: seq<Cut>, since: seq<int>, t: Table, types: set<DayKind>): seq<real> {
    Lengths(MeasuredBy(cuts)) + LengthsWith(t, types, Pairs(Distinct(Anchors(LastOf(DaysOf(cuts)), since))))
  }

  /** The whole measures the same gaps, none of them shorter. */
  lemma MeasuredNoLonger(cuts: seq<Cut>, since: seq<int>, whole: seq<int>, t: Table, types: set<DayKind>)
    requires Follows(cuts, since, whole) && MadeWith(cuts, t) && KindsOf(cuts) <= types
    ensures var a, b := SeenLengths(cuts, since, t, types), LengthsWith(t, types, Pairs(whole));
      |a| == |b| && forall i :: 0 <= i < |a| ==> a[i] <= b[i]
  {
    var anchors := Anchors(LastOf(DaysOf(cuts)), since);
    SortedParts(DaysOf(cuts), since);
    OverlookedShortens(cuts, t, types);
    EachPairMeasuredOnce(cuts);
    PairsJoin(DaysOf(cuts), since);
    LengthsWithAppend(t, types, Pairs(Distinct(DaysOf(cuts))), Pairs(Distinct(anchors)));
    NoLongerWith(Lengths(MeasuredBy(cuts)), Again(cuts, t, types), LengthsWith(t, types, Pairs(Distinct(anchors))));
  }

  lemma NoLongerWith(a: seq<real>, b: seq<real>, more: seq<real>)
    requires |a| == |b| && forall i :: 0 <= i < |a| ==> a[i] <= b[i]
    ensures |a + more| == |b + more| && forall i :: 0 <= i < |a + more| ==> (a + more)[i] <= (b + more)[i]
  {
  }

  lemma SummaryJudges(
    cuts: seq<Cut>, since: seq<int>, today: int, t: Table, multiple: HalfLife, past: GapPart, anchors: seq<int>,
    types: set<DayKind>, length: real)
    requires past == FoldCuts(cuts) && anchors == Anchors(LastOf(DaysOf(cuts)), since) && Open(anchors, today)
    requires forall d :: d in anchors ==> d < today
    requires types == TypesOf(since, Some(t)) + Elements(past.dayTypes)
    requires length == Length(RulersFor(anchors, today, t, types), anchors[|anchors| - 1], today)
    ensures Judged(since, today, t, past, multiple) <==> Long(SeenLengths(cuts, since, t, types), length, multiple)
  {
    LastDayIs(cuts);
    JudgedByParts(since, today, t, past, multiple, anchors, types);
    FoldCutsMeasures(cuts);
    PriorDistribution(Lengths(MeasuredBy(cuts)), anchors, today, t, types);
    LongExactlyWhen(Including(past.lengths, EffectiveGaps(anchors, RulersFor(anchors, today, t, types))),
                    SeenLengths(cuts, since, t, types), length, multiple);
  }

  lemma WholeIsLong(
    cuts: seq<Cut>, since: seq<int>, whole: seq<int>, today: int, t: Table, multiple: HalfLife, none: GapPart,
    types: set<DayKind>, last: int)
    requires Follows(cuts, since, whole) && none == NOTHING && Open(whole, today)
    requires types == TypesOf(whole, Some(t)) && last == whole[|whole| - 1]
    requires Judged(whole, today, t, none, multiple)
    ensures Long(LengthsWith(t, types, Pairs(whole)), Length(RulersFor(whole, today, t, types), last, today), multiple)
  {
    AnchorsEndAlike(cuts, since, whole);
    DistinctLists(DaysOf(cuts) + since);
    OpenIsJudgedByTheRule(whole, today, t, multiple, none, types, last);
  }

  lemma SeenIsLong(
    cuts: seq<Cut>, since: seq<int>, whole: seq<int>, t: Table, multiple: HalfLife, types: set<DayKind>, length: real)
    requires Follows(cuts, since, whole) && MadeWith(cuts, t) && types == TypesOf(whole, Some(t))
    requires Long(LengthsWith(t, types, Pairs(whole)), length, multiple)
    ensures Long(SeenLengths(cuts, since, t, types), length, multiple)
  {
    KindsOfWhole(cuts, since, whole, t);
    MeasuredNoLonger(cuts, since, whole, t, types);
    LongFollows(SeenLengths(cuts, since, t, types), LengthsWith(t, types, Pairs(whole)), length, multiple);
  }

  lemma SeenIsJudged(
    cuts: seq<Cut>, since: seq<int>, whole: seq<int>, today: int, t: Table, multiple: HalfLife, past: GapPart,
    types: set<DayKind>, last: int)
    requires Follows(cuts, since, whole) && MadeWith(cuts, t) && past == FoldCuts(cuts) && Open(whole, today)
    requires types == TypesOf(whole, Some(t)) && last == whole[|whole| - 1]
    requires Long(SeenLengths(cuts, since, t, types), Length(RulersFor(whole, today, t, types), last, today), multiple)
    ensures Judged(since, today, t, past, multiple)
  {
    var anchors := Anchors(LastOf(DaysOf(cuts)), since);
    AnchorsEndAlike(cuts, since, whole);
    KindsOfWhole(cuts, since, whole, t);
    OpenGapAlike(Elements(anchors), Elements(whole), last, today, t, types);
    SummaryJudges(cuts, since, today, t, multiple, past, anchors, types,
                  Length(RulersFor(whole, today, t, types), last, today));
  }

  lemma OpenMissesNothing(
    cuts: seq<Cut>, since: seq<int>, whole: seq<int>, today: int, t: Table, multiple: HalfLife, past: GapPart, none: GapPart,
    types: set<DayKind>, last: int)
    requires Follows(cuts, since, whole) && MadeWith(cuts, t) && past == FoldCuts(cuts) && none == NOTHING
    requires Open(whole, today) && types == TypesOf(whole, Some(t)) && last == whole[|whole| - 1]
    requires Judged(whole, today, t, none, multiple)
    ensures Judged(since, today, t, past, multiple)
  {
    WholeIsLong(cuts, since, whole, today, t, multiple, none, types, last);
    SeenIsLong(cuts, since, whole, t, multiple, types, Length(RulersFor(whole, today, t, types), last, today));
    SeenIsJudged(cuts, since, whole, today, t, multiple, past, types, last);
  }

  /** Whatever days the cuts overlooked, a summary never hides a long absence: if the whole history shows one, so do the
      days since the summary against it. */
  lemma NoLongAbsenceIsMissed(
    cuts: seq<Cut>, since: seq<int>, whole: seq<int>, today: int, t: Table, multiple: HalfLife, past: GapPart, none: GapPart)
    requires Follows(cuts, since, whole) && MadeAlong(cuts, t) && past == FoldCuts(cuts) && none == NOTHING
    requires Judged(whole, today, t, none, multiple)
    ensures Judged(since, today, t, past, multiple)
  {
    AnchorsAlone(whole);
    FollowsRetabled(cuts, since, whole, t);
    if Open(whole, today) {
      OpenMissesNothing(Retabled(cuts, t), since, whole, today, t, multiple, past, none, TypesOf(whole, Some(t)),
                        whole[|whole| - 1]);
    } else {
      NothingOpen(whole, today, t, none, multiple, whole);
    }
  }

  /** So at every point of every run that compacts with the tables of its nights. */
  lemma CompactedMissesNoLongAbsence(
    states: seq<Store>, steps: seq<Step>, day: int -> int, i: nat,
    item: Expectation, unsettled: seq<Expectation>, t: Table, multiple: HalfLife)
    requires Run(states, steps, day) && i < |states| && Monotone(day) && Pending(states[i], item, unsettled)
    requires MadeAlong(states[i].cuts, t)
    requires ReturnedAfterAbsence(History(states[i].log), item, Some(t), None, unsettled, multiple, day)
    ensures ReturnedAfterAbsence(FactsOf(states[i]), item, Some(t), states[i].base, unsettled, multiple, day)
  {
    RunKeeps(states, steps, day, i);
    StoreMissesNoLongAbsence(states[i], day, item, unsettled, t, multiple);
  }

  lemma StoreMissesNoLongAbsence(
    s: Store, day: int -> int, item: Expectation, unsettled: seq<Expectation>, t: Table, multiple: HalfLife)
    requires Inv(s, day) && Monotone(day) && Pending(s, item, unsettled) && MadeAlong(s.cuts, t)
    requires ReturnedAfterAbsence(History(s.log), item, Some(t), None, unsettled, multiple, day)
    ensures ReturnedAfterAbsence(FactsOf(s), item, Some(t), s.base, unsettled, multiple, day)
  {
    var since := DaysBefore(FactsOf(s), item, s.base, unsettled, day);
    var whole := DaysBefore(History(s.log), item, None, unsettled, day);
    DaysFollow(s, day, item, unsettled);
    NoLongAbsenceIsMissed(s.cuts, since, whole, day(item.formedAt), t, multiple, FoldCuts(s.cuts), NOTHING);
  }
}
