/** Whether an expectation comes back after a long absence (habitus/foresight/absence.py), judged from the
    days the account had an opportunity. */
module Absence {
  import opened Orders
  import opened Sequences
  import opened Ledger
  import opened AccountClock
  import opened Gaps
  import opened Compaction
  import opened Protocol

  datatype Expectation = Expectation(id: string, formedAt: int)

  /** The configuration admits positive half-lives only. */
  type HalfLife = h: real | h > 0.0 witness 1.0

  datatype Verdict = Exceeds | Within | Undecided

  const MIN_HISTORY := 2

  function FormedKey(): Expectation -> Key { (u: Expectation) => Key(u.formedAt, u.id) }

  function Unheard(settled: set<string>): Expectation -> bool { (u: Expectation) => u.id !in settled }

  function FactKey(): Fact -> Key { (f: Fact) => KeyOf(f) }

  function Ids(facts: seq<Fact>): set<string> { set f | f in facts :: f.id }

  /** The keys that count as opportunities: settled ones by their fact, and formed ones not settled yet. */
  function Moments(facts: seq<Fact>, unsettled: seq<Expectation>): seq<Key> {
    var current := CurrentFacts(facts);
    Map(FactKey(), Filter(Opportunity(), current)) + Map(FormedKey(), Filter(Unheard(Ids(current)), unsettled))
  }

  function Before(item: Expectation, through: Option<Key>): Key -> bool {
    (k: Key) => k.id != item.id && k.at < item.formedAt && !Covered(through, k)
  }

  function DayOfKey(day: int -> int): Key -> int { (k: Key) => day(k.at) }

  function DaysBefore(
    facts: seq<Fact>, item: Expectation, base: Option<Summary>, unsettled: seq<Expectation>, day: int -> int): seq<int>
  {
    Distinct(Map(DayOfKey(day), Filter(Before(item, Through(base)), Moments(facts, unsettled))))
  }

  // ---- The distribution of lengths ----

  function Count(lengths: seq<(real, nat)>): nat {
    if lengths == [] then 0 else lengths[0].1 + Count(lengths[1..])
  }

  function Longest(lengths: seq<(real, nat)>): real {
    if lengths == [] then 0.0 else lengths[|lengths| - 1].0
  }

  function Ranked(lengths: seq<(real, nat)>, rank: nat): real
    requires rank < Count(lengths)
  {
    if rank < lengths[0].1 then lengths[0].0 else Ranked(lengths[1..], rank - lengths[0].1)
  }

  /** The median. */
  function Typical(lengths: seq<(real, nat)>): real {
    var total := Count(lengths);
    if total == 0 then 0.0 else (Ranked(lengths, (total - 1) / 2) + Ranked(lengths, total / 2)) / 2.0
  }

  function Decide(summary: seq<(real, nat)>, length: real, multiple: HalfLife): Verdict {
    if Count(summary) < MIN_HISTORY then Undecided
    else if length > Longest(summary) && length >= multiple * Typical(summary) then Exceeds
    else Within
  }

  function LongAbsence(prior: seq<Gap>, current: Gap, multiple: HalfLife, earlier: seq<(real, nat)>): Verdict {
    Decide(Including(earlier, prior), current.length, multiple)
  }

  function LastDay(base: Option<Summary>): Option<int> { GapPartOf(base).lastDay }

  /** Whether the last opportunity lies before today. */
  predicate Open(anchors: seq<int>, today: int) {
    anchors != [] && anchors[|anchors| - 1] < today
  }

  /** The judgement given the days since the summary. */
  function Judged(days: seq<int>, today: int, t: Table, past: GapPart, multiple: HalfLife): bool {
    var anchors := Anchors(past.lastDay, days);
    Open(anchors, today) && JudgedOpen(days, anchors, today, t, past, multiple)
  }

  function JudgedOpen(days: seq<int>, anchors: seq<int>, today: int, t: Table, past: GapPart, multiple: HalfLife): bool
    requires Open(anchors, today)
  {
    var types := TypesOf(days, Some(t)) + Elements(past.dayTypes);
    var rulers := Rulers(Some(t), Elements(anchors) + {today}, types);
    var last := anchors[|anchors| - 1];
    var current := Gap(last, today, Length(rulers, last, today));
    LongAbsence(EffectiveGaps(anchors, rulers), current, multiple, past.lengths) == Exceeds
  }

  function ReturnedAfterAbsence(
    facts: seq<Fact>, item: Expectation, table: Option<Table>, base: Option<Summary>, unsettled: seq<Expectation>,
    multiple: HalfLife, day: int -> int): bool
  {
    table.Some? &&
    Judged(DaysBefore(facts, item, base, unsettled, day), day(item.formedAt), table.value, GapPartOf(base), multiple)
  }

  // ---- Settling an expectation ----

  lemma DaysBeforeHas(
    facts: seq<Fact>, item: Expectation, base: Option<Summary>, unsettled: seq<Expectation>, day: int -> int, d: int)
    ensures d in DaysBefore(facts, item, base, unsettled, day) <==>
            exists k :: k in Moments(facts, unsettled) && Before(item, Through(base))(k) && day(k.at) == d
    ensures forall k :: Before(item, Through(base))(k) <==>
              k.id != item.id && k.at < item.formedAt && (base.Some? ==> !KeyLe(k, base.value.through))
  {
    var kept := Filter(Before(item, Through(base)), Moments(facts, unsettled));
    DistinctLists(Map(DayOfKey(day), kept));
    if d in Map(DayOfKey(day), kept) {
      var i :| 0 <= i < |kept| && day(kept[i].at) == d;
      FilterHas(Before(item, Through(base)), Moments(facts, unsettled), kept[i]);
    }
    forall k | k in Moments(facts, unsettled) && Before(item, Through(base))(k) && day(k.at) == d
      ensures d in Map(DayOfKey(day), kept)
    {
      FilterHas(Before(item, Through(base)), Moments(facts, unsettled), k);
      var i :| 0 <= i < |kept| && kept[i] == k;
      assert Map(DayOfKey(day), kept)[i] == d;
    }
  }

  lemma MomentsHas(facts: seq<Fact>, unsettled: seq<Expectation>, k: Key)
    ensures k in Moments(facts, unsettled) <==>
      || (exists f :: f in CurrentFacts(facts) && IsOpportunity(f) && KeyOf(f) == k)
      || (k.id !in Ids(CurrentFacts(facts)) && Expectation(k.id, k.at) in unsettled)
  {
    var current := CurrentFacts(facts);
    var opportunities, waiting := Filter(Opportunity(), current), Filter(Unheard(Ids(current)), unsettled);
    MapHas(FactKey(), opportunities, k);
    MapHas(FormedKey(), waiting, k);
    forall f ensures f in opportunities <==> f in current && IsOpportunity(f) { FilterHas(Opportunity(), current, f); }
    FilterHas(Unheard(Ids(current)), unsettled, Expectation(k.id, k.at));
    forall u ensures u in waiting ==> u in unsettled { FilterHas(Unheard(Ids(current)), unsettled, u); }
    assert forall u: Expectation :: FormedKey()(u) == k <==> u == Expectation(k.id, k.at);
  }

  lemma MapHas<T, U>(f: T -> U, s: seq<T>, y: U)
    ensures y in Map(f, s) <==> exists x :: x in s && f(x) == y
  {
    if y in Map(f, s) {
      var i :| 0 <= i < |s| && Map(f, s)[i] == y;
      assert s[i] in s;
    }
    forall x | x in s && f(x) == y ensures y in Map(f, s) {
      var i :| 0 <= i < |s| && s[i] == x;
      assert Map(f, s)[i] == y;
    }
  }

  /** Settling one waiting expectation: its first fact joins the log, anywhere in the directory, formed at
      the moment the expectation was, whether or not the expectation is still listed as unsettled. */
  ghost predicate Settles(
    facts: seq<Fact>, unsettled: seq<Expectation>, f: Fact, facts': seq<Fact>, unsettled': seq<Expectation>)
  {
    && Expectation(f.id, f.at) in unsettled
    && (forall u :: u in unsettled && u.id == f.id ==> u.formedAt == f.at)
    && (exists place :: 0 <= place <= |facts| && facts' == facts[..place] + [f] + facts[place..])
    && (forall g :: g in facts ==> g.id != f.id)
    && (forall u :: u in unsettled' ==> u in unsettled)
    && (forall u :: u in unsettled && u.id != f.id ==> u in unsettled')
  }

  lemma FilterInserted(p: Fact -> bool, front: seq<Fact>, f: Fact, back: seq<Fact>)
    ensures Filter(p, front + [f] + back) == if p(f) then Filter(p, front) + [f] + Filter(p, back) else Filter(p, front + back)
  {
    assert front + [f] + back == front + ([f] + back);
    FilterAppend(p, front, back);
    FilterAppend(p, front, [f] + back);
    FilterCons(p, f, back);
  }

  lemma SettledIsCurrent(facts: seq<Fact>, f: Fact, facts': seq<Fact>, place: nat, g: Fact)
    requires place <= |facts| && facts' == facts[..place] + [f] + facts[place..]
    requires forall h :: h in facts ==> h.id != f.id
    ensures g in CurrentFacts(facts') <==> g == f || g in CurrentFacts(facts)
  {
    CurrentIsLastWritten(facts, g);
    CurrentIsLastWritten(facts', g);
    var front, back := facts[..place], facts[place..];
    assert facts == front + back;
    FilterInserted(About(g.id), front, f, back);
    if g.id == f.id {
      FilterNone(About(g.id), facts);
      FilterNone(About(g.id), front);
      FilterNone(About(g.id), back);
      assert Filter(About(g.id), facts') == [f];
      LastWrittenCons(f, []);
      assert [f] + [] == [f];
    }
  }

  lemma SettlingMovesMoments(
    facts: seq<Fact>, unsettled: seq<Expectation>, f: Fact, facts': seq<Fact>, unsettled': seq<Expectation>, k: Key)
    requires Settles(facts, unsettled, f, facts', unsettled')
    ensures KeyOf(f) in Moments(facts, unsettled)
    ensures k in Moments(facts', unsettled') <==>
            k in Moments(facts, unsettled) && (k == KeyOf(f) ==> IsOpportunity(f))
  {
    var place :| 0 <= place <= |facts| && facts' == facts[..place] + [f] + facts[place..];
    forall g ensures g in CurrentFacts(facts') <==> g == f || g in CurrentFacts(facts) {
      SettledIsCurrent(facts, f, facts', place, g);
    }
    LiveFactsShape(facts);
    assert f.id !in Ids(CurrentFacts(facts));
    assert Ids(CurrentFacts(facts')) == Ids(CurrentFacts(facts)) + {f.id};
    MomentsHas(facts, unsettled, KeyOf(f));
    MomentsHas(facts, unsettled, k);
    MomentsHas(facts', unsettled', k);
  }

  /** Settling as an opportunity changes nothing about the days before an expectation. */
  lemma SettlingAsAnOpportunityKeepsTheDays(
    facts: seq<Fact>, unsettled: seq<Expectation>, f: Fact, facts': seq<Fact>, unsettled': seq<Expectation>,
    item: Expectation, base: Option<Summary>, day: int -> int)
    requires Settles(facts, unsettled, f, facts', unsettled') && IsOpportunity(f)
    ensures DaysBefore(facts', item, base, unsettled', day) == DaysBefore(facts, item, base, unsettled, day)
  {
    var a, b := DaysBefore(facts, item, base, unsettled, day), DaysBefore(facts', item, base, unsettled', day);
    forall k ensures k in Moments(facts', unsettled') <==> k in Moments(facts, unsettled) {
      SettlingMovesMoments(facts, unsettled, f, facts', unsettled', k);
    }
    forall d ensures d in a <==> d in b {
      DaysBeforeHas(facts, item, base, unsettled, day, d);
      DaysBeforeHas(facts', item, base, unsettled', day, d);
    }
    SameDays(facts, item, base, unsettled, facts', unsettled', day);
  }

  lemma SameDays(
    facts: seq<Fact>, item: Expectation, base: Option<Summary>, unsettled: seq<Expectation>,
    facts': seq<Fact>, unsettled': seq<Expectation>, day: int -> int)
    requires forall d :: d in DaysBefore(facts, item, base, unsettled, day) <==> d in DaysBefore(facts', item, base, unsettled', day)
    ensures DaysBefore(facts', item, base, unsettled', day) == DaysBefore(facts, item, base, unsettled, day)
  {
    NumbersAreOrdered();
    DistinctLists(Map(DayOfKey(day), Filter(Before(item, Through(base)), Moments(facts, unsettled))));
    DistinctLists(Map(DayOfKey(day), Filter(Before(item, Through(base)), Moments(facts', unsettled'))));
    AscendingUnique(IntLe, DaysBefore(facts', item, base, unsettled', day), DaysBefore(facts, item, base, unsettled, day));
  }

  /** Settling as no opportunity takes away at most the day it formed on, and that day exactly when nothing
      else that counts fell on it. */
  lemma SettlingAsNoOpportunityTakesOneDay(
    facts: seq<Fact>, unsettled: seq<Expectation>, f: Fact, facts': seq<Fact>, unsettled': seq<Expectation>,
    item: Expectation, base: Option<Summary>, day: int -> int, d: int)
    requires Settles(facts, unsettled, f, facts', unsettled') && !IsOpportunity(f)
    ensures d in DaysBefore(facts', item, base, unsettled', day) <==>
      && d in DaysBefore(facts, item, base, unsettled, day)
      && (d == day(f.at) && Before(item, Through(base))(KeyOf(f)) ==>
           exists k :: k in Moments(facts, unsettled) && k != KeyOf(f) && Before(item, Through(base))(k) && day(k.at) == d)
  {
    forall k ensures k in Moments(facts', unsettled') <==> k in Moments(facts, unsettled) && k != KeyOf(f) {
      SettlingMovesMoments(facts, unsettled, f, facts', unsettled', k);
    }
    DaysBeforeHas(facts, item, base, unsettled, day, d);
    DaysBeforeHas(facts', item, base, unsettled', day, d);
  }

  // ---- A compacted account judges like the whole one ----

  /** What the rest of the system guarantees when an expectation is judged: a fact carries the moment its
      expectation formed, the one judged formed after everything compacted, and what has no fact yet was
      not compacted. */
  predicate Pending(s: Store, item: Expectation, unsettled: seq<Expectation>) {
    var through := Through(s.base);
    && (through.Some? ==> through.value.at < item.formedAt)
    && (forall f :: f in History(s.log) && f.id == item.id ==> f.at == item.formedAt)
    && (forall u, f :: u in unsettled && f in History(s.log) && f.id == u.id ==> f.at == u.formedAt)
    && (forall u :: u in unsettled && Covered(through, Key(u.formedAt, u.id)) ==>
         exists f :: f in History(s.log) && f.id == u.id)
  }

  lemma CurrentLeftovers(s: Store, day: int -> int)
    requires Inv(s, day)
    ensures forall f :: f in CurrentFacts(FactsOf(s)) <==> f in CurrentFacts(History(s.log)) && !Covered(Through(s.base), KeyOf(f))
  {
    var beyond := Beyond(Through(s.base));
    FilesLookLikeHistory(beyond, s.log);
    CoverageIsByExpectation(Through(s.base), History(s.log));
    FilterCurrent(beyond, History(s.log));
    forall f ensures f in Filter(beyond, CurrentFacts(History(s.log))) <==> f in CurrentFacts(History(s.log)) && beyond(f) {
      FilterHas(beyond, CurrentFacts(History(s.log)), f);
    }
  }

  lemma HasCurrent(facts: seq<Fact>, id: string)
    ensures id in Ids(CurrentFacts(facts)) <==> exists f :: f in facts && f.id == id
  {
    LiveFactsShape(facts);
    if exists f :: f in facts && f.id == id {
      var k := FindLastWord(facts, id);
      ShowsTheLastWord(facts, facts[k]);
    }
  }

  /** Above the boundary, the leftovers and the whole history hold the same moments. */
  lemma MomentsBeyond(s: Store, day: int -> int, item: Expectation, unsettled: seq<Expectation>, k: Key)
    requires Inv(s, day) && Pending(s, item, unsettled) && !Covered(Through(s.base), k)
    ensures k in Moments(FactsOf(s), unsettled) <==> k in Moments(History(s.log), unsettled)
  {
    CurrentLeftovers(s, day);
    MomentsHas(FactsOf(s), unsettled, k);
    MomentsHas(History(s.log), unsettled, k);
    var u := Expectation(k.id, k.at);
    if u in unsettled && k.id in Ids(CurrentFacts(History(s.log))) {
      LiveFactsShape(History(s.log));
      var f :| f in CurrentFacts(History(s.log)) && f.id == k.id;
      assert KeyOf(f) == k;
      assert f in CurrentFacts(FactsOf(s));
    }
  }

  /** At or below it, the whole history holds exactly the compacted opportunities. */
  lemma MomentsCompacted(s: Store, day: int -> int, item: Expectation, unsettled: seq<Expectation>, k: Key)
    requires Inv(s, day) && Pending(s, item, unsettled) && Covered(Through(s.base), k)
    ensures k in Moments(History(s.log), unsettled) <==>
            exists f :: f in Compacted(s) && IsOpportunity(f) && KeyOf(f) == k
  {
    var h := History(s.log);
    LiveFactsShape(h);
    MomentsHas(h, unsettled, k);
    forall f ensures f in Compacted(s) <==> f in ByKey(h) && Covered(Through(s.base), KeyOf(f)) {
      FilterHas(UpTo(s.base.value.through), ByKey(h), f);
    }
    if Expectation(k.id, k.at) in unsettled {
      HasCurrent(h, k.id);
    }
  }

  lemma CompactedDaysHas(s: Store, day: int -> int, d: int)
    requires Inv(s, day) && Monotone(day)
    ensures d in DaysOf(s.cuts) <==> exists f :: f in Compacted(s) && IsOpportunity(f) && day(f.at) == d
  {
    var opportunities := Filter(Opportunity(), Compacted(s));
    DistinctLists(DaysOf(s.cuts));
    DistinctLists(Map(DayOf(day), opportunities));
    MapHas(DayOf(day), opportunities, d);
    forall f ensures f in opportunities <==> f in Compacted(s) && IsOpportunity(f) {
      FilterHas(Opportunity(), Compacted(s), f);
    }
  }

  lemma CompactedComesFirst(s: Store, item: Expectation, unsettled: seq<Expectation>, f: Fact)
    requires Pending(s, item, unsettled) && f in Compacted(s)
    ensures Covered(Through(s.base), KeyOf(f)) && Before(item, None)(KeyOf(f))
  {
    var h := History(s.log);
    LiveFactsShape(h);
    FilterHas(UpTo(s.base.value.through), ByKey(h), f);
  }

  /** The days of the whole history before an expectation are the compacted days and those since. */
  lemma WholeDays(s: Store, day: int -> int, item: Expectation, unsettled: seq<Expectation>, d: int)
    requires Inv(s, day) && Monotone(day) && Pending(s, item, unsettled)
    ensures d in DaysBefore(History(s.log), item, None, unsettled, day) <==>
            d in DaysOf(s.cuts) || d in DaysBefore(FactsOf(s), item, s.base, unsettled, day)
  {
    var through := Through(s.base);
    DaysBeforeHas(History(s.log), item, None, unsettled, day, d);
    DaysBeforeHas(FactsOf(s), item, s.base, unsettled, day, d);
    CompactedDaysHas(s, day, d);
    forall k ensures !Covered(through, k) ==> (k in Moments(FactsOf(s), unsettled) <==> k in Moments(History(s.log), unsettled)) {
      if !Covered(through, k) { MomentsBeyond(s, day, item, unsettled, k); }
    }
    forall k | Covered(through, k)
      ensures k in Moments(History(s.log), unsettled) <==> exists f :: f in Compacted(s) && IsOpportunity(f) && KeyOf(f) == k
    {
      MomentsCompacted(s, day, item, unsettled, k);
    }
    forall f | f in Compacted(s) ensures Covered(through, KeyOf(f)) && Before(item, None)(KeyOf(f)) {
      CompactedComesFirst(s, item, unsettled, f);
    }
  }

  /** Re-measuring what the cuts measured, with all the kinds of day known now, changes no length as long as
      no day was overlooked. */
  lemma NothingOverlookedNothingChanges(cuts: seq<Cut>, t: Table, kinds: set<DayKind>)
    requires Sorted(IntLe, DaysOf(cuts)) && MadeWith(cuts, t) && KindsOf(cuts) <= kinds
    requires NothingOverlooked(cuts, t, kinds)
    ensures Lengths(MeasuredBy(cuts)) == Lengths(Map(With(Some(t), kinds), Pairs(Distinct(DaysOf(cuts)))))
  {
    EachPairMeasuredOnce(cuts);
    OverlookedShortens(cuts, t, kinds);
  }

  /** The gaps of a judgement, added to the summary's, make the distribution of everything measured. */
  lemma PriorDistribution(before: seq<real>, anchors: seq<int>, today: int, t: Table, types: set<DayKind>)
    requires forall a :: a in anchors ==> a < today
    ensures Including(Distribution(multiset(before)), EffectiveGaps(anchors, Rulers(Some(t), Elements(anchors) + {today}, types)))
         == Distribution(multiset(before + Lengths(Map(With(Some(t), types), Pairs(Distinct(anchors))))))
  {
    GapsAreMeasured(anchors, {today}, Some(t), types);
    IncludingMeasured(before, EffectiveGaps(anchors, Rulers(Some(t), Elements(anchors) + {today}, types)));
  }

  /** The days of a whole history: those compacted, then those since. */
  ghost predicate Follows(cuts: seq<Cut>, since: seq<int>, whole: seq<int>) {
    && Sorted(IntLe, DaysOf(cuts) + since)
    && whole == Distinct(DaysOf(cuts) + since)
  }

  lemma AnchorsEndAlike(cuts: seq<Cut>, since: seq<int>, whole: seq<int>)
    requires Follows(cuts, since, whole)
    ensures var anchors := Anchors(LastOf(DaysOf(cuts)), since);
      && (whole == [] <==> anchors == [])
      && (whole != [] ==>
           && whole[|whole| - 1] == anchors[|anchors| - 1]
           && (forall d :: d in anchors ==> d <= anchors[|anchors| - 1])
           && (forall d :: d in whole ==> d <= anchors[|anchors| - 1]))
  {
    var days := DaysOf(cuts) + since;
    if days == [] {
      EmptyDistinct();
    } else {
      DistinctLists(days);
      DistinctLast(days);
      assert days[0] in days;
      LastIsLatest(days);
      var anchors := Anchors(LastOf(DaysOf(cuts)), since);
      assert forall d :: d in anchors ==> d in days;
      assert anchors[|anchors| - 1] == days[|days| - 1];
    }
  }

  lemma KindsOfWhole(cuts: seq<Cut>, since: seq<int>, whole: seq<int>, t: Table)
    requires Follows(cuts, since, whole) && MadeWith(cuts, t)
    ensures TypesOf(since, Some(t)) + Elements(FoldCuts(cuts).dayTypes) == TypesOf(whole, Some(t)) + Elements<DayKind>([])
    ensures KindsOf(cuts) <= TypesOf(whole, Some(t))
  {
    MeasuredWithTable(cuts, t);
    FoldCutsCarries(cuts);
    DistinctLists(DaysOf(cuts) + since);
  }

  /** The open gap up to today is as long seen from the leftovers as from the whole. */
  lemma OpenGapAlike(seen: set<int>, seen': set<int>, last: int, today: int, t: Table, types: set<DayKind>)
    requires last < today && (forall d :: d in seen ==> d <= last) && (forall d :: d in seen' ==> d <= last)
    ensures Length(Rulers(Some(t), seen + {today}, types), last, today)
         == Length(Rulers(Some(t), seen' + {today}, types), last, today)
  {
    OnlyTheEndIsSeen(Rulers(Some(t), seen + {today}, types), last, today, today);
    OnlyTheEndIsSeen(Rulers(Some(t), seen' + {today}, types), last, today, today);
  }

  function RulersFor(days: seq<int>, today: int, t: Table, types: set<DayKind>): Rulers {
    Rulers(Some(t), Elements(days) + {today}, types)
  }

  function LengthsWith(t: Table, types: set<DayKind>, pairs: seq<(int, int)>): seq<real> {
    Lengths(Map(With(Some(t), types), pairs))
  }

  lemma LengthsWithAppend(t: Table, types: set<DayKind>, a: seq<(int, int)>, b: seq<(int, int)>)
    ensures LengthsWith(t, types, a + b) == LengthsWith(t, types, a) + LengthsWith(t, types, b)
  {
  }

  lemma WholeDistribution(whole: seq<int>, today: int, t: Table, types: set<DayKind>)
    requires forall d :: d in whole ==> d < today
    requires Ascending(IntLe, whole)
    ensures Including([], EffectiveGaps(whole, RulersFor(whole, today, t, types))) ==
            Distribution(multiset(LengthsWith(t, types, Pairs(whole))))
  {
    NumbersAreOrdered();
    DistributionRoundTrip(multiset([]));
    PriorDistribution([], whole, today, t, types);
    AscendingIsListing(IntLe, whole);
    var lengths := LengthsWith(t, types, Pairs(whole));
    assert [] + lengths == lengths;
  }

  lemma DistributionAlike(cuts: seq<Cut>, since: seq<int>, whole: seq<int>, today: int, t: Table, types: set<DayKind>)
    requires Follows(cuts, since, whole) && MadeWith(cuts, t) && KindsOf(cuts) <= types
    requires NothingOverlooked(cuts, t, types)
    requires forall d :: d in whole ==> d < today
    requires forall d :: d in Anchors(LastOf(DaysOf(cuts)), since) ==> d < today
    ensures var anchors := Anchors(LastOf(DaysOf(cuts)), since);
            Including(FoldCuts(cuts).lengths, EffectiveGaps(anchors, RulersFor(anchors, today, t, types))) ==
            Including([], EffectiveGaps(whole, RulersFor(whole, today, t, types)))
  {
    var anchors := Anchors(LastOf(DaysOf(cuts)), since);
    FoldCutsMeasures(cuts);
    PriorDistribution(Lengths(MeasuredBy(cuts)), anchors, today, t, types);
    SortedParts(DaysOf(cuts), since);
    NothingOverlookedNothingChanges(cuts, t, types);
    PairsJoin(DaysOf(cuts), since);
    LengthsWithAppend(t, types, Pairs(Distinct(DaysOf(cuts))), Pairs(Distinct(anchors)));
    DistinctLists(DaysOf(cuts) + since);
    WholeDistribution(whole, today, t, types);
  }

  lemma JudgedOpenAlike(
    cuts: seq<Cut>, since: seq<int>, whole: seq<int>, today: int, t: Table, multiple: HalfLife, anchors: seq<int>,
    past: GapPart, none: GapPart)
    requires Follows(cuts, since, whole) && MadeWith(cuts, t) && past == FoldCuts(cuts) && none == NOTHING
    requires NothingOverlooked(cuts, t, TypesOf(whole, Some(t)))
    requires anchors == Anchors(LastOf(DaysOf(cuts)), since) && Open(whole, today)
    ensures Judged(since, today, t, past, multiple) == Judged(whole, today, t, none, multiple)
  {
    var types, last := TypesOf(whole, Some(t)), whole[|whole| - 1];
    SummaryDecides(cuts, since, whole, today, t, multiple, anchors, past, types, last);
    AnchorsAlone(whole);
    NoKinds(types, none);
    JudgedByParts(whole, today, t, none, multiple, whole, types);
  }

  /** Against a summary that overlooked nothing, the decision is on the lengths of the whole. */
  lemma SummaryDecides(
    cuts: seq<Cut>, since: seq<int>, whole: seq<int>, today: int, t: Table, multiple: HalfLife, anchors: seq<int>,
    past: GapPart, types: set<DayKind>, last: int)
    requires Follows(cuts, since, whole) && MadeWith(cuts, t) && past == FoldCuts(cuts)
    requires types == TypesOf(whole, Some(t)) && NothingOverlooked(cuts, t, types)
    requires anchors == Anchors(LastOf(DaysOf(cuts)), since) && Open(whole, today) && last == whole[|whole| - 1]
    ensures var rulers := RulersFor(whole, today, t, types);
            Judged(since, today, t, past, multiple) ==
            (Decide(Including([], EffectiveGaps(whole, rulers)), Length(rulers, last, today), multiple) == Exceeds)
  {
    AnchorsEndAlike(cuts, since, whole);
    LastDayIs(cuts);
    KindsOfSummary(cuts, since, whole, t, past);
    DistributionAlike(cuts, since, whole, today, t, types);
    OpenGapAlike(Elements(anchors), Elements(whole), last, today, t, types);
    JudgedByParts(since, today, t, past, multiple, anchors, types);
  }

  lemma KindsOfSummary(cuts: seq<Cut>, since: seq<int>, whole: seq<int>, t: Table, past: GapPart)
    requires Follows(cuts, since, whole) && MadeWith(cuts, t) && past == FoldCuts(cuts)
    ensures TypesOf(since, Some(t)) + Elements(past.dayTypes) == TypesOf(whole, Some(t))
    ensures KindsOf(cuts) <= TypesOf(whole, Some(t))
  {
    KindsOfWhole(cuts, since, whole, t);
  }

  lemma AnchorsAlone(whole: seq<int>)
    ensures Anchors(None, whole) == whole
  {
    assert [] + whole == whole;
  }

  lemma NoKinds(types: set<DayKind>, none: GapPart)
    requires none == NOTHING
    ensures types + Elements(none.dayTypes) == types
  {
  }

  lemma OpenAlike(cuts: seq<Cut>, since: seq<int>, whole: seq<int>, today: int)
    requires Follows(cuts, since, whole)
    ensures Open(Anchors(LastOf(DaysOf(cuts)), since), today) == Open(whole, today)
  {
    AnchorsEndAlike(cuts, since, whole);
  }

  lemma LastDayIs(cuts: seq<Cut>)
    ensures FoldCuts(cuts).lastDay == LastOf(DaysOf(cuts))
  {
    FoldCutsCarries(cuts);
  }

  lemma FollowsRetabled(cuts: seq<Cut>, since: seq<int>, whole: seq<int>, t: Table)
    requires Follows(cuts, since, whole) && MadeAlong(cuts, t)
    ensures Follows(Retabled(cuts, t), since, whole)
    ensures MadeWith(Retabled(cuts, t), t) && FoldCuts(Retabled(cuts, t)) == FoldCuts(cuts)
  {
    SortedParts(DaysOf(cuts), since);
    RetablingKeeps(cuts, t);
    RetablingKeepsTheSummary(cuts, t);
  }

  /** Judging the days since a summary against it gives the judgement on the whole history, whichever nights' tables
      the summary was made with. */
  lemma JudgedAlike(
    cuts: seq<Cut>, since: seq<int>, whole: seq<int>, today: int, t: Table, multiple: HalfLife, past: GapPart, none: GapPart)
    requires Follows(cuts, since, whole) && MadeAlong(cuts, t) && past == FoldCuts(cuts) && none == NOTHING
    requires NothingOverlooked(cuts, t, TypesOf(whole, Some(t)))
    ensures Judged(since, today, t, past, multiple) == Judged(whole, today, t, none, multiple)
  {
    FollowsRetabled(cuts, since, whole, t);
    SortedParts(DaysOf(cuts), since);
    RetablingOverlooks(cuts, t, TypesOf(whole, Some(t)));
    JudgedAlikeByOneTable(Retabled(cuts, t), since, whole, today, t, multiple, past, none);
  }

  lemma JudgedAlikeByOneTable(
    cuts: seq<Cut>, since: seq<int>, whole: seq<int>, today: int, t: Table, multiple: HalfLife, past: GapPart, none: GapPart)
    requires Follows(cuts, since, whole) && MadeWith(cuts, t) && past == FoldCuts(cuts) && none == NOTHING
    requires NothingOverlooked(cuts, t, TypesOf(whole, Some(t)))
    ensures Judged(since, today, t, past, multiple) == Judged(whole, today, t, none, multiple)
  {
    var anchors := Anchors(LastOf(DaysOf(cuts)), since);
    OpenAlike(cuts, since, whole, today);
    LastDayIs(cuts);
    AnchorsAlone(whole);
    if Open(whole, today) {
      JudgedOpenAlike(cuts, since, whole, today, t, multiple, anchors, past, none);
    } else {
      NothingOpen(since, today, t, past, multiple, anchors);
      NothingOpen(whole, today, t, none, multiple, whole);
    }
  }

  /** Without an opportunity before today there is no absence to judge. */
  lemma NothingOpen(days: seq<int>, today: int, t: Table, past: GapPart, multiple: HalfLife, anchors: seq<int>)
    requires anchors == Anchors(past.lastDay, days) && !Open(anchors, today)
    ensures !Judged(days, today, t, past, multiple)
  {
  }

  lemma JudgedByParts(
    days: seq<int>, today: int, t: Table, past: GapPart, multiple: HalfLife, anchors: seq<int>, types: set<DayKind>)
    requires anchors == Anchors(past.lastDay, days) && anchors != [] && anchors[|anchors| - 1] < today
    requires types == TypesOf(days, Some(t)) + Elements(past.dayTypes)
    ensures var rulers, last := RulersFor(anchors, today, t, types), anchors[|anchors| - 1];
            var summary, length := Including(past.lengths, EffectiveGaps(anchors, rulers)), Length(rulers, last, today);
            Judged(days, today, t, past, multiple) == (Decide(summary, length, multiple) == Exceeds)
  {
  }

  /** A run that compacts each night with the table of that night judges absences, at every point and after any
      deletions, as the uncompacted history would, as long as no cut overlooked a day of a kind met only later. */
  lemma CompactedJudgesLikeWhole(
    states: seq<Store>, steps: seq<Step>, day: int -> int, i: nat,
    item: Expectation, unsettled: seq<Expectation>, t: Table, multiple: HalfLife)
    requires Run(states, steps, day) && i < |states| && Monotone(day) && Pending(states[i], item, unsettled)
    requires MadeAlong(states[i].cuts, t)
    requires NothingOverlooked(states[i].cuts, t, TypesOf(DaysBefore(History(states[i].log), item, None, unsettled, day), Some(t)))
    ensures var s := states[i];
            ReturnedAfterAbsence(FactsOf(s), item, Some(t), s.base, unsettled, multiple, day) ==
            ReturnedAfterAbsence(History(s.log), item, Some(t), None, unsettled, multiple, day)
  {
    RunKeeps(states, steps, day, i);
    StoreJudgesLikeWhole(states[i], day, item, unsettled, t, multiple);
  }

  lemma StoreJudgesLikeWhole(
    s: Store, day: int -> int, item: Expectation, unsettled: seq<Expectation>, t: Table, multiple: HalfLife)
    requires Inv(s, day) && Monotone(day) && Pending(s, item, unsettled)
    requires MadeAlong(s.cuts, t)
    requires NothingOverlooked(s.cuts, t, TypesOf(DaysBefore(History(s.log), item, None, unsettled, day), Some(t)))
    ensures ReturnedAfterAbsence(FactsOf(s), item, Some(t), s.base, unsettled, multiple, day) ==
            ReturnedAfterAbsence(History(s.log), item, Some(t), None, unsettled, multiple, day)
  {
    var since := DaysBefore(FactsOf(s), item, s.base, unsettled, day);
    var whole := DaysBefore(History(s.log), item, None, unsettled, day);
    DaysFollow(s, day, item, unsettled);
    JudgedAlike(s.cuts, since, whole, day(item.formedAt), t, multiple, FoldCuts(s.cuts), NOTHING);
  }

  lemma CompactedDaysComeFirst(
    s: Store, day: int -> int, item: Expectation, unsettled: seq<Expectation>, c: int, d: int)
    requires Inv(s, day) && Monotone(day) && Pending(s, item, unsettled)
    requires c in DaysOf(s.cuts) && d in DaysBefore(FactsOf(s), item, s.base, unsettled, day)
    ensures c <= d
  {
    var f := CompactedOn(s, day, c);
    CompactedComesFirst(s, item, unsettled, f);
    var k := MomentOn(FactsOf(s), item, s.base, unsettled, day, d);
    BoundarySeparates(s.base.value.through, KeyOf(f), k);
  }

  lemma CompactedOn(s: Store, day: int -> int, c: int) returns (f: Fact)
    requires Inv(s, day) && Monotone(day) && c in DaysOf(s.cuts)
    ensures f in Compacted(s) && day(f.at) == c
  {
    CompactedDaysHas(s, day, c);
    f :| f in Compacted(s) && IsOpportunity(f) && day(f.at) == c;
  }

  lemma MomentOn(
    facts: seq<Fact>, item: Expectation, base: Option<Summary>, unsettled: seq<Expectation>, day: int -> int, d: int)
    returns (k: Key)
    requires d in DaysBefore(facts, item, base, unsettled, day)
    ensures Before(item, Through(base))(k) && day(k.at) == d
  {
    DaysBeforeHas(facts, item, base, unsettled, day, d);
    k :| k in Moments(facts, unsettled) && Before(item, Through(base))(k) && day(k.at) == d;
  }

  lemma DaysFollow(s: Store, day: int -> int, item: Expectation, unsettled: seq<Expectation>)
    requires Inv(s, day) && Monotone(day) && Pending(s, item, unsettled)
    ensures Follows(s.cuts, DaysBefore(FactsOf(s), item, s.base, unsettled, day), DaysBefore(History(s.log), item, None, unsettled, day))
  {
    var since := DaysBefore(FactsOf(s), item, s.base, unsettled, day);
    var whole := DaysBefore(History(s.log), item, None, unsettled, day);
    DaysAscend(FactsOf(s), item, s.base, unsettled, day);
    DaysAscend(History(s.log), item, None, unsettled, day);
    forall c, d | c in DaysOf(s.cuts) && d in since ensures c <= d {
      CompactedDaysComeFirst(s, day, item, unsettled, c, d);
    }
    forall d ensures d in whole <==> d in DaysOf(s.cuts) || d in since {
      WholeDays(s, day, item, unsettled, d);
    }
    DaysJoin(DaysOf(s.cuts), since, whole);
  }

  lemma DaysAscend(
    facts: seq<Fact>, item: Expectation, base: Option<Summary>, unsettled: seq<Expectation>, day: int -> int)
    ensures Ascending(IntLe, DaysBefore(facts, item, base, unsettled, day))
  {
    DistinctLists(Map(DayOfKey(day), Filter(Before(item, Through(base)), Moments(facts, unsettled))));
  }

  lemma DaysJoin(compacted: seq<int>, since: seq<int>, whole: seq<int>)
    requires Sorted(IntLe, compacted) && Ascending(IntLe, since) && Ascending(IntLe, whole)
    requires forall c, d :: c in compacted && d in since ==> c <= d
    requires forall d :: d in whole <==> d in compacted || d in since
    ensures Sorted(IntLe, compacted + since) && whole == Distinct(compacted + since)
  {
    NumbersAreOrdered();
    SortedJoin(compacted, since);
    DistinctLists(compacted + since);
    forall d ensures d in whole <==> d in Distinct(compacted + since) {
      assert d in compacted + since <==> d in compacted || d in since;
    }
    AscendingUnique(IntLe, whole, Distinct(compacted + since));
  }

  lemma BoundarySeparates(boundary: Key, low: Key, high: Key)
    requires KeyLe(low, boundary) && !KeyLe(high, boundary)
    ensures low.at <= high.at
  {
    KeysAreOrdered();
  }

  /** Over a run, the compactions and the live reading between them hand every neighbouring pair of days of
      opportunity to the gap measure exactly once. */
  lemma EveryGapMeasuredOnce(
    states: seq<Store>, steps: seq<Step>, day: int -> int, i: nat, item: Expectation, unsettled: seq<Expectation>)
    requires Run(states, steps, day) && i < |states| && Monotone(day) && Pending(states[i], item, unsettled)
    ensures var s := states[i];
            Spans(MeasuredBy(s.cuts)) +
            Pairs(Distinct(Anchors(LastDay(s.base), DaysBefore(FactsOf(s), item, s.base, unsettled, day)))) ==
            Pairs(DaysBefore(History(s.log), item, None, unsettled, day))
  {
    var s := states[i];
    RunKeeps(states, steps, day, i);
    DaysFollow(s, day, item, unsettled);
    EachPairMeasuredOnce(s.cuts);
    FoldCutsCarries(s.cuts);
    PairsJoin(DaysOf(s.cuts), DaysBefore(FactsOf(s), item, s.base, unsettled, day));
  }
}
