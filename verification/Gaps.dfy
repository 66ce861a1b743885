/** The intervals between the days an account had an opportunity: how long each one effectively was, and
    how compaction folds them into a distribution (habitus/temporal/absence.py and compacted_gaps in
    habitus/foresight/absence.py). Days are numbered. */
module Gaps {
  import opened Orders
  import opened Sequences

  type DayKind = Option<string>

  datatype Watch = Watch(share: real, dayType: DayKind)

  /** The opportunity table: how much of each recorded day was watched, and what kind of day it was. */
  type Table = t: map<int, Watch> | forall d :: d in t ==> 0.0 <= t[d].share <= 1.0 witness map[]

  function Share(t: Table, d: int): real { if d in t then t[d].share else 0.0 }

  function DayType(t: Table, d: int): DayKind { if d in t then t[d].dayType else None }

  /** What a day is measured with: days with an opportunity count in full, whatever the table says. */
  datatype Rulers = Rulers(table: Option<Table>, seen: set<int>, types: set<DayKind>) {
    function Watched(d: int): real {
      if d in seen || table.None? then 1.0 else Share(table.value, d)
    }

    predicate Counts(d: int) {
      d in seen || table.None? || DayType(table.value, d) in types
    }

    function DayLength(d: int): (r: real)
      ensures 0.0 <= r <= 1.0
    {
      if Counts(d) then Watched(d) else 0.0
    }
  }

  datatype Gap = Gap(start: int, end: int, length: real)

  /** The length of the days after start up to and including end. */
  function Length(r: Rulers, start: int, end: int): (l: real)
    ensures l >= 0.0
    decreases if end <= start then 0 else end - start
  {
    if end <= start then 0.0 else Length(r, start, end - 1) + r.DayLength(end)
  }

  /** A length is the sum over any split of its days, never more than their number, and their number when there is no
      table to measure them by. */
  lemma {:induction false} LengthIsAdditive(r: Rulers, start: int, middle: int, end: int)
    requires start <= middle <= end
    ensures Length(r, start, end) == Length(r, start, middle) + Length(r, middle, end)
    ensures Length(r, middle, end) <= (end - middle) as real
    ensures r.table.None? ==> Length(r, middle, end) == (end - middle) as real
    decreases end - middle
  {
    if middle < end {
      LengthIsAdditive(r, start, middle, end - 1);
    }
  }

  /** What each day adds, from the table: a day with an opportunity counts in full; another day by the share of it that
      was watched if it is of a kind that counts, and not at all if it is not or if the table does not know it. */
  lemma DaysCountByTheirShare(t: Table, seen: set<int>, types: set<DayKind>, d: int)
    ensures d in seen ==> Length(Rulers(Some(t), seen, types), d - 1, d) == 1.0
    ensures d !in seen && d in t && t[d].dayType in types ==> Length(Rulers(Some(t), seen, types), d - 1, d) == t[d].share
    ensures d !in seen && d in t && t[d].dayType !in types ==> Length(Rulers(Some(t), seen, types), d - 1, d) == 0.0
    ensures d !in seen && d !in t ==> Length(Rulers(Some(t), seen, types), d - 1, d) == 0.0
    ensures Length(Rulers(None, seen, types), d - 1, d) == 1.0
  {
    var r, untabled := Rulers(Some(t), seen, types), Rulers(None, seen, types);
    assert Length(r, d - 1, d - 1) == 0.0 && Length(untabled, d - 1, d - 1) == 0.0;
  }

  method GapBetween(r: Rulers, start: int, end: int) returns (g: Gap)
    requires start < end
    ensures g == Gap(start, end, Length(r, start, end))
  {
    var length := 0.0;
    var day := start + 1;
    while day <= end
      invariant start < day <= end + 1
      invariant length == Length(r, start, day - 1)
    {
      if r.Counts(day) {
        length := length + r.Watched(day);
      }
      day := day + 1;
    }
    g := Gap(start, end, length);
  }

  function Distinct(days: seq<int>): seq<int> {
    NumbersAreOrdered();
    Listing(IntLe, Elements(days))
  }

  function Pairs(days: seq<int>): (r: seq<(int, int)>)
    ensures |r| == if days == [] then 0 else |days| - 1
    ensures forall i :: 0 <= i < |r| ==> r[i] == (days[i], days[i + 1])
  {
    if days == [] then [] else seq(|days| - 1, i requires 0 <= i < |days| - 1 => (days[i], days[i + 1]))
  }

  function Measure(r: Rulers): ((int, int)) -> Gap {
    (p: (int, int)) => Gap(p.0, p.1, Length(r, p.0, p.1))
  }

  /** Between neighbouring days of opportunity; several opportunities on one day are one. */
  function EffectiveGaps(days: seq<int>, r: Rulers): seq<Gap> {
    Map(Measure(r), Pairs(Distinct(days)))
  }

  function LengthsOf(gaps: seq<Gap>): multiset<real> {
    multiset(Map((g: Gap) => g.length, gaps))
  }

  /** Each length with how often it occurs, the shortest first. */
  function Distribution(lengths: multiset<real>): seq<(real, nat)> {
    NumbersAreOrdered();
    Items(RealLe, lengths)
  }

  lemma DistributionRoundTrip(lengths: multiset<real>)
    ensures FromItems(Distribution(lengths)) == lengths
    ensures lengths == multiset{} ==> Distribution(lengths) == []
  {
    NumbersAreOrdered();
    ItemsRoundTrip(RealLe, lengths);
    assert Keys<real>(multiset{}) == {};
  }

  function Including(lengths: seq<(real, nat)>, gaps: seq<Gap>): seq<(real, nat)> {
    if gaps == [] then lengths else Distribution(FromItems(lengths) + LengthsOf(gaps))
  }

  /** Unknown kinds of day first, then by name. */
  predicate KindLe(a: DayKind, b: DayKind) {
    a.None? || (b.Some? && TextLe(a.value, b.value))
  }

  lemma KindsAreOrdered()
    ensures TotalOrder(KindLe)
  {
    TextIsOrdered();
    forall a, b, c | Chain(KindLe, a, b, c) ensures KindLe(a, c) {
      if a.Some? { Transitive(TextLe, a.value, b.value, c.value); }
    }
  }

  function KindListing(kinds: set<DayKind>): seq<DayKind> {
    KindsAreOrdered();
    Listing(KindLe, kinds)
  }

  lemma KindsListed(kinds: set<DayKind>)
    ensures Elements(KindListing(kinds)) == kinds
    ensures kinds == {} ==> KindListing(kinds) == []
  {
    KindsAreOrdered();
    ListingLists(KindLe, kinds);
  }

  /** The part of a summary that is about gaps. */
  datatype GapPart = GapPart(lengths: seq<(real, nat)>, lastDay: Option<int>, dayTypes: seq<DayKind>)

  const NOTHING := GapPart([], None, [])

  function Anchors(lastDay: Option<int>, days: seq<int>): seq<int> {
    (if lastDay.Some? then [lastDay.value] else []) + days
  }

  function TypesOf(days: seq<int>, table: Option<Table>): set<DayKind> {
    set d | d in days :: if table.Some? then DayType(table.value, d) else None
  }

  function CompactedGaps(previous: GapPart, days: seq<int>, table: Option<Table>): GapPart {
    var anchors := Anchors(previous.lastDay, days);
    var types := Elements(previous.dayTypes) + TypesOf(days, table);
    var lengths :=
      if |anchors| >= 2 then
        Including(previous.lengths, EffectiveGaps(anchors, Rulers(table, Elements(anchors), types)))
      else previous.lengths;
    GapPart(lengths, if anchors == [] then None else Some(anchors[|anchors| - 1]), KindListing(types))
  }

  // ---- A history cut into pieces, each compacted with the table of its night ----

  datatype Cut = Cut(days: seq<int>, table: Option<Table>)

  function FoldCuts(cuts: seq<Cut>): GapPart {
    if cuts == [] then NOTHING
    else
      var n := |cuts| - 1;
      CompactedGaps(FoldCuts(cuts[..n]), cuts[n].days, cuts[n].table)
  }

  function DaysOf(cuts: seq<Cut>): seq<int> {
    if cuts == [] then [] else DaysOf(cuts[..|cuts| - 1]) + cuts[|cuts| - 1].days
  }

  function KindsOf(cuts: seq<Cut>): set<DayKind> {
    if cuts == [] then {}
    else KindsOf(cuts[..|cuts| - 1]) + TypesOf(cuts[|cuts| - 1].days, cuts[|cuts| - 1].table)
  }

  function LastOf(days: seq<int>): Option<int> {
    if days == [] then None else Some(days[|days| - 1])
  }

  /** One neighbouring pair of days handed to the gap measure, with what it was measured by. */
  datatype Measured = Measured(start: int, end: int, table: Option<Table>, types: set<DayKind>) {
    function Span(): (int, int) { (start, end) }

    function Measure(): real { Length(Rulers(table, {end}, types), start, end) }
  }

  function With(table: Option<Table>, types: set<DayKind>): ((int, int)) -> Measured {
    (p: (int, int)) => Measured(p.0, p.1, table, types)
  }

  /** Everything measured over the cuts, in order. */
  function MeasuredBy(cuts: seq<Cut>): seq<Measured> {
    if cuts == [] then [] else
      var n := |cuts| - 1;
      var anchors := Anchors(LastOf(DaysOf(cuts[..n])), cuts[n].days);
      MeasuredBy(cuts[..n]) + Map(With(cuts[n].table, KindsOf(cuts)), Pairs(Distinct(anchors)))
  }

  function Spans(ms: seq<Measured>): seq<(int, int)> { Map((m: Measured) => m.Span(), ms) }

  function Lengths(ms: seq<Measured>): seq<real> { Map((m: Measured) => m.Measure(), ms) }

  lemma DistinctLists(days: seq<int>)
    ensures Ascending(IntLe, Distinct(days))
    ensures forall i, j :: 0 <= i < j < |Distinct(days)| ==> Distinct(days)[i] < Distinct(days)[j]
    ensures forall d :: d in Distinct(days) <==> d in days
  {
    NumbersAreOrdered();
    ListingLists(IntLe, Elements(days));
  }

  /** In sorted days the distinct ones end with the last one. */
  lemma DistinctLast(days: seq<int>)
    requires Sorted(IntLe, days) && days != []
    ensures Distinct(days) != [] && Distinct(days)[|Distinct(days)| - 1] == days[|days| - 1]
  {
    DistinctLists(days);
    var all, last := Distinct(days), days[|days| - 1];
    assert last in days;
    var top := all[|all| - 1];
    assert last <= top by {
      var k :| 0 <= k < |all| && all[k] == last;
    }
    assert top <= last by {
      assert top in all && top in days;
      var j :| 0 <= j < |days| && days[j] == top;
      assert forall i :: 0 <= i < |days| - 1 ==> IntLe(days[i], days[|days| - 1]);
    }
  }

  lemma EmptyDistinct()
    ensures Distinct([]) == []
  {
    assert Elements<int>([]) == {};
  }

  /** The distinct days from an anchor on start with the anchor. */
  lemma DistinctFrom(last: int, more: seq<int>)
    requires forall d :: d in more ==> last <= d
    ensures var b := Distinct([last] + more);
            b != [] && b[0] == last && Ascending(IntLe, b) && forall d :: d in b <==> d == last || d in more
  {
    var anchors := [last] + more;
    var b := Distinct(anchors);
    DistinctLists(anchors);
    assert last in anchors;
    var k :| 0 <= k < |b| && b[k] == last;
    assert b[0] in anchors;
  }

  lemma SortedParts(first: seq<int>, more: seq<int>)
    requires Sorted(IntLe, first + more)
    ensures Sorted(IntLe, first)
    ensures forall c, d :: c in first && d in more ==> c <= d
  {
    var all := first + more;
    assert forall i :: 0 <= i < |first| ==> first[i] == all[i];
    forall i, j | 0 <= i < |first| && 0 <= j < |more| ensures first[i] <= more[j] {
      assert more[j] == all[|first| + j] && IntLe(all[i], all[|first| + j]);
    }
  }

  lemma PairsOverlap(a: seq<int>, b: seq<int>)
    requires a != [] && b != [] && a[|a| - 1] == b[0]
    ensures Pairs(a[..|a| - 1] + b) == Pairs(a) + Pairs(b)
  {
  }

  /** Days added at the end add exactly the pairs of the last day before them and themselves. */
  lemma PairsJoin(first: seq<int>, more: seq<int>)
    requires Sorted(IntLe, first + more)
    ensures Pairs(Distinct(first + more))
         == Pairs(Distinct(first)) + Pairs(Distinct(Anchors(LastOf(first), more)))
  {
    if first == [] {
      assert first + more == more && Anchors(LastOf(first), more) == more;
      EmptyDistinct();
    } else {
      var last := first[|first| - 1];
      SortedParts(first, more);
      assert last in first;
      DistinctLast(first);
      DistinctLists(first);
      DistinctFrom(last, more);
      var a, b := Distinct(first), Distinct([last] + more);
      JoinedIsDistinct(first, more, a, b);
      PairsOverlap(a, b);
    }
  }

  lemma JoinedIsDistinct(first: seq<int>, more: seq<int>, a: seq<int>, b: seq<int>)
    requires Ascending(IntLe, a) && Ascending(IntLe, b) && a != [] && b != [] && a[|a| - 1] == b[0]
    requires forall d :: d in a <==> d in first
    requires forall d :: d in b <==> d == b[0] || d in more
    ensures Distinct(first + more) == a[..|a| - 1] + b
  {
    NumbersAreOrdered();
    var joined := a[..|a| - 1] + b;
    forall i, j | 0 <= i < j < |joined| ensures joined[i] < joined[j] {
      if i < |a| - 1 && j >= |a| - 1 {
        assert a[i] < a[|a| - 1];
        assert j == |a| - 1 || b[0] < b[j - (|a| - 1)];
      }
    }
    assert a == a[..|a| - 1] + [b[0]];
    assert b == [b[0]] + b[1..];
    forall d ensures d in joined <==> d in first + more {
      assert d in a <==> d in a[..|a| - 1] || d == b[0];
    }
    DistinctLists(first + more);
    AscendingUnique(IntLe, Distinct(first + more), joined);
  }

  lemma MeasuredAppend(ms: seq<Measured>, more: seq<Measured>)
    ensures Spans(ms + more) == Spans(ms) + Spans(more)
    ensures Lengths(ms + more) == Lengths(ms) + Lengths(more)
  {
  }

  lemma SpansWith(table: Option<Table>, types: set<DayKind>, pairs: seq<(int, int)>)
    ensures Spans(Map(With(table, types), pairs)) == pairs
  {
  }

  /** A run of compactions hands every neighbouring pair of distinct days to the gap measure exactly once,
      in order: two cuts on one day add no pair of their own. */
  lemma {:induction false} EachPairMeasuredOnce(cuts: seq<Cut>)
    requires Sorted(IntLe, DaysOf(cuts))
    ensures Spans(MeasuredBy(cuts)) == Pairs(Distinct(DaysOf(cuts)))
  {
    if cuts == [] {
      EmptyDistinct();
    } else {
      var front, cut := cuts[..|cuts| - 1], cuts[|cuts| - 1];
      SortedParts(DaysOf(front), cut.days);
      EachPairMeasuredOnce(front);
      PairsJoin(DaysOf(front), cut.days);
      var pairs := Pairs(Distinct(Anchors(LastOf(DaysOf(front)), cut.days)));
      SpansWith(cut.table, KindsOf(cuts), pairs);
      MeasuredAppend(MeasuredBy(front), Map(With(cut.table, KindsOf(cuts)), pairs));
    }
  }

  /** Between neighbours no other day of opportunity is passed, so only the day a gap ends on is seen. */
  lemma {:induction false} OnlyTheEndIsSeen(r: Rulers, start: int, end: int, stop: int)
    requires start <= stop <= end && end in r.seen
    requires forall d :: start < d < end ==> d !in r.seen
    ensures Length(r, start, stop) == Length(Rulers(r.table, {end}, r.types), start, stop)
    decreases stop - start
  {
    if start < stop {
      OnlyTheEndIsSeen(r, start, end, stop - 1);
    }
  }

  /** Days after all the anchors may be seen as well: no gap between anchors passes them. */
  lemma GapsAreMeasured(anchors: seq<int>, later: set<int>, table: Option<Table>, types: set<DayKind>)
    requires forall a, d :: a in anchors && d in later ==> a < d
    ensures var gaps := EffectiveGaps(anchors, Rulers(table, Elements(anchors) + later, types));
            Map((g: Gap) => g.length, gaps) == Lengths(Map(With(table, types), Pairs(Distinct(anchors))))
  {
    var days := Distinct(anchors);
    var r := Rulers(table, Elements(anchors) + later, types);
    DistinctLists(anchors);
    forall i | 0 <= i < |Pairs(days)|
      ensures Length(r, days[i], days[i + 1]) == With(table, types)(Pairs(days)[i]).Measure()
    {
      assert days[i] < days[i + 1] && days[i + 1] in days;
      assert days[i + 1] in anchors;
      assert forall k :: 0 <= k < |days| ==> !(days[i] < days[k] < days[i + 1]);
      assert forall d :: d in days ==> !(days[i] < d < days[i + 1]);
      OnlyTheEndIsSeen(r, days[i], days[i + 1], days[i + 1]);
    }
  }

  /** A run of compactions carries the last day and the kinds of day met. */
  lemma {:induction false} FoldCutsCarries(cuts: seq<Cut>)
    ensures FoldCuts(cuts).lastDay == LastOf(DaysOf(cuts))
    ensures FoldCuts(cuts).dayTypes == KindListing(KindsOf(cuts))
    ensures Elements(FoldCuts(cuts).dayTypes) == KindsOf(cuts)
  {
    KindsListed(KindsOf(cuts));
    if cuts != [] {
      var front, cut := cuts[..|cuts| - 1], cuts[|cuts| - 1];
      FoldCutsCarries(front);
      CompactedCarries(FoldCuts(front), cut.days, cut.table, DaysOf(front), KindsOf(front));
    }
  }

  lemma CompactedCarries(previous: GapPart, days: seq<int>, table: Option<Table>, before: seq<int>, kinds: set<DayKind>)
    requires previous.lastDay == LastOf(before) && Elements(previous.dayTypes) == kinds
    ensures CompactedGaps(previous, days, table).lastDay == LastOf(before + days)
    ensures CompactedGaps(previous, days, table).dayTypes == KindListing(kinds + TypesOf(days, table))
  {
    LastOfMore(before, days);
  }

  /** The kinds of day a summary lists, from the tables of its cuts: those of the days of opportunity that a table knew,
      and the unknown kind for the others. */
  lemma KindsAreOfTheDays(cuts: seq<Cut>, kind: DayKind)
    ensures kind in FoldCuts(cuts).dayTypes <==>
            exists i, d :: 0 <= i < |cuts| && HasKind(cuts[i], d, kind)
  {
    FoldCutsCarries(cuts);
    assert kind in FoldCuts(cuts).dayTypes <==> kind in Elements(FoldCuts(cuts).dayTypes);
    KindsOfHas(cuts, kind);
  }

  predicate HasKind(c: Cut, d: int, kind: DayKind) {
    d in c.days && kind == if c.table.Some? && d in c.table.value then c.table.value[d].dayType else None
  }

  lemma {:induction false} KindsOfHas(cuts: seq<Cut>, kind: DayKind)
    ensures kind in KindsOf(cuts) <==> exists i, d :: 0 <= i < |cuts| && HasKind(cuts[i], d, kind)
  {
    if cuts != [] {
      var n := |cuts| - 1;
      KindsOfHas(cuts[..n], kind);
      CutHasKind(cuts[n], kind);
      if i, d :| 0 <= i < n && HasKind(cuts[..n][i], d, kind) {
        assert HasKind(cuts[i], d, kind);
      }
      if i, d :| 0 <= i < n && HasKind(cuts[i], d, kind) {
        assert HasKind(cuts[..n][i], d, kind);
      }
    }
  }

  lemma CutHasKind(c: Cut, kind: DayKind)
    ensures kind in TypesOf(c.days, c.table) <==> exists d :: HasKind(c, d, kind)
  {
    if kind in TypesOf(c.days, c.table) {
      var d :| d in c.days && kind == if c.table.Some? then DayType(c.table.value, d) else None;
      assert HasKind(c, d, kind);
    }
  }

  /** The unknown kind comes first, and the others by name. */
  lemma KindsAreListedByName(kinds: set<DayKind>, i: nat, j: nat)
    requires i < j < |KindListing(kinds)|
    ensures var listed := KindListing(kinds);
      listed[j].Some? && (listed[i].Some? ==> TextLe(listed[i].value, listed[j].value) && listed[i].value != listed[j].value)
  {
    KindsAreOrdered();
    ListingLists(KindLe, kinds);
    assert KindLe(KindListing(kinds)[i], KindListing(kinds)[j]);
  }

  lemma LastOfMore(days: seq<int>, more: seq<int>)
    ensures var anchors := Anchors(LastOf(days), more);
            LastOf(days + more) == if anchors == [] then None else Some(anchors[|anchors| - 1])
  {
  }

  lemma NoPairs(anchors: seq<int>)
    requires |anchors| < 2
    ensures Pairs(Distinct(anchors)) == []
  {
    if anchors == [] {
      EmptyDistinct();
    } else {
      assert Ascending(IntLe, anchors) by { NumbersAreOrdered(); }
      NumbersAreOrdered();
      AscendingIsListing(IntLe, anchors);
    }
  }

  lemma IncludingMeasured(before: seq<real>, gaps: seq<Gap>)
    ensures Including(Distribution(multiset(before)), gaps)
         == Distribution(multiset(before + Map((g: Gap) => g.length, gaps)))
  {
    DistributionRoundTrip(multiset(before));
    var lengths := Map((g: Gap) => g.length, gaps);
    assert gaps == [] ==> before + lengths == before;
    assert LengthsOf(gaps) == multiset(lengths);
  }

  /** The stored distribution of lengths is exactly that of what was measured. */
  lemma {:induction false} FoldCutsMeasures(cuts: seq<Cut>)
    ensures FoldCuts(cuts).lengths == Distribution(multiset(Lengths(MeasuredBy(cuts))))
  {
    if cuts == [] {
      DistributionRoundTrip(multiset(Lengths([])));
    } else {
      var front, cut := cuts[..|cuts| - 1], cuts[|cuts| - 1];
      FoldCutsMeasures(front);
      FoldCutsCarries(front);
      var anchors := Anchors(LastOf(DaysOf(front)), cut.days);
      var gaps := EffectiveGaps(anchors, Rulers(cut.table, Elements(anchors), KindsOf(cuts)));
      var added := Map(With(cut.table, KindsOf(cuts)), Pairs(Distinct(anchors)));
      assert Elements(anchors) + {} == Elements(anchors);
      GapsAreMeasured(anchors, {}, cut.table, KindsOf(cuts));
      MeasuredAppend(MeasuredBy(front), added);
      IncludingMeasured(Lengths(MeasuredBy(front)), gaps);
      if |anchors| < 2 {
        NoPairs(anchors);
      }
      if gaps == [] {
        assert Lengths(MeasuredBy(front)) + Lengths(added) == Lengths(MeasuredBy(front));
      }
    }
  }

  // ---- When the place of the cuts matters ----

  /** A day inside a measured gap that was watched, and whose kind the account met only after the cut that
      measured it: measuring later would have counted it. */
  predicate Overlooked(m: Measured, t: Table, kinds: set<DayKind>, d: int) {
    m.start < d < m.end && DayType(t, d) in kinds - m.types && Share(t, d) > 0.0
  }

  /** No compaction overlooked a day that these kinds would count. */
  ghost predicate NothingOverlooked(cuts: seq<Cut>, t: Table, kinds: set<DayKind>) {
    forall m, d :: m in MeasuredBy(cuts) ==> !Overlooked(m, t, kinds, d)
  }

  predicate MadeWith(cuts: seq<Cut>, t: Table) {
    forall c :: c in cuts ==> c.table == Some(t)
  }

  ghost predicate AgreeUpTo(a: Table, b: Table, last: int) {
    forall d :: d <= last ==> Share(a, d) == Share(b, d) && DayType(a, d) == DayType(b, d)
  }

  /** A cut made on some night, with the table of that night: the table is worked out anew every night and knows more
      days each time, but up to the last day of the cut it says what this one says. */
  ghost predicate CutAlong(c: Cut, t: Table) {
    c.days != [] ==> c.table.Some? && AgreeUpTo(c.table.value, t, c.days[|c.days| - 1])
  }

  ghost predicate MadeAlong(cuts: seq<Cut>, t: Table) {
    forall c :: c in cuts ==> CutAlong(c, t)
  }

  lemma {:induction false} MoreKindsMeasureMore(t: Table, few: set<DayKind>, many: set<DayKind>, start: int, end: int, stop: int)
    requires start <= stop <= end && few <= many
    ensures var a, b := Length(Rulers(Some(t), {end}, few), start, stop), Length(Rulers(Some(t), {end}, many), start, stop);
            a <= b && (a == b <==> forall d :: start < d <= stop && d != end && DayType(t, d) in many - few ==> Share(t, d) == 0.0)
    decreases stop - start
  {
    if start < stop {
      MoreKindsMeasureMore(t, few, many, start, end, stop - 1);
    }
  }

  lemma {:induction false} SumWithout(s: seq<real>, i: nat)
    requires i < |s|
    ensures Sum(s) == s[i] + Sum(s[..i] + s[i + 1..])
  {
    if i == 0 {
      assert s[..0] + s[1..] == s[1..];
    } else {
      SumWithout(s[1..], i - 1);
      assert s[1..][..i - 1] + s[1..][i..] == (s[..i] + s[i + 1..])[1..];
    }
  }

  lemma {:induction false} SameBagSameSum(s: seq<real>, t: seq<real>)
    requires multiset(s) == multiset(t)
    ensures Sum(s) == Sum(t)
  {
    if s == [] {
      assert |multiset(t)| == 0;
    } else {
      var i := FirstAmong(s, t);
      SameBagSameSum(s[1..], t[..i] + t[i + 1..]);
      SumWithout(t, i);
    }
  }

  lemma {:induction false} PointwiseSum(s: seq<real>, t: seq<real>)
    requires |s| == |t| && forall i :: 0 <= i < |s| ==> s[i] <= t[i]
    ensures Sum(s) <= Sum(t)
    ensures Sum(s) == Sum(t) ==> s == t
  {
    if s != [] {
      PointwiseSum(s[1..], t[1..]);
      assert s == [s[0]] + s[1..] && t == [t[0]] + t[1..];
    }
  }

  lemma {:induction false} MeasuredWithTable(cuts: seq<Cut>, t: Table)
    requires MadeWith(cuts, t)
    ensures forall m :: m in MeasuredBy(cuts) ==> m.table == Some(t) && m.types <= KindsOf(cuts) && m.start < m.end
    ensures KindsOf(cuts) == TypesOf(DaysOf(cuts), Some(t))
  {
    if cuts != [] {
      var front, cut := cuts[..|cuts| - 1], cuts[|cuts| - 1];
      assert forall c :: c in front ==> c in cuts;
      assert cut in cuts;
      MeasuredWithTable(front, t);
      DistinctLists(Anchors(LastOf(DaysOf(front)), cut.days));
    }
  }

  // ---- One table in place of those of many nights ----

  function Retabled(cuts: seq<Cut>, t: Table): seq<Cut> {
    Map((c: Cut) => c.(table := Some(t)), cuts)
  }

  function Reread(ms: seq<Measured>, t: Table): seq<Measured> {
    Map((m: Measured) => m.(table := Some(t)), ms)
  }

  lemma {:induction false} SameUpTo(a: Table, b: Table, types: set<DayKind>, start: int, end: int, stop: int)
    requires AgreeUpTo(a, b, end) && start <= stop <= end
    ensures Length(Rulers(Some(a), {end}, types), start, stop) == Length(Rulers(Some(b), {end}, types), start, stop)
    decreases stop - start
  {
    if start < stop {
      SameUpTo(a, b, types, start, end, stop - 1);
    }
  }

  lemma MeasuresAlike(m: Measured, t: Table, last: int)
    requires m.table.Some? && AgreeUpTo(m.table.value, t, last) && m.start < m.end <= last
    ensures m.Measure() == m.(table := Some(t)).Measure()
  {
    SameUpTo(m.table.value, t, m.types, m.start, m.end, m.end);
  }

  lemma SameKinds(days: seq<int>, a: Table, b: Table, last: int)
    requires AgreeUpTo(a, b, last) && forall d :: d in days ==> d <= last
    ensures TypesOf(days, Some(a)) == TypesOf(days, Some(b))
  {
  }

  lemma LastIsLatest(days: seq<int>)
    requires Sorted(IntLe, days)
    ensures forall d :: d in days ==> days != [] && d <= days[|days| - 1]
  {
    forall d | d in days ensures d <= days[|days| - 1] {
      var k :| 0 <= k < |days| && days[k] == d;
      assert k == |days| - 1 || IntLe(days[k], days[|days| - 1]);
    }
  }

  /** What one cut measures is as long by its own table as by one it agrees with. */
  lemma CutMeasuresAlike(before: seq<int>, c: Cut, types: set<DayKind>, t: Table)
    requires Sorted(IntLe, before + c.days) && CutAlong(c, t)
    ensures TypesOf(c.days, c.table) == TypesOf(c.days, Some(t))
    ensures var pairs := Pairs(Distinct(Anchors(LastOf(before), c.days)));
            Lengths(Map(With(c.table, types), pairs)) == Lengths(Map(With(Some(t), types), pairs))
  {
    var anchors := Anchors(LastOf(before), c.days);
    var pairs := Pairs(Distinct(anchors));
    if c.days == [] {
      NoPairs(anchors);
    } else {
      SortedSuffix(before, c.days);
      LastIsLatest(before + c.days);
      var last := c.days[|c.days| - 1];
      assert (before + c.days)[|before + c.days| - 1] == last;
      DistinctLists(anchors);
      forall d | d in anchors ensures d <= last { assert d in before + c.days; }
      SameKinds(c.days, c.table.value, t, last);
      forall i | 0 <= i < |pairs|
        ensures With(c.table, types)(pairs[i]).Measure() == With(Some(t), types)(pairs[i]).Measure()
      {
        assert pairs[i].1 in Distinct(anchors);
        MeasuresAlike(With(c.table, types)(pairs[i]), t, last);
      }
    }
  }

  lemma SortedSuffix(first: seq<int>, more: seq<int>)
    requires Sorted(IntLe, first + more)
    ensures Sorted(IntLe, more)
  {
    forall i, j | 0 <= i < j < |more| ensures IntLe(more[i], more[j]) {
      assert more[i] == (first + more)[|first| + i] && more[j] == (first + more)[|first| + j];
    }
  }

  lemma RereadWith(table: Option<Table>, types: set<DayKind>, pairs: seq<(int, int)>, t: Table)
    ensures Reread(Map(With(table, types), pairs), t) == Map(With(Some(t), types), pairs)
  {
  }

  lemma RetabledFront(cuts: seq<Cut>, t: Table)
    requires cuts != []
    ensures var n := |cuts| - 1;
      && |Retabled(cuts, t)| == n + 1
      && Retabled(cuts, t)[..n] == Retabled(cuts[..n], t)
      && Retabled(cuts, t)[n] == Cut(cuts[n].days, Some(t))
  {
  }

  /** Cuts made with the tables of their nights measured what one table that agrees with all of them measures. */
  lemma {:induction false} RetablingKeeps(cuts: seq<Cut>, t: Table)
    requires Sorted(IntLe, DaysOf(cuts)) && MadeAlong(cuts, t)
    ensures DaysOf(Retabled(cuts, t)) == DaysOf(cuts)
    ensures KindsOf(Retabled(cuts, t)) == KindsOf(cuts)
    ensures MeasuredBy(Retabled(cuts, t)) == Reread(MeasuredBy(cuts), t)
    ensures Lengths(MeasuredBy(Retabled(cuts, t))) == Lengths(MeasuredBy(cuts))
  {
    if cuts != [] {
      var n := |cuts| - 1;
      var front, c := cuts[..n], cuts[n];
      assert c in cuts && forall e :: e in front ==> e in cuts;
      SortedParts(DaysOf(front), c.days);
      RetabledFront(cuts, t);
      RetablingKeeps(front, t);
      CutMeasuresAlike(DaysOf(front), c, KindsOf(cuts), t);
      var pairs := Pairs(Distinct(Anchors(LastOf(DaysOf(front)), c.days)));
      var own, other := Map(With(c.table, KindsOf(cuts)), pairs), Map(With(Some(t), KindsOf(cuts)), pairs);
      RereadWith(c.table, KindsOf(cuts), pairs, t);
      MeasuredAppend(MeasuredBy(front), own);
      MeasuredAppend(MeasuredBy(Retabled(front, t)), other);
      RereadAppend(MeasuredBy(front), own, t);
    }
  }

  lemma RereadAppend(ms: seq<Measured>, more: seq<Measured>, t: Table)
    ensures Reread(ms + more, t) == Reread(ms, t) + Reread(more, t)
  {
  }

  /** So they leave the same summary. */
  lemma RetablingKeepsTheSummary(cuts: seq<Cut>, t: Table)
    requires Sorted(IntLe, DaysOf(cuts)) && MadeAlong(cuts, t)
    ensures MadeWith(Retabled(cuts, t), t) && FoldCuts(Retabled(cuts, t)) == FoldCuts(cuts)
  {
    RetablingKeeps(cuts, t);
    RetabledIsOfOneTable(cuts, t);
    FoldCutsCarries(cuts);
    FoldCutsCarries(Retabled(cuts, t));
    FoldCutsMeasures(cuts);
    FoldCutsMeasures(Retabled(cuts, t));
  }

  lemma MeasuredAlong(cuts: seq<Cut>, t: Table)
    requires Sorted(IntLe, DaysOf(cuts)) && MadeAlong(cuts, t)
    ensures forall m :: m in MeasuredBy(cuts) ==> m.types <= KindsOf(cuts) && m.start < m.end
    ensures KindsOf(cuts) == TypesOf(DaysOf(cuts), Some(t))
  {
    RetablingKeeps(cuts, t);
    RetabledIsOfOneTable(cuts, t);
    MeasuredWithTable(Retabled(cuts, t), t);
    RereadHas(MeasuredBy(cuts), t, KindsOf(cuts));
  }

  lemma RetabledIsOfOneTable(cuts: seq<Cut>, t: Table)
    ensures MadeWith(Retabled(cuts, t), t)
  {
  }

  lemma RereadHas(ms: seq<Measured>, t: Table, kinds: set<DayKind>)
    requires forall m :: m in Reread(ms, t) ==> m.types <= kinds && m.start < m.end
    ensures forall m :: m in ms ==> m.types <= kinds && m.start < m.end
  {
    forall m | m in ms ensures m.types <= kinds && m.start < m.end {
      var i :| 0 <= i < |ms| && ms[i] == m;
      assert Reread(ms, t)[i] == m.(table := Some(t)) && Reread(ms, t)[i] in Reread(ms, t);
    }
  }

  /** And they overlooked the same days. */
  lemma RetablingOverlooks(cuts: seq<Cut>, t: Table, kinds: set<DayKind>)
    requires Sorted(IntLe, DaysOf(cuts)) && MadeAlong(cuts, t)
    ensures NothingOverlooked(Retabled(cuts, t), t, kinds) <==> NothingOverlooked(cuts, t, kinds)
  {
    RetablingKeeps(cuts, t);
    var ms, ns := MeasuredBy(cuts), MeasuredBy(Retabled(cuts, t));
    forall i, d | 0 <= i < |ms| ensures Overlooked(ns[i], t, kinds, d) == Overlooked(ms[i], t, kinds, d) {
    }
    if NothingOverlooked(Retabled(cuts, t), t, kinds) {
      forall m, d | m in ms ensures !Overlooked(m, t, kinds, d) {
        var i :| 0 <= i < |ms| && ms[i] == m;
        assert ns[i] in ns;
      }
    }
    if NothingOverlooked(cuts, t, kinds) {
      forall m, d | m in ns ensures !Overlooked(m, t, kinds, d) {
        var i :| 0 <= i < |ns| && ns[i] == m;
        assert ms[i] in ms;
      }
    }
  }

  function Whole(cuts: seq<Cut>, t: Table): seq<Cut> { [Cut(DaysOf(cuts), Some(t))] }

  lemma WholeMeasures(cuts: seq<Cut>, t: Table)
    requires Sorted(IntLe, DaysOf(cuts))
    requires MadeWith(cuts, t)
    ensures DaysOf(Whole(cuts, t)) == DaysOf(cuts) && KindsOf(Whole(cuts, t)) == KindsOf(cuts)
    ensures MeasuredBy(Whole(cuts, t)) == Map(With(Some(t), KindsOf(cuts)), Spans(MeasuredBy(cuts)))
  {
    var whole := Whole(cuts, t);
    assert whole[..0] == [];
    assert DaysOf(whole) == DaysOf(cuts);
    MeasuredWithTable(cuts, t);
    assert KindsOf(whole) == KindsOf(cuts);
    EachPairMeasuredOnce(cuts);
    assert Anchors(LastOf([]), DaysOf(cuts)) == DaysOf(cuts);
    assert MeasuredBy([]) == [];
  }

  lemma MeasuredShort(m: Measured, t: Table, kinds: set<DayKind>)
    requires m.table == Some(t) && m.types <= kinds && m.start < m.end
    ensures var whole := Measured(m.start, m.end, Some(t), kinds).Measure();
            m.Measure() <= whole && (m.Measure() == whole <==> forall d :: !Overlooked(m, t, kinds, d))
  {
    MoreKindsMeasureMore(t, m.types, kinds, m.start, m.end, m.end);
    assert forall d :: Overlooked(m, t, kinds, d) <==>
        m.start < d <= m.end && d != m.end && DayType(t, d) in kinds - m.types && Share(t, d) != 0.0;
  }

  /** What the cuts measured, measured again with these kinds. */
  function Again(cuts: seq<Cut>, t: Table, kinds: set<DayKind>): seq<real> {
    Lengths(Map(With(Some(t), kinds), Spans(MeasuredBy(cuts))))
  }

  lemma OverlookedShortens(cuts: seq<Cut>, t: Table, kinds: set<DayKind>)
    requires MadeWith(cuts, t) && KindsOf(cuts) <= kinds
    ensures var a, b := Lengths(MeasuredBy(cuts)), Again(cuts, t, kinds);
      && |a| == |b|
      && (forall i :: 0 <= i < |a| ==> a[i] <= b[i])
      && (a == b <==> NothingOverlooked(cuts, t, kinds))
  {
    MeasuredWithTable(cuts, t);
    var ms := MeasuredBy(cuts);
    var a, b := Lengths(ms), Again(cuts, t, kinds);
    forall i | 0 <= i < |ms|
      ensures a[i] <= b[i] && (a[i] == b[i] <==> forall d :: !Overlooked(ms[i], t, kinds, d))
    {
      assert ms[i] in ms;
      MeasuredShort(ms[i], t, kinds);
    }
    if a == b {
      forall m, d | m in ms ensures !Overlooked(m, t, kinds, d) {
        var i :| 0 <= i < |ms| && ms[i] == m;
        assert a[i] == b[i];
      }
    }
    if NothingOverlooked(cuts, t, kinds) {
      forall i | 0 <= i < |ms| ensures a[i] == b[i] {
        assert ms[i] in ms;
      }
    }
  }

  lemma SameDistribution(a: seq<real>, b: seq<real>)
    requires |a| == |b| && forall i :: 0 <= i < |a| ==> a[i] <= b[i]
    ensures Distribution(multiset(a)) == Distribution(multiset(b)) <==> a == b
  {
    DistributionRoundTrip(multiset(a));
    DistributionRoundTrip(multiset(b));
    if multiset(a) == multiset(b) {
      SameBagSameSum(a, b);
      PointwiseSum(a, b);
    }
  }

  lemma DistributionsCompare(cuts: seq<Cut>, others: seq<Cut>)
    requires var a, b := Lengths(MeasuredBy(cuts)), Lengths(MeasuredBy(others));
             |a| == |b| && forall i :: 0 <= i < |a| ==> a[i] <= b[i]
    ensures FoldCuts(cuts).lengths == FoldCuts(others).lengths <==>
            Lengths(MeasuredBy(cuts)) == Lengths(MeasuredBy(others))
  {
    FoldCutsMeasures(cuts);
    FoldCutsMeasures(others);
    SameDistribution(Lengths(MeasuredBy(cuts)), Lengths(MeasuredBy(others)));
  }

  /** Where a history is cut never changes the last day or the kinds of day. */
  lemma CutsKeepDaysAndKinds(cuts: seq<Cut>, t: Table)
    requires Sorted(IntLe, DaysOf(cuts)) && MadeAlong(cuts, t)
    ensures FoldCuts(cuts).lastDay == FoldCuts(Whole(cuts, t)).lastDay
    ensures FoldCuts(cuts).dayTypes == FoldCuts(Whole(cuts, t)).dayTypes
  {
    var again := Retabled(cuts, t);
    RetablingKeeps(cuts, t);
    RetablingKeepsTheSummary(cuts, t);
    FoldCutsCarries(again);
    FoldCutsCarries(Whole(again, t));
    WholeMeasures(again, t);
  }

  /** It leaves the distribution of gap lengths as it would be uncut exactly when no cut overlooked a day. */
  lemma CutsMatterOnlyThroughOverlookedDays(cuts: seq<Cut>, t: Table)
    requires Sorted(IntLe, DaysOf(cuts)) && MadeAlong(cuts, t)
    ensures FoldCuts(cuts).lengths == FoldCuts(Whole(cuts, t)).lengths <==> NothingOverlooked(cuts, t, KindsOf(cuts))
  {
    var again := Retabled(cuts, t);
    RetablingKeeps(cuts, t);
    RetablingKeepsTheSummary(cuts, t);
    RetablingOverlooks(cuts, t, KindsOf(cuts));
    WholeMeasures(again, t);
    OverlookedShortens(again, t, KindsOf(cuts));
    DistributionsCompare(again, Whole(again, t));
  }

  // ---- Nights without a table ----

  /** Without any table there is nothing to overlook: where such a history is cut changes nothing. */
  lemma CutsWithoutATableNeverMatter(cuts: seq<Cut>, whole: seq<Cut>)
    requires Sorted(IntLe, DaysOf(cuts)) && forall c :: c in cuts ==> c.table == None
    requires |whole| == 1 && whole[0] == Cut(DaysOf(cuts), None)
    ensures FoldCuts(cuts) == FoldCuts(whole)
  {
    OneCut(whole);
    UntabledDays(cuts, whole);
    UntabledKinds(cuts, whole);
    UntabledLengths(cuts, whole);
    SamePart(FoldCuts(cuts), FoldCuts(whole));
  }

  lemma SamePart(a: GapPart, b: GapPart)
    requires a.lengths == b.lengths && a.lastDay == b.lastDay && a.dayTypes == b.dayTypes
    ensures a == b
  {
  }

  lemma UntabledDays(cuts: seq<Cut>, others: seq<Cut>)
    requires DaysOf(cuts) == DaysOf(others)
    ensures FoldCuts(cuts).lastDay == FoldCuts(others).lastDay
  {
    FoldCutsCarries(cuts);
    FoldCutsCarries(others);
  }

  lemma UntabledKinds(cuts: seq<Cut>, others: seq<Cut>)
    requires DaysOf(cuts) == DaysOf(others)
    requires (forall c :: c in cuts ==> c.table == None) && (forall c :: c in others ==> c.table == None)
    ensures FoldCuts(cuts).dayTypes == FoldCuts(others).dayTypes
  {
    FoldCutsCarries(cuts);
    FoldCutsCarries(others);
    UntabledMeasures(cuts);
    UntabledMeasures(others);
  }

  lemma UntabledLengths(cuts: seq<Cut>, others: seq<Cut>)
    requires DaysOf(cuts) == DaysOf(others) && Sorted(IntLe, DaysOf(cuts))
    requires (forall c :: c in cuts ==> c.table == None) && (forall c :: c in others ==> c.table == None)
    ensures FoldCuts(cuts).lengths == FoldCuts(others).lengths
  {
    UntabledMeasures(cuts);
    UntabledMeasures(others);
    EachPairMeasuredOnce(cuts);
    EachPairMeasuredOnce(others);
    FoldCutsMeasures(cuts);
    FoldCutsMeasures(others);
  }

  function CalendarDays(spans: seq<(int, int)>): seq<real> {
    Map((p: (int, int)) => (p.1 - p.0) as real, spans)
  }

  lemma CalendarAppend(a: seq<(int, int)>, b: seq<(int, int)>)
    ensures CalendarDays(a + b) == CalendarDays(a) + CalendarDays(b)
  {
  }

  lemma UntabledCut(anchors: seq<int>, kinds: set<DayKind>)
    ensures var ms := Map(With(None, kinds), Pairs(Distinct(anchors))); Lengths(ms) == CalendarDays(Spans(ms))
  {
    DistinctLists(anchors);
    var pairs := Pairs(Distinct(anchors));
    forall i | 0 <= i < |pairs| ensures With(None, kinds)(pairs[i]).Measure() == (pairs[i].1 - pairs[i].0) as real {
      LengthIsAdditive(Rulers(None, {pairs[i].1}, kinds), pairs[i].0, pairs[i].0, pairs[i].1);
    }
  }

  lemma {:induction false} UntabledMeasures(cuts: seq<Cut>)
    requires forall c :: c in cuts ==> c.table == None
    ensures Lengths(MeasuredBy(cuts)) == CalendarDays(Spans(MeasuredBy(cuts)))
    ensures KindsOf(cuts) == TypesOf(DaysOf(cuts), None)
  {
    if cuts != [] {
      var front, cut := cuts[..|cuts| - 1], cuts[|cuts| - 1];
      assert cut in cuts && forall c :: c in front ==> c in cuts;
      UntabledMeasures(front);
      var anchors := Anchors(LastOf(DaysOf(front)), cut.days);
      var more := Map(With(cut.table, KindsOf(cuts)), Pairs(Distinct(anchors)));
      UntabledCut(anchors, KindsOf(cuts));
      MeasuredAppend(MeasuredBy(front), more);
      CalendarAppend(Spans(MeasuredBy(front)), Spans(more));
      TypesAppend(DaysOf(front), cut.days);
    }
  }

  lemma TypesAppend(days: seq<int>, more: seq<int>)
    ensures TypesOf(days + more, None) == TypesOf(days, None) + TypesOf(more, None)
  {
    assert forall d :: d in days + more <==> d in days || d in more;
    assert forall list: seq<int>, d :: d in list ==> None in TypesOf(list, None);
  }

  /** A gap measured on a night without a table is no shorter than with one, and as long exactly when every day passed
      was watched in full and is of a kind that counts. */
  lemma {:induction false} WithoutATableIsNoShorter(t: Table, types: set<DayKind>, start: int, end: int, stop: int)
    requires start <= stop <= end
    ensures var a, b := Length(Rulers(Some(t), {end}, types), start, stop), Length(Rulers(None, {end}, types), start, stop);
            a <= b && (a == b <==> forall d :: start < d <= stop && d != end ==> DayType(t, d) in types && Share(t, d) == 1.0)
    decreases stop - start
  {
    if start < stop {
      WithoutATableIsNoShorter(t, types, start, end, stop - 1);
    }
  }

  lemma AnotherCut(front: seq<Cut>, cut: Cut)
    ensures DaysOf(front + [cut]) == DaysOf(front) + cut.days
    ensures KindsOf(front + [cut]) == KindsOf(front) + TypesOf(cut.days, cut.table)
    ensures FoldCuts(front + [cut]) == CompactedGaps(FoldCuts(front), cut.days, cut.table)
    ensures MeasuredBy(front) <= MeasuredBy(front + [cut])
  {
    assert (front + [cut])[..|front|] == front;
  }

  lemma OverlookedByFront(front: seq<Cut>, cut: Cut, m: Measured, t: Table, d: int)
    requires m in MeasuredBy(front) && m.start < d < m.end && Share(t, d) > 0.0
    requires DayType(t, d) !in m.types && DayType(t, d) in TypesOf(cut.days, cut.table)
    ensures m in MeasuredBy(front + [cut]) && Overlooked(m, t, KindsOf(front + [cut]), d)
  {
    AnotherCut(front, cut);
    var i :| 0 <= i < |MeasuredBy(front)| && MeasuredBy(front)[i] == m;
    assert MeasuredBy(front + [cut])[i] == m;
  }

  lemma TwoDistinct(a: int, b: int)
    requires a < b
    ensures Distinct([a, b]) == [a, b]
  {
    NumbersAreOrdered();
    AscendingIsListing(IntLe, [a, b]);
  }

  lemma OneCut(cuts: seq<Cut>)
    requires |cuts| == 1
    ensures DaysOf(cuts) == cuts[0].days
  {
    var front := cuts[..|cuts| - 1];
    assert DaysOf(front) == [];
    assert DaysOf(front) + cuts[0].days == cuts[0].days;
  }

  lemma OnePair(a: int, b: int, cuts: seq<Cut>) returns (m: Measured)
    requires a < b && DaysOf(cuts) == [a, b]
    ensures m in MeasuredBy(cuts) && m.start == a && m.end == b
  {
    TwoDistinct(a, b);
    EachPairMeasuredOnce(cuts);
    m := MeasuredBy(cuts)[0];
    assert Pairs([a, b])[0] == (a, b) && Spans(MeasuredBy(cuts))[0] == m.Span();
  }

  lemma OverlookedMatters(cuts: seq<Cut>, t: Table, m: Measured, d: int)
    requires Sorted(IntLe, DaysOf(cuts)) && MadeAlong(cuts, t)
    requires m in MeasuredBy(cuts) && Overlooked(m, t, KindsOf(cuts), d)
    ensures FoldCuts(cuts).lengths != FoldCuts(Whole(cuts, t)).lengths
  {
    CutsMatterOnlyThroughOverlookedDays(cuts, t);
  }

  lemma SortedThree(days: seq<int>, a: int, b: int, c: int)
    requires a < b < c && days == [a, b] + [c]
    ensures Sorted(IntLe, days)
  {
  }

  lemma KindsOfTwo(t: Table, a: int, b: int, days: seq<int>, kind: DayKind)
    requires days == [a, b] && DayType(t, a) != kind && DayType(t, b) != kind
    ensures kind !in TypesOf(days, Some(t))
  {
  }

  lemma KindUnmet(t: Table, a: int, between: int, b: int, front: seq<Cut>) returns (m: Measured)
    requires a < b && DaysOf(front) == [a, b] && MadeAlong(front, t)
    requires DayType(t, a) != DayType(t, between) && DayType(t, b) != DayType(t, between)
    ensures m in MeasuredBy(front) && m.start == a && m.end == b && DayType(t, between) !in m.types
  {
    assert Sorted(IntLe, DaysOf(front));
    m := OnePair(a, b, front);
    MeasuredAlong(front, t);
    KindsOfTwo(t, a, b, DaysOf(front), DayType(t, between));
  }

  lemma MadeAlongMore(front: seq<Cut>, cut: Cut, t: Table)
    requires MadeAlong(front, t) && CutAlong(cut, t)
    ensures MadeAlong(front + [cut], t)
  {
  }

  lemma ThreeDays(a: int, b: int, c: int, front: seq<Cut>, cut: Cut)
    requires a < b < c && |front| == 1 && front[0].days == [a, b] && cut.days == [c]
    ensures Sorted(IntLe, DaysOf(front + [cut]))
  {
    OneCut(front);
    AnotherCut(front, cut);
    SortedThree(DaysOf(front + [cut]), a, b, c);
  }

  lemma KindMet(t: Table, between: int, c: int, cut: Cut)
    requires cut.days == [c] && CutAlong(cut, t) && DayType(t, c) == DayType(t, between)
    ensures DayType(t, between) in TypesOf(cut.days, cut.table)
  {
    assert c in cut.days;
  }

  /** It can matter: when a watched day between the first two days of opportunity is of another kind than
      they are, and of the kind of the third, a cut after the second measures less than one after the third. */
  lemma APlaceToCutThatMatters(t: Table, a: int, between: int, b: int, c: int, front: seq<Cut>, cut: Cut)
    requires a < between < b < c && Share(t, between) > 0.0
    requires DayType(t, a) == DayType(t, b) && DayType(t, between) == DayType(t, c) && DayType(t, a) != DayType(t, c)
    requires |front| == 1 && front[0].days == [a, b] && MadeAlong(front, t) && cut.days == [c] && CutAlong(cut, t)
    ensures FoldCuts(front + [cut]).lengths != FoldCuts(Whole(front + [cut], t)).lengths
  {
    OneCut(front);
    var m := KindUnmet(t, a, between, b, front);
    KindMet(t, between, c, cut);
    OverlookedByFront(front, cut, m, t, between);
    ThreeDays(a, b, c, front, cut);
    MadeAlongMore(front, cut, t);
    OverlookedMatters(front + [cut], t, m, between);
  }
}
