/** What may be compacted away from an account and what is kept of it (habitus/foresight/compaction.py).
    The local date of an instant is a parameter; dates are numbered. */
module Compaction {
  import opened Orders
  import opened Sequences
  import opened Ledger
  import opened AccountClock
  import opened Gaps

  datatype Plan = Plan(boundary: Option<Key>, facts: seq<Fact>)

  datatype PlanError = WindowNotPositive

  datatype CompactError = NothingToCompact | NoFacts

  ghost predicate Monotone(day: int -> int) {
    forall a, b :: a <= b ==> day(a) <= day(b)
  }

  predicate OldEnough(day: int -> int, openDay: Option<int>, since: int, at: int) {
    day(at) < since && (openDay.None? || day(at) < openDay.value)
  }

  function Settled(day: int -> int, openDay: Option<int>, since: int): Key -> bool {
    (k: Key) => OldEnough(day, openDay, since, k.at)
  }

  function UpTo(boundary: Key): Fact -> bool {
    (f: Fact) => KeyLe(KeyOf(f), boundary)
  }

  function Beyond(through: Option<Key>): Fact -> bool {
    (f: Fact) => !Covered(through, KeyOf(f))
  }

  function Compactable(account: Account, day: int -> int, openDay: Option<int>, since: int, window: int)
    : Result<Plan, PlanError>
  {
    if window < 1 then Err(WindowNotPositive)
    else
      var keys := account.prediction.keys;
      var outside := if |keys| <= window then 0 else |keys| - window;
      var allowed := Filter(Settled(day, openDay, since), keys[..outside]);
      if allowed == [] then Ok(Plan(None, []))
      else
        var boundary := allowed[|allowed| - 1];
        Ok(Plan(Some(boundary), Filter(UpTo(boundary), account.facts)))
  }

  function Size(offset: Option<int>): nat {
    if offset.None? then 0 else if offset.value < 0 then -offset.value else offset.value
  }

  /** The sizes of the offsets of good natural hits, with repetition. */
  function HitOffsets(facts: seq<Fact>): multiset<nat> {
    if facts == [] then multiset{} else HitOffset(facts[0]) + HitOffsets(facts[1..])
  }

  function HitOffset(f: Fact): multiset<nat> {
    if f.good && IsNaturalHit(f) then multiset{Size(f.offset)} else multiset{}
  }

  function DayOf(day: int -> int): Fact -> int { (f: Fact) => day(f.at) }

  /** The days, in order and once each, on which these facts were opportunities. */
  function OpportunityDays(facts: seq<Fact>, day: int -> int): seq<int> {
    Distinct(Map(DayOf(day), Filter(Opportunity(), facts)))
  }

  function GapPartOf(base: Option<Summary>): GapPart {
    if base.None? then NOTHING else GapPart(base.value.gapLengths, base.value.lastDay, base.value.dayTypes)
  }

  function OffsetsOf(base: Option<Summary>): multiset<nat> {
    if base.None? then multiset{} else FromItems(base.value.offsets)
  }

  function AccountOf(account: Account, plan: Plan): string
    requires account.base.Some? || plan.facts != []
  {
    if account.base.Some? then account.base.value.account else plan.facts[0].account
  }

  /** A counter after these facts. */
  function Tally(offsets: multiset<nat>, facts: seq<Fact>): multiset<nat> { offsets + HitOffsets(facts) }

  lemma TallySnoc(offsets: multiset<nat>, facts: seq<Fact>, i: nat)
    requires i < |facts|
    ensures var f := facts[i];
            Tally(offsets, facts[..i + 1]) ==
            if f.good && IsNaturalHit(f) then Tally(offsets, facts[..i]) + multiset{Size(f.offset)} else Tally(offsets, facts[..i])
  {
    HitOffsetsSnoc(facts, i, offsets);
  }

  function Histogram(sizes: multiset<nat>): seq<(nat, nat)> {
    NumbersAreOrdered();
    Items(NatLe, sizes)
  }

  lemma HistogramRoundTrip(sizes: multiset<nat>)
    ensures FromItems(Histogram(sizes)) == sizes
  {
    NumbersAreOrdered();
    ItemsRoundTrip(NatLe, sizes);
  }

  /** The specification of Compact. */
  function Summarised(account: Account, plan: Plan, table: Option<Table>, day: int -> int): Result<Summary, CompactError> {
    if plan.boundary.None? then Err(NothingToCompact)
    else if account.base.None? && plan.facts == [] then Err(NoFacts)
    else
      var gaps := CompactedGaps(GapPartOf(account.base), OpportunityDays(plan.facts, day), table);
      Ok(Summary(
        AccountOf(account, plan),
        plan.boundary.value,
        Histogram(Tally(OffsetsOf(account.base), plan.facts)),
        gaps.lengths, gaps.lastDay, gaps.dayTypes))
  }

  method Compact(account: Account, plan: Plan, table: Option<Table>, day: int -> int)
    returns (r: Result<Summary, CompactError>)
    ensures r == Summarised(account, plan, table, day)
  {
    if plan.boundary.None? {
      return Err(NothingToCompact);
    }
    var offsets := OffsetsOf(account.base);
    for i := 0 to |plan.facts|
      invariant offsets == Tally(OffsetsOf(account.base), plan.facts[..i])
    {
      var f := plan.facts[i];
      TallySnoc(OffsetsOf(account.base), plan.facts, i);
      if f.good && IsNaturalHit(f) {
        offsets := offsets + multiset{Size(f.offset)};
      }
    }
    assert plan.facts[..|plan.facts|] == plan.facts;
    var gaps := CompactedGaps(GapPartOf(account.base), OpportunityDays(plan.facts, day), table);
    if account.base.None? && plan.facts == [] {
      return Err(NoFacts);
    }
    r := Ok(Summary(AccountOf(account, plan), plan.boundary.value, Histogram(offsets),
                    gaps.lengths, gaps.lastDay, gaps.dayTypes));
  }

  lemma {:induction false} HitOffsetsAppend(a: seq<Fact>, b: seq<Fact>)
    ensures HitOffsets(a + b) == HitOffsets(a) + HitOffsets(b)
  {
    if a == [] {
      assert a + b == b;
    } else {
      var all := a + b;
      assert all[0] == a[0] && all[1..] == a[1..] + b;
      calc {
        HitOffsets(all);
        HitOffset(a[0]) + HitOffsets(a[1..] + b);
        { HitOffsetsAppend(a[1..], b); }
        HitOffset(a[0]) + (HitOffsets(a[1..]) + HitOffsets(b));
        { BagsAssociate(HitOffset(a[0]), HitOffsets(a[1..]), HitOffsets(b)); }
        HitOffsets(a) + HitOffsets(b);
      }
    }
  }

  /** The facts counted under a number of minutes: good ones that came on time, early or late, by so many minutes either
      way. One without an offset counts as exact. */
  function CountedUnder(minutes: nat): Fact -> bool {
    (f: Fact) =>
      && f.good && (f.kind == OnTime || f.kind == Early || f.kind == Late)
      && match f.offset
         case Some(offset) => offset == minutes || offset + minutes == 0
         case None => minutes == 0
  }

  lemma {:induction false} OffsetsAreCounted(facts: seq<Fact>, minutes: nat)
    ensures HitOffsets(facts)[minutes] == |Filter(CountedUnder(minutes), facts)|
  {
    if facts != [] {
      var f, rest := facts[0], facts[1..];
      assert facts == [f] + rest;
      OffsetsAreCounted(rest, minutes);
      CountedOnce(f, minutes);
      FilterCons(CountedUnder(minutes), f, rest);
      CountsAdd(HitOffset(f), HitOffsets(rest), minutes);
    }
  }

  lemma CountedOnce(f: Fact, minutes: nat)
    ensures HitOffset(f)[minutes] == if CountedUnder(minutes)(f) then 1 else 0
  {
  }

  lemma CountsAdd(a: multiset<nat>, b: multiset<nat>, x: nat)
    ensures (a + b)[x] == a[x] + b[x]
  {
  }

  /** A summary's offsets list each number of minutes that was counted, with how many facts were counted under it. */
  lemma OffsetsListTheCounts(facts: seq<Fact>, minutes: nat, count: nat)
    ensures (minutes, count) in Histogram(HitOffsets(facts)) <==> count == |Filter(CountedUnder(minutes), facts)| && count > 0
  {
    NumbersAreOrdered();
    OffsetsAreCounted(facts, minutes);
    ItemsHas(NatLe, HitOffsets(facts), minutes, count);
  }

  lemma HitOffsetsSnoc(facts: seq<Fact>, i: nat, before: multiset<nat>)
    requires i < |facts|
    ensures before + HitOffsets(facts[..i + 1]) == before + HitOffsets(facts[..i]) + HitOffset(facts[i])
  {
    var f := facts[i];
    assert facts[..i + 1] == facts[..i] + [f];
    HitOffsetsAppend(facts[..i], [f]);
    assert HitOffsets([f]) == HitOffset(f) + HitOffsets([]);
    BagsAssociate(before, HitOffsets(facts[..i]), HitOffset(f));
  }

  // ---- A plan takes what is allowed and nothing else ----

  /** What every account that was read satisfies. */
  predicate WellRead(account: Account) {
    && OnePerExpectation(account.facts)
    && Sorted(FactLe, account.facts)
    && account.prediction.keys == OpportunityKeys(account.facts)
    && Ascending(KeyLe, account.prediction.keys)
  }

  lemma AccountsAreWellRead(facts: seq<Fact>, visibleAt: int, base: Option<Summary>)
    ensures RankedAccount(facts, visibleAt, base).Ok? && WellRead(RankedAccount(facts, visibleAt, base).value)
  {
    AccountAlwaysReads(facts, visibleAt, base);
    LiveFactsShape(Filter(Reads(visibleAt, Through(base)), facts));
  }

  /** What comes before something compacted is compacted. */
  lemma BoundaryReachesDown(boundary: Key, f: Fact, g: Fact)
    requires FactLe(f, g) && UpTo(boundary)(g)
    ensures UpTo(boundary)(f)
  {
    KeysAreOrdered();
    Transitive(KeyLe, KeyOf(f), KeyOf(g), boundary);
  }

  lemma SplitsAtBoundary(boundary: Key, facts: seq<Fact>)
    requires Sorted(FactLe, facts)
    ensures Filter(UpTo(boundary), facts) + Filter(Beyond(Some(boundary)), facts) == facts
  {
    forall f, g | FactLe(f, g) && UpTo(boundary)(g) ensures UpTo(boundary)(f) {
      BoundaryReachesDown(boundary, f, g);
    }
    SortedSplits(UpTo(boundary), Beyond(Some(boundary)), FactLe, facts);
  }

  /** The plan's facts come first in the account, and what is left after them follows. */
  lemma PlanTakesAPrefix(account: Account, plan: Plan)
    requires WellRead(account) && plan.boundary.Some? && plan.facts == Filter(UpTo(plan.boundary.value), account.facts)
    ensures plan.facts + Filter(Beyond(plan.boundary), account.facts) == account.facts
  {
    SplitsAtBoundary(plan.boundary.value, account.facts);
  }

  lemma {:induction false} KeptPrefixOfAscending(p: Key -> bool, keys: seq<Key>, i: nat)
    requires Ascending(KeyLe, keys) && i < |keys|
    requires forall a, b :: a in keys && b in keys && KeyLe(a, b) && p(b) ==> p(a)
    ensures p(keys[i]) <==> Filter(p, keys) != [] && KeyLe(keys[i], Filter(p, keys)[|Filter(p, keys)| - 1])
    ensures Filter(p, keys) != [] ==> Filter(p, keys)[|Filter(p, keys)| - 1] in keys
  {
    KeysAreOrdered();
    var kept := Filter(p, keys);
    if kept != [] {
      var last := kept[|kept| - 1];
      FilterHas(p, keys, last);
      assert last in kept;
      if p(keys[i]) {
        FilterHas(p, keys, keys[i]);
        FilterAscends(p, KeyLe, keys);
        var k :| 0 <= k < |kept| && kept[k] == keys[i];
      }
    } else {
      FilterHas(p, keys, keys[i]);
    }
  }

  lemma LastAllowedReaches(p: Key -> bool, keys: seq<Key>, outside: nat, i: nat)
    requires Ascending(KeyLe, keys) && i < |keys| && outside <= |keys|
    requires forall a, b :: a in keys && b in keys && KeyLe(a, b) && p(b) ==> p(a)
    ensures var kept := Filter(p, keys[..outside]);
            (kept != [] && KeyLe(keys[i], kept[|kept| - 1])) <==> i < outside && p(keys[i])
  {
    KeysAreOrdered();
    var early := keys[..outside];
    var kept := Filter(p, early);
    assert forall k :: k in early ==> k in keys;
    if i < outside {
      KeptPrefixOfAscending(p, early, i);
      assert early[i] == keys[i];
    } else if outside > 0 {
      KeptPrefixOfAscending(p, early, 0);
      if kept != [] {
        var j :| 0 <= j < |early| && early[j] == kept[|kept| - 1];
        assert KeyLe(keys[j], keys[i]) && keys[j] != keys[i];
      }
    }
  }

  /** The plan reaches an opportunity exactly when it is outside the window and dated before both limits. */
  lemma PlanReachesExactlyTheAllowed(
    account: Account, day: int -> int, openDay: Option<int>, since: int, window: int, i: nat)
    requires WellRead(account) && Monotone(day) && window >= 1 && i < |account.prediction.keys|
    ensures var keys, boundary := account.prediction.keys, Compactable(account, day, openDay, since, window).value.boundary;
            Covered(boundary, keys[i]) <==>
            && i + window < |keys|
            && day(keys[i].at) < since && (openDay.Some? ==> day(keys[i].at) < openDay.value)
  {
    var keys := account.prediction.keys;
    var outside := if |keys| <= window then 0 else |keys| - window;
    LastAllowedReaches(Settled(day, openDay, since), keys, outside, i);
  }

  /** Every fact the plan takes, opportunity or not, is dated before the open day and the diagnosis. */
  lemma PlanTakesOnlyOldFacts(account: Account, day: int -> int, openDay: Option<int>, since: int, window: int, f: Fact)
    requires WellRead(account) && Monotone(day) && window >= 1
    requires f in Compactable(account, day, openDay, since, window).value.facts
    ensures day(f.at) < since && (openDay.Some? ==> day(f.at) < openDay.value)
  {
    var keys := account.prediction.keys;
    var outside := if |keys| <= window then 0 else |keys| - window;
    var allowed := Filter(Settled(day, openDay, since), keys[..outside]);
    var boundary := allowed[|allowed| - 1];
    assert boundary in allowed;
    FilterHas(Settled(day, openDay, since), keys[..outside], boundary);
    FilterHas(UpTo(boundary), account.facts, f);
  }

  function ExampleFact(at: int, id: string): Fact {
    Fact("a", at, true, 1.0, OnTime, id, None, None)
  }

  lemma TwoOfThree(p: Key -> bool, keys: seq<Key>)
    requires |keys| == 3 && !p(keys[0]) && p(keys[1])
    ensures Filter(p, keys[..2]) == [keys[1]]
  {
    assert keys[..2] == [keys[0]] + [keys[1]];
    FilterCons(p, keys[0], [keys[1]]);
    FilterAll(p, [keys[1]]);
  }

  /** Whether some account that is read at some moment has a plan that takes a fact. */
  ghost predicate Takes(
    facts: seq<Fact>, visibleAt: int, base: Option<Summary>, day: int -> int, openDay: Option<int>, since: int,
    window: int, f: Fact)
  {
    var account := RankedAccount(facts, visibleAt, base);
    account.Ok? && window >= 1 && f in Compactable(account.value, day, openDay, since, window).value.facts
  }

  lemma ThreeInOrder(facts: seq<Fact>, a: int, b: int)
    requires a < b && |facts| == 3
    requires facts[0] == ExampleFact(a, "x") && facts[1] == ExampleFact(b, "y") && facts[2] == ExampleFact(b, "z")
    ensures OnePerExpectation(facts) && Sorted(FactLe, facts)
    ensures forall f :: f in facts ==> IsOpportunity(f) && Precedence(f) <= b
  {
    assert TextLe("y", "z");
  }

  /** When the date falls from one moment to a later one, there is an account from which a fact dated on the open day
      and on the first day of the diagnosis is taken, along with the later one that is dated before both. */
  lemma BackwardDatesOverrunBothLimits(facts: seq<Fact>, day: int -> int, a: int, b: int)
    requires a < b && day(b) < day(a) && |facts| == 3
    requires facts[0] == ExampleFact(a, "x") && facts[1] == ExampleFact(b, "y") && facts[2] == ExampleFact(b, "z")
    ensures Takes(facts, b, None, day, Some(day(a)), day(a), 1, facts[0])
    ensures day(facts[0].at) == day(a)
  {
    ThreeInOrder(facts, a, b);
    FilterAll(Reads(b, None), facts);
    OrderedReadsAsItIs(facts);
    AccountAlwaysReads(facts, b, None);
    FilterAll(Opportunity(), facts);
    var account := RankedAccount(facts, b, None).value;
    var keys := account.prediction.keys;
    assert keys == Map(KeyOf, facts);
    TwoOfThree(Settled(day, Some(day(a)), day(a)), keys);
    assert facts[0] in facts;
    FilterHas(UpTo(keys[1]), facts, facts[0]);
  }

  /** Plans take only old facts, from whatever account and under whatever limits, exactly when the date moves forward
      with time. */
  lemma OnlyOldFactsExactlyWhenDatesMoveForward(day: int -> int)
    ensures Monotone(day) <==>
            forall facts, visibleAt, base, openDay, since, window, f ::
              Takes(facts, visibleAt, base, day, openDay, since, window, f) ==>
                day(f.at) < since && (openDay.Some? ==> day(f.at) < openDay.value)
  {
    if Monotone(day) {
      forall facts, visibleAt, base, openDay, since, window, f
        | Takes(facts, visibleAt, base, day, openDay, since, window, f)
        ensures day(f.at) < since && (openDay.Some? ==> day(f.at) < openDay.value)
      {
        AccountsAreWellRead(facts, visibleAt, base);
        PlanTakesOnlyOldFacts(RankedAccount(facts, visibleAt, base).value, day, openDay, since, window, f);
      }
    } else {
      var a, b :| a <= b && day(a) > day(b);
      var facts := [ExampleFact(a, "x"), ExampleFact(b, "y"), ExampleFact(b, "z")];
      BackwardDatesOverrunBothLimits(facts, day, a, b);
    }
  }

  /** The invariants the summary's constructor checks on offsets hold of whatever Compact writes. */
  lemma SummaryOffsetsAreInOrder(account: Account, plan: Plan, table: Option<Table>, day: int -> int, i: nat)
    requires Summarised(account, plan, table, day).Ok?
    requires i < |Summarised(account, plan, table, day).value.offsets|
    ensures var offsets := Summarised(account, plan, table, day).value.offsets;
            offsets[i].1 >= 1 && forall j :: 0 <= j < i ==> offsets[j].0 < offsets[i].0
  {
    NumbersAreOrdered();
    var m := OffsetsOf(account.base) + HitOffsets(plan.facts);
    ListingLists(NatLe, Keys(m));
    var keys := Listing(NatLe, Keys(m));
    assert keys[i] in keys;
  }
}
