/** The life of one account's log on disk (habitus/runtime/foresight_compaction.py and
    habitus/runtime/foresight_ledger.py): facts are appended, a summary is written over a prefix, and only
    then are the covered files deleted, one at a time, with a crash possible between any two steps. */
module Protocol {
  import opened Orders
  import opened Sequences
  import opened Ledger
  import opened AccountClock
  import opened Gaps
  import opened Compaction

  /** A fact once written, whether its file is still there, and whether its word came in time: before its expectation
      was compacted. */
  datatype Entry = Entry(fact: Fact, present: bool, heard: bool)

  /** The log in directory order with the summary beside it. The cuts are a record for reasoning about the
      past: what each compaction folded in, and with which table. */
  datatype Store = Store(log: seq<Entry>, base: Option<Summary>, cuts: seq<Cut>)

  datatype Step =
    | Append(place: nat, fact: Fact, now: int)
    | WriteSummary(now: int, openDay: Option<int>, since: int, window: int, table: Option<Table>)
    | Discard(place: nat)

  const EMPTY := Store([], None, [])

  /** Everything ever written that came in time. */
  function History(log: seq<Entry>): seq<Fact> {
    if log == [] then [] else (if log[0].heard then [log[0].fact] else []) + History(log[1..])
  }

  /** Everything ever written. */
  function Everything(log: seq<Entry>): seq<Fact> {
    if log == [] then [] else [log[0].fact] + Everything(log[1..])
  }

  /** What is still on disk. */
  function Files(log: seq<Entry>): seq<Fact> {
    if log == [] then [] else (if log[0].present then [log[0].fact] else []) + Files(log[1..])
  }

  /** The facts the store hands out: leftovers of what is compacted are ignored. */
  function FactsOf(s: Store): seq<Fact> {
    Filter(Beyond(Through(s.base)), Files(s.log))
  }

  function View(s: Store, now: int): Account {
    AccountsAreWellRead(FactsOf(s), now, s.base);
    RankedAccount(FactsOf(s), now, s.base).value
  }

  /** Nothing is written when there is nothing to compact, or no plan for want of a positive window. */
  function PlanOf(s: Store, day: int -> int, step: Step): Plan
    requires step.WriteSummary?
  {
    var plan := Compactable(View(s, step.now), day, step.openDay, step.since, step.window);
    if plan.Err? then Plan(None, []) else plan.value
  }

  /** All facts of an expectation carry the moment it formed. Only covered files are deleted. Everything else is free:
      words may come late, and files may carry times of writing still to come. */
  predicate Allowed(s: Store, day: int -> int, step: Step) {
    match step
    case Append(place, fact, _) =>
      place <= |s.log| && forall e :: e in s.log && e.fact.id == fact.id ==> e.fact.at == fact.at
    case WriteSummary(_, _, _, _, _) => true
    case Discard(place) =>
      place < |s.log| && Covered(Through(s.base), KeyOf(s.log[place].fact))
  }

  /** A summary written now that moves the boundary up goes by what is written by now. */
  function InTime(through: Option<Key>, boundary: Key, now: int): Fact -> bool {
    (f: Fact) => Covered(through, KeyOf(f)) || !KeyLe(KeyOf(f), boundary) || Precedence(f) <= now
  }

  function Hushed(log: seq<Entry>, inTime: Fact -> bool): seq<Entry> {
    if log == [] then []
    else [log[0].(heard := log[0].heard && inTime(log[0].fact))] + Hushed(log[1..], inTime)
  }

  function Next(s: Store, day: int -> int, step: Step): Store
    requires Allowed(s, day, step)
  {
    match step
    case Append(place, fact, _) =>
      s.(log := s.log[..place] + [Entry(fact, true, !Covered(Through(s.base), KeyOf(fact)))] + s.log[place..])
    case WriteSummary(now, _, _, _, table) =>
      var plan := PlanOf(s, day, step);
      var summary := Summarised(View(s, now), plan, table, day);
      if summary.Err? then s
      else Store(
        Hushed(s.log, InTime(Through(s.base), plan.boundary.value, now)),
        Some(summary.value),
        s.cuts + [Cut(OpportunityDays(plan.facts, day), table)])
    case Discard(place) => s.(log := s.log[place := s.log[place].(present := false)])
  }

  ghost predicate Run(states: seq<Store>, steps: seq<Step>, day: int -> int) {
    && |states| == |steps| + 1
    && states[0] == EMPTY
    && (forall i :: 0 <= i < |steps| ==> Allowed(states[i], day, steps[i]) && states[i + 1] == Next(states[i], day, steps[i]))
  }

  // ---- What every step keeps ----

  predicate OneMoment(facts: seq<Fact>) {
    forall f, g :: f in facts && g in facts && f.id == g.id ==> f.at == g.at
  }

  /** Only covered files are gone, and only covered words came late. */
  predicate Retained(log: seq<Entry>, through: Option<Key>) {
    forall e :: e in log && !(e.present && e.heard) ==> Covered(through, KeyOf(e.fact))
  }

  /** The deduplicated facts that the summary stands for. */
  function Compacted(s: Store): seq<Fact> {
    if s.base.None? then [] else Filter(UpTo(s.base.value.through), ByKey(History(s.log)))
  }

  ghost predicate Inv(s: Store, day: int -> int) {
    && OneMoment(Everything(s.log)) && OneMoment(History(s.log))
    && Retained(s.log, Through(s.base))
    && OffsetsOf(s.base) == HitOffsets(Compacted(s))
    && (s.base.Some? ==> s.base.value.offsets == Histogram(OffsetsOf(s.base)))
    && GapPartOf(s.base) == FoldCuts(s.cuts)
    && (Monotone(day) ==>
         Sorted(IntLe, DaysOf(s.cuts)) && Distinct(DaysOf(s.cuts)) == OpportunityDays(Compacted(s), day))
  }

  lemma {:induction false} HistoryHas(log: seq<Entry>, f: Fact)
    ensures f in History(log) <==> exists e :: e in log && e.heard && e.fact == f
    ensures f in Everything(log) <==> exists e :: e in log && e.fact == f
    ensures f in Files(log) ==> f in Everything(log)
  {
    if log != [] {
      assert log == [log[0]] + log[1..];
      HistoryHas(log[1..], f);
    }
  }

  lemma {:induction false} HushedHas(log: seq<Entry>, inTime: Fact -> bool)
    ensures |Hushed(log, inTime)| == |log|
    ensures forall i :: 0 <= i < |log| ==>
      Hushed(log, inTime)[i] == log[i].(heard := log[i].heard && inTime(log[i].fact))
  {
    if log != [] {
      HushedHas(log[1..], inTime);
    }
  }

  lemma {:induction false} HushedHistory(log: seq<Entry>, inTime: Fact -> bool)
    ensures History(Hushed(log, inTime)) == Filter(inTime, History(log))
    ensures Files(Hushed(log, inTime)) == Files(log) && Everything(Hushed(log, inTime)) == Everything(log)
  {
    if log != [] {
      var e, rest := log[0], log[1..];
      HushedHistory(rest, inTime);
      assert Hushed(log, inTime)[1..] == Hushed(rest, inTime);
      FilterCons(inTime, e.fact, History(rest));
      assert [] + History(rest) == History(rest);
    }
  }

  lemma {:induction false} HistoryAppend(a: seq<Entry>, b: seq<Entry>)
    ensures History(a + b) == History(a) + History(b)
  {
    if a == [] {
      assert a + b == b;
    } else {
      HistoryAppend(a[1..], b);
      assert (a + b)[0] == a[0] && (a + b)[1..] == a[1..] + b;
      Associate(if a[0].heard then [a[0].fact] else [], History(a[1..]), History(b));
    }
  }

  /** A test that fails on every missing file and every late word sees the files as it sees the history. */
  lemma {:induction false} FilesLookLikeHistory(p: Fact -> bool, log: seq<Entry>)
    requires forall e :: e in log && !(e.present && e.heard) ==> !p(e.fact)
    ensures Filter(p, Files(log)) == Filter(p, History(log))
  {
    if log != [] {
      var e, rest := log[0], log[1..];
      assert log == [e] + rest;
      FilesLookLikeHistory(p, rest);
      FilterCons(p, e.fact, Files(rest));
      FilterCons(p, e.fact, History(rest));
      assert e in log;
      assert [] + Files(rest) == Files(rest) && [] + History(rest) == History(rest);
    }
  }

  lemma CoverageIsByExpectation(through: Option<Key>, facts: seq<Fact>)
    requires OneMoment(facts)
    ensures ByExpectation(Beyond(through), facts)
    ensures through.Some? ==> ByExpectation(UpTo(through.value), facts)
  {
  }

  lemma SubsetKeepsMoments(p: Fact -> bool, facts: seq<Fact>)
    requires OneMoment(facts)
    ensures OneMoment(Filter(p, facts))
  {
    forall f ensures f in Filter(p, facts) ==> f in facts { FilterHas(p, facts, f); }
  }

  /** Reading what is left over is reading the whole history above the boundary, at whatever moment. */
  lemma LeftoversReadTheSame(log: seq<Entry>, through: Option<Key>, visibleAt: int)
    requires OneMoment(History(log)) && Retained(log, through)
    ensures LiveFacts(Files(log), visibleAt, through) == Filter(Beyond(through), LiveFacts(History(log), visibleAt, None))
  {
    var h := History(log);
    FilesLookLikeHistory(Reads(visibleAt, through), log);
    FilterTwice(Beyond(through), Reads(visibleAt, None), Reads(visibleAt, through), h);
    SubsetKeepsMoments(Reads(visibleAt, None), h);
    CoverageIsByExpectation(through, Filter(Reads(visibleAt, None), h));
    FilterByKey(Beyond(through), Filter(Reads(visibleAt, None), h));
  }

  /** A test that fails on every missing file sees the files as it sees everything ever written. */
  lemma {:induction false} FilesLookLikeEverything(p: Fact -> bool, log: seq<Entry>)
    requires forall e :: e in log && !e.present ==> !p(e.fact)
    ensures Filter(p, Files(log)) == Filter(p, Everything(log))
  {
    if log != [] {
      var e, rest := log[0], log[1..];
      assert log == [e] + rest;
      FilesLookLikeEverything(p, rest);
      FilterCons(p, e.fact, Files(rest));
      FilterCons(p, e.fact, Everything(rest));
      assert e in log;
      assert [] + Files(rest) == Files(rest);
    }
  }

  /** Reading what is left over is also reading everything ever written, late words among it, above the boundary. */
  lemma LeftoversReadLikeEverything(log: seq<Entry>, through: Option<Key>, visibleAt: int)
    requires OneMoment(Everything(log)) && Retained(log, through)
    ensures LiveFacts(Files(log), visibleAt, through) == Filter(Beyond(through), LiveFacts(Everything(log), visibleAt, None))
  {
    var all := Everything(log);
    FilesLookLikeEverything(Reads(visibleAt, through), log);
    FilterTwice(Beyond(through), Reads(visibleAt, None), Reads(visibleAt, through), all);
    SubsetKeepsMoments(Reads(visibleAt, None), all);
    CoverageIsByExpectation(through, Filter(Reads(visibleAt, None), all));
    FilterByKey(Beyond(through), Filter(Reads(visibleAt, None), all));
  }

  lemma IgnoringLeftoversTwice(s: Store, visibleAt: int)
    ensures LiveFacts(FactsOf(s), visibleAt, Through(s.base)) == LiveFacts(Files(s.log), visibleAt, Through(s.base))
  {
    var through := Through(s.base);
    FilterTwice(Reads(visibleAt, through), Beyond(through), Reads(visibleAt, through), Files(s.log));
  }

  /** What a plan takes from the files is what lies between the two boundaries in the history, once the words that come
      too late for it are left out. */
  lemma PlanTakesTheSlice(log: seq<Entry>, through: Option<Key>, boundary: Key, now: int)
    requires OneMoment(History(log)) && Retained(log, through)
    ensures Filter(UpTo(boundary), LiveFacts(Files(log), now, through))
         == Filter(UpTo(boundary), Filter(Beyond(through), ByKey(Filter(InTime(through, boundary, now), History(log)))))
  {
    var h := History(log);
    var late := Filter(InTime(through, boundary, now), h);
    var slice := (f: Fact) => KeyLe(KeyOf(f), boundary) && Precedence(f) <= now && !Covered(through, KeyOf(f));
    var between := (f: Fact) => KeyLe(KeyOf(f), boundary) && !Covered(through, KeyOf(f));
    FilesLookLikeHistory(Reads(now, through), log);
    FilterReading(UpTo(boundary), Reads(now, through), slice, h, Some(boundary));
    SubsetKeepsMoments(InTime(through, boundary, now), h);
    CoverageIsByExpectation(through, late);
    FilterByKey(Beyond(through), late);
    FilterReading(UpTo(boundary), Beyond(through), between, late, Some(boundary));
    FilterTwice(between, InTime(through, boundary, now), slice, h);
  }

  /** Taking what lies at or below a boundary from a reading is reading what lies there. */
  lemma FilterReading(p: Fact -> bool, q: Fact -> bool, both: Fact -> bool, facts: seq<Fact>, boundary: Option<Key>)
    requires OneMoment(facts) && boundary.Some? && p == UpTo(boundary.value)
    requires forall f :: both(f) == (p(f) && q(f))
    ensures Filter(p, ByKey(Filter(q, facts))) == ByKey(Filter(both, facts))
  {
    SubsetKeepsMoments(q, facts);
    CoverageIsByExpectation(boundary, Filter(q, facts));
    FilterByKey(p, Filter(q, facts));
    FilterTwice(p, q, both, facts);
  }

  /** What is compacted already is not touched by words that come late for more. */
  lemma CompactedStays(facts: seq<Fact>, through: Key, boundary: Key, now: int)
    requires OneMoment(facts)
    ensures Filter(UpTo(through), ByKey(Filter(InTime(Some(through), boundary, now), facts)))
         == Filter(UpTo(through), ByKey(facts))
  {
    FilterReading(UpTo(through), InTime(Some(through), boundary, now), UpTo(through), facts, Some(through));
    CoverageIsByExpectation(Some(through), facts);
    FilterByKey(UpTo(through), facts);
  }

  /** Moving the boundary up adds exactly the slice between. */
  lemma BoundaryMovesUp(facts: seq<Fact>, low: Key, high: Key)
    requires Sorted(FactLe, facts) && KeyLe(low, high)
    ensures Filter(UpTo(low), facts) + Filter(UpTo(high), Filter(Beyond(Some(low)), facts)) == Filter(UpTo(high), facts)
  {
    var upto := Filter(UpTo(high), facts);
    FilterSorted(UpTo(high), FactLe, facts);
    SplitsAtBoundary(low, upto);
    forall f | UpTo(low)(f) ensures UpTo(high)(f) {
      KeysAreOrdered();
      Transitive(KeyLe, KeyOf(f), low, high);
    }
    FilterTwice(UpTo(low), UpTo(high), UpTo(low), facts);
    FilterSwap(UpTo(high), Beyond(Some(low)), facts);
  }

  // ---- Each step ----

  lemma AppendedHistory(log: seq<Entry>, place: nat, e: Entry)
    requires place <= |log|
    ensures History(log) == History(log[..place]) + History(log[place..])
    ensures History(log[..place] + [e] + log[place..])
         == History(log[..place]) + ((if e.heard then [e.fact] else []) + History(log[place..]))
  {
    var front, back := log[..place], log[place..];
    assert log == front + back;
    HistoryAppend(front, back);
    HistoryAppend(front, [e] + back);
    assert front + [e] + back == front + ([e] + back);
    assert ([e] + back)[1..] == back;
  }

  /** The invariant is about the history and about what is retained of it. */
  lemma SameHistoryKeeps(s: Store, t: Store, day: int -> int)
    requires Inv(s, day) && t.base == s.base && t.cuts == s.cuts
    requires History(t.log) == History(s.log) && Retained(t.log, Through(t.base)) && OneMoment(Everything(t.log))
    ensures Inv(t, day)
  {
    assert Compacted(t) == Compacted(s);
  }

  lemma RetainedWith(log: seq<Entry>, place: nat, e: Entry, through: Option<Key>)
    requires place <= |log| && Retained(log, through) && (!e.heard ==> Covered(through, KeyOf(e.fact))) && e.present
    ensures Retained(log[..place] + [e] + log[place..], through)
  {
  }

  /** A word that comes late leaves the history as it is. */
  lemma LateWordKeeps(s: Store, day: int -> int, place: nat, fact: Fact, now: int)
    requires Inv(s, day) && Allowed(s, day, Append(place, fact, now)) && Covered(Through(s.base), KeyOf(fact))
    ensures Inv(Next(s, day, Append(place, fact, now)), day)
    ensures History(Next(s, day, Append(place, fact, now)).log) == History(s.log)
  {
    var e := Entry(fact, true, false);
    AppendedHistory(s.log, place, e);
    assert [] + History(s.log[place..]) == History(s.log[place..]);
    RetainedWith(s.log, place, e, Through(s.base));
    MomentsWithOneMore(s.log, place, e);
    SameHistoryKeeps(s, Next(s, day, Append(place, fact, now)), day);
  }

  lemma MomentsWithOneMore(log: seq<Entry>, place: nat, e: Entry)
    requires place <= |log| && OneMoment(Everything(log))
    requires forall o :: o in log && o.fact.id == e.fact.id ==> o.fact.at == e.fact.at
    ensures OneMoment(Everything(log[..place] + [e] + log[place..]))
    ensures OneMoment(History(log[..place] + [e] + log[place..]))
  {
    var more := log[..place] + [e] + log[place..];
    forall f ensures f in Everything(more) ==> f == e.fact || f in Everything(log) {
      WrittenWithOneMore(log, place, e, f);
    }
    forall f | f in Everything(log) && f.id == e.fact.id ensures f.at == e.fact.at { HistoryHas(log, f); }
    OneMoreMoment(Everything(log), Everything(more), e.fact);
    HistoryIsWritten(more);
    FewerMoments(Everything(more), History(more));
  }

  lemma WrittenWithOneMore(log: seq<Entry>, place: nat, e: Entry, f: Fact)
    requires place <= |log|
    ensures f in Everything(log[..place] + [e] + log[place..]) ==> f == e.fact || f in Everything(log)
  {
    HistoryHas(log[..place] + [e] + log[place..], f);
    HistoryHas(log, f);
  }

  lemma OneMoreMoment(all: seq<Fact>, more: seq<Fact>, fact: Fact)
    requires OneMoment(all) && (forall f :: f in more ==> f == fact || f in all)
    requires forall f :: f in all && f.id == fact.id ==> f.at == fact.at
    ensures OneMoment(more)
  {
  }

  lemma FewerMoments(all: seq<Fact>, fewer: seq<Fact>)
    requires OneMoment(all) && forall f :: f in fewer ==> f in all
    ensures OneMoment(fewer)
  {
  }

  lemma HistoryIsWritten(log: seq<Entry>)
    ensures forall f :: f in History(log) ==> f in Everything(log)
  {
    forall f ensures f in History(log) ==> f in Everything(log) { HistoryHas(log, f); }
  }

  /** A word above a boundary changes nothing at or below it. */
  lemma AboveTheBoundary(front: seq<Fact>, fact: Fact, back: seq<Fact>, through: Key)
    requires OneMoment(front + back) && OneMoment(front + ([fact] + back)) && !UpTo(through)(fact)
    ensures Filter(UpTo(through), ByKey(front + ([fact] + back))) == Filter(UpTo(through), ByKey(front + back))
  {
    var p := UpTo(through);
    FilterAppend(p, front, back);
    FilterAppend(p, front, [fact] + back);
    FilterCons(p, fact, back);
    CoverageIsByExpectation(Some(through), front + back);
    CoverageIsByExpectation(Some(through), front + ([fact] + back));
    FilterByKey(p, front + back);
    FilterByKey(p, front + ([fact] + back));
  }

  lemma TimelyWordKeeps(s: Store, day: int -> int, place: nat, fact: Fact, now: int)
    requires Inv(s, day) && Allowed(s, day, Append(place, fact, now)) && !Covered(Through(s.base), KeyOf(fact))
    ensures Inv(Next(s, day, Append(place, fact, now)), day)
  {
    var t := Next(s, day, Append(place, fact, now));
    var front, back := History(s.log[..place]), History(s.log[place..]);
    AppendedHistory(s.log, place, Entry(fact, true, true));
    RetainedWith(s.log, place, Entry(fact, true, true), Through(s.base));
    assert History(t.log) == front + ([fact] + back);
    MomentsWithOneMore(s.log, place, Entry(fact, true, true));
    if s.base.Some? {
      AboveTheBoundary(front, fact, back, s.base.value.through);
    }
    assert Compacted(t) == Compacted(s);
  }

  /** A word about an expectation, in time or late, put anywhere in the directory. */
  lemma AppendKeeps(s: Store, day: int -> int, place: nat, fact: Fact, now: int)
    requires Inv(s, day) && Allowed(s, day, Append(place, fact, now))
    ensures Inv(Next(s, day, Append(place, fact, now)), day)
  {
    if Covered(Through(s.base), KeyOf(fact)) {
      LateWordKeeps(s, day, place, fact, now);
    } else {
      TimelyWordKeeps(s, day, place, fact, now);
    }
  }

  lemma {:induction false} HistoryAt(log: seq<Entry>, place: nat)
    requires place < |log|
    ensures History(log[place := log[place].(present := false)]) == History(log)
    ensures Everything(log[place := log[place].(present := false)]) == Everything(log)
  {
    var log' := log[place := log[place].(present := false)];
    if place > 0 {
      HistoryAt(log[1..], place - 1);
      assert log'[1..] == log[1..][place - 1 := log[place].(present := false)];
    } else {
      assert log'[1..] == log[1..];
    }
  }

  lemma DiscardKeeps(s: Store, day: int -> int, place: nat)
    requires Inv(s, day) && Allowed(s, day, Discard(place))
    ensures Inv(Next(s, day, Discard(place)), day)
    ensures History(Next(s, day, Discard(place)).log) == History(s.log)
    ensures Everything(Next(s, day, Discard(place)).log) == Everything(s.log)
  {
    HistoryAt(s.log, place);
    var t := Next(s, day, Discard(place));
    forall e | e in t.log && !(e.present && e.heard) ensures Covered(Through(t.base), KeyOf(e.fact)) {
      var k :| 0 <= k < |t.log| && t.log[k] == e;
      assert s.log[k] in s.log && (k != place ==> e == s.log[k]);
    }
    SameHistoryKeeps(s, t, day);
  }

  lemma ViewIs(s: Store, now: int)
    ensures WellRead(View(s, now)) && View(s, now).base == s.base
    ensures View(s, now).facts == LiveFacts(Files(s.log), now, Through(s.base))
  {
    AccountsAreWellRead(FactsOf(s), now, s.base);
    AccountAlwaysReads(FactsOf(s), now, s.base);
    IgnoringLeftoversTwice(s, now);
  }

  lemma AllowedIsKey(keys: seq<Key>, settled: Key -> bool, outside: nat)
    requires outside <= |keys| && Filter(settled, keys[..outside]) != []
    ensures var allowed := Filter(settled, keys[..outside]); allowed[|allowed| - 1] in keys
  {
    var allowed := Filter(settled, keys[..outside]);
    var boundary := allowed[|allowed| - 1];
    assert boundary in allowed;
    FilterHas(settled, keys[..outside], boundary);
  }

  lemma KeyIsFact(facts: seq<Fact>, key: Key) returns (f: Fact)
    requires key in OpportunityKeys(facts)
    ensures f in facts && KeyOf(f) == key
  {
    var keys, opportunities := OpportunityKeys(facts), Filter(Opportunity(), facts);
    var i :| 0 <= i < |keys| && keys[i] == key;
    f := opportunities[i];
    assert f in opportunities;
    FilterHas(Opportunity(), facts, f);
  }

  /** The boundary of a plan is the key of a live fact that the plan takes. */
  lemma BoundaryIsLive(account: Account, day: int -> int, openDay: Option<int>, since: int, window: int)
    requires WellRead(account) && window >= 1
    ensures var plan := Compactable(account, day, openDay, since, window).value;
            plan.boundary.Some? ==>
              && plan.facts == Filter(UpTo(plan.boundary.value), account.facts)
              && exists f :: f in plan.facts && f in account.facts && KeyOf(f) == plan.boundary.value
  {
    var keys := account.prediction.keys;
    var outside := if |keys| <= window then 0 else |keys| - window;
    var allowed := Filter(Settled(day, openDay, since), keys[..outside]);
    if allowed != [] {
      AllowedIsKey(keys, Settled(day, openDay, since), outside);
      var boundary := allowed[|allowed| - 1];
      var f := KeyIsFact(account.facts, boundary);
      KeysAreOrdered();
      FilterHas(UpTo(boundary), account.facts, f);
    }
  }

  lemma BoundaryGoesUp(s: Store, now: int, f: Fact)
    requires f in View(s, now).facts && s.base.Some?
    ensures KeyLe(s.base.value.through, KeyOf(f))
  {
    ViewIs(s, now);
    LiveFactsShape(Filter(Reads(now, Through(s.base)), Files(s.log)));
    FilterHas(Reads(now, Through(s.base)), Files(s.log), f);
    KeysAreOrdered();
  }

  /** The history a summary written now goes by: without the words that come too late for it. */
  function Timely(s: Store, day: int -> int, step: Step): seq<Fact>
    requires step.WriteSummary? && PlanOf(s, day, step).boundary.Some?
  {
    Filter(InTime(Through(s.base), PlanOf(s, day, step).boundary.value, step.now), History(s.log))
  }

  /** What a compaction folds in is the slice of that history between the old boundary and the new. */
  lemma PlanFoldsTheSlice(s: Store, day: int -> int, step: Step)
    requires Inv(s, day) && step.WriteSummary? && Allowed(s, day, step) && PlanOf(s, day, step).boundary.Some?
    ensures var plan := PlanOf(s, day, step);
      && plan.facts != []
      && (s.base.Some? ==> KeyLe(s.base.value.through, plan.boundary.value))
      && Filter(UpTo(plan.boundary.value), ByKey(Timely(s, day, step))) == Compacted(s) + plan.facts
  {
    PlanIsOfLiveFacts(s, day, step);
    var through, boundary := Through(s.base), PlanOf(s, day, step).boundary.value;
    PlanTakesTheSlice(s.log, through, boundary, step.now);
    SliceJoins(History(s.log), through, boundary, step.now);
  }

  lemma PlanIsOfLiveFacts(s: Store, day: int -> int, step: Step)
    requires step.WriteSummary? && PlanOf(s, day, step).boundary.Some?
    ensures var plan := PlanOf(s, day, step);
      && plan.facts != []
      && plan.facts == Filter(UpTo(plan.boundary.value), LiveFacts(Files(s.log), step.now, Through(s.base)))
      && (s.base.Some? ==> KeyLe(s.base.value.through, plan.boundary.value))
  {
    ViewIs(s, step.now);
    var account, plan := View(s, step.now), PlanOf(s, day, step);
    BoundaryIsLive(account, day, step.openDay, step.since, step.window);
    if s.base.Some? {
      var f :| f in account.facts && KeyOf(f) == plan.boundary.value;
      BoundaryGoesUp(s, step.now, f);
    }
  }

  /** What is compacted already and the slice after it make up what lies at or below the new boundary. */
  lemma SliceJoins(facts: seq<Fact>, through: Option<Key>, boundary: Key, now: int)
    requires OneMoment(facts) && (through.Some? ==> KeyLe(through.value, boundary))
    ensures var timely := ByKey(Filter(InTime(through, boundary, now), facts));
            Filter(UpTo(boundary), timely) ==
            (if through.None? then [] else Filter(UpTo(through.value), ByKey(facts)))
            + Filter(UpTo(boundary), Filter(Beyond(through), timely))
  {
    var timely := ByKey(Filter(InTime(through, boundary, now), facts));
    if through.Some? {
      LiveFactsShape(Filter(InTime(through, boundary, now), facts));
      BoundaryMovesUp(timely, through.value, boundary);
      CompactedStays(facts, through.value, boundary, now);
    } else {
      FilterAll(Beyond(None), timely);
    }
  }

  lemma WhatIsWritten(s: Store, day: int -> int, step: Step)
    requires Inv(s, day) && step.WriteSummary? && Allowed(s, day, step) && PlanOf(s, day, step).boundary.Some?
    ensures var plan, t := PlanOf(s, day, step), Next(s, day, step);
            var days := OpportunityDays(plan.facts, day);
      && History(t.log) == Timely(s, day, step) && Everything(t.log) == Everything(s.log) && Through(t.base) == plan.boundary
        && t.base.value.offsets == Histogram(OffsetsOf(s.base) + HitOffsets(plan.facts))
      && GapPartOf(t.base) == CompactedGaps(GapPartOf(s.base), days, step.table)
      && t.cuts == s.cuts + [Cut(days, step.table)]
  {
    NumbersAreOrdered();
    PlanFoldsTheSlice(s, day, step);
    ViewIs(s, step.now);
    HushedHistory(s.log, InTime(Through(s.base), PlanOf(s, day, step).boundary.value, step.now));
  }

  lemma MoreIsRetained(log: seq<Entry>, low: Option<Key>, high: Key, now: int)
    requires Retained(log, low) && (low.Some? ==> KeyLe(low.value, high))
    ensures Retained(Hushed(log, InTime(low, high, now)), Some(high))
  {
    KeysAreOrdered();
    var hushed := Hushed(log, InTime(low, high, now));
    HushedHas(log, InTime(low, high, now));
    forall e | e in hushed && !(e.present && e.heard) ensures KeyLe(KeyOf(e.fact), high) {
      var k :| 0 <= k < |hushed| && hushed[k] == e;
      assert log[k] in log;
      if Covered(low, KeyOf(e.fact)) {
        Transitive(KeyLe, KeyOf(e.fact), low.value, high);
      }
    }
  }

  lemma SummaryKeeps(s: Store, day: int -> int, step: Step)
    requires Inv(s, day) && step.WriteSummary? && Allowed(s, day, step)
    ensures Inv(Next(s, day, step), day)
  {
    var t, plan := Next(s, day, step), PlanOf(s, day, step);
    if plan.boundary.Some? {
      WhatIsWritten(s, day, step);
      PlanFoldsTheSlice(s, day, step);
      MoreIsRetained(s.log, Through(s.base), plan.boundary.value, step.now);
      SubsetKeepsMoments(InTime(Through(s.base), plan.boundary.value, step.now), History(s.log));
      HitOffsetsAppend(Compacted(s), plan.facts);
      HistogramRoundTrip(OffsetsOf(s.base) + HitOffsets(plan.facts));
      AnotherCut(s.cuts, Cut(OpportunityDays(plan.facts, day), step.table));
      if Monotone(day) {
        LiveFactsShape(Timely(s, day, step));
        FilterSorted(UpTo(plan.boundary.value), FactLe, ByKey(Timely(s, day, step)));
        DaysGrow(Compacted(s), plan.facts, DaysOf(s.cuts), day);
      }
    }
  }

  /** The days of a longer account are those of its first part and then those of the rest. */
  lemma DaysGrow(first: seq<Fact>, more: seq<Fact>, days: seq<int>, day: int -> int)
    requires Monotone(day) && Sorted(FactLe, first + more)
    requires Sorted(IntLe, days) && Distinct(days) == OpportunityDays(first, day)
    ensures Sorted(IntLe, days + OpportunityDays(more, day))
    ensures Distinct(days + OpportunityDays(more, day)) == OpportunityDays(first + more, day)
  {
    var a, b := Filter(Opportunity(), first), Filter(Opportunity(), more);
    var late := OpportunityDays(more, day);
    FilterAppend(Opportunity(), first, more);
    DistinctLists(days);
    DistinctLists(Map(DayOf(day), a));
    DistinctLists(Map(DayOf(day), b));
    forall c, d | c in days && d in late ensures c <= d {
      assert c in Distinct(days) && d in Map(DayOf(day), b);
      var i :| 0 <= i < |a| && day(a[i].at) == c;
      var j :| 0 <= j < |b| && day(b[j].at) == d;
      FilterHas(Opportunity(), first, a[i]);
      FilterHas(Opportunity(), more, b[j]);
      InOrder(first, more, a[i], b[j]);
    }
    var all := Map(DayOf(day), Filter(Opportunity(), first + more));
    assert all == Map(DayOf(day), a) + Map(DayOf(day), b);
    assert Elements(days + late) == Elements(all) by {
      assert forall d :: d in days <==> d in Map(DayOf(day), a);
      assert forall d :: d in late <==> d in Map(DayOf(day), b);
    }
    SortedJoin(days, late);
  }

  lemma InOrder(first: seq<Fact>, more: seq<Fact>, f: Fact, g: Fact)
    requires Sorted(FactLe, first + more) && f in first && g in more
    ensures f.at <= g.at
  {
    var i :| 0 <= i < |first| && first[i] == f;
    var j :| 0 <= j < |more| && more[j] == g;
    assert (first + more)[i] == f && (first + more)[|first| + j] == g;
  }

  lemma SortedJoin(a: seq<int>, b: seq<int>)
    requires Sorted(IntLe, a) && Sorted(IntLe, b) && forall c, d :: c in a && d in b ==> c <= d
    ensures Sorted(IntLe, a + b)
  {
    forall i, j | 0 <= i < j < |a + b| ensures IntLe((a + b)[i], (a + b)[j]) {
      if i < |a| <= j {
        assert a[i] in a && b[j - |a|] in b;
      }
    }
  }

  // ---- Whole runs ----

  lemma {:induction false} RunKeeps(states: seq<Store>, steps: seq<Step>, day: int -> int, i: nat)
    requires Run(states, steps, day) && i < |states|
    ensures Inv(states[i], day)
  {
    if i == 0 {
      EmptyInv(day);
    } else {
      RunKeeps(states, steps, day, i - 1);
      var s := states[i - 1];
      match steps[i - 1]
      case Append(place, fact, now) => AppendKeeps(s, day, place, fact, now);
      case WriteSummary(_, _, _, _, _) => SummaryKeeps(s, day, steps[i - 1]);
      case Discard(place) => DiscardKeeps(s, day, place);
    }
  }

  lemma EmptyInv(day: int -> int)
    ensures Inv(EMPTY, day)
  {
    NumbersAreOrdered();
    assert Map(DayOf(day), Filter(Opportunity(), [])) == [];
  }

  /** At every point of every run, whatever has been deleted so far, a reading at any moment returns what everything
      ever written would show above the boundary; what it leaves out is what lies at or below it. */
  lemma NoReadingIsChanged(states: seq<Store>, steps: seq<Step>, day: int -> int, i: nat, visibleAt: int)
    requires Run(states, steps, day) && i < |states|
    ensures var s := states[i];
            var whole, left := LiveFacts(Everything(s.log), visibleAt, None), View(s, visibleAt);
      && left.facts == Filter(Beyond(Through(s.base)), whole)
      && left.prediction.keys == OpportunityKeys(left.facts)
      && (s.base.Some? ==> Filter(UpTo(s.base.value.through), whole) + left.facts == whole)
  {
    RunKeeps(states, steps, day, i);
    var s := states[i];
    ViewIs(s, visibleAt);
    LeftoversReadLikeEverything(s.log, Through(s.base), visibleAt);
    LiveFactsShape(Filter(Reads(visibleAt, None), Everything(s.log)));
    if s.base.Some? {
      SplitsAtBoundary(s.base.value.through, LiveFacts(Everything(s.log), visibleAt, None));
    }
  }

  /** Writing a summary changes no reading either, but for moving the boundary: at any moment, what is read after it is
      what was read before it above the boundary there is now. */
  lemma SummaryOnlyMovesTheBoundary(states: seq<Store>, steps: seq<Step>, day: int -> int, i: nat, visibleAt: int)
    requires Run(states, steps, day) && i < |steps| && steps[i].WriteSummary?
    ensures View(states[i + 1], visibleAt).facts
         == Filter(Beyond(Through(states[i + 1].base)), View(states[i], visibleAt).facts)
  {
    var s, t := states[i], states[i + 1];
    RunKeeps(states, steps, day, i);
    NoReadingIsChanged(states, steps, day, i, visibleAt);
    NoReadingIsChanged(states, steps, day, i + 1, visibleAt);
    SummaryRaises(s, day, steps[i]);
    BeyondHigher(Through(s.base), Through(t.base), LiveFacts(Everything(s.log), visibleAt, None));
  }

  lemma SummaryRaises(s: Store, day: int -> int, step: Step)
    requires Inv(s, day) && step.WriteSummary? && Allowed(s, day, step)
    ensures Everything(Next(s, day, step).log) == Everything(s.log)
    ensures s.base.Some? ==>
      Next(s, day, step).base.Some? && KeyLe(s.base.value.through, Next(s, day, step).base.value.through)
  {
    if PlanOf(s, day, step).boundary.Some? {
      WhatIsWritten(s, day, step);
      PlanIsOfLiveFacts(s, day, step);
    } else {
      KeysAreOrdered();
    }
  }

  lemma BeyondHigher(low: Option<Key>, high: Option<Key>, facts: seq<Fact>)
    requires low.Some? ==> high.Some? && KeyLe(low.value, high.value)
    ensures Filter(Beyond(high), Filter(Beyond(low), facts)) == Filter(Beyond(high), facts)
  {
    forall f | Covered(low, KeyOf(f)) ensures Covered(high, KeyOf(f)) {
      KeysAreOrdered();
      Transitive(KeyLe, KeyOf(f), low.value, high.value);
    }
    FilterTwice(Beyond(high), Beyond(low), Beyond(high), facts);
  }

  /** Nor does deleting covered files, before or after a crash. */
  lemma DeletingChangesNoReading(states: seq<Store>, steps: seq<Step>, day: int -> int, i: nat, visibleAt: int)
    requires Run(states, steps, day) && i < |steps| && steps[i].Discard?
    ensures View(states[i + 1], visibleAt) == View(states[i], visibleAt)
  {
    RunKeeps(states, steps, day, i);
    DiscardKeeps(states[i], day, steps[i].place);
    NoReadingIsChanged(states, steps, day, i, visibleAt);
    NoReadingIsChanged(states, steps, day, i + 1, visibleAt);
    AccountAlwaysReads(FactsOf(states[i]), visibleAt, states[i].base);
    AccountAlwaysReads(FactsOf(states[i + 1]), visibleAt, states[i + 1].base);
  }

  /** A reading is also what the words that came in time show above the boundary. */
  lemma ReadingIsOfTimelyWords(s: Store, day: int -> int, visibleAt: int)
    requires Inv(s, day)
    ensures var whole, left := LiveFacts(History(s.log), visibleAt, None), View(s, visibleAt);
      && left.facts == Filter(Beyond(Through(s.base)), whole)
      && (s.base.Some? ==> Filter(UpTo(s.base.value.through), whole) + left.facts == whole)
  {
    ViewIs(s, visibleAt);
    LeftoversReadTheSame(s.log, Through(s.base), visibleAt);
    LiveFactsShape(Filter(Reads(visibleAt, None), History(s.log)));
    if s.base.Some? {
      SplitsAtBoundary(s.base.value.through, LiveFacts(History(s.log), visibleAt, None));
    }
  }

  /** The summary holds the histogram of the good natural hits of the compacted history, in order: it depends
      on the history and the boundary, not on where the run was cut to get there. */
  lemma SummaryIsTheHistogram(states: seq<Store>, steps: seq<Step>, day: int -> int, i: nat)
    requires Run(states, steps, day) && i < |states| && states[i].base.Some?
    ensures var s := states[i];
            s.base.value.offsets == Histogram(HitOffsets(Filter(UpTo(s.base.value.through), ByKey(History(s.log)))))
  {
    RunKeeps(states, steps, day, i);
  }

  /** Fact by fact: a summary lists a number of minutes with a count exactly when so many of the good natural hits at or
      below its boundary, and at least one, were off by so many minutes. */
  lemma SummaryListsTheCounts(states: seq<Store>, steps: seq<Step>, day: int -> int, i: nat, minutes: nat, count: nat)
    requires Run(states, steps, day) && i < |states| && states[i].base.Some?
    ensures var s := states[i];
            var compacted := Filter(UpTo(s.base.value.through), ByKey(History(s.log)));
            (minutes, count) in s.base.value.offsets <==> count == |Filter(CountedUnder(minutes), compacted)| && count > 0
  {
    SummaryIsTheHistogram(states, steps, day, i);
    OffsetsListTheCounts(Filter(UpTo(states[i].base.value.through), ByKey(History(states[i].log))), minutes, count);
  }

  lemma PlanFactsAreWritten(s: Store, day: int -> int, step: Step, f: Fact)
    requires step.WriteSummary? && f in PlanOf(s, day, step).facts
    ensures f in Everything(s.log)
  {
    ViewIs(s, step.now);
    BoundaryIsLive(View(s, step.now), day, step.openDay, step.since, step.window);
    FilterHas(UpTo(PlanOf(s, day, step).boundary.value), View(s, step.now).facts, f);
    LiveFactsShape(Filter(Reads(step.now, Through(s.base)), Files(s.log)));
    FilterHas(Reads(step.now, Through(s.base)), Files(s.log), f);
    HistoryHas(s.log, f);
  }

  lemma {:induction false} EverythingAt(log: seq<Entry>, k: nat)
    requires k < |log|
    ensures log[k].fact in Everything(log)
  {
    if k > 0 {
      EverythingAt(log[1..], k - 1);
    }
  }

  lemma EverythingStays(s: Store, day: int -> int, step: Step, f: Fact)
    requires Allowed(s, day, step) && f in Everything(s.log)
    ensures f in Everything(Next(s, day, step).log)
  {
    var t := Next(s, day, step);
    HistoryHas(s.log, f);
    var k :| 0 <= k < |s.log| && s.log[k].fact == f;
    match step
    case Append(place, _, _) => EverythingAt(t.log, if k < place then k else k + 1);
    case WriteSummary(now, _, _, _, _) =>
      if t != s {
        HushedHistory(s.log, InTime(Through(s.base), PlanOf(s, day, step).boundary.value, now));
      }
    case Discard(_) => EverythingAt(t.log, k);
  }

  predicate AllOf(facts: seq<Fact>, account: string) { forall f :: f in facts ==> f.account == account }

  predicate FiledUnder(base: Option<Summary>, account: string) { base.Some? ==> base.value.account == account }

  /** The summary is filed under the account whose facts it stands for. */
  lemma {:induction false} SummaryBelongsToTheAccount(
    states: seq<Store>, steps: seq<Step>, day: int -> int, i: nat, account: string)
    requires Run(states, steps, day) && i < |states| && AllOf(Everything(states[i].log), account)
    ensures FiledUnder(states[i].base, account)
  {
    if i > 0 {
      var s, step := states[i - 1], steps[i - 1];
      AccountBefore(s, day, step, account);
      SummaryBelongsToTheAccount(states, steps, day, i - 1, account);
      RunKeeps(states, steps, day, i - 1);
      StepKeepsTheAccount(s, day, step, account);
    }
  }

  lemma AccountBefore(s: Store, day: int -> int, step: Step, account: string)
    requires Allowed(s, day, step) && AllOf(Everything(Next(s, day, step).log), account)
    ensures AllOf(Everything(s.log), account)
  {
    forall f | f in Everything(s.log) ensures f.account == account {
      EverythingStays(s, day, step, f);
    }
  }

  lemma StepKeepsTheAccount(s: Store, day: int -> int, step: Step, account: string)
    requires Inv(s, day) && Allowed(s, day, step)
    requires AllOf(Everything(s.log), account) && FiledUnder(s.base, account)
    ensures FiledUnder(Next(s, day, step).base, account)
  {
    if s.base.Some? {
      AccountCarries(s, day, step);
    } else if Next(s, day, step).base.Some? {
      FirstSummaryAccount(s, day, step);
    }
  }

  lemma AccountCarries(s: Store, day: int -> int, step: Step)
    requires Allowed(s, day, step) && s.base.Some?
    ensures Next(s, day, step).base.Some? && Next(s, day, step).base.value.account == s.base.value.account
  {
    if step.WriteSummary? { ViewIs(s, step.now); }
  }

  lemma FirstSummaryAccount(s: Store, day: int -> int, step: Step)
    requires Inv(s, day) && Allowed(s, day, step) && s.base.None? && Next(s, day, step).base.Some?
    ensures exists f :: f in Everything(s.log) && f.account == Next(s, day, step).base.value.account
  {
    ViewIs(s, step.now);
    PlanFoldsTheSlice(s, day, step);
    var f := PlanOf(s, day, step).facts[0];
    PlanFactsAreWritten(s, day, step, f);
  }

  /** Two runs that wrote the same facts and compacted up to the same boundary hold the same offsets. */
  lemma OffsetsForgetTheCuts(
    states: seq<Store>, steps: seq<Step>, i: nat, others: seq<Store>, otherSteps: seq<Step>, j: nat, day: int -> int)
    requires Run(states, steps, day) && i < |states| && Run(others, otherSteps, day) && j < |others|
    requires ByKey(History(states[i].log)) == ByKey(History(others[j].log))
    requires states[i].base.Some? && others[j].base.Some?
    requires states[i].base.value.through == others[j].base.value.through
    ensures states[i].base.value.offsets == others[j].base.value.offsets
  {
    SummaryIsTheHistogram(states, steps, day, i);
    SummaryIsTheHistogram(others, otherSteps, day, j);
  }

  /** Summary and live facts together count every good natural hit once. */
  lemma HitsAreConserved(states: seq<Store>, steps: seq<Step>, day: int -> int, i: nat, now: int)
    requires Run(states, steps, day) && i < |states|
    requires forall f :: f in History(states[i].log) ==> Precedence(f) <= now
    ensures OffsetsOf(states[i].base) + HitOffsets(View(states[i], now).facts) == HitOffsets(ByKey(History(states[i].log)))
  {
    RunKeeps(states, steps, day, i);
    var s := states[i];
    ReadingIsOfTimelyWords(s, day, now);
    FilterAll(Reads(now, None), History(s.log));
    if s.base.Some? {
      HitOffsetsAppend(Compacted(s), View(s, now).facts);
    } else {
      FilterAll(Beyond(None), ByKey(History(s.log)));
    }
  }

  // ---- Late words ----

  /** A word about an expectation that is compacted changes no reading and no summary. */
  lemma LateWordsChangeNothing(states: seq<Store>, steps: seq<Step>, day: int -> int, i: nat, visibleAt: int)
    requires Run(states, steps, day) && i < |steps| && steps[i].Append?
    requires Covered(Through(states[i].base), KeyOf(steps[i].fact))
    ensures states[i + 1].base == states[i].base && View(states[i + 1], visibleAt) == View(states[i], visibleAt)
  {
    RunKeeps(states, steps, day, i);
    RunKeeps(states, steps, day, i + 1);
    LateWordKeeps(states[i], day, steps[i].place, steps[i].fact, steps[i].now);
    ReadingIsOfTimelyWords(states[i], day, visibleAt);
    ReadingIsOfTimelyWords(states[i + 1], day, visibleAt);
    AccountAlwaysReads(FactsOf(states[i]), visibleAt, states[i].base);
    AccountAlwaysReads(FactsOf(states[i + 1]), visibleAt, states[i + 1].base);
  }

  /** What the rest of the system does: it writes about days that no earlier compaction found settled and past the
      diagnosis, its clock runs forward, and nothing it writes carries a time of writing still to come. */
  ghost predicate InGoodTime(steps: seq<Step>, day: int -> int) {
    && (forall i, j :: 0 <= j < i < |steps| && steps[j].WriteSummary? && steps[i].Append? ==>
         !OldEnough(day, steps[j].openDay, steps[j].since, steps[i].fact.at))
    && (forall i, j :: 0 <= j < i < |steps| && !steps[j].Discard? && !steps[i].Discard? ==> steps[j].now <= steps[i].now)
    && (forall i :: 0 <= i < |steps| && steps[i].Append? ==> Precedence(steps[i].fact) <= steps[i].now)
  }

  ghost predicate AllHeard(log: seq<Entry>) { forall e :: e in log ==> e.heard }

  /** The boundary was old enough for one of the compactions before this point. */
  ghost predicate BoundaryWasOld(steps: seq<Step>, day: int -> int, i: nat, base: Option<Summary>)
    requires i <= |steps|
  {
    base.Some? ==>
      exists j :: 0 <= j < i && steps[j].WriteSummary?
                  && OldEnough(day, steps[j].openDay, steps[j].since, base.value.through.at)
  }

  lemma {:induction false} AllHeardIsEverything(log: seq<Entry>)
    requires AllHeard(log)
    ensures History(log) == Everything(log)
  {
    if log != [] {
      assert log[0] in log && forall e :: e in log[1..] ==> e in log;
      AllHeardIsEverything(log[1..]);
    }
  }

  lemma PlanBoundaryIsOld(s: Store, day: int -> int, step: Step)
    requires Monotone(day) && step.WriteSummary? && PlanOf(s, day, step).boundary.Some?
    ensures OldEnough(day, step.openDay, step.since, PlanOf(s, day, step).boundary.value.at)
  {
    ViewIs(s, step.now);
    BoundaryIsLive(View(s, step.now), day, step.openDay, step.since, step.window);
    var f :| f in PlanOf(s, day, step).facts && KeyOf(f) == PlanOf(s, day, step).boundary.value;
    PlanTakesOnlyOldFacts(View(s, step.now), day, step.openDay, step.since, step.window, f);
  }

  /** Whatever is in the log was written by some step. */
  lemma {:induction false} WrittenByAStep(states: seq<Store>, steps: seq<Step>, day: int -> int, i: nat, f: Fact) returns (j: nat)
    requires Run(states, steps, day) && i < |states| && f in Everything(states[i].log)
    ensures j < i && steps[j].Append? && steps[j].fact == f
  {
    HistoryHas(states[i].log, f);
    if i > 0 {
      var s, step := states[i - 1], steps[i - 1];
      if step.Append? && step.fact == f {
        j := i - 1;
      } else {
        WrittenBefore(s, day, step, f);
        j := WrittenByAStep(states, steps, day, i - 1, f);
      }
    }
  }

  lemma WrittenBefore(s: Store, day: int -> int, step: Step, f: Fact)
    requires Allowed(s, day, step) && f in Everything(Next(s, day, step).log) && !(step.Append? && step.fact == f)
    ensures f in Everything(s.log)
  {
    var t := Next(s, day, step);
    HistoryHas(t.log, f);
    HistoryHas(s.log, f);
    match step
    case Append(_, _, _) =>
    case WriteSummary(now, _, _, _, _) =>
      if t != s {
        HushedHistory(s.log, InTime(Through(s.base), PlanOf(s, day, step).boundary.value, now));
      }
    case Discard(place) => HistoryAt(s.log, place);
  }

  lemma NothingIsToCome(states: seq<Store>, steps: seq<Step>, day: int -> int, i: nat)
    requires Run(states, steps, day) && i < |steps| && InGoodTime(steps, day) && steps[i].WriteSummary?
    ensures forall f :: f in Everything(states[i].log) ==> Precedence(f) <= steps[i].now
  {
    forall f | f in Everything(states[i].log) ensures Precedence(f) <= steps[i].now {
      var j := WrittenByAStep(states, steps, day, i, f);
    }
  }

  lemma AppendHears(s: Store, day: int -> int, step: Step)
    requires step.Append? && Allowed(s, day, step) && AllHeard(s.log) && !Covered(Through(s.base), KeyOf(step.fact))
    ensures AllHeard(Next(s, day, step).log)
  {
  }

  lemma DiscardHears(s: Store, day: int -> int, step: Step)
    requires step.Discard? && Allowed(s, day, step) && AllHeard(s.log)
    ensures AllHeard(Next(s, day, step).log)
  {
    var t := Next(s, day, step);
    forall e | e in t.log ensures e.heard {
      var k :| 0 <= k < |t.log| && t.log[k] == e;
      assert s.log[k] in s.log;
    }
  }

  lemma SummaryHears(s: Store, day: int -> int, step: Step)
    requires step.WriteSummary? && AllHeard(s.log) && forall f :: f in Everything(s.log) ==> Precedence(f) <= step.now
    ensures AllHeard(Next(s, day, step).log)
  {
    var t := Next(s, day, step);
    if t != s {
      var inTime := InTime(Through(s.base), PlanOf(s, day, step).boundary.value, step.now);
      HushedHas(s.log, inTime);
      forall e | e in t.log ensures e.heard {
        var k :| 0 <= k < |t.log| && t.log[k] == e;
        assert s.log[k] in s.log;
        HistoryHas(s.log, e.fact);
      }
    }
  }

  lemma SummaryBoundaryIsOld(s: Store, day: int -> int, step: Step)
    requires Monotone(day) && step.WriteSummary? && Next(s, day, step).base != s.base
    ensures Next(s, day, step).base.Some?
    ensures OldEnough(day, step.openDay, step.since, Next(s, day, step).base.value.through.at)
  {
    PlanBoundaryIsOld(s, day, step);
  }

  lemma BoundaryStaysOld(steps: seq<Step>, day: int -> int, i: nat, base: Option<Summary>)
    requires i < |steps| && BoundaryWasOld(steps, day, i, base)
    ensures BoundaryWasOld(steps, day, i + 1, base)
  {
  }

  lemma {:induction false} RunHears(states: seq<Store>, steps: seq<Step>, day: int -> int, i: nat)
    requires Run(states, steps, day) && i < |states| && Monotone(day) && InGoodTime(steps, day)
    ensures AllHeard(states[i].log) && BoundaryWasOld(steps, day, i, states[i].base)
  {
    if i > 0 {
      RunHears(states, steps, day, i - 1);
      StepHears(states, steps, day, i - 1);
    }
  }

  lemma StepHears(states: seq<Store>, steps: seq<Step>, day: int -> int, i: nat)
    requires Run(states, steps, day) && i < |steps| && Monotone(day) && InGoodTime(steps, day)
    requires AllHeard(states[i].log) && BoundaryWasOld(steps, day, i, states[i].base)
    ensures AllHeard(states[i + 1].log) && BoundaryWasOld(steps, day, i + 1, states[i + 1].base)
  {
    var s, step := states[i], steps[i];
    BoundaryStaysOld(steps, day, i, s.base);
    match step
    case Append(_, _, _) =>
      AppendIsNotCovered(steps, day, i, s.base);
      AppendHears(s, day, step);
    case WriteSummary(_, _, _, _, _) =>
      NothingIsToCome(states, steps, day, i);
      SummaryHears(s, day, step);
      if states[i + 1].base != s.base {
        SummaryBoundaryIsOld(s, day, step);
      }
    case Discard(_) => DiscardHears(s, day, step);
  }

  lemma EarlierIsOld(day: int -> int, openDay: Option<int>, since: int, a: int, b: int)
    requires Monotone(day) && OldEnough(day, openDay, since, b)
    ensures a <= b ==> OldEnough(day, openDay, since, a)
  {
  }

  /** What is written in good time is never about something compacted: that is what the limits on compaction are for. */
  lemma AppendIsNotCovered(steps: seq<Step>, day: int -> int, i: nat, base: Option<Summary>)
    requires i < |steps| && Monotone(day) && InGoodTime(steps, day) && steps[i].Append?
    requires BoundaryWasOld(steps, day, i, base)
    ensures !Covered(Through(base), KeyOf(steps[i].fact))
  {
    if base.Some? {
      var j :| 0 <= j < i && steps[j].WriteSummary?
               && OldEnough(day, steps[j].openDay, steps[j].since, base.value.through.at);
      EarlierIsOld(day, steps[j].openDay, steps[j].since, steps[i].fact.at, base.value.through.at);
    }
  }

  /** When words come in good time and dates move forward, no word is ever late: the history that readings and summaries
      go by is everything ever written. */
  lemma NothingIsLate(states: seq<Store>, steps: seq<Step>, day: int -> int, i: nat)
    requires Run(states, steps, day) && i < |states| && Monotone(day) && InGoodTime(steps, day)
    ensures History(states[i].log) == Everything(states[i].log)
    ensures i < |steps| && steps[i].Append? ==> !Covered(Through(states[i].base), KeyOf(steps[i].fact))
  {
    RunHears(states, steps, day, i);
    AllHeardIsEverything(states[i].log);
    if i < |steps| && steps[i].Append? {
      AppendIsNotCovered(steps, day, i, states[i].base);
    }
  }
}
