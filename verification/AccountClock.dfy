/** How one account's log is read (habitus/foresight/clock.py): what had been written by then, one fact
    for each expectation, on a clock of opportunities. */
module AccountClock {
  import opened Orders
  import opened Sequences
  import opened Ledger

  datatype Clock = Clock(keys: seq<Key>)

  datatype ClockError = NotDistinctInOrder

  datatype Account = Account(visibleAt: int, facts: seq<Fact>, prediction: Clock, base: Option<Summary>)

  /** Writing order: by precedence, a revision after the verdict it revises. Position in the input is the
      last resort, and that is what a stable sort goes by. */
  predicate WrittenLe(f: Fact, g: Fact) {
    Precedence(f) < Precedence(g) || (Precedence(f) == Precedence(g) && (IsRevision(f) ==> IsRevision(g)))
  }

  predicate AtLe(f: Fact, g: Fact) { f.at <= g.at }

  predicate FactLe(f: Fact, g: Fact) { KeyLe(KeyOf(f), KeyOf(g)) }

  lemma FactOrders()
    ensures TotalPreorder(WrittenLe) && TotalPreorder(AtLe) && TotalPreorder(FactLe)
  {
    KeysAreOrdered();
    forall a, b, c | Chain(FactLe, a, b, c) ensures FactLe(a, c) {
      Transitive(KeyLe, KeyOf(a), KeyOf(b), KeyOf(c));
    }
  }

  /** Assignment into a dictionary keyed by expectation: a key keeps its place, its value is replaced. */
  function Overwrite(latest: seq<Fact>, f: Fact): seq<Fact> {
    if latest == [] then [f]
    else if latest[0].id == f.id then [f] + latest[1..]
    else [latest[0]] + Overwrite(latest[1..], f)
  }

  function Latest(ordered: seq<Fact>): seq<Fact> {
    if ordered == [] then []
    else Overwrite(Latest(ordered[..|ordered| - 1]), ordered[|ordered| - 1])
  }

  function CurrentFacts(facts: seq<Fact>): seq<Fact> {
    Sort(AtLe, Latest(Sort(WrittenLe, facts)))
  }

  method ReadCurrentFacts(facts: seq<Fact>) returns (current: seq<Fact>)
    ensures current == CurrentFacts(facts)
  {
    var latest: seq<Fact> := [];
    var ordered := Sort(WrittenLe, facts);
    for i := 0 to |ordered|
      invariant latest == Latest(ordered[..i])
    {
      assert ordered[..i + 1][..i] == ordered[..i];
      latest := Overwrite(latest, ordered[i]);
    }
    assert ordered[..|ordered|] == ordered;
    current := Sort(AtLe, latest);
  }

  /** Voided expectations and gaps in observation are not opportunities; whatever happened after a
      reminder is. */
  predicate IsOpportunity(f: Fact) {
    f.kind != Void && !(f.kind == Expired && f.strength == 0.0)
  }

  function Opportunity(): Fact -> bool { (f: Fact) => IsOpportunity(f) }

  /** What a reading at a moment takes from the files, given the part that is compacted. */
  function Reads(visibleAt: int, through: Option<Key>): Fact -> bool {
    (f: Fact) => Precedence(f) <= visibleAt && !Covered(through, KeyOf(f))
  }

  function ByKey(facts: seq<Fact>): seq<Fact> {
    Sort(FactLe, CurrentFacts(facts))
  }

  function LiveFacts(facts: seq<Fact>, visibleAt: int, through: Option<Key>): seq<Fact> {
    ByKey(Filter(Reads(visibleAt, through), facts))
  }

  function OpportunityKeys(facts: seq<Fact>): seq<Key> {
    Map(KeyOf, Filter(Opportunity(), facts))
  }

  function NewClock(keys: seq<Key>): Result<Clock, ClockError> {
    KeysAreOrdered();
    if keys == Listing(KeyLe, Elements(keys)) then Ok(Clock(keys)) else Err(NotDistinctInOrder)
  }

  function RankedAccount(facts: seq<Fact>, visibleAt: int, base: Option<Summary>): (r: Result<Account, ClockError>) {
    var live := LiveFacts(facts, visibleAt, Through(base));
    var clock := NewClock(OpportunityKeys(live));
    if clock.Err? then Err(clock.error) else Ok(Account(visibleAt, live, clock.value, base))
  }

  function BisectRight(keys: seq<Key>, key: Key): nat {
    if keys == [] || !KeyLe(keys[0], key) then 0 else 1 + BisectRight(keys[1..], key)
  }

  /** The last number on a clock. */
  function Last(clock: Clock): nat {
    if clock.keys == [] then 0 else |clock.keys| - 1
  }

  function Rank(clock: Clock, f: Fact): nat {
    var after := BisectRight(clock.keys, KeyOf(f));
    if after == 0 then 0 else after - 1
  }

  // ---- One fact for each expectation ----

  predicate OnePerExpectation(s: seq<Fact>) {
    forall i, j :: 0 <= i < j < |s| ==> s[i].id != s[j].id
  }

  lemma {:induction false} OverwriteHas(latest: seq<Fact>, f: Fact)
    requires OnePerExpectation(latest)
    ensures OnePerExpectation(Overwrite(latest, f))
    ensures forall g :: g in Overwrite(latest, f) <==> g == f || (g in latest && g.id != f.id)
  {
    if latest != [] {
      assert latest == [latest[0]] + latest[1..];
      if latest[0].id != f.id {
        OverwriteHas(latest[1..], f);
        forall g | g in Overwrite(latest[1..], f) ensures g.id != latest[0].id {
          if g != f {
            var k :| 0 <= k < |latest[1..]| && latest[1..][k] == g;
          }
        }
      }
    }
  }

  lemma {:induction false} LatestDistinct(ordered: seq<Fact>)
    ensures OnePerExpectation(Latest(ordered))
    ensures forall g :: g in Latest(ordered) ==> g in ordered
  {
    if ordered != [] {
      LatestDistinct(ordered[..|ordered| - 1]);
      OverwriteHas(Latest(ordered[..|ordered| - 1]), ordered[|ordered| - 1]);
    }
  }

  lemma {:induction false} SortDistinct(le: (Fact, Fact) -> bool, s: seq<Fact>)
    requires OnePerExpectation(s)
    ensures OnePerExpectation(Sort(le, s))
    ensures forall g :: g in Sort(le, s) <==> g in s
  {
    if s != [] {
      SortDistinct(le, s[1..]);
      assert s == [s[0]] + s[1..];
      InsertDistinct(le, s[0], Sort(le, s[1..]));
    }
  }

  lemma {:induction false} InsertDistinct(le: (Fact, Fact) -> bool, x: Fact, s: seq<Fact>)
    requires OnePerExpectation(s) && forall g :: g in s ==> g.id != x.id
    ensures OnePerExpectation(Insert(le, x, s))
    ensures forall g :: g in Insert(le, x, s) <==> g == x || g in s
  {
    if s != [] && !le(x, s[0]) {
      assert s == [s[0]] + s[1..];
      InsertDistinct(le, x, s[1..]);
      assert forall g :: g in s[1..] ==> g.id != s[0].id;
    }
  }

  lemma LiveFactsShape(facts: seq<Fact>)
    ensures OnePerExpectation(ByKey(facts)) && Sorted(FactLe, ByKey(facts))
    ensures forall g :: g in ByKey(facts) <==> g in CurrentFacts(facts)
    ensures forall g :: g in ByKey(facts) ==> g in facts
  {
    FactOrders();
    LatestDistinct(Sort(WrittenLe, facts));
    SortSorts(WrittenLe, facts);
    SortDistinct(AtLe, Latest(Sort(WrittenLe, facts)));
    SortDistinct(FactLe, CurrentFacts(facts));
    SortSorts(FactLe, CurrentFacts(facts));
  }

  // ---- Which fact that is ----

  /** Position i holds the last word on its expectation: every other fact about it was written earlier,
      or at the same moment as a verdict a revision revises, or at the same moment and listed before. */
  predicate IsLastWord(facts: seq<Fact>, i: nat) {
    i < |facts| && forall j :: 0 <= j < |facts| && facts[j].id == facts[i].id ==> Overridden(facts, j, i)
  }

  predicate Overridden(facts: seq<Fact>, j: nat, i: nat)
    requires j < |facts| && i < |facts|
  {
    var f, g := facts[j], facts[i];
    var before := if f.writtenAt.Some? then f.writtenAt.value else f.at;
    var after := if g.writtenAt.Some? then g.writtenAt.value else g.at;
    before < after || (before == after && (if f.kind == CaughtUp <==> g.kind == CaughtUp then j <= i else g.kind == CaughtUp))
  }

  function About(id: string): Fact -> bool { (f: Fact) => f.id == id }

  predicate EndsWith(s: seq<Fact>, f: Fact) { s != [] && s[|s| - 1] == f }

  lemma EndAbout(front: seq<Fact>, g: Fact, f: Fact)
    ensures EndsWith(Filter(About(f.id), front + [g]), f)
            <==> if g.id == f.id then g == f else EndsWith(Filter(About(f.id), front), f)
  {
    FilterSnoc(About(f.id), front, g);
  }

  lemma {:induction false} LatestIsLast(ordered: seq<Fact>, f: Fact)
    ensures f in Latest(ordered) <==> EndsWith(Filter(About(f.id), ordered), f)
  {
    if ordered != [] {
      var front, g := ordered[..|ordered| - 1], ordered[|ordered| - 1];
      assert ordered == front + [g];
      LatestIsLast(front, f);
      LatestDistinct(front);
      OverwriteHas(Latest(front), g);
      EndAbout(front, g, f);
    }
  }

  lemma {:induction false} InsertLast(le: (Fact, Fact) -> bool, x: Fact, s: seq<Fact>)
    requires TotalPreorder(le) && Sorted(le, s)
    ensures var r := Insert(le, x, s);
            r != [] && r[|r| - 1] == if s != [] && le(x, s[|s| - 1]) then s[|s| - 1] else x
  {
    if s != [] && !le(x, s[0]) {
      InsertLast(le, x, s[1..]);
      assert |s| > 1 ==> s[1..][|s| - 2] == s[|s| - 1];
    } else if s != [] {
      if |s| > 1 { Transitive(le, x, s[0], s[|s| - 1]); }
    }
  }

  lemma ExtendLastWord(x: Fact, rest: seq<Fact>, k: nat)
    requires IsLastWord(rest, k)
    ensures if x.id == rest[k].id && !WrittenLe(x, rest[k]) then IsLastWord([x] + rest, 0)
            else IsLastWord([x] + rest, k + 1)
  {
    var facts := [x] + rest;
    var i: nat := if x.id == rest[k].id && !WrittenLe(x, rest[k]) then 0 else k + 1;
    forall j | 0 <= j < |facts| && facts[j].id == facts[i].id ensures Overridden(facts, j, i) {
      if j > 0 {
        assert facts[j] == rest[j - 1] && Overridden(rest, j - 1, k);
      }
    }
  }

  /** The fact of a sequence that comes last in writing order. */
  function LastWritten(s: seq<Fact>): Fact
    requires s != []
  {
    FactOrders();
    SortSorts(WrittenLe, s);
    Sort(WrittenLe, s)[|s| - 1]
  }

  lemma LastWrittenCons(x: Fact, others: seq<Fact>)
    ensures LastWritten([x] + others)
         == if others != [] && WrittenLe(x, LastWritten(others)) then LastWritten(others) else x
  {
    FactOrders();
    SortSorts(WrittenLe, others);
    InsertLast(WrittenLe, x, Sort(WrittenLe, others));
    SortSorts(WrittenLe, [x] + others);
    assert ([x] + others)[1..] == others;
  }

  lemma {:induction false} FindLastWord(facts: seq<Fact>, id: string) returns (i: nat)
    requires exists f :: f in facts && f.id == id
    ensures IsLastWord(facts, i) && facts[i].id == id
    ensures var mine := Filter(About(id), facts); mine != [] && LastWritten(mine) == facts[i]
  {
    var x, rest := facts[0], facts[1..];
    assert facts == [x] + rest;
    FilterCons(About(id), x, rest);
    LastWrittenCons(x, Filter(About(id), rest));
    if exists f :: f in rest && f.id == id {
      var k := FindLastWord(rest, id);
      ExtendLastWord(x, rest, k);
      i := if x.id == id && !WrittenLe(x, rest[k]) then 0 else k + 1;
    } else {
      i := 0;
      FilterNone(About(id), rest);
      forall j | 0 < j < |facts| ensures facts[j].id != id {
        assert facts[j] in rest;
      }
    }
  }

  lemma CurrentIsLastWritten(facts: seq<Fact>, f: Fact)
    ensures f in CurrentFacts(facts) <==> var mine := Filter(About(f.id), facts); mine != [] && LastWritten(mine) == f
  {
    FactOrders();
    var ordered := Sort(WrittenLe, facts);
    SortSorts(AtLe, Latest(ordered));
    LatestIsLast(ordered, f);
    FilterSort(About(f.id), WrittenLe, facts);
    SortSorts(WrittenLe, Filter(About(f.id), facts));
  }

  lemma OneLastWord(facts: seq<Fact>, i: nat, k: nat)
    requires IsLastWord(facts, i) && IsLastWord(facts, k) && facts[i].id == facts[k].id
    ensures i == k
  {
    assert Overridden(facts, i, k) && Overridden(facts, k, i);
  }

  /** The account shows, for each expectation, exactly the fact that has the last word on it. */
  lemma ShowsTheLastWord(facts: seq<Fact>, f: Fact)
    ensures f in CurrentFacts(facts) <==> exists i :: 0 <= i < |facts| && IsLastWord(facts, i) && facts[i] == f
  {
    CurrentIsLastWritten(facts, f);
    if f in facts {
      var k := FindLastWord(facts, f.id);
      forall i | 0 <= i < |facts| && IsLastWord(facts, i) && facts[i] == f ensures i == k {
        OneLastWord(facts, i, k);
      }
    } else if Filter(About(f.id), facts) != [] {
      var mine := Filter(About(f.id), facts);
      FilterHas(About(f.id), facts, mine[0]);
      var k := FindLastWord(facts, f.id);
    }
  }

  // ---- Readings over time ----

  /** As the moment of reading moves on, an expectation once shown stays shown, by the same version or by
      one that overrides it. */
  lemma ReadingNeverFallsBack(facts: seq<Fact>, early: int, late: int, through: Option<Key>, f: Fact)
    requires early <= late && f in LiveFacts(facts, early, through)
    ensures exists g :: g in LiveFacts(facts, late, through) && g.id == f.id && WrittenLe(f, g)
  {
    var before, after := Filter(Reads(early, through), facts), Filter(Reads(late, through), facts);
    LiveFactsShape(before);
    LiveFactsShape(after);
    FilterHas(Reads(early, through), facts, f);
    FilterHas(Reads(late, through), facts, f);
    var k := FindLastWord(after, f.id);
    ShowsTheLastWord(after, after[k]);
    var j :| 0 <= j < |after| && after[j] == f;
    assert Overridden(after, j, k);
  }

  lemma {:induction false} LastOfFilter<T>(p: T -> bool, s: seq<T>)
    requires s != [] && p(s[|s| - 1])
    ensures Filter(p, s) != [] && Filter(p, s)[|Filter(p, s)| - 1] == s[|s| - 1]
  {
    assert s == s[..|s| - 1] + [s[|s| - 1]];
    FilterSnoc(p, s[..|s| - 1], s[|s| - 1]);
  }

  lemma LastWrittenOfFilter(p: Fact -> bool, s: seq<Fact>)
    requires s != [] && p(LastWritten(s))
    ensures Filter(p, s) != [] && LastWritten(Filter(p, s)) == LastWritten(s)
  {
    FactOrders();
    FilterSort(p, WrittenLe, s);
    SortSorts(WrittenLe, s);
    LastOfFilter(p, Sort(WrittenLe, s));
    SortSorts(WrittenLe, Filter(p, s));
  }

  /** A fact that has the last word among what is visible later has it earlier too, if it was visible. */
  lemma LastWordAmongFewer(p: Fact -> bool, facts: seq<Fact>, g: Fact)
    requires g in CurrentFacts(facts) && p(g)
    ensures g in CurrentFacts(Filter(p, facts))
  {
    CurrentIsLastWritten(facts, g);
    CurrentIsLastWritten(Filter(p, facts), g);
    FilterSwap(p, About(g.id), facts);
    LastWrittenOfFilter(p, Filter(About(g.id), facts));
  }

  /** A reading shows nothing that had not been written by then. */
  lemma NothingUnwrittenIsShown(facts: seq<Fact>, visibleAt: int, through: Option<Key>, f: Fact)
    requires f in LiveFacts(facts, visibleAt, through)
    ensures f.writtenAt.Some? ==> f.writtenAt.value <= visibleAt
    ensures f.writtenAt.None? ==> f.at <= visibleAt
  {
    LiveFactsShape(Filter(Reads(visibleAt, through), facts));
    FilterHas(Reads(visibleAt, through), facts, f);
  }

  /** What is written after a moment, put anywhere in the log, changes no reading at that moment: a revision written
      later never reaches back to cover the verdict it revises. */
  lemma LaterWritingDoesNotReachBack(facts: seq<Fact>, place: nat, late: Fact, visibleAt: int, through: Option<Key>)
    requires place <= |facts| && late.writtenAt.Some? && late.writtenAt.value > visibleAt
    ensures LiveFacts(facts[..place] + [late] + facts[place..], visibleAt, through) == LiveFacts(facts, visibleAt, through)
  {
    var p, front, back := Reads(visibleAt, through), facts[..place], facts[place..];
    assert facts == front + back && front + [late] + back == front + ([late] + back);
    FilterAppend(p, front, back);
    FilterAppend(p, front, [late] + back);
    FilterCons(p, late, back);
  }

  /** And what has been written by a moment does count then: of a verdict and a revision of it written by then, the
      verdict is not shown. */
  lemma WrittenRevisionsCover(facts: seq<Fact>, verdict: Fact, revision: Fact, visibleAt: int, through: Option<Key>)
    requires verdict in facts && revision in facts && verdict.id == revision.id && verdict.at == revision.at
    requires verdict.kind != CaughtUp && revision.kind == CaughtUp && revision.writtenAt.Some?
    requires verdict.at <= revision.writtenAt.value <= visibleAt && verdict.writtenAt.None?
    ensures verdict !in LiveFacts(facts, visibleAt, through)
  {
    var seen := Filter(Reads(visibleAt, through), facts);
    LiveFactsShape(seen);
    FilterHas(Reads(visibleAt, through), facts, verdict);
    FilterHas(Reads(visibleAt, through), facts, revision);
    ShowsTheLastWord(seen, verdict);
    if verdict in seen {
      var j :| 0 <= j < |seen| && seen[j] == revision;
      forall i | 0 <= i < |seen| && seen[i] == verdict ensures !IsLastWord(seen, i) {
        assert !Overridden(seen, j, i);
      }
    }
  }

  /** Facts are read by moment, and within a moment by the name of their expectation. */
  lemma ReadingIsInOrder(facts: seq<Fact>, visibleAt: int, through: Option<Key>, i: nat, j: nat)
    requires i < j < |LiveFacts(facts, visibleAt, through)|
    ensures var f, g := LiveFacts(facts, visibleAt, through)[i], LiveFacts(facts, visibleAt, through)[j];
      f.at < g.at || (f.at == g.at && TextLe(f.id, g.id) && f.id != g.id)
  {
    LiveFactsShape(Filter(Reads(visibleAt, through), facts));
    var live := LiveFacts(facts, visibleAt, through);
    assert FactLe(live[i], live[j]);
  }

  /** A reading changes its version of an expectation only to one written after the earlier reading: an
      earlier version never resurfaces, and later writing never reaches back. */
  lemma OnlyLaterWritingOverrides(facts: seq<Fact>, early: int, late: int, through: Option<Key>, f: Fact, g: Fact)
    requires early <= late && f.id == g.id
    requires f in LiveFacts(facts, early, through) && g in LiveFacts(facts, late, through)
    ensures g == f || ((if f.writtenAt.Some? then f.writtenAt.value else f.at) <= early
                       < (if g.writtenAt.Some? then g.writtenAt.value else g.at))
  {
    var before, after := Filter(Reads(early, through), facts), Filter(Reads(late, through), facts);
    LiveFactsShape(before);
    LiveFactsShape(after);
    FilterHas(Reads(early, through), facts, f);
    if Precedence(g) <= early {
      FilterTwice(Reads(early, through), Reads(late, through), Reads(early, through), facts);
      FilterHas(Reads(late, through), facts, g);
      LastWordAmongFewer(Reads(early, through), after, g);
      var i :| 0 <= i < |ByKey(before)| && ByKey(before)[i] == f;
      var j :| 0 <= j < |ByKey(before)| && ByKey(before)[j] == g;
    }
  }

  // ---- Reading commutes with taking whole expectations away ----

  /** A test that gives one answer for all the facts of an expectation. */
  predicate ByExpectation(p: Fact -> bool, facts: seq<Fact>) {
    forall f, g :: f in facts && g in facts && f.id == g.id ==> p(f) == p(g)
  }

  lemma OverwriteCons(x: Fact, rest: seq<Fact>, f: Fact)
    ensures Overwrite([x] + rest, f) == if x.id == f.id then [f] + rest else [x] + Overwrite(rest, f)
  {
    assert ([x] + rest)[1..] == rest;
  }

  lemma {:induction false} FilterOverwrite(p: Fact -> bool, latest: seq<Fact>, f: Fact)
    requires OnePerExpectation(latest) && forall g :: g in latest && g.id == f.id ==> p(g) == p(f)
    ensures Filter(p, Overwrite(latest, f)) == if p(f) then Overwrite(Filter(p, latest), f) else Filter(p, latest)
  {
    if latest == [] {
      FilterCons(p, f, []);
    } else {
      var x, rest := latest[0], latest[1..];
      assert latest == [x] + rest;
      assert x in latest && forall g :: g in rest ==> g in latest;
      FilterOverwrite(p, rest, f);
      FilterOverwriteFrom(p, x, rest, f);
    }
  }

  lemma FilterOverwriteFrom(p: Fact -> bool, x: Fact, rest: seq<Fact>, f: Fact)
    requires x.id == f.id ==> p(x) == p(f)
    requires Filter(p, Overwrite(rest, f)) == if p(f) then Overwrite(Filter(p, rest), f) else Filter(p, rest)
    ensures Filter(p, Overwrite([x] + rest, f))
         == if p(f) then Overwrite(Filter(p, [x] + rest), f) else Filter(p, [x] + rest)
  {
    FilterCons(p, x, rest);
    FilterCons(p, f, rest);
    FilterCons(p, x, Overwrite(rest, f));
    OverwriteCons(x, rest, f);
    OverwriteCons(x, Filter(p, rest), f);
  }

  lemma {:induction false} FilterLatest(p: Fact -> bool, ordered: seq<Fact>)
    requires ByExpectation(p, ordered)
    ensures Filter(p, Latest(ordered)) == Latest(Filter(p, ordered))
  {
    if ordered != [] {
      var front, f := ordered[..|ordered| - 1], ordered[|ordered| - 1];
      assert ordered == front + [f] && f in ordered;
      assert forall g :: g in front ==> g in ordered;
      FilterLatest(p, front);
      LatestDistinct(front);
      assert forall g :: g in Latest(front) ==> g in ordered;
      FilterOverwrite(p, Latest(front), f);
      FilterSnoc(p, front, f);
      LatestSnoc(front, f);
      LatestSnoc(Filter(p, front), f);
    }
  }

  lemma LatestSnoc(front: seq<Fact>, f: Fact)
    ensures Latest(front + [f]) == Overwrite(Latest(front), f)
  {
    assert (front + [f])[..|front|] == front;
  }

  lemma FilterCurrent(p: Fact -> bool, facts: seq<Fact>)
    requires ByExpectation(p, facts)
    ensures Filter(p, CurrentFacts(facts)) == CurrentFacts(Filter(p, facts))
  {
    FactOrders();
    SortSorts(WrittenLe, facts);
    FilterLatest(p, Sort(WrittenLe, facts));
    FilterSort(p, WrittenLe, facts);
    FilterSort(p, AtLe, Latest(Sort(WrittenLe, facts)));
  }

  /** Reading what passes such a test gives what passes it of the reading. */
  lemma FilterByKey(p: Fact -> bool, facts: seq<Fact>)
    requires ByExpectation(p, facts)
    ensures Filter(p, ByKey(facts)) == ByKey(Filter(p, facts))
  {
    FactOrders();
    FilterCurrent(p, facts);
    FilterSort(p, FactLe, CurrentFacts(facts));
  }

  // ---- The clock ----

  lemma KeysOfAscending(facts: seq<Fact>)
    requires OnePerExpectation(facts) && Sorted(FactLe, facts)
    ensures Ascending(KeyLe, Map(KeyOf, facts))
  {
  }

  lemma OnlyWordIsLast(s: seq<Fact>, i: nat)
    requires OnePerExpectation(s) && i < |s|
    ensures s[i] in CurrentFacts(s)
  {
    forall j | 0 <= j < |s| && s[j].id == s[i].id ensures j == i {
    }
    assert IsLastWord(s, i);
    ShowsTheLastWord(s, s[i]);
  }

  lemma SameFacts(a: seq<Fact>, b: seq<Fact>)
    requires OnePerExpectation(a) && Sorted(FactLe, a) && OnePerExpectation(b) && Sorted(FactLe, b)
    requires forall f :: f in a <==> f in b
    ensures a == b
  {
    var ks, ls := Map(KeyOf, a), Map(KeyOf, b);
    KeysAreOrdered();
    KeysOfAscending(a);
    KeysOfAscending(b);
    forall k ensures k in ks <==> k in ls {
      if k in ks {
        var i :| 0 <= i < |ks| && ks[i] == k;
        assert a[i] in a;
        var j :| 0 <= j < |b| && b[j] == a[i];
        assert ls[j] == k;
      }
      if k in ls {
        var j :| 0 <= j < |ls| && ls[j] == k;
        assert b[j] in b;
        var i :| 0 <= i < |a| && a[i] == b[j];
        assert ks[i] == k;
      }
    }
    AscendingUnique(KeyLe, ks, ls);
    forall i | 0 <= i < |a| ensures a[i] == b[i] {
      assert a[i] in a;
      var j :| 0 <= j < |b| && b[j] == a[i];
      assert ls[j] == ks[i] == ls[i];
    }
  }

  /** What is deduplicated and in order already reads as it is. */
  lemma OrderedReadsAsItIs(s: seq<Fact>)
    requires OnePerExpectation(s) && Sorted(FactLe, s)
    ensures ByKey(s) == s
  {
    LiveFactsShape(s);
    forall f ensures f in ByKey(s) <==> f in s {
      if f in s {
        var i :| 0 <= i < |s| && s[i] == f;
        OnlyWordIsLast(s, i);
      }
    }
    SameFacts(ByKey(s), s);
  }

  lemma {:induction false} FilterKeepsShape(p: Fact -> bool, s: seq<Fact>)
    requires OnePerExpectation(s) && Sorted(FactLe, s)
    ensures OnePerExpectation(Filter(p, s)) && Sorted(FactLe, Filter(p, s))
  {
    if s != [] {
      var x, rest := s[0], s[1..];
      assert s == [x] + rest;
      FilterKeepsShape(p, rest);
      FilterCons(p, x, rest);
      forall g | g in Filter(p, rest) ensures FactLe(x, g) && x.id != g.id {
        FilterHas(p, rest, g);
        var k :| 0 <= k < |rest| && rest[k] == g;
        assert s[k + 1] == g;
      }
    }
  }

  /** A clock accepts exactly what is distinct and in order. */
  lemma ClocksAreAscending(keys: seq<Key>)
    ensures NewClock(keys).Ok? <==> Ascending(KeyLe, keys)
    ensures NewClock(keys).Ok? ==> NewClock(keys).value.keys == keys
  {
    KeysAreOrdered();
    ListingLists(KeyLe, Elements(keys));
    if Ascending(KeyLe, keys) {
      AscendingIsListing(KeyLe, keys);
    }
  }

  /** The constructor's check on a clock never fires: what an account puts on it is distinct and in order. */
  lemma AccountAlwaysReads(facts: seq<Fact>, visibleAt: int, base: Option<Summary>)
    ensures var r := RankedAccount(facts, visibleAt, base);
      && r.Ok?
      && r.value.facts == LiveFacts(facts, visibleAt, Through(base))
      && r.value.prediction.keys == OpportunityKeys(r.value.facts)
      && r.value.base == base
      && Ascending(KeyLe, r.value.prediction.keys)
  {
    KeysAreOrdered();
    LiveFactsShape(Filter(Reads(visibleAt, Through(base)), facts));
    var live := LiveFacts(facts, visibleAt, Through(base));
    FilterKeepsShape(Opportunity(), live);
    KeysOfAscending(Filter(Opportunity(), live));
    AscendingIsListing(KeyLe, OpportunityKeys(live));
  }

  /** Every fact of an account is on its clock unless it is void or a window that was not observed. */
  lemma ClockHoldsTheOpportunities(facts: seq<Fact>, visibleAt: int, base: Option<Summary>, f: Fact)
    requires RankedAccount(facts, visibleAt, base).Ok? && f in RankedAccount(facts, visibleAt, base).value.facts
    ensures KeyOf(f) in RankedAccount(facts, visibleAt, base).value.prediction.keys <==>
            f.kind in {OnTime, Early, Late, Prompted, CaughtUp} || (f.kind == Expired && f.strength != 0.0)
  {
    AccountAlwaysReads(facts, visibleAt, base);
    LiveFactsShape(Filter(Reads(visibleAt, Through(base)), facts));
    var live := LiveFacts(facts, visibleAt, Through(base));
    var opportunities, keys := Filter(Opportunity(), live), OpportunityKeys(live);
    FilterHas(Opportunity(), live, f);
    if f in opportunities {
      var i :| 0 <= i < |opportunities| && opportunities[i] == f;
      assert keys[i] == KeyOf(f);
    }
    if KeyOf(f) in keys {
      var i :| 0 <= i < |keys| && keys[i] == KeyOf(f);
      assert opportunities[i] in opportunities;
      FilterHas(Opportunity(), live, opportunities[i]);
      SameIdSameFact(live, f, opportunities[i]);
    }
  }

  lemma SameIdSameFact(s: seq<Fact>, f: Fact, g: Fact)
    requires OnePerExpectation(s) && f in s && g in s && f.id == g.id
    ensures f == g
  {
    var i :| 0 <= i < |s| && s[i] == f;
    var j :| 0 <= j < |s| && s[j] == g;
  }

  /** The insertion point counts the keys at or before the one looked for. */
  lemma {:induction false} BisectCounts(keys: seq<Key>, key: Key, i: nat)
    requires Ascending(KeyLe, keys) && i < |keys|
    ensures BisectRight(keys, key) <= |keys|
    ensures KeyLe(keys[i], key) <==> i < BisectRight(keys, key)
  {
    KeysAreOrdered();
    if KeyLe(keys[0], key) {
      if i > 0 {
        BisectCounts(keys[1..], key, i - 1);
      } else if |keys| > 1 {
        BisectCounts(keys[1..], key, 0);
      }
    } else if i > 0 && KeyLe(keys[i], key) {
      Transitive(KeyLe, keys[0], keys[i], key);
    }
  }

  /** Opportunities are numbered from nought in order, and a rank never goes down as keys go up. */
  lemma RankNumbersOpportunities(clock: Clock, f: Fact, g: Fact)
    requires Ascending(KeyLe, clock.keys)
    ensures forall i :: 0 <= i < |clock.keys| && clock.keys[i] == KeyOf(f) ==> Rank(clock, f) == i
    ensures FactLe(f, g) ==> Rank(clock, f) <= Rank(clock, g)
    ensures Rank(clock, f) <= Last(clock)
  {
    KeysAreOrdered();
    var keys := clock.keys;
    var m, n := BisectRight(keys, KeyOf(f)), BisectRight(keys, KeyOf(g));
    if keys != [] {
      BisectCounts(keys, KeyOf(f), 0);
      BisectCounts(keys, KeyOf(g), 0);
    }
    forall i | 0 <= i < |keys| && keys[i] == KeyOf(f) ensures m == i + 1 {
      BisectCounts(keys, KeyOf(f), i);
      if i + 1 < |keys| {
        BisectCounts(keys, KeyOf(f), i + 1);
        assert KeyLe(keys[i], keys[i + 1]) && keys[i] != keys[i + 1];
      }
    }
    if FactLe(f, g) && 0 < m {
      BisectCounts(keys, KeyOf(f), m - 1);
      BisectCounts(keys, KeyOf(g), m - 1);
      Transitive(KeyLe, keys[m - 1], KeyOf(f), KeyOf(g));
    }
  }
}
