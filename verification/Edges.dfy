/** The forgetting fold of an edge (habitus/foresight/edges.py): the evidence of the last few moments that
    carry it, decayed by rank, and discounted when a run of misses says the habit broke. Exact reals; the
    Beta posterior behind a reading and the probability of a run of misses stay abstract. */
module Edges {
  import opened Orders
  import opened Sequences

  /** A signature is a set of inputs, held as its sorted listing. */
  datatype MomentData = Moment(at: int, signature: seq<string>, came: bool, weight: real)

  type Moment = m: MomentData | 0.0 <= m.weight <= 1.0 witness Moment(0, [], false, 0.0)

  /** How much a step of one rank leaves: 0.5 to the power of one over the half-life. */
  type Decay = d: real | 0.0 < d < 1.0 witness 0.5

  /** The probability of a run of misses under the reading of k out of n. */
  type MissRun = (real, real, real) -> real

  datatype FoldError = WindowNotPositive | AlphaOutOfRange

  /** The evidence handed to the reading, and where and how hard it was discounted. */
  datatype Folded = Folded(k: real, n: real, breakAt: Option<int>, discount: real, count: nat)

  function Pow(d: real, n: nat): real {
    if n == 0 then 1.0 else d * Pow(d, n - 1)
  }

  predicate MomentLe(a: Moment, b: Moment) {
    a.at < b.at || (a.at == b.at && TextsLe(a.signature, b.signature))
  }

  lemma MomentsAreOrdered()
    ensures TotalPreorder(MomentLe)
  {
    TextsAreOrdered();
    forall a, b, c | Chain(MomentLe, a, b, c) ensures MomentLe(a, c) {
      if a.at == b.at == c.at { Transitive(TextsLe, a.signature, b.signature, c.signature); }
    }
  }

  function Ordered(moments: seq<Moment>): seq<Moment> { Sort(MomentLe, moments) }

  function Carries(key: string): Moment -> bool { (m: Moment) => key in m.signature }

  function EdgeMoments(moments: seq<Moment>, key: string): seq<Moment> {
    Ordered(Filter(Carries(key), moments))
  }

  function Recent(moments: seq<Moment>, window: nat): seq<Moment> {
    if |moments| <= window then moments else moments[|moments| - window..]
  }

  // ---- Evidence ----

  /** A weight after n steps. */
  function Faded(d: Decay, weight: real, n: nat): real {
    if n == 0 then weight else d * Faded(d, weight, n - 1)
  }

  function Decayed(d: Decay, s: seq<Moment>, i: nat): real
    requires i < |s|
  {
    Faded(d, s[i].weight, |s| - 1 - i)
  }

  /** The total decayed weight of the moments from lo up to hi. */
  function Total(d: Decay, s: seq<Moment>, lo: nat, hi: nat): real
    requires lo <= hi <= |s|
    decreases hi - lo
  {
    if lo == hi then 0.0 else Total(d, s, lo, hi - 1) + Decayed(d, s, hi - 1)
  }

  /** The decayed weight of those that came. */
  function Came(d: Decay, s: seq<Moment>, lo: nat, hi: nat): real
    requires lo <= hi <= |s|
    decreases hi - lo
  {
    if lo == hi then 0.0 else Came(d, s, lo, hi - 1) + if s[hi - 1].came then Decayed(d, s, hi - 1) else 0.0
  }

  function N(d: Decay, s: seq<Moment>): real { Total(d, s, 0, |s|) }

  function K(d: Decay, s: seq<Moment>): real { Came(d, s, 0, |s|) }

  /** The walk back over the trailing misses: where the weighted ones start, and their weight. */
  function Walk(s: seq<Moment>, i: nat, start: nat, strength: real): (nat, real)
    requires i <= |s|
    decreases i
  {
    if i == 0 || s[i - 1].came then (start, strength)
    else if s[i - 1].weight > 0.0 then Walk(s, i - 1, i - 1, strength + s[i - 1].weight)
    else Walk(s, i - 1, start, strength)
  }

  function Larger(a: real, b: real): real { if a < b then b else a }

  function Smaller(a: real, b: real): real { if b < a then b else a }

  function Undiscounted(beforeK: real, beforeN: real, runK: real, runN: real, count: nat): Folded {
    Folded(beforeK + runK, beforeN + runN, None, 1.0, count)
  }

  /** How unlikely a run has to be to count as a break, corrected for how often one looks. */
  function Line(alpha: real, beforeN: real): (line: real)
    requires alpha > 0.0
    ensures line > 0.0
  {
    alpha / Larger(beforeN, 1.0)
  }

  function Broken(beforeK: real, beforeN: real, runK: real, runN: real, factor: real, at: int, count: nat): Folded {
    Folded(beforeK * factor + runK, beforeN * factor + runN, Some(at), factor, count)
  }

  /** The specification of FoldSequence. */
  function Fold(moments: seq<Moment>, alpha: real, d: Decay, window: int, missRun: MissRun): Result<Folded, FoldError> {
    if window < 1 then Err(WindowNotPositive)
    else if !(0.0 < alpha < 0.5) then Err(AlphaOutOfRange)
    else Ok(FoldRecent(Recent(moments, window), alpha, d, missRun))
  }

  function FoldRecent(s: seq<Moment>, alpha: real, d: Decay, missRun: MissRun): Folded
    requires alpha > 0.0
  {
    var (start, strength) := Walk(s, |s|, |s|, 0.0);
    WalkBounds(s, |s|, |s|, 0.0);
    var beforeK, beforeN := Came(d, s, 0, start), Total(d, s, 0, start);
    var runK, runN := Came(d, s, start, |s|), Total(d, s, start, |s|);
    if strength == 0.0 || start == 0 then Undiscounted(beforeK, beforeN, runK, runN, |s|)
    else
      var line := Line(alpha, beforeN);
      var chance := missRun(Smaller(beforeK, beforeN), beforeN, strength);
      if chance >= line then Undiscounted(beforeK, beforeN, runK, runN, |s|)
      else Broken(beforeK, beforeN, runK, runN, chance / line, s[start].at, |s|)
  }

  lemma {:induction false} WalkBounds(s: seq<Moment>, i: nat, start: nat, strength: real)
    requires i <= start <= |s| && strength >= 0.0 && (strength > 0.0 <==> start < |s|)
    ensures var (first, total) := Walk(s, i, start, strength);
            first <= start && total >= strength && (total > 0.0 <==> first < |s|)
    decreases i
  {
    if i != 0 && !s[i - 1].came {
      if s[i - 1].weight > 0.0 {
        WalkBounds(s, i - 1, i - 1, strength + s[i - 1].weight);
      } else {
        WalkBounds(s, i - 1, start, strength);
      }
    }
  }

  method FoldSequence(moments: seq<Moment>, alpha: real, d: Decay, window: int, missRun: MissRun)
    returns (r: Result<Folded, FoldError>)
    ensures r == Fold(moments, alpha, d, window, missRun)
  {
    if window < 1 {
      return Err(WindowNotPositive);
    }
    if !(0.0 < alpha < 0.5) {
      return Err(AlphaOutOfRange);
    }
    var recent := Recent(moments, window);
    var start, strength := |recent|, 0.0;
    var i := |recent|;
    while i > 0 && !recent[i - 1].came
      invariant 0 <= i <= start <= |recent|
      invariant Walk(recent, i, start, strength) == Walk(recent, |recent|, |recent|, 0.0)
    {
      i := i - 1;
      if recent[i].weight > 0.0 {
        start := i;
        strength := strength + recent[i].weight;
      }
    }
    var beforeK, beforeN := Came(d, recent, 0, start), Total(d, recent, 0, start);
    var runK, runN := Came(d, recent, start, |recent|), Total(d, recent, start, |recent|);
    if strength == 0.0 || start == 0 {
      return Ok(Undiscounted(beforeK, beforeN, runK, runN, |recent|));
    }
    var line := Line(alpha, beforeN);
    var chance := missRun(Smaller(beforeK, beforeN), beforeN, strength);
    if chance >= line {
      return Ok(Undiscounted(beforeK, beforeN, runK, runN, |recent|));
    }
    WalkBounds(recent, |recent|, |recent|, 0.0);
    r := Ok(Broken(beforeK, beforeN, runK, runN, chance / line, recent[start].at, |recent|));
  }

  function VisibleBefore(at: int): Moment -> bool { (m: Moment) => m.at < at }

  function EdgeReading(
    moments: seq<Moment>, key: string, alpha: real, d: Decay, window: int, visibleAt: Option<int>, missRun: MissRun)
    : Result<Folded, FoldError>
  {
    var mine := EdgeMoments(moments, key);
    var seen := if visibleAt.Some? then Filter(VisibleBefore(visibleAt.value), mine) else mine;
    Fold(seen, alpha, d, window, missRun)
  }

  // ---- Moments in order ----

  /** Moments at one time with one signature are the same moment. */
  predicate TiesAgree(moments: seq<Moment>) {
    forall m, n :: m in moments && n in moments && m.at == n.at && m.signature == n.signature ==> m == n
  }

  lemma TiesAre(m: Moment, n: Moment)
    ensures MomentLe(m, n) && MomentLe(n, m) <==> m.at == n.at && m.signature == n.signature
  {
    TextsAreOrdered();
  }

  lemma AgreeingTiesOrderAlike(moments: seq<Moment>, others: seq<Moment>)
    requires TiesAgree(moments) && multiset(others) == multiset(moments)
    ensures Ordered(others) == Ordered(moments)
  {
    MomentsAreOrdered();
    SortSorts(MomentLe, moments);
    SortSorts(MomentLe, others);
    forall m, n | m in Ordered(moments) && n in Ordered(moments) && MomentLe(m, n) && MomentLe(n, m) ensures m == n {
      TiesAre(m, n);
    }
    SortedUnique(MomentLe, Ordered(moments), Ordered(others));
  }

  function TiesWith(m: Moment): Moment -> bool { (n: Moment) => n.at == m.at && n.signature == m.signature }

  /** Ordering leaves moments that tie in the order they came in. */
  lemma TiesKeepTheirOrder(m: Moment, moments: seq<Moment>)
    ensures Filter(TiesWith(m), Ordered(moments)) == Filter(TiesWith(m), moments)
  {
    MomentsAreOrdered();
    FilterSort(TiesWith(m), MomentLe, moments);
    var tied := Filter(TiesWith(m), moments);
    forall x, y | x in tied && y in tied ensures MomentLe(x, y) {
      FilterHas(TiesWith(m), moments, x);
      FilterHas(TiesWith(m), moments, y);
      TiesAre(x, y);
    }
    SortTied(MomentLe, tied);
  }

  /** The same moments with one of them put first. */
  function PutFirst(moments: seq<Moment>, j: nat): seq<Moment>
    requires j < |moments|
  {
    [moments[j]] + (moments[..j] + moments[j + 1..])
  }

  lemma TieToPutFirst(moments: seq<Moment>, m: Moment, n: Moment) returns (j: nat)
    requires m in moments && n in moments && TiesWith(m)(n) && m != n
    ensures j < |moments| && multiset(PutFirst(moments, j)) == multiset(moments)
    ensures Ordered(PutFirst(moments, j)) != Ordered(moments)
  {
    var tied := Filter(TiesWith(m), moments);
    FilterHas(TiesWith(m), moments, m);
    assert tied != [];
    var other: Moment := if tied[0] == m then n else m;
    j :| 0 <= j < |moments| && moments[j] == other;
    TakenOut(moments, j);
    var put := PutFirst(moments, j);
    FilterCons<Moment>(TiesWith(m), other, moments[..j] + moments[j + 1..]);
    TiesKeepTheirOrder(m, moments);
    TiesKeepTheirOrder(m, put);
    assert Filter(TiesWith(m), put)[0] == other;
  }

  /** Moments are ordered by time, and at one time by signature. */
  lemma MomentsAreInOrder(moments: seq<Moment>, i: nat, j: nat)
    requires i < j < |Ordered(moments)|
    ensures var m, n := Ordered(moments)[i], Ordered(moments)[j];
      m.at < n.at || (m.at == n.at && TextsLe(m.signature, n.signature))
  {
    MomentsAreOrdered();
    SortSorts(MomentLe, moments);
    assert MomentLe(Ordered(moments)[i], Ordered(moments)[j]);
  }

  /** The order of moments does not depend on the order they came in exactly when moments that tie, by time and
      signature, are the same. */
  lemma OrderIsTheBagsExactlyWhenTiesAgree(moments: seq<Moment>)
    ensures (forall others: seq<Moment> :: multiset(others) == multiset(moments) ==> Ordered(others) == Ordered(moments))
            <==> TiesAgree(moments)
  {
    if TiesAgree(moments) {
      forall others: seq<Moment> | multiset(others) == multiset(moments) ensures Ordered(others) == Ordered(moments) {
        AgreeingTiesOrderAlike(moments, others);
      }
    } else {
      var m, n :| m in moments && n in moments && m.at == n.at && m.signature == n.signature && m != n;
      var j := TieToPutFirst(moments, m, n);
      assert Ordered(PutFirst(moments, j)) != Ordered(moments);
    }
  }

  /** Then a reading does not depend on it either. */
  lemma ReadingIsTheBags(
    moments: seq<Moment>, others: seq<Moment>, key: string, alpha: real, d: Decay, window: int, visibleAt: Option<int>,
    missRun: MissRun)
    requires TiesAgree(Filter(Carries(key), moments)) && multiset(others) == multiset(moments)
    ensures EdgeReading(moments, key, alpha, d, window, visibleAt, missRun)
         == EdgeReading(others, key, alpha, d, window, visibleAt, missRun)
  {
    FilterKeepsBags(Carries(key), moments, others);
    AgreeingTiesOrderAlike(Filter(Carries(key), moments), Filter(Carries(key), others));
  }

  lemma TiedPair(m: Moment, n: Moment, key: string, moments: seq<Moment>)
    requires m.at == n.at && m.signature == n.signature && key in m.signature && moments == [m] + [n]
    ensures EdgeMoments(moments, key) == moments
  {
    FilterAll(Carries(key), moments);
    forall x, y | x in moments && y in moments ensures MomentLe(x, y) { TiesAre(x, y); }
    SortTied(MomentLe, moments);
  }

  lemma PairEvidence(d: Decay, m: Moment, n: Moment)
    requires m.weight == n.weight
    ensures K(d, [m] + [n]) == (if m.came then d * n.weight else 0.0) + (if n.came then n.weight else 0.0)
  {
    var none: seq<Moment> := [];
    OnlineForm(d, none, m);
    assert none + [m] == [m];
    OnlineForm(d, [m], n);
  }

  lemma PairReading(
    m: Moment, n: Moment, key: string, pair: seq<Moment>, alpha: real, d: Decay, window: int, missRun: MissRun)
    requires m.at == n.at && m.signature == n.signature && key in m.signature && pair == [m] + [n]
    requires 0.0 < alpha < 0.5 && window >= 2
    ensures EdgeReading(pair, key, alpha, d, window, None, missRun) == Ok(FoldRecent(pair, alpha, d, missRun))
  {
    TiedPair(m, n, key, pair);
  }

  /** After a hit there is no run to break on. */
  lemma EndsWithAHit(s: seq<Moment>, alpha: real, d: Decay, missRun: MissRun)
    requires alpha > 0.0 && s != [] && s[|s| - 1].came
    ensures FoldRecent(s, alpha, d, missRun).k == K(d, s)
  {
    FoldParts(s, d);
  }

  lemma NoMoreThanCame(s: seq<Moment>, alpha: real, d: Decay, missRun: MissRun)
    requires alpha > 0.0 && forall k, n, run :: missRun(k, n, run) >= 0.0
    ensures FoldRecent(s, alpha, d, missRun).k <= K(d, s)
  {
    DiscountOnlyLowers(s, alpha, d, missRun);
  }

  lemma Fades(d: Decay, w: real)
    requires w > 0.0
    ensures d * w < w
  {
  }

  /** Otherwise it can: two moments of one time, signature and weight, one that came and one that did not, read as less
      with the miss last, whatever the probability of a miss. */
  lemma TiesCanChangeAReading(
    hit: Moment, miss: Moment, hitFirst: seq<Moment>, missFirst: seq<Moment>, key: string, alpha: real, d: Decay,
    window: int, missRun: MissRun)
    requires hit.at == miss.at && hit.signature == miss.signature && key in hit.signature
    requires hit.came && !miss.came && hit.weight == miss.weight > 0.0
    requires hitFirst == [hit] + [miss] && missFirst == [miss] + [hit]
    requires 0.0 < alpha < 0.5 && window >= 2 && forall k, n, run :: missRun(k, n, run) >= 0.0
    ensures multiset(hitFirst) == multiset(missFirst)
    ensures var a, b := EdgeReading(hitFirst, key, alpha, d, window, None, missRun),
                        EdgeReading(missFirst, key, alpha, d, window, None, missRun);
      a.Ok? && b.Ok? && a.value.k < b.value.k
  {
    PairReading(hit, miss, key, hitFirst, alpha, d, window, missRun);
    PairReading(miss, hit, key, missFirst, alpha, d, window, missRun);
    NoMoreThanCame(hitFirst, alpha, d, missRun);
    EndsWithAHit(missFirst, alpha, d, missRun);
    OrderOfPair(d, hit, miss);
  }

  lemma OrderOfPair(d: Decay, hit: Moment, miss: Moment)
    requires hit.came && !miss.came && hit.weight == miss.weight > 0.0
    ensures K(d, [hit] + [miss]) < K(d, [miss] + [hit])
  {
    PairEvidence(d, hit, miss);
    PairEvidence(d, miss, hit);
    Fades(d, hit.weight);
  }

  // ---- The run of misses ----

  /** The sum of the raw weights from lo on. */
  function RawWeight(s: seq<Moment>, lo: nat, hi: nat): real
    requires lo <= hi <= |s|
    decreases hi - lo
  {
    if lo == hi then 0.0 else s[lo].weight + RawWeight(s, lo + 1, hi)
  }

  /** What the walk finds: from start on nothing came, start carries weight, the strength is the weight of the
      whole trailing run, and between the last moment that came and start there is no weight. */
  predicate IsTrailingRun(s: seq<Moment>, start: nat, strength: real, last: nat) {
    && last <= start <= |s|
    && (last == 0 || s[last - 1].came)
    && (forall j :: last <= j < |s| ==> !s[j].came)
    && (forall j :: last <= j < start ==> s[j].weight == 0.0)
    && (start < |s| ==> s[start].weight > 0.0)
    && strength == RawWeight(s, last, |s|)
  }

  lemma {:induction false} WalkFinds(s: seq<Moment>, i: nat, start: nat, strength: real) returns (last: nat)
    requires i <= start <= |s|
    requires forall j :: i <= j < |s| ==> !s[j].came
    requires forall j :: i <= j < start ==> s[j].weight == 0.0
    requires start < |s| ==> s[start].weight > 0.0
    requires strength == RawWeight(s, i, |s|)
    ensures IsTrailingRun(s, Walk(s, i, start, strength).0, Walk(s, i, start, strength).1, last)
    decreases i
  {
    if i == 0 || s[i - 1].came {
      last := i;
    } else if s[i - 1].weight > 0.0 {
      last := WalkFinds(s, i - 1, i - 1, strength + s[i - 1].weight);
    } else {
      last := WalkFinds(s, i - 1, start, strength);
    }
  }

  lemma TrailingRunIsFound(s: seq<Moment>) returns (last: nat)
    ensures var (start, strength) := Walk(s, |s|, |s|, 0.0); IsTrailingRun(s, start, strength, last)
  {
    last := WalkFinds(s, |s|, |s|, 0.0);
  }

  // ---- The online form ----

  lemma {:induction false} TotalShifts(d: Decay, s: seq<Moment>, m: Moment, hi: nat)
    requires hi <= |s|
    ensures Total(d, s + [m], 0, hi) == d * Total(d, s, 0, hi)
    decreases hi
  {
    if hi > 0 {
      var n: nat := hi - 1;
      TotalShifts(d, s, m, n);
      DecayedShifts(d, s, m, n);
      Distribute(d, Total(d, s, 0, n), Decayed(d, s, n));
    }
  }

  lemma {:induction false} CameShifts(d: Decay, s: seq<Moment>, m: Moment, hi: nat)
    requires hi <= |s|
    ensures Came(d, s + [m], 0, hi) == d * Came(d, s, 0, hi)
    decreases hi
  {
    if hi > 0 {
      var n: nat := hi - 1;
      CameShifts(d, s, m, n);
      DecayedShifts(d, s, m, n);
      Distribute(d, Came(d, s, 0, n), Decayed(d, s, n));
    }
  }

  lemma DecayedShifts(d: Decay, s: seq<Moment>, m: Moment, i: nat)
    requires i < |s|
    ensures Decayed(d, s + [m], i) == d * Decayed(d, s, i)
  {
    var n: nat := |s| - 1 - i;
    assert Decayed(d, s + [m], i) == Faded(d, s[i].weight, n + 1);
  }

  lemma Distribute(d: real, a: real, b: real)
    ensures d * (a + b) == d * a + d * b
  {
  }

  /** One more moment: old evidence fades by one step, and the new comes in at its own weight. */
  lemma OnlineForm(d: Decay, s: seq<Moment>, m: Moment)
    ensures N(d, s + [m]) == d * N(d, s) + m.weight
    ensures K(d, s + [m]) == d * K(d, s) + if m.came then m.weight else 0.0
  {
    TotalShifts(d, s, m, |s|);
    CameShifts(d, s, m, |s|);
    assert Decayed(d, s + [m], |s|) == m.weight;
  }

  /** The mean moves towards what happened by the new weight's share of the evidence. */
  lemma MeanMoves(d: Decay, s: seq<Moment>, m: Moment)
    requires N(d, s) > 0.0
    ensures N(d, s + [m]) > 0.0
    ensures var mean, y := K(d, s) / N(d, s), if m.came then 1.0 else 0.0;
            var step := m.weight / (d * N(d, s) + m.weight);
            K(d, s + [m]) / N(d, s + [m]) == mean + step * (y - mean)
  {
    OnlineForm(d, s, m);
    var k, n, w, y := K(d, s), N(d, s), m.weight, if m.came then 1.0 else 0.0;
    assert d * n > 0.0;
    MovingMean(k, n, d, w, y);
  }

  lemma MovingMean(k: real, n: real, d: real, w: real, y: real)
    requires n > 0.0 && d * n > 0.0 && w >= 0.0
    ensures (d * k + w * y) / (d * n + w) == k / n + w / (d * n + w) * (y - k / n)
  {
    var mean, t := k / n, d * n + w;
    assert k == mean * n;
    assert d * k == mean * (d * n);
    calc {
      mean + w / t * (y - mean);
      mean + (w * (y - mean)) / t;
      (mean * t + w * (y - mean)) / t;
      { assert mean * t == mean * (d * n) + mean * w; }
      (d * k + w * y) / t;
    }
  }

  lemma {:induction false} Concatenated(d: Decay, a: seq<Moment>, b: seq<Moment>)
    ensures N(d, a + b) == Pow(d, |b|) * N(d, a) + N(d, b)
    ensures K(d, a + b) == Pow(d, |b|) * K(d, a) + K(d, b)
  {
    if b == [] {
      assert a + b == a;
    } else {
      var front, m := b[..|b| - 1], b[|b| - 1];
      assert b == front + [m] && a + b == (a + front) + [m];
      Concatenated(d, a, front);
      OnlineForm(d, a + front, m);
      OnlineForm(d, front, m);
      ScaledTwice(d, Pow(d, |front|), N(d, a), N(d, front));
      ScaledTwice(d, Pow(d, |front|), K(d, a), K(d, front));
    }
  }

  lemma ScaledTwice(d: real, p: real, x: real, y: real)
    ensures d * (p * x + y) == (d * p) * x + d * y
  {
  }

  /** Reading only the window leaves out what came before it, faded by as many steps as the window is long. */
  lemma WindowedSum(d: Decay, before: seq<Moment>, recent: seq<Moment>, window: nat)
    requires |recent| == window
    ensures Recent(before + recent, window) == recent
    ensures N(d, recent) == N(d, before + recent) - Pow(d, window) * N(d, before)
    ensures K(d, recent) == K(d, before + recent) - Pow(d, window) * K(d, before)
  {
    Concatenated(d, before, recent);
  }

  /** However long the history, the evidence stays below one over one minus the decay. */
  lemma EvidenceIsBounded(d: Decay, s: seq<Moment>)
    ensures 0.0 <= N(d, s) < 1.0 / (1.0 - d)
  {
    var cap := 1.0 / (1.0 - d);
    CapIsFixed(d, cap);
    CameWithinTotal(d, s, 0, |s|);
    GeometricSum(d, cap, s);
    PowPositive(d, |s|);
    BelowCap(N(d, s), cap, Pow(d, |s|));
  }

  lemma BelowCap(n: real, cap: real, p: real)
    requires n <= cap - p * cap && p > 0.0 && cap > 0.0
    ensures n < cap
  {
  }

  lemma CapIsFixed(d: real, cap: real)
    requires 0.0 < d < 1.0 && cap == 1.0 / (1.0 - d)
    ensures cap > 0.0 && cap == 1.0 + d * cap
  {
    assert cap * (1.0 - d) == 1.0;
  }

  lemma {:induction false} GeometricSum(d: Decay, cap: real, s: seq<Moment>)
    requires cap == 1.0 + d * cap
    ensures N(d, s) <= cap - Pow(d, |s|) * cap
  {
    if s != [] {
      var front, m := s[..|s| - 1], s[|s| - 1];
      assert s == front + [m];
      GeometricSum(d, cap, front);
      OnlineForm(d, front, m);
      GeometricStep(d, cap, N(d, front), m.weight, Pow(d, |front|));
    }
  }

  lemma {:induction false} PowPositive(d: Decay, n: nat)
    ensures 0.0 < Pow(d, n) <= 1.0
  {
    if n > 0 {
      PowPositive(d, n - 1);
      Monotonic(Pow(d, n - 1), 1.0, d);
    }
  }

  lemma GeometricStep(d: real, cap: real, n: real, w: real, p: real)
    requires 0.0 < d && cap == 1.0 + d * cap && n <= cap - p * cap && w <= 1.0
    ensures d * n + w <= cap - (d * p) * cap
  {
    FadedCap(d, cap, n, p);
    AddWeight(d * n, d * cap, (d * p) * cap, cap, w);
  }

  lemma FadedCap(d: real, cap: real, n: real, p: real)
    requires 0.0 < d && n <= cap - p * cap
    ensures d * n <= d * cap - (d * p) * cap
  {
    Monotonic(n, cap - p * cap, d);
    assert (cap - p * cap) * d == d * cap - (d * p) * cap;
  }

  lemma AddWeight(faded: real, fadedCap: real, rest: real, cap: real, w: real)
    requires faded <= fadedCap - rest && cap == 1.0 + fadedCap && w <= 1.0
    ensures faded + w <= cap - rest
  {
  }

  lemma Monotonic(a: real, b: real, x: real)
    requires a <= b && x >= 0.0
    ensures a * x <= b * x
  {
  }

  lemma CancelBelow(x: real, y: real, z: real)
    requires z > 0.0
    ensures x * z < y * z ==> x < y
    ensures x * z <= y * z ==> x <= y
  {
    if x > y {
      assert (x - y) * z > 0.0;
    }
  }

  // ---- The discount ----

  lemma {:induction false} SumsSplit(d: Decay, s: seq<Moment>, mid: nat, hi: nat)
    requires mid <= hi <= |s|
    ensures Total(d, s, 0, mid) + Total(d, s, mid, hi) == Total(d, s, 0, hi)
    ensures Came(d, s, 0, mid) + Came(d, s, mid, hi) == Came(d, s, 0, hi)
    decreases hi
  {
    if mid < hi {
      SumsSplit(d, s, mid, hi - 1);
    }
  }

  /** Fading is multiplication by a power of the decay. */
  lemma {:induction false} FadedIsScaled(d: Decay, w: real, n: nat)
    ensures Faded(d, w, n) == Pow(d, n) * w
  {
    if n > 0 {
      FadedIsScaled(d, w, n - 1);
      Regroup(d, Pow(d, n - 1), w);
    }
  }

  lemma Regroup(a: real, b: real, c: real)
    ensures a * (b * c) == (a * b) * c
  {
  }

  lemma {:induction false} FadedSign(d: Decay, w: real, n: nat)
    requires w >= 0.0
    ensures Faded(d, w, n) >= 0.0
    ensures w > 0.0 ==> Faded(d, w, n) > 0.0
  {
    if n > 0 {
      FadedSign(d, w, n - 1);
      ProductSign(Faded(d, w, n - 1), d);
    }
  }

  lemma ProductSign(w: real, p: real)
    requires w >= 0.0 && p > 0.0
    ensures p * w >= 0.0 && (w > 0.0 ==> p * w > 0.0)
  {
  }

  lemma DecayedNonNegative(d: Decay, s: seq<Moment>, i: nat)
    requires i < |s|
    ensures Decayed(d, s, i) >= 0.0
    ensures s[i].weight > 0.0 ==> Decayed(d, s, i) > 0.0
  {
    FadedSign(d, s[i].weight, |s| - 1 - i);
  }

  lemma {:induction false} CameWithinTotal(d: Decay, s: seq<Moment>, lo: nat, hi: nat)
    requires lo <= hi <= |s|
    ensures 0.0 <= Came(d, s, lo, hi) <= Total(d, s, lo, hi)
    ensures lo < hi && s[lo].weight > 0.0 ==> Total(d, s, lo, hi) > 0.0
    ensures (forall j :: lo <= j < hi ==> !s[j].came) ==> Came(d, s, lo, hi) == 0.0
    decreases hi
  {
    if lo < hi {
      CameWithinTotal(d, s, lo, hi - 1);
      DecayedNonNegative(d, s, hi - 1);
    }
  }

  /** The parts a fold is made of. */
  lemma FoldParts(s: seq<Moment>, d: Decay)
    ensures var (start, strength) := Walk(s, |s|, |s|, 0.0);
      && start <= |s| && strength >= 0.0 && (strength > 0.0 <==> start < |s|)
      && 0.0 <= Came(d, s, 0, start) <= Total(d, s, 0, start)
      && Came(d, s, start, |s|) == 0.0 && 0.0 <= Total(d, s, start, |s|)
      && (start < |s| ==> Total(d, s, start, |s|) > 0.0)
      && K(d, s) == Came(d, s, 0, start)
      && N(d, s) == Total(d, s, 0, start) + Total(d, s, start, |s|)
  {
    var last := TrailingRunIsFound(s);
    var (start, strength) := Walk(s, |s|, |s|, 0.0);
    WalkBounds(s, |s|, |s|, 0.0);
    SumsSplit(d, s, start, |s|);
    CameWithinTotal(d, s, 0, start);
    CameWithinTotal(d, s, start, |s|);
  }

  /** What a fold hands to the reading, when the probability of a run is never negative: always a legal pair;
      undiscounted, the plain sums of the window; at a break, a factor in [0, 1), no more evidence on either
      side than undiscounted, and a rate that is no higher. The run after the break holds no hit. */
  lemma DiscountOnlyLowers(s: seq<Moment>, alpha: real, d: Decay, missRun: MissRun)
    requires alpha > 0.0 && forall k, n, run :: missRun(k, n, run) >= 0.0
    ensures var r, k, n := FoldRecent(s, alpha, d, missRun), K(d, s), N(d, s);
      && 0.0 <= r.k <= r.n
      && (r.breakAt.None? ==> r.k == k && r.n == n && r.discount == 1.0)
      && (r.breakAt.Some? ==> 0.0 <= r.discount < 1.0 && r.k <= k && r.n <= n && r.n > 0.0 && Rate(r.k, r.n) <= Rate(k, n))
  {
    FoldParts(s, d);
    var (start, strength) := Walk(s, |s|, |s|, 0.0);
    if strength != 0.0 && start != 0 {
      var beforeK, beforeN, runN := Came(d, s, 0, start), Total(d, s, 0, start), Total(d, s, start, |s|);
      var line := Line(alpha, beforeN);
      var chance := missRun(Smaller(beforeK, beforeN), beforeN, strength);
      if chance < line {
        BrokenLowers(beforeK, beforeN, runN, chance, line, s[start].at, |s|);
      }
    }
  }

  /** At a break what came before the run is kept at the discount, and the run in full: no more is dropped. */
  lemma BreakKeepsTheDiscountedPast(s: seq<Moment>, alpha: real, d: Decay, missRun: MissRun)
    requires alpha > 0.0
    ensures Walk(s, |s|, |s|, 0.0).0 <= |s|
    ensures var r, start := FoldRecent(s, alpha, d, missRun), Walk(s, |s|, |s|, 0.0).0;
      r.breakAt.Some? ==>
        && r.k == r.discount * K(d, s)
        && r.n == N(d, s) - (1.0 - r.discount) * Total(d, s, 0, start)
  {
    FoldParts(s, d);
    var (start, strength) := Walk(s, |s|, |s|, 0.0);
    var r := FoldRecent(s, alpha, d, missRun);
    if r.breakAt.Some? {
      KeptShare(Total(d, s, 0, start), Total(d, s, start, |s|), r.discount);
    }
  }

  lemma KeptShare(before: real, run: real, f: real)
    ensures before * f + run == before + run - (1.0 - f) * before
  {
  }

  /** What is folded is the end of the history, as long as the window or the whole when that is shorter. */
  lemma FoldIsOfTheLastWindow(moments: seq<Moment>, alpha: real, d: Decay, window: int, missRun: MissRun, recent: seq<Moment>)
    requires |recent| <= |moments| && moments[|moments| - |recent|..] == recent
    requires |recent| == if |moments| <= window then |moments| else window
    ensures Fold(moments, alpha, d, window, missRun) == Err(WindowNotPositive) <==> window <= 0
    ensures Fold(moments, alpha, d, window, missRun) == Err(AlphaOutOfRange) <==> window > 0 && (alpha <= 0.0 || alpha >= 0.5)
    ensures Fold(moments, alpha, d, window, missRun).Ok? ==>
            Fold(moments, alpha, d, window, missRun).value == FoldRecent(recent, alpha, d, missRun)
  {
  }

  lemma BrokenLowers(k: real, n: real, run: real, chance: real, line: real, at: int, count: nat)
    requires 0.0 <= k <= n && run > 0.0 && 0.0 <= chance < line
    ensures var r := Broken(k, n, 0.0, run, chance / line, at, count);
      && 0.0 <= r.k <= r.n && 0.0 <= r.discount < 1.0
      && r.k <= k && r.n <= n + run && r.n > 0.0 && Rate(r.k, r.n) <= Rate(k, n + run)
  {
    FactorBelowOne(chance, line);
    LowerRate(k, n, run, chance / line);
  }

  function Rate(k: real, n: real): real
    requires n > 0.0
  {
    k / n
  }

  function Times(a: real, b: real): real { a * b }

  lemma FactorBelowOne(chance: real, line: real)
    requires 0.0 <= chance < line
    ensures 0.0 <= chance / line < 1.0
  {
  }

  lemma LowerRate(k: real, n: real, run: real, f: real)
    requires 0.0 <= k <= n && run > 0.0 && 0.0 <= f < 1.0
    ensures 0.0 <= k * f <= n * f + run && n * f + run > 0.0
    ensures k * f <= k && n * f + run <= n + run
    ensures Rate(k * f, n * f + run) <= Rate(k, n + run)
  {
    Monotonic(0.0, k, f);
    Monotonic(k, n, f);
    Monotonic(f, 1.0, k);
    Monotonic(f, 1.0, n);
    Crossed(k, n, run, f);
    CrossDivide(k * f, n * f + run, k, n + run);
  }

  lemma Crossed(k: real, n: real, run: real, f: real)
    requires 0.0 <= k && run > 0.0 && k * f <= k
    ensures Times(k * f, n + run) <= Times(k, n * f + run)
  {
    Distribute(k * f, n, run);
    Distribute(k, n * f, run);
    assert (k * f) * n == k * (n * f);
    Monotonic(k * f, k, run);
  }

  lemma CrossDivide(a: real, b: real, c: real, e: real)
    requires b > 0.0 && e > 0.0 && Times(a, e) <= Times(c, b)
    ensures Rate(a, b) <= Rate(c, e)
  {
    var x, y := a / b, c / e;
    assert a == x * b && c == y * e;
    assert (x * b) * e == x * (b * e) && (y * e) * b == y * (b * e);
    CancelBelow(x, y, b * e);
  }

  /** A fold breaks exactly when there is a weighted trailing run with something before it, and the chance of
      such a run under what came before, times the evidence before it, but at least one, is below alpha. What came
      before is then discounted by how far below. */
  lemma BreaksExactlyWhenUnlikely(
    s: seq<Moment>, alpha: real, d: Decay, missRun: MissRun, start: nat, strength: real, n: real, chance: real)
    requires alpha > 0.0 && Walk(s, |s|, |s|, 0.0) == (start, strength)
    requires start <= |s| && n == if Total(d, s, 0, start) < 1.0 then 1.0 else Total(d, s, 0, start)
    requires chance == missRun(Came(d, s, 0, start), Total(d, s, 0, start), strength)
    ensures FoldRecent(s, alpha, d, missRun).count == |s|
    ensures FoldRecent(s, alpha, d, missRun).breakAt.Some? <==> 0 < start < |s| && chance * n < alpha
    ensures FoldRecent(s, alpha, d, missRun).breakAt.Some? ==>
            && FoldRecent(s, alpha, d, missRun).breakAt.value == s[start].at
            && FoldRecent(s, alpha, d, missRun).discount * alpha == chance * n
  {
    WalkBounds(s, |s|, |s|, 0.0);
    CameWithinTotal(d, s, 0, start);
    LineIs(alpha, Total(d, s, 0, start), n);
    BelowLine(chance, alpha, n);
    OverTheLine(chance, alpha, n);
  }

  lemma LineIs(alpha: real, before: real, n: real)
    requires alpha > 0.0 && n == if before < 1.0 then 1.0 else before
    ensures Line(alpha, before) == alpha / n
  {
  }

  lemma OverTheLine(chance: real, alpha: real, n: real)
    requires n >= 1.0 && alpha > 0.0
    ensures chance / (alpha / n) * alpha == chance * n
  {
    var q := alpha / n;
    assert q * n == alpha && q > 0.0;
    var f := chance / q;
    assert f * q == chance;
    assert f * (q * n) == f * q * n;
  }

  lemma BelowLine(chance: real, alpha: real, n: real)
    requires n >= 1.0
    ensures chance < alpha / n <==> chance * n < alpha
  {
    var q := alpha / n;
    assert q * n == alpha;
    if chance < q {
      assert (q - chance) * n > 0.0;
    } else {
      assert (chance - q) * n >= 0.0;
    }
  }

  // ---- Replay ----

  /** What was visible before t decides a reading as of t: moments at or after it, put in or taken out
      anywhere, change nothing. */
  lemma ReplayIsNotAnticipating(
    moments: seq<Moment>, others: seq<Moment>, key: string, alpha: real, d: Decay, window: int, t: int, missRun: MissRun)
    requires Filter(VisibleBefore(t), moments) == Filter(VisibleBefore(t), others)
    ensures EdgeReading(moments, key, alpha, d, window, Some(t), missRun)
         == EdgeReading(others, key, alpha, d, window, Some(t), missRun)
  {
    VisibleHistory(moments, key, VisibleBefore(t));
    VisibleHistory(others, key, VisibleBefore(t));
  }

  lemma VisibleHistory(moments: seq<Moment>, key: string, visible: Moment -> bool)
    ensures Filter(visible, EdgeMoments(moments, key)) == EdgeMoments(Filter(visible, moments), key)
  {
    MomentsAreOrdered();
    FilterSort(visible, MomentLe, Filter(Carries(key), moments));
    FilterSwap(visible, Carries(key), moments);
  }

  function SinceThen(t: int): Moment -> bool { (m: Moment) => m.at >= t }

  /** The moments at or after t that carry the key. */
  function MineSince(moments: seq<Moment>, key: string, t: int): seq<Moment> {
    Filter(SinceThen(t), Filter(Carries(key), moments))
  }

  /** What is visible of a history, when a moment of reading is given. */
  function Seen(moments: seq<Moment>, visibleAt: Option<int>): seq<Moment> {
    if visibleAt.Some? then Filter(VisibleBefore(visibleAt.value), moments) else moments
  }

  /** Only the last window of visible moments that carry the key count: once that many fall at or after t, whatever
      else the history holds before t, or holds without the key, changes nothing. */
  lemma OnlyTheWindowCounts(
    moments: seq<Moment>, others: seq<Moment>, key: string, alpha: real, d: Decay, window: int, visibleAt: Option<int>,
    t: int, missRun: MissRun)
    requires MineSince(Seen(moments, visibleAt), key, t) == MineSince(Seen(others, visibleAt), key, t)
    requires |MineSince(Seen(moments, visibleAt), key, t)| >= window
    ensures EdgeReading(moments, key, alpha, d, window, visibleAt, missRun)
         == EdgeReading(others, key, alpha, d, window, visibleAt, missRun)
  {
    ReadingIsOfTheSeen(moments, key, alpha, d, window, visibleAt, missRun);
    ReadingIsOfTheSeen(others, key, alpha, d, window, visibleAt, missRun);
    if window >= 1 {
      WindowFallsSince(Seen(moments, visibleAt), key, window, t);
      WindowFallsSince(Seen(others, visibleAt), key, window, t);
    }
  }

  lemma ReadingIsOfTheSeen(
    moments: seq<Moment>, key: string, alpha: real, d: Decay, window: int, visibleAt: Option<int>, missRun: MissRun)
    ensures EdgeReading(moments, key, alpha, d, window, visibleAt, missRun)
         == Fold(EdgeMoments(Seen(moments, visibleAt), key), alpha, d, window, missRun)
  {
    if visibleAt.Some? {
      VisibleHistory(moments, key, VisibleBefore(visibleAt.value));
    }
  }

  lemma WindowFallsSince(moments: seq<Moment>, key: string, window: nat, t: int)
    requires |MineSince(moments, key, t)| >= window
    ensures Recent(EdgeMoments(moments, key), window) == Recent(Ordered(MineSince(moments, key, t)), window)
  {
    MomentsAreOrdered();
    var mine := Filter(Carries(key), moments);
    FilterSort(SinceThen(t), MomentLe, mine);
    SortSorts(MomentLe, Filter(SinceThen(t), mine));
    EndsSince(mine, t);
    RecentOfSuffix(Filter(VisibleBefore(t), Ordered(mine)), Ordered(Filter(SinceThen(t), mine)), window);
  }

  lemma EndsSince(mine: seq<Moment>, t: int)
    ensures Filter(VisibleBefore(t), Ordered(mine)) + Filter(SinceThen(t), Ordered(mine)) == Ordered(mine)
  {
    MomentsAreOrdered();
    SortSorts(MomentLe, mine);
    SortedSplits(VisibleBefore(t), SinceThen(t), MomentLe, Ordered(mine));
  }

  lemma RecentOfSuffix(a: seq<Moment>, b: seq<Moment>, window: nat)
    requires |b| >= window
    ensures Recent(a + b, window) == Recent(b, window)
  {
  }
}
