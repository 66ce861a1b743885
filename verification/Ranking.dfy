/** The normalized discounted cumulative gain of a ranked answer (habitus/benchmark/vector.py).
    The weight of a place is a parameter, positive and falling from each place to the next. */
module Ranking {
  import opened Orders
  import opened Sequences

  ghost predicate Falling(weight: nat -> real) {
    forall i: nat, j: nat :: i <= j ==> 0.0 < weight(j) <= weight(i) && (i < j ==> weight(j) < weight(i))
  }

  /** The weights of the places from one on where a relevant identity stands. */
  function Gain(weight: nat -> real, identities: seq<string>, relevant: set<string>, place: nat): real
    decreases identities
  {
    if identities == [] then 0.0
    else (if identities[0] in relevant then weight(place) else 0.0) + Gain(weight, identities[1..], relevant, place + 1)
  }

  /** The weights of a number of places in a row. */
  function Run(weight: nat -> real, place: nat, count: nat): real
    decreases count
  {
    if count == 0 then 0.0 else weight(place) + Run(weight, place + 1, count - 1)
  }

  function Min(a: nat, b: nat): nat { if a <= b then a else b }

  function Score(weight: nat -> real, identities: seq<string>, relevant: set<string>): Option<real> {
    if relevant == {} then None
    else
      var gain, ideal := Gain(weight, identities, relevant, 0), Run(weight, 0, Min(|relevant|, |identities|));
      Some(if ideal != 0.0 then gain / ideal else 0.0)
  }

  function Hits(identities: seq<string>, relevant: set<string>): nat {
    if identities == [] then 0 else (if identities[0] in relevant then 1 else 0) + Hits(identities[1..], relevant)
  }

  predicate Distinct(identities: seq<string>) {
    forall i, j :: 0 <= i < j < |identities| ==> identities[i] != identities[j]
  }

  /** The first places all hold relevant identities. */
  predicate Fills(identities: seq<string>, relevant: set<string>, count: nat) {
    count <= |identities| && forall i :: 0 <= i < count ==> identities[i] in relevant
  }

  lemma {:induction false} HitsAreFew(identities: seq<string>, relevant: set<string>)
    requires Distinct(identities)
    ensures Hits(identities, relevant) <= Min(|relevant|, |identities|)
  {
    if identities != [] {
      var first, rest := identities[0], identities[1..];
      assert first !in rest by {
        assert forall i :: 0 <= i < |rest| ==> rest[i] == identities[i + 1];
      }
      if first in relevant {
        SameHits(rest, relevant, relevant - {first});
        HitsAreFew(rest, relevant - {first});
      } else {
        HitsAreFew(rest, relevant);
      }
    }
  }

  lemma {:induction false} SameHits(identities: seq<string>, a: set<string>, b: set<string>)
    requires forall x :: x in identities ==> (x in a <==> x in b)
    ensures Hits(identities, a) == Hits(identities, b)
    decreases identities
  {
    if identities != [] {
      assert identities[0] in identities;
      SameHits(identities[1..], a, b);
    }
  }

  lemma {:induction false} RunLater(weight: nat -> real, place: nat, count: nat)
    requires Falling(weight)
    ensures Run(weight, place + 1, count) <= Run(weight, place, count)
    ensures count > 0 ==> Run(weight, place + 1, count) < Run(weight, place, count)
    ensures Run(weight, place, count) >= 0.0
    ensures count > 0 ==> Run(weight, place, count) > 0.0
    decreases count
  {
    if count > 0 {
      RunLater(weight, place + 1, count - 1);
      assert place <= place + 1;
    }
  }

  lemma {:induction false} RunLonger(weight: nat -> real, place: nat, a: nat, b: nat)
    requires Falling(weight) && a <= b
    ensures Run(weight, place, a) <= Run(weight, place, b)
    ensures a < b ==> Run(weight, place, a) < Run(weight, place, b)
    decreases b
  {
    if a > 0 {
      RunLonger(weight, place + 1, a - 1, b - 1);
    } else {
      RunLater(weight, place, b);
    }
  }

  /** Hits gain at most what as many places in a row from the same place on weigh, and exactly that when they come
      first. */
  lemma {:induction false} GainIsBounded(weight: nat -> real, identities: seq<string>, relevant: set<string>, place: nat)
    requires Falling(weight)
    ensures 0.0 <= Gain(weight, identities, relevant, place) <= Run(weight, place, Hits(identities, relevant))
    ensures Hits(identities, relevant) <= |identities|
    ensures Gain(weight, identities, relevant, place) == Run(weight, place, Hits(identities, relevant))
            <==> Fills(identities, relevant, Hits(identities, relevant))
    decreases identities
  {
    if identities != [] {
      var rest := identities[1..];
      var hits := Hits(rest, relevant);
      assert identities == [identities[0]] + rest;
      GainIsBounded(weight, rest, relevant, place + 1);
      assert place <= place;
      if identities[0] in relevant {
        FillsFrom(identities, relevant, hits);
      } else {
        RunLater(weight, place, hits);
      }
    }
  }

  lemma FillsFrom(identities: seq<string>, relevant: set<string>, count: nat)
    requires identities != [] && identities[0] in relevant
    ensures Fills(identities, relevant, count + 1) <==> Fills(identities[1..], relevant, count)
  {
    var rest := identities[1..];
    if Fills(rest, relevant, count) {
      forall i | 0 <= i < count + 1 ensures identities[i] in relevant {
        if i > 0 { assert rest[i - 1] in relevant; }
      }
    } else if count <= |rest| {
      var i :| 0 <= i < count && rest[i] !in relevant;
      assert identities[i + 1] !in relevant;
    }
  }

  lemma {:induction false} FilledPlacesAreHits(identities: seq<string>, relevant: set<string>, count: nat)
    requires Fills(identities, relevant, count)
    ensures Hits(identities, relevant) >= count
  {
    if count > 0 {
      assert identities[0] in relevant;
      FillsFrom(identities, relevant, count - 1);
      FilledPlacesAreHits(identities[1..], relevant, count - 1);
    }
  }

  lemma Ratio(a: real, b: real)
    requires 0.0 <= a <= b && b > 0.0
    ensures 0.0 <= a / b <= 1.0 && (a / b == 1.0 <==> a == b)
  {
  }

  /** The score is a ratio to the best possible answer. It is whole exactly when the hits fill the first places, as
      many as there are relevant identities or returned ones. Returned identities may repeat as long as the hits are
      no more than the relevant ones. */
  lemma ScoreIsARatio(weight: nat -> real, identities: seq<string>, relevant: set<string>)
    requires Falling(weight) && relevant != {} && Hits(identities, relevant) <= |relevant|
    ensures Score(weight, identities, relevant).Some?
    ensures 0.0 <= Score(weight, identities, relevant).value <= 1.0
    ensures Score(weight, identities, relevant).value == 1.0
            <==> identities != [] && Fills(identities, relevant, Min(|relevant|, |identities|))
    ensures Score(weight, identities, relevant).value == 0.0 <==> Hits(identities, relevant) == 0
  {
    var hits, best := Hits(identities, relevant), Min(|relevant|, |identities|);
    GainIsBounded(weight, identities, relevant, 0);
    RunLonger(weight, 0, hits, best);
    RunLater(weight, 0, best);
    GainOfHits(weight, identities, relevant, 0);
    if identities != [] {
      Ratio(Gain(weight, identities, relevant, 0), Run(weight, 0, best));
      if Fills(identities, relevant, best) {
        FilledPlacesAreHits(identities, relevant, best);
      }
    }
  }

  lemma {:induction false} GainOfHits(weight: nat -> real, identities: seq<string>, relevant: set<string>, place: nat)
    requires Falling(weight)
    ensures Gain(weight, identities, relevant, place) >= 0.0
    ensures Gain(weight, identities, relevant, place) == 0.0 <==> Hits(identities, relevant) == 0
    decreases identities
  {
    if identities != [] {
      GainOfHits(weight, identities[1..], relevant, place + 1);
      assert place <= place;
    }
  }

  /** What a search returns holds no identity twice, since records are stored by identity. */
  lemma DistinctScoreIsARatio(weight: nat -> real, identities: seq<string>, relevant: set<string>)
    requires Falling(weight) && relevant != {} && Distinct(identities)
    ensures Score(weight, identities, relevant).Some?
    ensures 0.0 <= Score(weight, identities, relevant).value <= 1.0
    ensures Score(weight, identities, relevant).value == 1.0
            <==> identities != [] && Fills(identities, relevant, Min(|relevant|, |identities|))
  {
    HitsAreFew(identities, relevant);
    ScoreIsARatio(weight, identities, relevant);
  }

  lemma Overshoot(a: real, b: real)
    requires a > b > 0.0
    ensures a / b > 1.0
  {
  }

  /** An answer whose hits come first scores at most one exactly when its hits are no more than the relevant
      identities, repeats or not. */
  lemma HitsFirstScoreAtMostOne(weight: nat -> real, identities: seq<string>, relevant: set<string>)
    requires Falling(weight) && relevant != {} && Fills(identities, relevant, Hits(identities, relevant))
    ensures Score(weight, identities, relevant).Some?
    ensures Score(weight, identities, relevant).value <= 1.0 <==> Hits(identities, relevant) <= |relevant|
  {
    var hits := Hits(identities, relevant);
    GainIsBounded(weight, identities, relevant, 0);
    if hits <= |relevant| {
      ScoreIsARatio(weight, identities, relevant);
    } else {
      RunLonger(weight, 0, |relevant|, hits);
      RunLater(weight, 0, |relevant|);
      Overshoot(Gain(weight, identities, relevant, 0), Run(weight, 0, |relevant|));
    }
  }

  /** The same answer with its hits moved to the front. */
  function HitsFirst(identities: seq<string>, relevant: set<string>): seq<string> {
    if identities == [] then []
    else if identities[0] in relevant then [identities[0]] + HitsFirst(identities[1..], relevant)
    else HitsFirst(identities[1..], relevant) + [identities[0]]
  }

  lemma {:induction false} HitsSnoc(identities: seq<string>, relevant: set<string>, x: string)
    ensures Hits(identities + [x], relevant) == Hits(identities, relevant) + if x in relevant then 1 else 0
  {
    if identities != [] {
      assert (identities + [x])[1..] == identities[1..] + [x];
      HitsSnoc(identities[1..], relevant, x);
    } else {
      assert ([] + [x])[1..] == [];
    }
  }

  lemma {:induction false} HitsFirstRearranges(identities: seq<string>, relevant: set<string>)
    ensures multiset(HitsFirst(identities, relevant)) == multiset(identities)
    ensures Hits(HitsFirst(identities, relevant), relevant) == Hits(identities, relevant)
    ensures Fills(HitsFirst(identities, relevant), relevant, Hits(identities, relevant))
  {
    if identities != [] {
      var first, rest := identities[0], HitsFirst(identities[1..], relevant);
      assert identities == [first] + identities[1..];
      HitsFirstRearranges(identities[1..], relevant);
      if first in relevant {
        assert ([first] + rest)[1..] == rest;
        FillsFrom([first] + rest, relevant, Hits(identities[1..], relevant));
      } else {
        HitsSnoc(rest, relevant, first);
      }
    }
  }

  lemma {:induction false} HitsAreOfTheBag(a: seq<string>, b: seq<string>, relevant: set<string>)
    requires multiset(a) == multiset(b)
    ensures Hits(a, relevant) == Hits(b, relevant)
  {
    if a == [] {
      assert |multiset(b)| == 0;
    } else {
      var i := FirstAmong(a, b);
      HitsAreOfTheBag(a[1..], b[..i] + b[i + 1..], relevant);
      HitsWithout(b, relevant, i);
    }
  }

  lemma {:induction false} HitsWithout(s: seq<string>, relevant: set<string>, i: nat)
    requires i < |s|
    ensures Hits(s, relevant) == Hits(s[..i] + s[i + 1..], relevant) + if s[i] in relevant then 1 else 0
  {
    if i == 0 {
      assert s[..0] + s[1..] == s[1..];
    } else {
      HitsWithout(s[1..], relevant, i - 1);
      assert (s[..i] + s[i + 1..])[1..] == s[1..][..i - 1] + s[1..][i..];
    }
  }

  /** No order of the returned identities scores more than one exactly when the hits among them are no more than the
      relevant identities. */
  lemma NoOrderOvershootsExactlyWhen(weight: nat -> real, identities: seq<string>, relevant: set<string>)
    requires Falling(weight) && relevant != {}
    ensures (forall order :: multiset(order) == multiset(identities) ==>
              Score(weight, order, relevant).Some? && Score(weight, order, relevant).value <= 1.0)
            <==> Hits(identities, relevant) <= |relevant|
  {
    if Hits(identities, relevant) <= |relevant| {
      forall order | multiset(order) == multiset(identities)
        ensures Score(weight, order, relevant).Some? && Score(weight, order, relevant).value <= 1.0
      {
        HitsAreOfTheBag(order, identities, relevant);
        ScoreIsARatio(weight, order, relevant);
      }
    } else {
      HitsFirstRearranges(identities, relevant);
      HitsFirstScoreAtMostOne(weight, HitsFirst(identities, relevant), relevant);
    }
  }

  // ---- Better answers score higher ----

  /** Replacing one identity changes the gain by the weight of its place, when one is relevant and the other not. */
  lemma {:induction false} GainUpdate(weight: nat -> real, identities: seq<string>, relevant: set<string>, place: nat,
                                      i: nat, x: string)
    requires i < |identities|
    ensures Gain(weight, identities[i := x], relevant, place)
            == Gain(weight, identities, relevant, place)
               + (if x in relevant then weight(place + i) else 0.0)
               - (if identities[i] in relevant then weight(place + i) else 0.0)
    decreases identities
  {
    if i > 0 {
      assert identities[i := x][1..] == identities[1..][i - 1 := x];
      GainUpdate(weight, identities[1..], relevant, place + 1, i - 1, x);
    } else {
      assert identities[i := x][1..] == identities[1..];
    }
  }

  lemma Greater(a: real, b: real, c: real)
    requires a < b && c > 0.0
    ensures a / c < b / c
  {
  }

  /** Moving a relevant identity up into the place of one that is not always raises the score. */
  lemma MovingAHitUpRaisesTheScore(weight: nat -> real, identities: seq<string>, relevant: set<string>, i: nat, j: nat)
    requires Falling(weight) && i < j < |identities| && identities[i] !in relevant && identities[j] in relevant
    ensures Score(weight, identities, relevant).Some?
    ensures var moved := identities[i := identities[j]][j := identities[i]];
      && Score(weight, moved, relevant).Some?
      && Score(weight, moved, relevant).value > Score(weight, identities, relevant).value
  {
    var once := identities[i := identities[j]];
    var moved := once[j := identities[i]];
    GainUpdate(weight, identities, relevant, 0, i, identities[j]);
    GainUpdate(weight, once, relevant, 0, j, identities[i]);
    assert |relevant| > 0;
    RunLater(weight, 0, Min(|relevant|, |identities|));
    Greater(Gain(weight, identities, relevant, 0), Gain(weight, moved, relevant, 0),
            Run(weight, 0, Min(|relevant|, |identities|)));
  }

  lemma RatioStep(a: real, b: real, w: real, c: real)
    requires c > 0.0 && b == a + w
    ensures b / c == a / c + w / c
  {
  }

  /** A score is there exactly when something is relevant, and is nought for an empty answer. */
  lemma ScoreIsMissingExactlyWhen(weight: nat -> real, identities: seq<string>, relevant: set<string>)
    ensures Score(weight, identities, relevant).None? <==> relevant == {}
    ensures relevant != {} && identities == [] ==> Score(weight, identities, relevant) == Some(0.0)
  {
  }

  /** One more hit, in place of an identity that is not relevant, adds the weight of its place over the weights of the
      best places. */
  lemma AHitAddsItsShare(weight: nat -> real, identities: seq<string>, relevant: set<string>, i: nat, x: string)
    requires Falling(weight) && i < |identities| && identities[i] !in relevant && x in relevant
    ensures Run(weight, 0, Min(|relevant|, |identities|)) > 0.0
    ensures Score(weight, identities, relevant).Some? && Score(weight, identities[i := x], relevant).Some?
    ensures Score(weight, identities[i := x], relevant).value
            == Score(weight, identities, relevant).value + weight(i) / Run(weight, 0, Min(|relevant|, |identities|))
  {
    var best := Min(|relevant|, |identities|);
    assert |relevant| > 0;
    RunLater(weight, 0, best);
    GainUpdate(weight, identities, relevant, 0, i, x);
    RatioStep(Gain(weight, identities, relevant, 0), Gain(weight, identities[i := x], relevant, 0), weight(i),
              Run(weight, 0, best));
  }
}
