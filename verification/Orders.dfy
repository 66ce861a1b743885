/** Total orders, lexicographic comparison of sequences, and the stable sort and sorted listings
    the ledger code takes from its host language. */
module Orders {

  datatype Option<+T> = None | Some(value: T)

  datatype Result<+T, +E> = Ok(value: T) | Err(error: E)

  /** Two comparisons in a row. Naming the pair keeps the law of transitivity from being used on its own. */
  predicate Chain<T>(le: (T, T) -> bool, a: T, b: T, c: T) { le(a, b) && le(b, c) }

  ghost predicate TotalPreorder<T(!new)>(le: (T, T) -> bool) {
    && (forall a, b :: le(a, b) || le(b, a))
    && (forall a, b, c :: Chain(le, a, b, c) ==> le(a, c))
  }

  ghost predicate TotalOrder<T(!new)>(le: (T, T) -> bool) {
    && TotalPreorder(le)
    && (forall a, b :: le(a, b) && le(b, a) ==> a == b)
  }

  lemma Transitive<T(!new)>(le: (T, T) -> bool, a: T, b: T, c: T)
    requires TotalPreorder(le) && le(a, b) && le(b, c)
    ensures le(a, c)
  {
    assert Chain(le, a, b, c);
  }

  predicate NatLe(a: nat, b: nat) { a <= b }

  predicate IntLe(a: int, b: int) { a <= b }

  predicate RealLe(a: real, b: real) { a <= b }

  predicate CharLe(a: char, b: char) { a <= b }

  function Ceiling(x: real): int { -((-x).Floor) }

  lemma NumbersAreOrdered()
    ensures TotalOrder(NatLe) && TotalOrder(IntLe) && TotalOrder(RealLe) && TotalOrder(CharLe)
  {
  }

  /** Tuple and text comparison: the first place that differs decides, and a prefix comes first. */
  predicate LexLe<T(==)>(le: (T, T) -> bool, a: seq<T>, b: seq<T>) {
    a == [] || (b != [] && if a[0] == b[0] then LexLe(le, a[1..], b[1..]) else le(a[0], b[0]))
  }

  lemma LexTotal<T(!new)>(le: (T, T) -> bool, a: seq<T>, b: seq<T>)
    requires TotalOrder(le)
    ensures LexLe(le, a, b) || LexLe(le, b, a)
    decreases a
  {
    if a != [] && b != [] && a[0] == b[0] {
      LexTotal(le, a[1..], b[1..]);
    }
  }

  lemma LexAntisymmetric<T(!new)>(le: (T, T) -> bool, a: seq<T>, b: seq<T>)
    requires TotalOrder(le) && LexLe(le, a, b) && LexLe(le, b, a)
    ensures a == b
    decreases a
  {
    if a != [] && b != [] && a[0] == b[0] {
      LexAntisymmetric(le, a[1..], b[1..]);
      assert a == [a[0]] + a[1..] && b == [b[0]] + b[1..];
    }
  }

  lemma LexTransitive<T(!new)>(le: (T, T) -> bool, a: seq<T>, b: seq<T>, c: seq<T>)
    requires TotalOrder(le) && LexLe(le, a, b) && LexLe(le, b, c)
    ensures LexLe(le, a, c)
    decreases a
  {
    if a != [] && a[0] == b[0] && b[0] == c[0] {
      LexTransitive(le, a[1..], b[1..], c[1..]);
    } else if a != [] {
      Transitive(le, a[0], b[0], c[0]);
    }
  }

  /** Comparison of texts, by code point. */
  predicate TextLe(a: string, b: string) { LexLe(CharLe, a, b) }

  lemma TextIsOrdered()
    ensures TotalOrder(TextLe)
  {
    NumbersAreOrdered();
    forall a, b ensures TextLe(a, b) || TextLe(b, a) { LexTotal(CharLe, a, b); }
    forall a, b | TextLe(a, b) && TextLe(b, a) ensures a == b { LexAntisymmetric(CharLe, a, b); }
    forall a, b, c | TextLe(a, b) && TextLe(b, c) ensures TextLe(a, c) { LexTransitive(CharLe, a, b, c); }
  }

  /** Comparison of lists of texts. */
  predicate TextsLe(a: seq<string>, b: seq<string>) { LexLe(TextLe, a, b) }

  lemma TextsAreOrdered()
    ensures TotalOrder(TextsLe)
  {
    TextIsOrdered();
    forall a, b ensures TextsLe(a, b) || TextsLe(b, a) { LexTotal(TextLe, a, b); }
    forall a, b | TextsLe(a, b) && TextsLe(b, a) ensures a == b { LexAntisymmetric(TextLe, a, b); }
    forall a, b, c | TextsLe(a, b) && TextsLe(b, c) ensures TextsLe(a, c) { LexTransitive(TextLe, a, b, c); }
  }
}

/** Filters, the stable sort, and sorted listings of sets and counters. */
module Sequences {
  import opened Orders

  function Filter<T>(p: T -> bool, s: seq<T>): (r: seq<T>) {
    if s == [] then [] else (if p(s[0]) then [s[0]] else []) + Filter(p, s[1..])
  }

  function Map<T, U>(f: T -> U, s: seq<T>): (r: seq<U>)
    ensures |r| == |s| && forall i :: 0 <= i < |s| ==> r[i] == f(s[i])
  {
    seq(|s|, i requires 0 <= i < |s| => f(s[i]))
  }

  lemma {:induction false} FilterHas<T>(p: T -> bool, s: seq<T>, x: T)
    ensures x in Filter(p, s) <==> x in s && p(x)
  {
    if s != [] {
      FilterHas(p, s[1..], x);
      assert s == [s[0]] + s[1..];
    }
  }

  lemma Associate<T>(a: seq<T>, b: seq<T>, c: seq<T>)
    ensures (a + b) + c == a + (b + c)
  {
  }

  lemma FilterCons<T>(p: T -> bool, x: T, t: seq<T>)
    ensures Filter(p, [x] + t) == if p(x) then [x] + Filter(p, t) else Filter(p, t)
  {
    assert ([x] + t)[1..] == t;
  }

  lemma {:induction false} FilterAppend<T>(p: T -> bool, s: seq<T>, t: seq<T>)
    ensures Filter(p, s + t) == Filter(p, s) + Filter(p, t)
  {
    if s == [] {
      assert s + t == t;
    } else {
      var x, rest := s[0], s[1..];
      assert s == [x] + rest && s + t == [x] + (rest + t);
      FilterAppend(p, rest, t);
      FilterCons(p, x, rest);
      FilterCons(p, x, rest + t);
      Associate([x], Filter(p, rest), Filter(p, t));
    }
  }

  lemma FilterSnoc<T>(p: T -> bool, s: seq<T>, x: T)
    ensures Filter(p, s + [x]) == if p(x) then Filter(p, s) + [x] else Filter(p, s)
  {
    FilterAppend(p, s, [x]);
    FilterCons(p, x, []);
    assert [x] + [] == [x];
  }

  lemma {:induction false} FilterSame<T>(p: T -> bool, q: T -> bool, s: seq<T>)
    requires forall x :: x in s ==> p(x) == q(x)
    ensures Filter(p, s) == Filter(q, s)
  {
    if s != [] {
      assert s[0] in s && forall x :: x in s[1..] ==> x in s;
      FilterSame(p, q, s[1..]);
    }
  }

  lemma {:induction false} FilterAll<T>(p: T -> bool, s: seq<T>)
    requires forall x :: x in s ==> p(x)
    ensures Filter(p, s) == s
  {
    if s != [] {
      assert s[0] in s && forall x :: x in s[1..] ==> x in s;
      FilterAll(p, s[1..]);
      assert s == [s[0]] + s[1..];
    }
  }

  lemma {:induction false} FilterNone<T>(p: T -> bool, s: seq<T>)
    requires forall x :: x in s ==> !p(x)
    ensures Filter(p, s) == []
  {
    if s != [] {
      assert s[0] in s && forall x :: x in s[1..] ==> x in s;
      FilterNone(p, s[1..]);
    }
  }

  lemma {:induction false} FilterTwice<T>(p: T -> bool, q: T -> bool, both: T -> bool, s: seq<T>)
    requires forall x :: x in s ==> both(x) == (p(x) && q(x))
    ensures Filter(p, Filter(q, s)) == Filter(both, s)
  {
    if s != [] {
      assert s[0] in s && forall x :: x in s[1..] ==> x in s;
      FilterTwice(p, q, both, s[1..]);
      if q(s[0]) {
        FilterCons(p, s[0], Filter(q, s[1..]));
      } else {
        assert Filter(q, s) == Filter(q, s[1..]);
      }
    }
  }

  lemma FilterSwap<T>(p: T -> bool, q: T -> bool, s: seq<T>)
    ensures Filter(p, Filter(q, s)) == Filter(q, Filter(p, s))
  {
    var both := (x: T) => p(x) && q(x);
    FilterTwice(p, q, both, s);
    FilterTwice(q, p, both, s);
  }

  predicate Sorted<T>(le: (T, T) -> bool, s: seq<T>) {
    forall i, j :: 0 <= i < j < |s| ==> le(s[i], s[j])
  }

  function Insert<T>(le: (T, T) -> bool, x: T, s: seq<T>): (r: seq<T>) {
    if s == [] || le(x, s[0]) then [x] + s else [s[0]] + Insert(le, x, s[1..])
  }

  /** A stable sort: items that compare equal stay in the order they came in. */
  function Sort<T>(le: (T, T) -> bool, s: seq<T>): (r: seq<T>) {
    if s == [] then [] else Insert(le, s[0], Sort(le, s[1..]))
  }

  lemma {:induction false} InsertHas<T>(le: (T, T) -> bool, x: T, s: seq<T>)
    ensures multiset(Insert(le, x, s)) == multiset{x} + multiset(s)
    ensures |Insert(le, x, s)| == |s| + 1
    ensures forall y :: y in Insert(le, x, s) <==> y == x || y in s
  {
    if s != [] {
      assert s == [s[0]] + s[1..];
      InsertHas(le, x, s[1..]);
    }
  }

  lemma {:induction false} InsertSorted<T(!new)>(le: (T, T) -> bool, x: T, s: seq<T>)
    requires TotalPreorder(le) && Sorted(le, s)
    ensures Sorted(le, Insert(le, x, s))
  {
    if s == [] || le(x, s[0]) {
      forall j | 0 <= j < |s| ensures le(x, s[j]) {
        if j > 0 { Transitive(le, x, s[0], s[j]); }
      }
    } else {
      InsertSorted(le, x, s[1..]);
      InsertHas(le, x, s[1..]);
      var t := Insert(le, x, s[1..]);
      forall j | 0 <= j < |t| ensures le(s[0], t[j]) {
        assert t[j] in t;
        if t[j] != x {
          var k :| 0 <= k < |s[1..]| && s[1..][k] == t[j];
          assert le(s[0], s[k + 1]);
        }
      }
    }
  }

  lemma {:induction false} SortSorts<T(!new)>(le: (T, T) -> bool, s: seq<T>)
    requires TotalPreorder(le)
    ensures Sorted(le, Sort(le, s))
    ensures multiset(Sort(le, s)) == multiset(s)
    ensures |Sort(le, s)| == |s|
    ensures forall y :: y in Sort(le, s) <==> y in s
  {
    if s != [] {
      assert s == [s[0]] + s[1..];
      SortSorts(le, s[1..]);
      InsertSorted(le, s[0], Sort(le, s[1..]));
      InsertHas(le, s[0], Sort(le, s[1..]));
    }
  }

  /** Sequences in order with the same items are the same, as long as only equal items tie. */
  lemma {:induction false} SortedUnique<T(!new)>(le: (T, T) -> bool, a: seq<T>, b: seq<T>)
    requires Sorted(le, a) && Sorted(le, b) && multiset(a) == multiset(b)
    requires forall x, y :: x in a && y in a && le(x, y) && le(y, x) ==> x == y
    ensures a == b
  {
    SameMembers(a, b);
    if a != [] {
      assert a[0] in a && a[0] in b;
      assert b[0] in b && b[0] in a;
      HeadReaches(le, a, b[0]);
      HeadReaches(le, b, a[0]);
      SameTails(a, b);
      assert a == [a[0]] + a[1..] && b == [b[0]] + b[1..];
      SortedUnique(le, a[1..], b[1..]);
    } else {
      assert |multiset(b)| == 0;
    }
  }

  lemma SameMembers<T>(a: seq<T>, b: seq<T>)
    requires multiset(a) == multiset(b)
    ensures forall x :: x in a <==> x in b
  {
    forall x ensures x in a <==> x in b {
      assert x in a <==> x in multiset(a);
      assert x in b <==> x in multiset(b);
    }
  }

  lemma HeadReaches<T>(le: (T, T) -> bool, s: seq<T>, x: T)
    requires Sorted(le, s) && x in s
    ensures x == s[0] || le(s[0], x)
  {
    var i :| 0 <= i < |s| && s[i] == x;
  }

  lemma TailBag<T>(s: seq<T>)
    requires s != []
    ensures multiset(s[1..]) == multiset(s) - multiset{s[0]}
  {
    assert s == [s[0]] + s[1..];
  }

  lemma SameTails<T>(a: seq<T>, b: seq<T>)
    requires a != [] && b != [] && a[0] == b[0] && multiset(a) == multiset(b)
    ensures multiset(a[1..]) == multiset(b[1..])
  {
    TailBag(a);
    TailBag(b);
  }

  /** Sorting leaves items that all tie as they are. */
  lemma {:induction false} SortTied<T(!new)>(le: (T, T) -> bool, s: seq<T>)
    requires forall x, y :: x in s && y in s ==> le(x, y)
    ensures Sort(le, s) == s
  {
    if s != [] {
      assert s == [s[0]] + s[1..];
      forall x | x in s[1..] ensures x in s {
      }
      SortTied(le, s[1..]);
      if |s| > 1 { assert s[0] in s && s[1] in s; }
    }
  }

  lemma {:induction false} FilterBag<T>(p: T -> bool, s: seq<T>, x: T)
    ensures multiset(Filter(p, s))[x] == if p(x) then multiset(s)[x] else 0
  {
    if s != [] {
      assert s == [s[0]] + s[1..];
      FilterBag(p, s[1..], x);
    }
  }

  lemma SameBag<T>(a: multiset<T>, b: multiset<T>)
    requires forall x :: a[x] == b[x]
    ensures a == b
  {
  }

  lemma FilterKeepsBags<T>(p: T -> bool, s: seq<T>, t: seq<T>)
    requires multiset(s) == multiset(t)
    ensures multiset(Filter(p, s)) == multiset(Filter(p, t))
  {
    var a, b := multiset(Filter(p, s)), multiset(Filter(p, t));
    forall x ensures a[x] == b[x] {
      FilterBag(p, s, x);
      FilterBag(p, t, x);
    }
    SameBag(a, b);
  }

  lemma {:induction false} FilterInsert<T(!new)>(p: T -> bool, le: (T, T) -> bool, x: T, s: seq<T>)
    requires TotalPreorder(le) && Sorted(le, s)
    ensures Filter(p, Insert(le, x, s)) == if p(x) then Insert(le, x, Filter(p, s)) else Filter(p, s)
  {
    if s == [] || le(x, s[0]) {
      assert ([x] + s)[1..] == s;
      var t := Filter(p, s);
      if t != [] {
        FilterHas(p, s, t[0]);
        var k :| 0 <= k < |s| && s[k] == t[0];
        if k > 0 { Transitive(le, x, s[0], s[k]); }
      }
    } else {
      FilterInsert(p, le, x, s[1..]);
      FilterCons(p, s[0], Insert(le, x, s[1..]));
      FilterCons(p, s[0], s[1..]);
      assert s == [s[0]] + s[1..];
    }
  }

  /** Filtering commutes with the stable sort. Taken at a class of equal keys this is stability. */
  lemma {:induction false} FilterSort<T(!new)>(p: T -> bool, le: (T, T) -> bool, s: seq<T>)
    requires TotalPreorder(le)
    ensures Filter(p, Sort(le, s)) == Sort(le, Filter(p, s))
  {
    if s != [] {
      FilterSort(p, le, s[1..]);
      SortSorts(le, s[1..]);
      FilterInsert(p, le, s[0], Sort(le, s[1..]));
      FilterCons(p, s[0], s[1..]);
      assert s == [s[0]] + s[1..];
    }
  }

  lemma {:induction false} FilterSorted<T(!new)>(p: T -> bool, le: (T, T) -> bool, s: seq<T>)
    requires Sorted(le, s)
    ensures Sorted(le, Filter(p, s))
  {
    if s != [] {
      var x, rest := s[0], s[1..];
      assert s == [x] + rest;
      FilterSorted(p, le, rest);
      FilterCons(p, x, rest);
      forall y | y in Filter(p, rest) ensures le(x, y) {
        FilterHas(p, rest, y);
        var k :| 0 <= k < |rest| && rest[k] == y;
        assert s[k + 1] == y;
      }
    }
  }

  /** A test that nothing fails which comes before something that passes. */
  ghost predicate Downward<T(!new)>(le: (T, T) -> bool, low: T -> bool) {
    forall x, y :: le(x, y) && low(y) ==> low(x)
  }

  lemma NoneLowAfter<T(!new)>(low: T -> bool, le: (T, T) -> bool, x: T, rest: seq<T>)
    requires Sorted(le, [x] + rest) && Downward(le, low) && !low(x)
    ensures Filter(low, rest) == []
  {
    forall i | 0 <= i < |rest| ensures !low(rest[i]) {
      assert le(([x] + rest)[0], ([x] + rest)[i + 1]);
    }
    FilterNone(low, rest);
  }

  /** A sorted sequence falls into the part up to a cut and the part after it. */
  lemma {:induction false} SortedSplits<T(!new)>(low: T -> bool, high: T -> bool, le: (T, T) -> bool, s: seq<T>)
    requires Sorted(le, s) && Downward(le, low) && forall x :: high(x) == !low(x)
    ensures Filter(low, s) + Filter(high, s) == s
  {
    if s != [] {
      var x, rest := s[0], s[1..];
      assert s == [x] + rest;
      SortedSplits(low, high, le, rest);
      FilterCons(low, x, rest);
      FilterCons(high, x, rest);
      if low(x) {
        Associate([x], Filter(low, rest), Filter(high, rest));
      } else {
        NoneLowAfter(low, le, x, rest);
        assert [] + Filter(high, rest) == Filter(high, rest);
      }
    }
  }

  lemma TakenOut<T>(s: seq<T>, i: nat)
    requires i < |s|
    ensures multiset(s[..i] + s[i + 1..]) == multiset(s) - multiset{s[i]}
  {
    assert s == s[..i] + [s[i]] + s[i + 1..];
  }

  /** The first item of one sequence, found in another with the same items; without it they still have the same. */
  lemma FirstAmong<T>(s: seq<T>, t: seq<T>) returns (i: nat)
    requires s != [] && multiset(s) == multiset(t)
    ensures i < |t| && t[i] == s[0]
    ensures multiset(s[1..]) == multiset(t[..i] + t[i + 1..])
  {
    SameMembers(s, t);
    assert s[0] in s;
    i :| 0 <= i < |t| && t[i] == s[0];
    TailBag(s);
    TakenOut(t, i);
  }

  /** Strictly ascending: sorted and without repeats. */
  predicate Ascending<T(==)>(le: (T, T) -> bool, s: seq<T>) {
    forall i, j :: 0 <= i < j < |s| ==> le(s[i], s[j]) && s[i] != s[j]
  }

  lemma HeadBelow<T(!new)>(le: (T, T) -> bool, x: T, rest: seq<T>)
    requires Ascending(le, [x] + rest)
    ensures Ascending(le, rest)
    ensures forall y :: y in rest ==> le(x, y) && x != y
  {
    var s := [x] + rest;
    forall i, j | 0 <= i < j < |rest| ensures le(rest[i], rest[j]) && rest[i] != rest[j] {
      assert s[i + 1] == rest[i] && s[j + 1] == rest[j];
    }
    forall y | y in rest ensures le(x, y) && x != y {
      var k :| 0 <= k < |rest| && rest[k] == y;
      assert s[0] == x && s[k + 1] == y;
    }
  }

  lemma AscendingCons<T(!new)>(le: (T, T) -> bool, x: T, s: seq<T>)
    requires Ascending(le, s) && forall y :: y in s ==> le(x, y) && x != y
    ensures Ascending(le, [x] + s)
  {
    var t := [x] + s;
    forall i, j | 0 <= i < j < |t| ensures le(t[i], t[j]) && t[i] != t[j] {
      assert t[j] == s[j - 1] && s[j - 1] in s;
      assert i > 0 ==> t[i] == s[i - 1];
    }
  }

  lemma {:induction false} FilterAscends<T(!new)>(p: T -> bool, le: (T, T) -> bool, s: seq<T>)
    requires Ascending(le, s)
    ensures Ascending(le, Filter(p, s))
  {
    if s != [] {
      var x, rest := s[0], s[1..];
      assert s == [x] + rest;
      HeadBelow(le, x, rest);
      FilterAscends(p, le, rest);
      FilterCons(p, x, rest);
      forall y ensures y in Filter(p, rest) ==> y in rest { FilterHas(p, rest, y); }
      if p(x) {
        AscendingCons(le, x, Filter(p, rest));
      }
    }
  }

  function Elements<T>(s: seq<T>): (r: set<T>) { set x | x in s }

  lemma {:induction false} FindLeast<T(!new)>(le: (T, T) -> bool, s: set<T>) returns (least: T)
    requires TotalOrder(le) && s != {}
    ensures least in s && forall y :: y in s ==> le(least, y)
    decreases |s|
  {
    var x :| x in s;
    var rest := s - {x};
    assert s == rest + {x} && |rest| < |s|;
    least := x;
    if rest != {} {
      var z := FindLeast(le, rest);
      if le(x, z) {
        forall y | y in rest ensures le(x, y) { Transitive(le, x, z, y); }
      } else {
        least := z;
      }
    }
  }

  lemma LeastExists<T(!new)>(le: (T, T) -> bool, s: set<T>)
    requires TotalOrder(le) && s != {}
    ensures exists x :: x in s && forall y :: y in s ==> le(x, y)
  {
    var least := FindLeast(le, s);
  }

  function Least<T(==,!new)>(le: (T, T) -> bool, s: set<T>): (x: T)
    requires TotalOrder(le) && s != {}
    ensures x in s && forall y :: y in s ==> le(x, y)
  {
    LeastExists(le, s);
    var x :| x in s && forall y | y in s :: le(x, y);
    x
  }

  /** The members of a set in ascending order. */
  function Listing<T(==,!new)>(le: (T, T) -> bool, s: set<T>): (r: seq<T>)
    requires TotalOrder(le)
    decreases |s|
  {
    if s == {} then [] else
      var x := Least(le, s);
      assert |s - {x}| < |s|;
      [x] + Listing(le, s - {x})
  }

  lemma {:induction false} ListingLists<T(!new)>(le: (T, T) -> bool, s: set<T>)
    requires TotalOrder(le)
    ensures Ascending(le, Listing(le, s))
    ensures forall x :: x in Listing(le, s) <==> x in s
    decreases |s|
  {
    if s != {} {
      var x := Least(le, s);
      assert |s - {x}| < |s|;
      ListingLists(le, s - {x});
      var rest := Listing(le, s - {x});
      var all := [x] + rest;
      assert Listing(le, s) == all;
      forall i, j | 0 <= i < j < |all| ensures le(all[i], all[j]) && all[i] != all[j] {
        assert all[j] == rest[j - 1] && rest[j - 1] in rest;
        assert i > 0 ==> all[i] == rest[i - 1];
      }
    }
  }

  lemma {:induction false} AscendingUnique<T(!new)>(le: (T, T) -> bool, s: seq<T>, t: seq<T>)
    requires TotalOrder(le) && Ascending(le, s) && Ascending(le, t)
    requires forall x :: x in s <==> x in t
    ensures s == t
  {
    assert forall i :: 0 <= i < |s| ==> s[i] in t;
    assert forall i :: 0 <= i < |t| ==> t[i] in s;
    if s != [] && t != [] {
      assert s[0] in t && t[0] in s;
      assert s[0] == t[0];
      forall x ensures x in s[1..] <==> x in t[1..] {
        assert x in s[1..] <==> x in s && x != s[0] by { assert s == [s[0]] + s[1..]; }
        assert x in t[1..] <==> x in t && x != t[0] by { assert t == [t[0]] + t[1..]; }
      }
      AscendingUnique(le, s[1..], t[1..]);
      assert s == [s[0]] + s[1..] && t == [t[0]] + t[1..];
    }
  }

  lemma AscendingIsListing<T(!new)>(le: (T, T) -> bool, s: seq<T>)
    requires TotalOrder(le) && Ascending(le, s)
    ensures Listing(le, Elements(s)) == s
  {
    ListingLists(le, Elements(s));
    AscendingUnique(le, Listing(le, Elements(s)), s);
  }

  lemma BagsAssociate<T>(a: multiset<T>, b: multiset<T>, c: multiset<T>)
    ensures a + (b + c) == (a + b) + c
  {
  }

  function Sum(s: seq<real>): real {
    if s == [] then 0.0 else s[0] + Sum(s[1..])
  }

  // A counter is a multiset; its sorted items are the pairs (key, count) by ascending key.

  function Keys<T>(m: multiset<T>): (r: set<T>) { set x | x in m }

  function Items<T(==,!new)>(le: (T, T) -> bool, m: multiset<T>): (r: seq<(T, nat)>)
    requires TotalOrder(le)
  {
    var keys := Listing(le, Keys(m));
    Map((x: T) => (x, m[x]), keys)
  }

  lemma ItemsHas<T(!new)>(le: (T, T) -> bool, m: multiset<T>, x: T, count: nat)
    requires TotalOrder(le)
    ensures (x, count) in Items(le, m) <==> count == m[x] && count > 0
  {
    ListingLists(le, Keys(m));
    var keys, items := Listing(le, Keys(m)), Items(le, m);
    if (x, count) in items {
      var i :| 0 <= i < |items| && items[i] == (x, count);
      assert keys[i] == x && keys[i] in keys;
    }
    if x in m {
      assert x in keys;
      var i :| 0 <= i < |keys| && keys[i] == x;
      assert items[i] == (x, m[x]);
    }
  }

  function FromItems<T>(items: seq<(T, nat)>): (m: multiset<T>) {
    if items == [] then multiset{} else FromItems(items[1..])[items[0].0 := items[0].1]
  }

  lemma {:induction false} FromMapped<T>(m: multiset<T>, keys: seq<T>, x: T)
    ensures FromItems(Map((k: T) => (k, m[k]), keys))[x] == if x in keys then m[x] else 0
  {
    var items := Map((k: T) => (k, m[k]), keys);
    if keys != [] {
      FromMapped(m, keys[1..], x);
      assert items[1..] == Map((k: T) => (k, m[k]), keys[1..]);
      assert keys == [keys[0]] + keys[1..];
    }
  }

  /** Writing a counter out as sorted items and reading it back loses nothing. */
  lemma ItemsRoundTrip<T(!new)>(le: (T, T) -> bool, m: multiset<T>)
    requires TotalOrder(le)
    ensures FromItems(Items(le, m)) == m
  {
    ListingLists(le, Keys(m));
    var items := Items(le, m);
    forall x ensures FromItems(items)[x] == m[x] {
      FromMapped(m, Listing(le, Keys(m)), x);
      assert items == Map((k: T) => (k, m[k]), Listing(le, Keys(m)));
    }
  }
}
