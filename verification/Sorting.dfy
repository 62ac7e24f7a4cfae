/** The library sort and least elements, for any order the callers bring. */
module Sorting {

  /** Neither irreflexivity nor totality on equals is asked for: not coming before is transitive. */
  ghost predicate Orders<T(!new)>(before: (T, T) -> bool) {
    && (forall a, b :: before(a, b) ==> !before(b, a))
    && (forall a, b, c :: !before(b, a) && !before(c, b) ==> !before(c, a))
  }

  /** No later element comes before an earlier one. */
  ghost predicate InOrder<T>(s: seq<T>, before: (T, T) -> bool) {
    forall i, j :: 0 <= i < j < |s| ==> !before(s[j], s[i])
  }

  /** Inserts in front of the first element it comes before. */
  function Insert<T>(x: T, s: seq<T>, before: (T, T) -> bool): (r: seq<T>)
    ensures multiset(r) == multiset{x} + multiset(s) && |r| == |s| + 1
  {
    if s == [] then [x]
    else if before(x, s[0]) then [x] + s
    else
      assert s == [s[0]] + s[1..];
      [s[0]] + Insert(x, s[1..], before)
  }

  /** The library sort; its result is pinned down only up to elements neither of which comes before the other. */
  function Sort<T>(s: seq<T>, before: (T, T) -> bool): (r: seq<T>)
    ensures multiset(r) == multiset(s) && |r| == |s|
  {
    if s == [] then []
    else
      assert s == [s[0]] + s[1..];
      Insert(s[0], Sort(s[1..], before), before)
  }

  lemma {:induction false} InsertKeepsOrder<T(!new)>(x: T, s: seq<T>, before: (T, T) -> bool)
    requires Orders(before) && InOrder(s, before)
    ensures InOrder(Insert(x, s, before), before)
  {
    if s != [] && !before(x, s[0]) {
      InsertKeepsOrder(x, s[1..], before);
      var tail := Insert(x, s[1..], before);
      forall j | 0 <= j < |tail| ensures !before(tail[j], s[0]) {
        assert tail[j] in multiset(tail);
        assert tail[j] == x || tail[j] in s[1..];
      }
    } else if s != [] {
      forall j | 0 <= j < |s| ensures !before(s[j], x) {
        assert !before(s[0], x) && (j > 0 ==> !before(s[j], s[0]));
      }
    }
  }

  /** Sorting puts any sequence in order. */
  lemma {:induction false} SortIsInOrder<T(!new)>(s: seq<T>, before: (T, T) -> bool)
    requires Orders(before)
    ensures InOrder(Sort(s, before), before)
  {
    if s != [] {
      SortIsInOrder(s[1..], before);
      InsertKeepsOrder(s[0], Sort(s[1..], before), before);
    }
  }

  lemma SameMembers<T>(s: seq<T>, t: seq<T>)
    requires multiset(s) == multiset(t)
    ensures forall x :: x in s <==> x in t
  {
    forall x ensures x in s <==> x in t {
      assert x in s <==> x in multiset(s);
      assert x in t <==> x in multiset(t);
    }
  }

  /** A finite, non-empty set has an element of least rank. */
  lemma {:induction false} LeastExists<T(!new)>(s: set<T>, rank: T -> int)
    requires s != {}
    ensures exists x :: x in s && forall y :: y in s ==> rank(x) <= rank(y)
  {
    var some :| some in s;
    if s != {some} {
      var rest := s - {some};
      LeastExists(rest, rank);
      var low :| low in rest && forall y :: y in rest ==> rank(low) <= rank(y);
      var best := if rank(some) <= rank(low) then some else low;
      forall y | y in s ensures rank(best) <= rank(y) {
        assert y == some || y in rest;
      }
    }
  }
}
