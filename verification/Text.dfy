/** Byte-wise string order, sorting by a string key, and unambiguous concatenation. */
module Text {
  import Sorting

  /** Go's `<` on strings. */
  predicate Below(a: string, b: string) {
    b != [] && (a == [] || a[0] < b[0] || (a[0] == b[0] && Below(a[1..], b[1..])))
  }

  lemma {:induction false} BelowIsTotal(a: string, b: string)
    ensures a == b || Below(a, b) || Below(b, a)
    ensures !(Below(a, b) && Below(b, a))
    ensures a == b ==> !Below(a, b)
  {
    if a != [] && b != [] && a[0] == b[0] {
      BelowIsTotal(a[1..], b[1..]);
      assert a == [a[0]] + a[1..] && b == [b[0]] + b[1..];
    }
  }

  /** The order of the strings is that of the first characters in which they differ. */
  lemma {:induction false} FirstDifferenceDecides(prefix: string, c: char, d: char, x: string, y: string)
    requires c < d
    ensures Below(prefix + [c] + x, prefix + [d] + y)
  {
    var a, b := prefix + [c] + x, prefix + [d] + y;
    if prefix != [] {
      FirstDifferenceDecides(prefix[1..], c, d, x, y);
      assert a[1..] == prefix[1..] + [c] + x && b[1..] == prefix[1..] + [d] + y;
    }
  }

  /** A string comes before its proper extensions. */
  lemma {:induction false} PrefixComesFirst(prefix: string, x: string)
    requires x != []
    ensures Below(prefix, prefix + x)
  {
    if prefix != [] {
      PrefixComesFirst(prefix[1..], x);
      assert (prefix + x)[1..] == prefix[1..] + x;
    }
  }

  lemma {:induction false} BelowIsTransitive(a: string, b: string, c: string)
    requires Below(a, b) && Below(b, c)
    ensures Below(a, c)
  {
    if a != [] && a[0] == b[0] == c[0] {
      BelowIsTransitive(a[1..], b[1..], c[1..]);
    }
  }

  /** Strictly increasing keys, so in particular no key occurs twice. */
  ghost predicate Ascending<T>(s: seq<T>, key: T -> string) {
    forall i, j :: 0 <= i < j < |s| ==> Below(key(s[i]), key(s[j]))
  }

  /** A strictly ascending sequence is determined by the set of its elements. */
  lemma {:induction false} AscendingIsUnique<T>(s: seq<T>, t: seq<T>, key: T -> string)
    requires Ascending(s, key) && Ascending(t, key)
    requires forall x :: x in s <==> x in t
    ensures s == t
  {
    assert s != [] ==> s[0] in t;
    assert t != [] ==> t[0] in s;
    if s != [] && t != [] {
      AscendingHeadsAgree(s, t, key);
      forall x ensures x in s[1..] <==> x in t[1..] {
        TailMembers(s, key, x);
        TailMembers(t, key, x);
      }
      AscendingIsUnique(s[1..], t[1..], key);
      assert s == [s[0]] + s[1..] && t == [t[0]] + t[1..];
    }
  }

  lemma TailMembers<T>(s: seq<T>, key: T -> string, x: T)
    requires s != [] && Ascending(s, key)
    ensures x in s[1..] <==> x in s && x != s[0]
  {
    BelowIsTotal(key(s[0]), key(s[0]));
    assert s == [s[0]] + s[1..];
  }

  lemma AscendingHeadsAgree<T>(s: seq<T>, t: seq<T>, key: T -> string)
    requires s != [] && t != [] && Ascending(s, key) && Ascending(t, key)
    requires forall x :: x in s <==> x in t
    ensures s[0] == t[0]
  {
    assert s[0] in t && t[0] in s;
    var i :| 0 <= i < |t| && t[i] == s[0];
    var j :| 0 <= j < |s| && s[j] == t[0];
    BelowIsTotal(key(s[0]), key(t[0]));
  }

  /** The order of the keys. */
  function KeyOrder<T>(key: T -> string): (T, T) -> bool {
    (a, b) => Below(key(a), key(b))
  }

  function SortBy<T>(s: seq<T>, key: T -> string): (r: seq<T>)
    ensures multiset(r) == multiset(s)
  {
    Sorting.Sort(s, KeyOrder(key))
  }

  ghost predicate DistinctKeys<T>(s: seq<T>, key: T -> string) {
    forall i, j :: 0 <= i < j < |s| ==> key(s[i]) != key(s[j])
  }

  lemma KeysOrder<T(!new)>(key: T -> string)
    ensures Sorting.Orders(KeyOrder(key))
  {
    forall a, b, c: T
      ensures Below(key(a), key(b)) ==> !Below(key(b), key(a))
      ensures !Below(key(b), key(a)) && !Below(key(c), key(b)) ==> !Below(key(c), key(a))
    {
      NotBelowIsTransitive(key(a), key(b), key(c));
      BelowIsTotal(key(a), key(b));
    }
  }

  lemma NotBelowIsTransitive(a: string, b: string, c: string)
    ensures !Below(b, a) && !Below(c, b) ==> !Below(c, a)
  {
    BelowIsTotal(a, b);
    BelowIsTotal(b, c);
    BelowIsTotal(a, c);
    if Below(a, b) && Below(b, c) { BelowIsTransitive(a, b, c); }
  }

  /** Permuting keeps keys distinct: an element occurs once, and no two elements share a key. */
  lemma DistinctKeysPermute<T>(s: seq<T>, t: seq<T>, key: T -> string)
    requires DistinctKeys(s, key) && multiset(s) == multiset(t)
    ensures DistinctKeys(t, key)
  {
    forall i, j | 0 <= i < j < |t| ensures key(t[i]) != key(t[j]) {
      if t[i] == t[j] {
        OccursTwice(t, i, j);
        OccursOnce(s, t[i], key);
      } else {
        Sorting.SameMembers(s, t);
        assert t[i] in s && t[j] in s;
      }
    }
  }

  lemma OccursTwice<T>(t: seq<T>, i: nat, j: nat)
    requires i < j < |t| && t[i] == t[j]
    ensures multiset(t)[t[i]] >= 2
  {
    assert t == t[..j] + [t[j]] + t[j + 1..];
    assert t[i] == t[..j][i];
  }

  lemma {:induction false} OccursOnce<T>(s: seq<T>, x: T, key: T -> string)
    requires DistinctKeys(s, key)
    ensures multiset(s)[x] <= 1
  {
    if s != [] {
      OccursOnce(s[1..], x, key);
      assert s == [s[0]] + s[1..];
      assert s[0] !in s[1..];
    }
  }

  /** Sorting elements with distinct keys yields the one strictly ascending arrangement. */
  lemma SortByAscends<T(!new)>(s: seq<T>, key: T -> string)
    requires DistinctKeys(s, key)
    ensures Ascending(SortBy(s, key), key)
  {
    var r := SortBy(s, key);
    KeysOrder(key);
    Sorting.SortIsInOrder(s, KeyOrder(key));
    DistinctKeysPermute(s, r, key);
    forall i, j | 0 <= i < j < |r| ensures Below(key(r[i]), key(r[j])) {
      assert !KeyOrder(key)(r[j], r[i]);
      BelowIsTotal(key(r[i]), key(r[j]));
    }
  }

  /** A separator that does not occur in the first field splits a string in one way only. */
  lemma {:induction false} SplitIsUnique(a: string, b: string, x: string, y: string, c: char)
    requires c !in a && c !in b
    requires a + [c] + x == b + [c] + y
    ensures a == b && x == y
  {
    var l, r := a + [c] + x, b + [c] + y;
    assert l[0] == if a == [] then c else a[0];
    assert r[0] == if b == [] then c else b[0];
    if a != [] {
      assert l[1..] == a[1..] + [c] + x && r[1..] == b[1..] + [c] + y;
      SplitIsUnique(a[1..], b[1..], x, y, c);
      assert a == [a[0]] + a[1..] && b == [b[0]] + b[1..];
    } else {
      assert x == l[1..] && y == r[1..];
    }
  }

  function Digit(d: nat): char
    requires d < 10
  {
    '0' + d as char
  }

  /** `%d` for the non-negative integers. */
  function Decimal(n: nat): (s: string)
    ensures s != []
  {
    if n < 10 then [Digit(n)] else Decimal(n / 10) + [Digit(n % 10)]
  }

  /** `%d`. */
  function Integer(n: int): string {
    if n < 0 then "-" + Decimal(-n) else Decimal(n)
  }

  /** The number a string of digits denotes. */
  function ValueOf(s: string): int {
    if s == [] then 0 else 10 * ValueOf(s[..|s| - 1]) + (s[|s| - 1] as int - '0' as int)
  }

  /** The numeral denotes its number. */
  lemma {:induction false} DecimalDenotes(n: nat)
    ensures ValueOf(Decimal(n)) == n
  {
    if n < 10 {
      assert [Digit(n)][..0] == [] && ValueOf([]) == 0;
    } else {
      DecimalDenotes(n / 10);
      assert Decimal(n)[..|Decimal(n)| - 1] == Decimal(n / 10);
    }
  }

  lemma {:induction false} DecimalIsInjective(m: nat, n: nat)
    requires Decimal(m) == Decimal(n)
    ensures m == n
  {
    var s := Decimal(m);
    assert s[|s| - 1] == Digit(m % 10) == Digit(n % 10);
    assert m % 10 == n % 10;
    assert m < 10 <==> |s| == 1;
    assert n < 10 <==> |s| == 1;
    if m >= 10 {
      assert Decimal(m / 10) == s[..|s| - 1] == Decimal(n / 10);
      DecimalIsInjective(m / 10, n / 10);
    }
  }

  lemma {:induction false} DecimalIsDigits(n: nat)
    ensures forall c :: c in Decimal(n) ==> '0' <= c <= '9'
  {
    if n >= 10 { DecimalIsDigits(n / 10); }
  }
}
