/** `Array.prototype.sort` with a comparator of the form
    `(a, b) => key(a) - key(b)`: a stable sort by an integer key, ascending.
    Since ECMAScript 2019 the sort is required to be stable, so its result is
    fully determined; it is written here as an insertion sort. */
module Sorting {

  /** Non-decreasing by `key`. */
  predicate SortedBy<T>(s: seq<T>, key: T -> int) {
    forall i, j :: 0 <= i < j < |s| ==> key(s[i]) <= key(s[j])
  }

  /** Ordered by `key`, and strictly by `tie` among elements of equal key. */
  predicate SortedByThen<T>(s: seq<T>, key: T -> int, tie: T -> int) {
    forall i, j :: 0 <= i < j < |s| ==>
      key(s[i]) < key(s[j]) || (key(s[i]) == key(s[j]) && tie(s[i]) < tie(s[j]))
  }

  /** Places `x` in front of the first element whose key is not below its own. */
  function Insert<T>(x: T, s: seq<T>, key: T -> int): (r: seq<T>)
    ensures multiset(r) == multiset(s) + multiset{x}
  {
    if s == [] || key(x) <= key(s[0]) then [x] + s
    else
      assert s == [s[0]] + s[1..];
      [s[0]] + Insert(x, s[1..], key)
  }

  lemma {:induction false} InsertSorted<T>(x: T, s: seq<T>, key: T -> int)
    requires SortedBy(s, key)
    ensures SortedBy(Insert(x, s, key), key)
  {
    if s != [] && key(x) > key(s[0]) {
      var rest := Insert(x, s[1..], key);
      InsertSorted(x, s[1..], key);
      forall y | y in rest
        ensures key(s[0]) <= key(y)
      {
        if y != x {
          InsertFrom(x, s[1..], key, y);
          var k :| 0 <= k < |s[1..]| && s[1..][k] == y;
          assert s[k + 1] == y;
        }
      }
      ConsSortedBy(s[0], rest, key);
    }
  }

  /** Besides `x`, what `Insert` returns comes from `s`. */
  lemma InsertFrom<T>(x: T, s: seq<T>, key: T -> int, y: T)
    requires y in Insert(x, s, key) && y != x
    ensures y in s
  {
    assert y in multiset(Insert(x, s, key));
  }

  lemma ConsSortedBy<T>(a: T, t: seq<T>, key: T -> int)
    requires SortedBy(t, key)
    requires forall y :: y in t ==> key(a) <= key(y)
    ensures SortedBy([a] + t, key)
  {
    var r := [a] + t;
    forall i, j | 0 <= i < j < |r|
      ensures key(r[i]) <= key(r[j])
    {
      assert r[j] == t[j - 1];
      if i > 0 {
        assert r[i] == t[i - 1];
      }
    }
  }

  /** Stable sort by `key`: the result is a permutation of `s` in key order. */
  function SortBy<T>(s: seq<T>, key: T -> int): (r: seq<T>)
    ensures multiset(r) == multiset(s)
    ensures SortedBy(r, key)
  {
    if s == [] then []
    else
      assert s == [s[0]] + s[1..];
      var rest := SortBy(s[1..], key);
      InsertSorted(s[0], rest, key);
      Insert(s[0], rest, key)
  }

  lemma {:induction false} InsertThen<T>(x: T, s: seq<T>, key: T -> int, tie: T -> int)
    requires SortedByThen(s, key, tie)
    requires forall y :: y in s ==> tie(x) < tie(y)
    ensures SortedByThen(Insert(x, s, key), key, tie)
  {
    if s == [] || key(x) <= key(s[0]) {
      ConsSortedByThen(x, s, key, tie);
    } else {
      var rest := Insert(x, s[1..], key);
      InsertThen(x, s[1..], key, tie);
      forall y | y in rest
        ensures key(s[0]) < key(y) || (key(s[0]) == key(y) && tie(s[0]) < tie(y))
      {
        if y != x {
          InsertFrom(x, s[1..], key, y);
          var k :| 0 <= k < |s[1..]| && s[1..][k] == y;
          assert s[k + 1] == y;
        }
      }
      ConsSortedByThen(s[0], rest, key, tie);
    }
  }

  lemma ConsSortedByThen<T>(a: T, t: seq<T>, key: T -> int, tie: T -> int)
    requires SortedByThen(t, key, tie)
    requires forall y :: y in t ==> key(a) < key(y) || (key(a) == key(y) && tie(a) < tie(y))
    ensures SortedByThen([a] + t, key, tie)
  {
    var r := [a] + t;
    forall i, j | 0 <= i < j < |r|
      ensures key(r[i]) < key(r[j]) || (key(r[i]) == key(r[j]) && tie(r[i]) < tie(r[j]))
    {
      assert r[j] == t[j - 1];
      if i > 0 {
        assert r[i] == t[i - 1];
      }
    }
  }

  /** Stability: when the input is strictly ordered by `tie` (for instance by
      its original position), elements of equal key keep that order. */
  lemma {:induction false} SortByKeepsTieOrder<T>(s: seq<T>, key: T -> int, tie: T -> int)
    requires forall i, j :: 0 <= i < j < |s| ==> tie(s[i]) < tie(s[j])
    ensures SortedByThen(SortBy(s, key), key, tie)
  {
    if s != [] {
      var rest := SortBy(s[1..], key);
      SortByKeepsTieOrder(s[1..], key, tie);
      forall y | y in rest
        ensures tie(s[0]) < tie(y)
      {
        assert y in multiset(s[1..]);
      }
      InsertThen(s[0], rest, key, tie);
    }
  }

  lemma SortByMembers<T>(s: seq<T>, key: T -> int)
    ensures |SortBy(s, key)| == |s|
    ensures forall x :: x in SortBy(s, key) <==> x in s
  {
    var r := SortBy(s, key);
    assert |r| == |multiset(r)| == |multiset(s)| == |s|;
    forall x
      ensures x in r <==> x in s
    {
      assert x in r <==> x in multiset(r);
    }
  }
}
