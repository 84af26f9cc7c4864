/**
 * Python's sorted() and list.sort(key=...): a stable sort by a numeric key. Only the outcome is
 * used by the planner (ordered by the key, same elements), so it is given as a function.
 */
module Sorting {
  import opened PriorityQueue

  /** Ordered by the key, non-decreasing. */
  predicate SortedBy<T>(s: seq<T>, key: T -> real)
  {
    forall i, j :: 0 <= i < j < |s| ==> key(s[i]) <= key(s[j])
  }

  /** Inserts x after every element whose key is not larger (so equal keys keep their order). */
  function InsertBy<T(==)>(s: seq<T>, x: T, key: T -> real): (r: seq<T>)
    requires SortedBy(s, key)
    ensures SortedBy(r, key)
    ensures multiset(r) == multiset(s) + multiset{x}
    ensures |r| == |s| + 1
  {
    if s == [] then [x]
    else if key(x) < key(s[0]) then
      [x] + s
    else
      var rest := InsertBy(s[1..], x, key);
      assert s == [s[0]] + s[1..];
      assert multiset([s[0]] + rest) == multiset{s[0]} + multiset(rest);
      HeadBelowInsert(s, x, key, rest);
      SortedCons(s[0], rest, key);
      [s[0]] + rest
  }

  /** The head of a sorted sequence is not above anything inserted behind it. */
  lemma HeadBelowInsert<T>(s: seq<T>, x: T, key: T -> real, rest: seq<T>)
    requires SortedBy(s, key) && s != [] && key(s[0]) <= key(x)
    requires multiset(rest) == multiset(s[1..]) + multiset{x}
    ensures forall k :: 0 <= k < |rest| ==> key(s[0]) <= key(rest[k])
  {
    forall k | 0 <= k < |rest|
      ensures key(s[0]) <= key(rest[k])
    {
      assert rest[k] in multiset(rest);
      assert rest[k] in multiset(s[1..]) + multiset{x};
      if rest[k] != x {
        assert rest[k] in s[1..];
      }
    }
  }

  /** A sorted sequence behind a head not above any of it is sorted. */
  lemma SortedCons<T>(h: T, t: seq<T>, key: T -> real)
    requires SortedBy(t, key)
    requires forall k :: 0 <= k < |t| ==> key(h) <= key(t[k])
    ensures SortedBy([h] + t, key)
  {
    var r := [h] + t;
    forall i, j | 0 <= i < j < |r|
      ensures key(r[i]) <= key(r[j])
    {
      assert r[j] == t[j - 1];
      if i > 0 {
        assert r[i] == t[i - 1];
      }
    }
  }

  /** Insertion sort by the key. */
  function SortBy<T(==)>(s: seq<T>, key: T -> real): (r: seq<T>)
    ensures SortedBy(r, key)
    ensures multiset(r) == multiset(s)
    ensures |r| == |s|
  {
    if s == [] then []
    else
      assert s == s[..|s| - 1] + [s[|s| - 1]];
      InsertBy(SortBy(s[..|s| - 1], key), s[|s| - 1], key)
  }

  /** Sorting changes no membership. */
  lemma {:induction false} SortByMembers<T>(s: seq<T>, key: T -> real, x: T)
    ensures x in SortBy(s, key) <==> x in s
  {
    assert x in multiset(SortBy(s, key)) <==> x in multiset(s);
  }

  /** Inserting a new element into a repeat-free sequence keeps it repeat-free. */
  lemma {:induction false} InsertByDistinct<T>(s: seq<T>, x: T, key: T -> real)
    requires SortedBy(s, key) && Distinct(s) && x !in s
    ensures Distinct(InsertBy(s, x, key))
  {
    if s != [] && key(s[0]) <= key(x) {
      InsertByDistinct(s[1..], x, key);
      var rest := InsertBy(s[1..], x, key);
      assert s[0] !in rest by {
        assert s[0] !in multiset(s[1..]) + multiset{x};
      }
    }
  }

  /** Sorting a repeat-free sequence gives a repeat-free sequence. */
  lemma {:induction false} SortByDistinct<T>(s: seq<T>, key: T -> real)
    requires Distinct(s)
    ensures Distinct(SortBy(s, key))
  {
    if s != [] {
      var init := s[..|s| - 1];
      assert Distinct(init);
      SortByDistinct(init, key);
      assert s[|s| - 1] !in SortBy(init, key) by {
        assert s[|s| - 1] !in multiset(init);
      }
      InsertByDistinct(SortBy(init, key), s[|s| - 1], key);
    }
  }
}
