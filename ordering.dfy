/**
 * `ORDER BY key` as a stable insertion sort on an integer key.  A descending
 * order is an ascending one on the negated key.  Rows with equal keys keep
 * their table order (SQL leaves that order unspecified).
 */
module Ordering {

  ghost predicate SortedBy<T>(s: seq<T>, key: T -> int)
  {
    forall i, j :: 0 <= i < j < |s| ==> key(s[i]) <= key(s[j])
  }

  /** Puts x in front of the first row whose key is not smaller than x's. */
  function Insert<T>(x: T, s: seq<T>, key: T -> int): (r: seq<T>)
    ensures multiset(r) == multiset(s) + multiset{x}
    ensures forall i :: 0 <= i < |r| ==> r[i] == x || r[i] in s
  {
    if s == [] || key(x) <= key(s[0]) then [x] + s
    else
      var rest := Insert(x, s[1..], key);
      assert s == [s[0]] + s[1..];
      assert forall i :: 0 <= i < |rest| ==> rest[i] == x || rest[i] in s[1..];
      [s[0]] + rest
  }

  /** Inserting into rows in key order keeps them in key order. */
  lemma {:induction false} InsertSorted<T>(x: T, s: seq<T>, key: T -> int)
    requires SortedBy(s, key)
    ensures SortedBy(Insert(x, s, key), key)
  {
    if s != [] && key(x) > key(s[0]) {
      assert SortedBy(s[1..], key);
      InsertSorted(x, s[1..], key);
      var rest := Insert(x, s[1..], key);
      forall i | 0 <= i < |rest| ensures key(s[0]) <= key(rest[i]) {
        if rest[i] != x {
          var j :| 0 <= j < |s[1..]| && s[1..][j] == rest[i];
          assert s[j + 1] == rest[i];
        }
      }
    }
  }

  function SortBy<T>(s: seq<T>, key: T -> int): (r: seq<T>)
    ensures multiset(r) == multiset(s)
    ensures SortedBy(r, key)
  {
    if s == [] then []
    else
      assert s == [s[0]] + s[1..];
      InsertSorted(s[0], SortBy(s[1..], key), key);
      Insert(s[0], SortBy(s[1..], key), key)
  }

  lemma InMultiset<T>(s: seq<T>, t: seq<T>, x: T)
    requires multiset(s) == multiset(t)
    ensures x in s <==> x in t
  {
    assert x in s <==> x in multiset(s);
    assert x in t <==> x in multiset(t);
  }

  /** Sorting keeps exactly the rows it is given. */
  lemma SortByMembers<T>(s: seq<T>, key: T -> int)
    ensures |SortBy(s, key)| == |s|
    ensures forall x :: x in SortBy(s, key) <==> x in s
  {
    var r := SortBy(s, key);
    assert |multiset(r)| == |multiset(s)|;
    forall x ensures x in r <==> x in s { InMultiset(r, s, x); }
  }

  /** The first of the rows in key order has the smallest key. */
  lemma FirstIsLeast<T>(s: seq<T>, key: T -> int, x: T)
    requires SortedBy(s, key) && x in s
    ensures key(s[0]) <= key(x)
  {
    var k :| 0 <= k < |s| && s[k] == x;
    if k > 0 {
      assert key(s[0]) <= key(s[k]);
    }
  }

  /** No two rows share an id. */
  ghost predicate DistinctBy<T, K>(s: seq<T>, id: T -> K)
  {
    forall i, j :: 0 <= i < j < |s| ==> id(s[i]) != id(s[j])
  }

  /** Below its first row, a sequence with distinct ids still has them, and none is the first row's. */
  lemma DistinctTail<T, K>(s: seq<T>, id: T -> K)
    requires s != [] && DistinctBy(s, id)
    ensures DistinctBy(s[1..], id)
    ensures forall y :: y in s[1..] ==> id(y) != id(s[0])
  {
    forall y | y in s[1..] ensures id(y) != id(s[0]) {
      var j :| 0 <= j < |s[1..]| && s[1..][j] == y;
      assert s[j + 1] == y;
    }
  }

  /** Inserting a row whose id is new keeps the ids distinct. */
  lemma {:induction false} InsertDistinct<T, K>(x: T, s: seq<T>, key: T -> int, id: T -> K)
    requires DistinctBy(s, id)
    requires forall y :: y in s ==> id(y) != id(x)
    ensures DistinctBy(Insert(x, s, key), id)
  {
    if s != [] && key(x) > key(s[0]) {
      DistinctTail(s, id);
      InsertDistinct(x, s[1..], key, id);
      var rest := Insert(x, s[1..], key);
      assert forall i :: 0 <= i < |rest| ==> rest[i] == x || rest[i] in s[1..];
      assert Insert(x, s, key) == [s[0]] + rest;
    }
  }

  /** Sorting keeps the ids distinct: no row is duplicated. */
  lemma {:induction false} SortByDistinct<T, K>(s: seq<T>, key: T -> int, id: T -> K)
    requires DistinctBy(s, id)
    ensures DistinctBy(SortBy(s, key), id)
  {
    if s != [] {
      DistinctTail(s, id);
      SortByDistinct(s[1..], key, id);
      var sorted := SortBy(s[1..], key);
      forall y | y in sorted ensures id(y) != id(s[0]) {
        InMultiset(sorted, s[1..], y);
      }
      InsertDistinct(s[0], sorted, key, id);
      assert SortBy(s, key) == Insert(s[0], sorted, key);
    }
  }

  /** Rows already in key order come back unchanged. */
  lemma {:induction false} SortBySortedIsIdentity<T>(s: seq<T>, key: T -> int)
    requires SortedBy(s, key)
    ensures SortBy(s, key) == s
  {
    if s != [] {
      assert SortedBy(s[1..], key);
      SortBySortedIsIdentity(s[1..], key);
      assert s == [s[0]] + s[1..];
    }
  }
}
