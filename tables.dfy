/**
 * Relational tables as sequences of rows in insertion order, and the two
 * row-level operations the route handlers issue against them:
 * `SELECT ... WHERE key = ?` (Filter with keep == true, Lookup) and
 * `DELETE ... WHERE key = ?` (Filter with keep == false).
 */
module Tables {
  import opened Wrappers

  /** Every pair of rows, taken in table order, is related by R. */
  ghost predicate Pairwise<T>(s: seq<T>, R: (T, T) -> bool)
  {
    forall i, j :: 0 <= i < j < |s| ==> R(s[i], s[j])
  }

  /** The rows whose key equals k (keep) or differs from k (!keep), in table order. */
  function Filter<T, K(==)>(s: seq<T>, key: T -> K, k: K, keep: bool): (r: seq<T>)
    ensures |r| <= |s|
    ensures forall i :: 0 <= i < |r| ==> r[i] in s && (key(r[i]) == k) == keep
    ensures forall i :: 0 <= i < |s| && (key(s[i]) == k) == keep ==> s[i] in r
  {
    if s == [] then []
    else if (key(s[0]) == k) == keep then [s[0]] + Filter(s[1..], key, k, keep)
    else Filter(s[1..], key, k, keep)
  }

  /** The first row whose key equals k, if any. */
  function Lookup<T, K(==)>(s: seq<T>, key: T -> K, k: K): (r: Option<T>)
    ensures r.None? <==> forall i :: 0 <= i < |s| ==> key(s[i]) != k
    ensures r.Some? ==> r.value in s && key(r.value) == k
  {
    if s == [] then None
    else if key(s[0]) == k then Some(s[0])
    else Lookup(s[1..], key, k)
  }

  /** Filtering distributes over appending rows. */
  lemma {:induction false} FilterAppend<T, K>(s: seq<T>, t: seq<T>, key: T -> K, k: K, keep: bool)
    ensures Filter(s + t, key, k, keep) == Filter(s, key, k, keep) + Filter(t, key, k, keep)
  {
    if s == [] {
      assert s + t == t;
    } else {
      assert (s + t)[0] == s[0] && (s + t)[1..] == s[1..] + t;
      FilterAppend(s[1..], t, key, k, keep);
      if (key(s[0]) == k) == keep {
        assert Filter(s, key, k, keep) == [s[0]] + Filter(s[1..], key, k, keep);
      }
    }
  }

  /** When no row matches, keeping the matches yields nothing and dropping them changes nothing. */
  lemma {:induction false} FilterNoMatch<T, K>(s: seq<T>, key: T -> K, k: K)
    requires forall i :: 0 <= i < |s| ==> key(s[i]) != k
    ensures Filter(s, key, k, true) == []
    ensures Filter(s, key, k, false) == s
  {
    if s != [] {
      FilterNoMatch(s[1..], key, k);
    }
  }

  /** When every row matches, keeping the matches keeps the whole table. */
  lemma {:induction false} FilterAllMatch<T, K>(s: seq<T>, key: T -> K, k: K)
    requires forall i :: 0 <= i < |s| ==> key(s[i]) == k
    ensures Filter(s, key, k, true) == s
  {
    if s != [] {
      FilterAllMatch(s[1..], key, k);
      assert s == [s[0]] + s[1..];
    }
  }

  /** Filtering keeps a subsequence, so a relation between rows in table order survives it. */
  lemma {:induction false} FilterPairwise<T, K>(s: seq<T>, key: T -> K, k: K, keep: bool, R: (T, T) -> bool)
    requires Pairwise(s, R)
    ensures Pairwise(Filter(s, key, k, keep), R)
  {
    if s != [] {
      FilterPairwise(s[1..], key, k, keep, R);
      var rest := Filter(s[1..], key, k, keep);
      if (key(s[0]) == k) == keep {
        var r := [s[0]] + rest;
        forall i, j | 0 <= i < j < |r| ensures R(r[i], r[j]) {
          if i == 0 {
            assert r[j] in s[1..];
            var m :| 0 <= m < |s[1..]| && s[1..][m] == r[j];
            assert s[1 + m] == r[j];
          } else {
            assert r[i] == rest[i - 1] && r[j] == rest[j - 1];
          }
        }
      }
    }
  }

  /** Appending a row related to every earlier row keeps Pairwise. */
  lemma PairwiseAppend<T>(s: seq<T>, x: T, R: (T, T) -> bool)
    requires Pairwise(s, R)
    requires forall i :: 0 <= i < |s| ==> R(s[i], x)
    ensures Pairwise(s + [x], R)
  {
    var r := s + [x];
    forall i, j | 0 <= i < j < |r| ensures R(r[i], r[j]) {
      if j == |s| {
        assert r[i] == s[i] && r[j] == x;
      } else {
        assert r[i] == s[i] && r[j] == s[j];
      }
    }
  }

  /** With pairwise-distinct keys, the row found for a key is the only row with that key. */
  lemma {:induction false} LookupDistinct<T, K>(s: seq<T>, key: T -> K, x: T)
    requires forall i, j :: 0 <= i < j < |s| ==> key(s[i]) != key(s[j])
    requires x in s
    ensures Lookup(s, key, key(x)) == Some(x)
  {
    if s[0] != x {
      assert x in s[1..];
      var m :| 0 <= m < |s| - 1 && s[1..][m] == x;
      assert key(s[0]) != key(s[1 + m]);
      LookupDistinct(s[1..], key, x);
    }
  }

  /** Deleting the rows with key k leaves the rows with any other key as they were. */
  lemma {:induction false} FilterOtherKey<T, K>(s: seq<T>, key: T -> K, k: K, k': K)
    requires k != k'
    ensures Filter(Filter(s, key, k, false), key, k', true) == Filter(s, key, k', true)
  {
    if s != [] {
      FilterOtherKey(s[1..], key, k, k');
    }
  }

  /** A row appended after the table held no row with its key is the one found. */
  lemma {:induction false} LookupAppendAbsent<T, K>(s: seq<T>, key: T -> K, x: T)
    requires forall i :: 0 <= i < |s| ==> key(s[i]) != key(x)
    ensures Lookup(s + [x], key, key(x)) == Some(x)
  {
    if s != [] {
      assert (s + [x])[1..] == s[1..] + [x];
      LookupAppendAbsent(s[1..], key, x);
    }
  }

  /** A row of the table is found by its key (possibly as an earlier row with the same key). */
  lemma LookupIn<T, K>(s: seq<T>, key: T -> K, x: T)
    requires x in s
    ensures Lookup(s, key, key(x)).Some?
  {
    var i :| 0 <= i < |s| && s[i] == x;
    assert key(s[i]) == key(x);
  }

  /** Appending a row does not change what an existing key finds. */
  lemma {:induction false} LookupAppend<T, K>(s: seq<T>, x: T, key: T -> K, k: K)
    requires Lookup(s, key, k).Some?
    ensures Lookup(s + [x], key, k) == Lookup(s, key, k)
  {
    assert (s + [x])[0] == s[0];
    if key(s[0]) != k {
      assert (s + [x])[1..] == s[1..] + [x];
      LookupAppend(s[1..], x, key, k);
    }
  }
}
