/** Ordering by an optional numeric column, as `DataFrame.sort_values` does it
    with `ascending=False`: larger values first, missing values last. pandas'
    default quicksort is not stable, so nothing below says where equal keys go. */
module Sorting {
  import opened Wrappers

  /** `a` may be placed before `b`: `b` is missing, or both are present and `a >= b`. */
  predicate GoesBefore(a: Option<int>, b: Option<int>) {
    b.None? || (a.Some? && a.value >= b.value)
  }

  predicate SortedDesc<T>(s: seq<T>, key: T -> Option<int>) {
    forall i, j :: 0 <= i < j < |s| ==> GoesBefore(key(s[i]), key(s[j]))
  }

  predicate Distinct<T(==)>(s: seq<T>) {
    forall i, j :: 0 <= i < j < |s| ==> s[i] != s[j]
  }

  /** GoesBefore is a total preorder. */
  lemma GoesBeforeTotalPreorder(a: Option<int>, b: Option<int>, c: Option<int>)
    ensures GoesBefore(a, a)
    ensures GoesBefore(a, b) || GoesBefore(b, a)
    ensures GoesBefore(a, b) && GoesBefore(b, c) ==> GoesBefore(a, c)
  {
  }

  /** Places `x` into a sorted sequence, ahead of the first element it may precede. */
  function Insert<T(==)>(x: T, s: seq<T>, key: T -> Option<int>): (r: seq<T>)
    requires SortedDesc(s, key)
    ensures SortedDesc(r, key)
    ensures multiset(r) == multiset(s) + multiset{x}
    ensures Distinct(s) && x !in s ==> Distinct(r)
  {
    if s == [] || GoesBefore(key(x), key(s[0])) then
      InsertFront(x, s, key);
      [x] + s
    else
      var rest := Insert(x, s[1..], key);
      InsertBehind(x, s, rest, key);
      [s[0]] + rest
  }

  lemma InsertFront<T>(x: T, s: seq<T>, key: T -> Option<int>)
    requires SortedDesc(s, key)
    requires s == [] || GoesBefore(key(x), key(s[0]))
    ensures SortedDesc([x] + s, key)
    ensures Distinct(s) && x !in s ==> Distinct([x] + s)
  {
    var r := [x] + s;
    forall i, j | 0 <= i < j < |r| ensures GoesBefore(key(r[i]), key(r[j])) {
      if i == 0 && j > 1 {
        GoesBeforeTotalPreorder(key(x), key(s[0]), key(s[j - 1]));
      }
    }
    if Distinct(s) && x !in s { DistinctCons(x, s); }
  }

  lemma InsertBehind<T>(x: T, s: seq<T>, rest: seq<T>, key: T -> Option<int>)
    requires SortedDesc(s, key) && s != [] && !GoesBefore(key(x), key(s[0]))
    requires SortedDesc(rest, key) && multiset(rest) == multiset(s[1..]) + multiset{x}
    requires Distinct(s) && x !in s ==> Distinct(rest)
    ensures SortedDesc([s[0]] + rest, key)
    ensures multiset([s[0]] + rest) == multiset(s) + multiset{x}
    ensures Distinct(s) && x !in s ==> Distinct([s[0]] + rest)
  {
    assert s == [s[0]] + s[1..];
    var r := [s[0]] + rest;
    forall y | y in rest ensures GoesBefore(key(s[0]), key(y)) && (y == x || y in s[1..]) {
      assert y in multiset(rest);
      if y == x {
        GoesBeforeTotalPreorder(key(x), key(s[0]), key(x));
      } else {
        assert y in multiset(s[1..]);
      }
    }
    forall i, j | 0 <= i < j < |r| ensures GoesBefore(key(r[i]), key(r[j])) {
      assert r[j] == rest[j - 1];
      if i > 0 { assert r[i] == rest[i - 1]; }
    }
    if Distinct(s) && x !in s {
      assert s[0] !in s[1..];
      DistinctCons(s[0], rest);
    }
  }

  lemma DistinctCons<T>(x: T, s: seq<T>)
    requires Distinct(s) && x !in s
    ensures Distinct([x] + s)
  {
    var r := [x] + s;
    forall i, j | 0 <= i < j < |r| ensures r[i] != r[j] {
      assert r[j] == s[j - 1];
      if i > 0 { assert r[i] == s[i - 1]; }
    }
  }

  /** A sorted permutation of `s`. */
  function SortDesc<T(==)>(s: seq<T>, key: T -> Option<int>): (r: seq<T>)
    ensures SortedDesc(r, key)
    ensures multiset(r) == multiset(s)
    ensures Distinct(s) ==> Distinct(r)
  {
    if s == [] then []
    else
      var rest := SortDesc(s[1..], key);
      SortDescStep(s, rest);
      Insert(s[0], rest, key)
  }

  /** Putting the head of `s` back in front of a permutation of its tail. */
  lemma SortDescStep<T>(s: seq<T>, rest: seq<T>)
    requires s != [] && multiset(rest) == multiset(s[1..])
    requires Distinct(s[1..]) ==> Distinct(rest)
    ensures multiset(rest) + multiset{s[0]} == multiset(s)
    ensures Distinct(s) ==> Distinct(rest) && s[0] !in rest
  {
    assert s == [s[0]] + s[1..];
    if Distinct(s) {
      var tail := s[1..];
      forall i, j | 0 <= i < j < |tail| ensures tail[i] != tail[j] {
        assert tail[i] == s[i + 1] && tail[j] == s[j + 1];
      }
      forall k | 0 <= k < |tail| ensures tail[k] != s[0] {
        assert tail[k] == s[k + 1];
      }
      assert s[0] !in multiset(tail);
    }
  }

  /** A permutation has the same length and the same elements. */
  lemma PermutationMembers<T>(r: seq<T>, s: seq<T>)
    requires multiset(r) == multiset(s)
    ensures |r| == |s|
    ensures forall y :: y in r <==> y in s
  {
    assert |multiset(r)| == |multiset(s)|;
    forall y ensures y in r <==> y in s {
      assert y in r <==> y in multiset(r);
      assert y in s <==> y in multiset(s);
    }
  }

  /** Cutting a sorted sequence after `n` elements: the front is sorted, and every
      element kept may precede every element cut off. */
  lemma SortedPrefix<T>(ranked: seq<T>, n: nat, key: T -> Option<int>)
    requires SortedDesc(ranked, key) && n <= |ranked|
    ensures SortedDesc(ranked[..n], key)
    ensures multiset(ranked[..n]) + multiset(ranked[n..]) == multiset(ranked)
    ensures forall s, u :: s in ranked[..n] && u in multiset(ranked[n..]) ==> GoesBefore(key(s), key(u))
    ensures Distinct(ranked) ==> Distinct(ranked[..n])
  {
    assert ranked == ranked[..n] + ranked[n..];
    forall s, u | s in ranked[..n] && u in multiset(ranked[n..]) ensures GoesBefore(key(s), key(u)) {
      var i :| 0 <= i < n && ranked[..n][i] == s;
      var j :| 0 <= j < |ranked| - n && ranked[n..][j] == u;
      assert ranked[i] == s && ranked[n + j] == u;
    }
  }
}
