/** Ordering by a key with `ORDER BY ... DESC` semantics: a stable sort by
    non-increasing key, and the `LIMIT`/`OFFSET` slices taken from it. */
module Ordering {

  /** Keys never increase along `xs`. */
  predicate Descending<T>(xs: seq<T>, key: T -> int) {
    forall i, j :: 0 <= i < j < |xs| ==> key(xs[i]) >= key(xs[j])
  }

  /** `x` goes before the first element whose key is not above its own. */
  function Insert<T(==,!new)>(x: T, xs: seq<T>, key: T -> int): (r: seq<T>)
    ensures |r| == |xs| + 1
    ensures multiset(r) == multiset(xs) + multiset{x}
    ensures forall y :: y in r <==> y == x || y in xs
  {
    if xs == [] || key(x) >= key(xs[0]) then [x] + xs
    else
      assert xs == [xs[0]] + xs[1..];
      [xs[0]] + Insert(x, xs[1..], key)
  }

  /** Inserting into a descending sequence keeps it descending. */
  lemma {:induction false} InsertDescending<T(!new)>(x: T, xs: seq<T>, key: T -> int)
    requires Descending(xs, key)
    ensures Descending(Insert(x, xs, key), key)
    decreases |xs|
  {
    if xs != [] && key(x) < key(xs[0]) {
      var rest := Insert(x, xs[1..], key);
      var r := [xs[0]] + rest;
      assert Descending(xs[1..], key);
      InsertDescending(x, xs[1..], key);
      forall i, j | 0 <= i < j < |r| ensures key(r[i]) >= key(r[j]) {
        if i == 0 {
          assert r[j] == rest[j - 1] && r[j] in rest;
          if r[j] != x {
            var k :| 0 <= k < |xs[1..]| && xs[1..][k] == r[j];
            assert xs[k + 1] == r[j];
          }
        } else {
          assert r[i] == rest[i - 1] && r[j] == rest[j - 1];
        }
      }
    }
  }

  /** A stable sort by non-increasing key: equal keys keep their order. */
  function SortDescending<T(==,!new)>(xs: seq<T>, key: T -> int): (r: seq<T>)
    ensures |r| == |xs| && multiset(r) == multiset(xs) && Descending(r, key)
  {
    if xs == [] then []
    else
      assert xs == [xs[0]] + xs[1..];
      InsertDescending(xs[0], SortDescending(xs[1..], key), key);
      Insert(xs[0], SortDescending(xs[1..], key), key)
  }

  /** `LIMIT n`. */
  function Take<T>(xs: seq<T>, n: nat): (r: seq<T>)
    ensures |r| <= n && |r| <= |xs| && r == xs[..|r|]
    ensures |xs| >= n ==> |r| == n
  {
    if |xs| <= n then xs else xs[..n]
  }

  /** A prefix of a descending sequence is descending. */
  lemma TakeDescending<T>(xs: seq<T>, n: nat, key: T -> int)
    requires Descending(xs, key)
    ensures Descending(Take(xs, n), key)
  {
  }

  /** An element a `LIMIT n` cut off ranks no higher than any kept one,
      and the limit was reached. */
  lemma CutOffRanksLower<T>(xs: seq<T>, n: nat, key: T -> int, x: T)
    requires Descending(xs, key) && x in xs && x !in Take(xs, n)
    ensures |Take(xs, n)| == n
    ensures forall y :: y in Take(xs, n) ==> key(y) >= key(x)
  {
    var r := Take(xs, n);
    var j :| 0 <= j < |xs| && xs[j] == x;
    forall y | y in r ensures key(y) >= key(x) {
      var i :| 0 <= i < |r| && r[i] == y;
      assert r[i] == xs[i];
    }
  }

  /** No element occurs twice. */
  predicate Distinct<T(==)>(xs: seq<T>) {
    forall i, j :: 0 <= i < j < |xs| ==> xs[i] != xs[j]
  }

  /** In a sequence without repeats every element occurs at most once. */
  lemma {:induction false} DistinctOccursOnce<T>(xs: seq<T>, x: T)
    requires Distinct(xs)
    ensures multiset(xs)[x] <= 1
    decreases |xs|
  {
    if xs != [] {
      assert xs == [xs[0]] + xs[1..];
      assert Distinct(xs[1..]);
      DistinctOccursOnce(xs[1..], x);
      if x == xs[0] {
        assert x !in xs[1..];
      }
    }
  }

  /** An element found at two positions occurs at least twice. */
  lemma RepeatOccursTwice<T>(xs: seq<T>, i: nat, j: nat)
    requires i < j < |xs| && xs[i] == xs[j]
    ensures multiset(xs)[xs[i]] >= 2
  {
    assert xs == xs[..j] + xs[j..];
    assert xs[i] == xs[..j][i];
    assert xs[j] == xs[j..][0];
  }

  /** Reordering keeps a sequence free of repeats. */
  lemma PermutationKeepsDistinct<T>(xs: seq<T>, ys: seq<T>)
    requires Distinct(xs) && multiset(xs) == multiset(ys)
    ensures Distinct(ys)
  {
    forall i, j | 0 <= i < j < |ys| ensures ys[i] != ys[j] {
      if ys[i] == ys[j] {
        RepeatOccursTwice(ys, i, j);
        DistinctOccursOnce(xs, ys[i]);
      }
    }
  }
}
