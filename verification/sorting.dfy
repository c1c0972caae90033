/** Python's `sorted`, over a sort key: insertion sort on sequences. */
module Sorting {

  /** `xs` is ordered by `key`, smallest first. */
  ghost predicate SortedBy<T>(xs: seq<T>, key: T -> int) {
    forall i, j :: 0 <= i < j < |xs| ==> key(xs[i]) <= key(xs[j])
  }

  /** Inserts `x` into an ordered sequence, before the first element with a larger key. */
  function InsertBy<T>(x: T, xs: seq<T>, key: T -> int): (r: seq<T>)
    requires SortedBy(xs, key)
    ensures SortedBy(r, key)
    ensures multiset(r) == multiset(xs) + multiset{x}
    ensures |r| == |xs| + 1
  {
    if xs == [] then [x]
    else if key(x) <= key(xs[0]) then
      SortedCons(x, xs, key);
      [x] + xs
    else
      var rest := InsertBy(x, xs[1..], key);
      assert xs == [xs[0]] + xs[1..];
      HeadBoundsPermutation(xs[0], xs[1..], x, rest, key);
      SortedCons(xs[0], rest, key);
      [xs[0]] + rest
  }

  /** An element no larger than the first of an ordered sequence can go before it. */
  lemma SortedCons<T>(h: T, xs: seq<T>, key: T -> int)
    requires SortedBy(xs, key)
    requires xs == [] || key(h) <= key(xs[0])
    ensures SortedBy([h] + xs, key)
  {
    var r := [h] + xs;
    forall i, j | 0 <= i < j < |r|
      ensures key(r[i]) <= key(r[j])
    {
      if i > 0 {
        assert r[i] == xs[i - 1] && r[j] == xs[j - 1];
      } else {
        assert r[j] == xs[j - 1];
      }
    }
  }

  /** A lower bound on the keys of `xs1` and of `x` bounds any permutation of `xs1 + [x]`. */
  lemma HeadBoundsPermutation<T>(h: T, xs1: seq<T>, x: T, rest: seq<T>, key: T -> int)
    requires multiset(rest) == multiset(xs1) + multiset{x}
    requires forall j :: 0 <= j < |xs1| ==> key(h) <= key(xs1[j])
    requires key(h) <= key(x)
    ensures forall k :: 0 <= k < |rest| ==> key(h) <= key(rest[k])
  {
    forall k | 0 <= k < |rest|
      ensures key(h) <= key(rest[k])
    {
      var y := rest[k];
      assert y in multiset(rest);
      if y != x {
        assert y in multiset(xs1);
        var j :| 0 <= j < |xs1| && xs1[j] == y;
      }
    }
  }

  /** `sorted(xs, key=key)`: an ordered permutation of `xs`. */
  function SortBy<T>(xs: seq<T>, key: T -> int): (r: seq<T>)
    ensures SortedBy(r, key)
    ensures multiset(r) == multiset(xs)
    ensures |r| == |xs|
  {
    if xs == [] then []
    else
      assert xs == [xs[0]] + xs[1..];
      InsertBy(xs[0], SortBy(xs[1..], key), key)
  }

  /** When no two elements share a key, an ordered sequence is strictly ordered. */
  lemma SortedDistinctIsStrict<T>(xs: seq<T>, key: T -> int)
    requires SortedBy(xs, key)
    requires forall i, j :: 0 <= i < j < |xs| ==> key(xs[i]) != key(xs[j])
    ensures forall i, j :: 0 <= i < j < |xs| ==> key(xs[i]) < key(xs[j])
  {
  }

  /** No two elements share a key. */
  ghost predicate DistinctKeys<T>(xs: seq<T>, key: T -> int) {
    forall i, j :: 0 <= i < j < |xs| ==> key(xs[i]) != key(xs[j])
  }

  /** Inserting an element whose key is new keeps the keys distinct. */
  lemma {:induction false} InsertByDistinct<T>(x: T, xs: seq<T>, key: T -> int)
    requires SortedBy(xs, key) && DistinctKeys(xs, key)
    requires forall j :: 0 <= j < |xs| ==> key(xs[j]) != key(x)
    ensures DistinctKeys(InsertBy(x, xs, key), key)
    decreases |xs|
  {
    if xs != [] && key(x) > key(xs[0]) {
      var rest := InsertBy(x, xs[1..], key);
      InsertByDistinct(x, xs[1..], key);
      assert InsertBy(x, xs, key) == [xs[0]] + rest;
      forall k | 0 <= k < |rest|
        ensures key(rest[k]) != key(xs[0])
      {
        InsertByElement(x, xs[1..], key, k);
        if rest[k] != x {
          var j :| 0 <= j < |xs| - 1 && xs[1..][j] == rest[k];
          assert xs[j + 1] == rest[k];
        }
      }
    }
  }

  /** An element of an insertion is the inserted element or one from the input. */
  lemma InsertByElement<T>(x: T, xs: seq<T>, key: T -> int, k: nat)
    requires SortedBy(xs, key) && k < |xs| + 1
    ensures InsertBy(x, xs, key)[k] == x || InsertBy(x, xs, key)[k] in xs
  {
    var r := InsertBy(x, xs, key);
    assert r[k] in multiset(r);
  }

  /** Sorting keeps distinct keys distinct. */
  lemma {:induction false} SortByDistinct<T>(xs: seq<T>, key: T -> int)
    requires DistinctKeys(xs, key)
    ensures DistinctKeys(SortBy(xs, key), key)
    decreases |xs|
  {
    if xs != [] {
      var tail := xs[1..];
      assert DistinctKeys(tail, key);
      SortByDistinct(tail, key);
      var sorted := SortBy(tail, key);
      forall j | 0 <= j < |sorted|
        ensures key(sorted[j]) != key(xs[0])
      {
        assert sorted[j] in multiset(tail);
        var k :| 0 <= k < |tail| && tail[k] == sorted[j];
        assert xs[k + 1] == sorted[j];
      }
      InsertByDistinct(xs[0], sorted, key);
    }
  }

  /** Every element of a sorted sequence comes from the input. */
  lemma SortByMember<T>(xs: seq<T>, key: T -> int, k: nat)
    requires k < |SortBy(xs, key)|
    ensures SortBy(xs, key)[k] in xs
  {
    assert SortBy(xs, key)[k] in multiset(SortBy(xs, key));
  }

  /** Every element of the input is in the sorted sequence. */
  lemma SortByKeeps<T>(xs: seq<T>, key: T -> int, k: nat)
    requires k < |xs|
    ensures xs[k] in SortBy(xs, key)
  {
    assert xs[k] in multiset(xs);
  }
}
