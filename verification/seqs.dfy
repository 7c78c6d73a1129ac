/** Sequence operations behind the store's collection updates: Array.prototype.filter,
    Array.prototype.find (as the index it stops at), and removal of the entries with a given key. */
module Seqs {

  datatype Option<T> = None | Some(value: T)

  /** `a` is `b` with some elements left out and the rest in their original order. */
  ghost predicate SubsequenceOf<T>(a: seq<T>, b: seq<T>)
    decreases |b|
  {
    if a == [] then true
    else if b == [] then false
    else (a[0] == b[0] && SubsequenceOf(a[1..], b[1..])) || SubsequenceOf(a, b[1..])
  }

  /** `xs.filter(p)`: the elements that satisfy `p`, in their original order. */
  function Filter<T>(xs: seq<T>, p: T -> bool): (r: seq<T>)
    ensures SubsequenceOf(r, xs)
    ensures forall i :: 0 <= i < |r| ==> p(r[i])
    ensures forall x :: x in r ==> x in xs
    ensures (forall i :: 0 <= i < |xs| ==> p(xs[i])) ==> r == xs
  {
    if xs == [] then []
    else
      var rest := Filter(xs[1..], p);
      assert xs == [xs[0]] + xs[1..];
      if p(xs[0]) then
        assert ([xs[0]] + rest)[1..] == rest;
        [xs[0]] + rest
      else rest
  }

  /** `filter` keeps every element that satisfies `p`, as often as it occurs, and no other. */
  lemma {:induction false} FilterCount<T>(xs: seq<T>, p: T -> bool)
    ensures forall x :: x in xs ==> multiset(Filter(xs, p))[x] == if p(x) then multiset(xs)[x] else 0
  {
    if xs != [] {
      var rest := Filter(xs[1..], p);
      FilterCount(xs[1..], p);
      assert xs == [xs[0]] + xs[1..];
      assert multiset(xs) == multiset{xs[0]} + multiset(xs[1..]);
      if p(xs[0]) {
        assert Filter(xs, p) == [xs[0]] + rest;
        assert multiset([xs[0]] + rest) == multiset{xs[0]} + multiset(rest);
      } else {
        assert Filter(xs, p) == rest;
      }
      forall x | x in xs ensures multiset(Filter(xs, p))[x] == if p(x) then multiset(xs)[x] else 0 {
        if x !in xs[1..] {
          assert x == xs[0];
          assert multiset(xs[1..])[x] == 0;
          assert x !in rest;
        }
      }
    }
  }

  /** Filtering twice with the same predicate is filtering once. */
  lemma FilterIdempotent<T>(xs: seq<T>, p: T -> bool)
    ensures Filter(Filter(xs, p), p) == Filter(xs, p)
  {
    var r := Filter(xs, p);
    assert forall i :: 0 <= i < |r| ==> p(r[i]);
  }

  /** Filtering out exactly one position shortens the sequence by exactly one. */
  lemma {:induction false} FilterDropsOne<T>(xs: seq<T>, p: T -> bool, i: nat)
    requires i < |xs| && !p(xs[i])
    requires forall j :: 0 <= j < |xs| && j != i ==> p(xs[j])
    ensures |Filter(xs, p)| == |xs| - 1
  {
    if i == 0 {
      assert Filter(xs, p) == Filter(xs[1..], p);
      assert forall j :: 0 <= j < |xs[1..]| ==> p(xs[1..][j]) by {
        forall j | 0 <= j < |xs[1..]| ensures p(xs[1..][j]) { assert xs[1..][j] == xs[j + 1]; }
      }
    } else {
      assert Filter(xs, p) == [xs[0]] + Filter(xs[1..], p);
      forall j | 0 <= j < |xs[1..]| && j != i - 1 ensures p(xs[1..][j]) { assert xs[1..][j] == xs[j + 1]; }
      FilterDropsOne(xs[1..], p, i - 1);
    }
  }

  /** A subsequence of a sequence is no longer than it and holds only its elements. */
  lemma {:induction false} SubsequenceElements<T>(a: seq<T>, b: seq<T>)
    requires SubsequenceOf(a, b)
    ensures |a| <= |b|
    ensures forall x :: x in a ==> x in b
    decreases |b|
  {
    if a != [] {
      if a[0] == b[0] && SubsequenceOf(a[1..], b[1..]) {
        SubsequenceElements(a[1..], b[1..]);
        assert a == [a[0]] + a[1..];
        assert b == [b[0]] + b[1..];
      } else {
        SubsequenceElements(a, b[1..]);
        assert b == [b[0]] + b[1..];
      }
    }
  }

  /** The index `xs.find(x => key(x) === k)` stops at: the first entry whose key is `k`, if any. */
  function FirstIndex<T>(xs: seq<T>, key: T -> string, k: string): (r: Option<nat>)
    ensures r.Some? ==> r.value < |xs| && key(xs[r.value]) == k
    ensures r.Some? ==> forall j :: 0 <= j < r.value ==> key(xs[j]) != k
    ensures r.None? ==> forall j :: 0 <= j < |xs| ==> key(xs[j]) != k
  {
    if xs == [] then None
    else if key(xs[0]) == k then Some(0)
    else match FirstIndex(xs[1..], key, k)
      case None => None
      case Some(i) => Some(i + 1)
  }

  /** Some entry of `xs` has key `k`. */
  predicate HasKey<T>(xs: seq<T>, key: T -> string, k: string) {
    exists i :: 0 <= i < |xs| && key(xs[i]) == k
  }

  /** No two entries of `xs` share a key. */
  ghost predicate UniqueKeys<T>(xs: seq<T>, key: T -> string) {
    forall i, j :: 0 <= i < j < |xs| ==> key(xs[i]) != key(xs[j])
  }

  /** No string occurs twice in `s`. */
  ghost predicate Distinct(s: seq<string>) {
    forall i, j :: 0 <= i < j < |s| ==> s[i] != s[j]
  }

  /** A subsequence of a sequence with unique keys has unique keys. */
  lemma {:induction false} SubsequenceUniqueKeys<T>(a: seq<T>, b: seq<T>, key: T -> string)
    requires SubsequenceOf(a, b) && UniqueKeys(b, key)
    ensures UniqueKeys(a, key)
    decreases |b|
  {
    if a != [] {
      assert b == [b[0]] + b[1..];
      assert UniqueKeys(b[1..], key);
      if a[0] == b[0] && SubsequenceOf(a[1..], b[1..]) {
        SubsequenceUniqueKeys(a[1..], b[1..], key);
        SubsequenceElements(a[1..], b[1..]);
        forall j | 0 < j < |a| ensures key(a[0]) != key(a[j]) {
          assert a[j] == a[1..][j - 1];
          assert a[j] in b[1..];
          var m :| 0 <= m < |b[1..]| && b[1..][m] == a[j];
          assert b[m + 1] == a[j];
        }
      } else {
        SubsequenceUniqueKeys(a, b[1..], key);
      }
    }
  }

  /** `xs.filter(x => key(x) !== k)`: the delete-by-id of every collection of the store. */
  function RemoveKey<T>(xs: seq<T>, key: T -> string, k: string): (r: seq<T>)
    ensures SubsequenceOf(r, xs)
    ensures !HasKey(r, key, k)
    ensures forall i :: 0 <= i < |xs| && key(xs[i]) != k ==> xs[i] in r
    ensures !HasKey(xs, key, k) ==> r == xs
  {
    var r := Filter(xs, x => key(x) != k);
    FilterCount(xs, x => key(x) != k);
    assert forall i :: 0 <= i < |xs| && key(xs[i]) != k ==> multiset(r)[xs[i]] > 0;
    r
  }

  /** Deleting a key that occurs (keys being unique) shortens the collection by exactly one
      and keeps the keys unique. */
  lemma RemovePresentKey<T>(xs: seq<T>, key: T -> string, k: string)
    requires UniqueKeys(xs, key) && HasKey(xs, key, k)
    ensures |RemoveKey(xs, key, k)| == |xs| - 1
    ensures UniqueKeys(RemoveKey(xs, key, k), key)
  {
    var i :| 0 <= i < |xs| && key(xs[i]) == k;
    FilterDropsOne(xs, x => key(x) != k, i);
    SubsequenceUniqueKeys(RemoveKey(xs, key, k), xs, key);
  }
}
