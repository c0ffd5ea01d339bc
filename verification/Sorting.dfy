/**
Stand-in for the standard library's slice sort: any permutation in descending key order.
Callers rely only on this contract; equal keys may come out in any order.
*/
module Sorting {

  ghost predicate Distinct<T>(xs: seq<T>) {
    forall i, j :: 0 <= i < j < |xs| ==> xs[i] != xs[j]
  }

  lemma {:induction false} AppendDistinct<T>(xs: seq<T>, x: T)
    requires Distinct(xs) && x !in xs
    ensures Distinct(xs + [x])
  {
  }

  ghost predicate Descending<T>(xs: seq<T>, key: T -> int) {
    forall i, j :: 0 <= i < j < |xs| ==> key(xs[i]) >= key(xs[j])
  }

  ghost predicate Permutation<T(!new)>(ys: seq<T>, xs: seq<T>) {
    && multiset(ys) == multiset(xs) && |ys| == |xs|
    && (forall x :: x in ys <==> x in xs)
    && (Distinct(xs) ==> Distinct(ys))
  }

  function Insert<T>(ys: seq<T>, k: nat, x: T): seq<T>
    requires k <= |ys|
  {
    ys[..k] + [x] + ys[k..]
  }

  lemma {:induction false} InsertPermutes<T(!new)>(ys: seq<T>, k: nat, xs: seq<T>, x: T)
    requires k <= |ys| && Permutation(ys, xs)
    ensures Permutation(Insert(ys, k, x), xs + [x])
  {
    var zs := Insert(ys, k, x);
    assert ys == ys[..k] + ys[k..];
    assert multiset(zs) == multiset(ys) + multiset{x};
    forall e ensures e in zs <==> e in xs + [x] {
      assert e in zs <==> e in ys[..k] || e == x || e in ys[k..];
      assert e in ys <==> e in ys[..k] || e in ys[k..];
    }
    if Distinct(xs + [x]) {
      assert forall i :: 0 <= i < |xs| ==> xs[i] == (xs + [x])[i];
      assert x == (xs + [x])[|xs|] && x !in xs;
      InsertDistinct(ys, k, x);
    }
  }

  lemma {:induction false} InsertDistinct<T>(ys: seq<T>, k: nat, x: T)
    requires k <= |ys| && Distinct(ys) && x !in ys
    ensures Distinct(Insert(ys, k, x))
  {
  }

  method FindPlace<T>(ys: seq<T>, key: T -> int, x: T) returns (k: nat)
    requires Descending(ys, key)
    ensures k <= |ys| && Descending(Insert(ys, k, x), key)
  {
    k := 0;
    while k < |ys| && key(ys[k]) >= key(x)
      invariant k <= |ys|
      invariant forall i :: 0 <= i < k ==> key(ys[i]) >= key(x)
    {
      k := k + 1;
    }
    var zs := Insert(ys, k, x);
    forall i, j | 0 <= i < j < |zs| ensures key(zs[i]) >= key(zs[j]) {
      assert zs[i] == if i < k then ys[i] else if i == k then x else ys[i - 1];
      assert zs[j] == if j < k then ys[j] else if j == k then x else ys[j - 1];
    }
  }

  method SortDescending<T(!new)>(xs: seq<T>, key: T -> int) returns (ys: seq<T>)
    ensures Permutation(ys, xs)
    ensures Descending(ys, key)
  {
    ys := [];
    for n := 0 to |xs|
      invariant Permutation(ys, xs[..n])
      invariant Descending(ys, key)
    {
      var k := FindPlace(ys, key, xs[n]);
      assert xs[..n + 1] == xs[..n] + [xs[n]];
      InsertPermutes(ys, k, xs[..n], xs[n]);
      ys := Insert(ys, k, xs[n]);
    }
    assert xs[..|xs|] == xs;
  }

  // ----- strictly sorted lists of any relation -----

  ghost predicate SortedBy<T(!new)>(rel: (T, T) -> bool, s: seq<T>) {
    forall i, j :: 0 <= i < j < |s| ==> rel(s[i], s[j])
  }

  lemma {:induction false} JoinSortedBy<T(!new)>(rel: (T, T) -> bool, x: T, inner: seq<T>, later: seq<T>)
    requires SortedBy(rel, inner) && SortedBy(rel, later)
    requires forall i :: 0 <= i < |inner| ==> rel(x, inner[i])
    requires forall j :: 0 <= j < |later| ==> rel(x, later[j])
    requires forall i, j :: 0 <= i < |inner| && 0 <= j < |later| ==> rel(inner[i], later[j])
    ensures SortedBy(rel, [x] + inner + later)
  {
  }

  lemma {:induction false} InsertSortedBy<T(!new)>(rel: (T, T) -> bool, s: seq<T>, k: nat, x: T)
    requires SortedBy(rel, s) && k <= |s|
    requires forall i :: 0 <= i < k ==> rel(s[i], x)
    requires forall i :: k <= i < |s| ==> rel(x, s[i])
    ensures SortedBy(rel, Insert(s, k, x))
  {
  }
}
