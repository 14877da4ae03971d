/** Sums of real-valued functions over sequences, and sequences without repeats. */
module Seqs {

  /** No element occurs twice in s. */
  predicate Distinct<T(==)>(s: seq<T>)
  {
    forall i, j :: 0 <= i < j < |s| ==> s[i] != s[j]
  }

  /** No two pairs of s share a first component, as the keys of a Python dictionary. */
  predicate DistinctKeys<K(==), V>(s: seq<(K, V)>)
  {
    forall i, j :: 0 <= i < j < |s| ==> s[i].0 != s[j].0
  }

  /** f(s[0]) + f(s[1]) + ... + f(s[|s| - 1]). */
  function Sum<T>(s: seq<T>, f: T -> real): real
  {
    if s == [] then 0.0 else f(s[0]) + Sum(s[1..], f)
  }

  lemma {:induction false} SumSnoc<T>(s: seq<T>, x: T, f: T -> real)
    ensures Sum(s + [x], f) == Sum(s, f) + f(x)
  {
    if s != [] {
      assert (s + [x])[1..] == s[1..] + [x];
      SumSnoc(s[1..], x, f);
    }
  }

  lemma {:induction false} SumAdd<T>(s: seq<T>, f: T -> real, g: T -> real, h: T -> real)
    requires forall x :: h(x) == f(x) + g(x)
    ensures Sum(s, h) == Sum(s, f) + Sum(s, g)
  {
    if s != [] {
      SumAdd(s[1..], f, g, h);
    }
  }

  lemma {:induction false} SumZero<T>(s: seq<T>, f: T -> real)
    requires forall i :: 0 <= i < |s| ==> f(s[i]) == 0.0
    ensures Sum(s, f) == 0.0
  {
    if s != [] {
      SumZero(s[1..], f);
    }
  }

  /** When f vanishes everywhere except at k, and k occurs exactly once in s, the sum is f(k). */
  lemma {:induction false} SumPoint<T>(s: seq<T>, k: T, f: T -> real)
    requires Distinct(s) && k in s
    requires forall x :: x != k ==> f(x) == 0.0
    ensures Sum(s, f) == f(k)
  {
    if s[0] == k {
      forall i | 0 <= i < |s[1..]|
        ensures f(s[1..][i]) == 0.0
      {
        assert s[1..][i] == s[i + 1] != s[0];
      }
      SumZero(s[1..], f);
    } else {
      SumPoint(s[1..], k, f);
    }
  }
}
