/**
 * Sequence helpers used to model Python sets that are iterated: a set is a
 * sequence without duplicates, listed in the order in which it is iterated.
 */
module Seqs {

  predicate NoDuplicates<T(==)>(s: seq<T>) {
    forall i, j :: 0 <= i < j < |s| ==> s[i] != s[j]
  }

  /** set(s) iterated in first-occurrence order. */
  function Distinct<T(==, !new)>(s: seq<T>): (r: seq<T>)
    ensures forall x :: x in r <==> x in s
    ensures NoDuplicates(r)
    ensures |r| <= |s|
  {
    if s == [] then []
    else
      var d := Distinct(s[..|s| - 1]);
      assert forall x :: x in s <==> x in s[..|s| - 1] || x == s[|s| - 1] by {
        assert s == s[..|s| - 1] + [s[|s| - 1]];
      }
      if s[|s| - 1] in d then d else d + [s[|s| - 1]]
  }

  /** s.difference({x}): every copy of x removed, the rest kept in order. */
  function Without<T(==, !new)>(s: seq<T>, x: T): (r: seq<T>)
    ensures forall y :: y in r <==> y in s && y != x
    ensures |r| <= |s|
    ensures x in s ==> |r| < |s|
  {
    if s == [] then []
    else (if s[0] == x then [] else [s[0]]) + Without(s[1..], x)
  }

  /** A sequence headed by x has no duplicates exactly when its tail has none and lacks x. */
  lemma ConsNoDuplicates<T>(x: T, t: seq<T>)
    ensures NoDuplicates([x] + t) <==> x !in t && NoDuplicates(t)
  {
    var s := [x] + t;
    if NoDuplicates(s) {
      forall i, j | 0 <= i < j < |t| ensures t[i] != t[j] {
        assert t[i] == s[i + 1] && t[j] == s[j + 1];
      }
      forall k | 0 <= k < |t| ensures t[k] != x {
        assert s[0] == x && s[k + 1] == t[k];
      }
    }
  }

  lemma {:induction false} WithoutAbsent<T(!new)>(s: seq<T>, x: T)
    requires x !in s
    ensures Without(s, x) == s
  {
    if s != [] {
      assert x !in s[1..] by { assert forall y :: y in s[1..] ==> y in s; }
      WithoutAbsent(s[1..], x);
      assert s == [s[0]] + s[1..];
    }
  }

  lemma {:induction false} WithoutNoDuplicates<T(!new)>(s: seq<T>, x: T)
    requires NoDuplicates(s)
    ensures NoDuplicates(Without(s, x))
  {
    if s != [] {
      var t := s[1..];
      assert s == [s[0]] + t;
      ConsNoDuplicates(s[0], t);
      WithoutNoDuplicates(t, x);
      if s[0] != x {
        var w := Without(t, x);
        assert Without(s, x) == [s[0]] + w;
        assert s[0] !in w;
        ConsNoDuplicates(s[0], w);
      }
    }
  }

  lemma {:induction false} WithoutMultiset<T(!new)>(s: seq<T>, x: T)
    requires NoDuplicates(s) && x in s
    ensures multiset(Without(s, x)) == multiset(s) - multiset{x}
  {
    var t := s[1..];
    assert s == [s[0]] + t;
    ConsNoDuplicates(s[0], t);
    if s[0] == x {
      WithoutAbsent(t, x);
      assert Without(s, x) == t;
      assert multiset(s) == multiset{x} + multiset(t);
    } else {
      assert x in t;
      WithoutMultiset(t, x);
      assert Without(s, x) == [s[0]] + Without(t, x);
      assert multiset(s) == multiset{s[0]} + multiset(t);
    }
  }

  lemma WithoutDistinct<T(!new)>(s: seq<T>, x: T)
    requires NoDuplicates(s)
    ensures NoDuplicates(Without(s, x))
    ensures x in s ==> multiset(Without(s, x)) == multiset(s) - multiset{x}
    ensures x !in s ==> Without(s, x) == s
  {
    WithoutNoDuplicates(s, x);
    if x in s {
      WithoutMultiset(s, x);
    } else {
      WithoutAbsent(s, x);
    }
  }

  lemma ConsSlices<T>(x: T, r: seq<T>, k: nat)
    requires 0 < k <= |r| + 1
    ensures ([x] + r)[..k] == [x] + r[..k - 1]
    ensures ([x] + r)[k..] == r[k - 1..]
    ensures k <= |r| ==> ([x] + r)[k] == r[k - 1]
  {
  }

  /** Appending an element: set(s + [x]) adds x at the end unless it is already there. */
  lemma DistinctSnoc<T(!new)>(s: seq<T>, x: T)
    ensures Distinct(s + [x]) == if x in Distinct(s) then Distinct(s) else Distinct(s) + [x]
  {
    assert (s + [x])[..|s + [x]| - 1] == s;
  }

  /** A sequence without duplicates is its own set in first-occurrence order. */
  lemma {:induction false} DistinctOfDistinct<T(!new)>(s: seq<T>)
    requires NoDuplicates(s)
    ensures Distinct(s) == s
  {
    if s != [] {
      var init := s[..|s| - 1];
      DistinctOfDistinct(init);
      assert s == init + [s[|s| - 1]];
    }
  }

  /** Putting back the element taken out of a pool restores the pool's elements. */
  lemma ConsPermutation<T>(pool: seq<T>, x: T, rest: seq<T>, out: seq<T>)
    requires x in pool && multiset(rest) == multiset(pool) - multiset{x} && multiset(out) == multiset(rest)
    ensures multiset([x] + out) == multiset(pool)
  {
    assert x in multiset(pool);
  }
}
