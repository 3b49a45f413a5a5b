/**
 * Python's sorted() and list.sort(): a stable sort by a key, modelled as an
 * insertion sort under the order "key(x) <= key(y)" given as a relation.
 */
module Sorting {

  /** The relation "key(x) <= key(y)" for a key into a totally ordered set. */
  ghost predicate TotalPreorder<T(!new)>(le: (T, T) -> bool) {
    && (forall x, y :: le(x, y) || le(y, x))
    && (forall x, y, z :: le(x, y) && le(y, z) ==> le(x, z))
  }

  ghost predicate SortedBy<T>(le: (T, T) -> bool, s: seq<T>) {
    forall i, j :: 0 <= i < j < |s| ==> le(s[i], s[j])
  }

  /** Places x before the first element it does not come after. */
  function Insert<T>(x: T, s: seq<T>, le: (T, T) -> bool): (r: seq<T>)
    ensures multiset(r) == multiset(s) + multiset{x}
  {
    if s == [] || le(x, s[0]) then [x] + s
    else
      assert s == [s[0]] + s[1..];
      [s[0]] + Insert(x, s[1..], le)
  }

  function SortBy<T>(s: seq<T>, le: (T, T) -> bool): (r: seq<T>)
    ensures multiset(r) == multiset(s)
  {
    if s == [] then []
    else
      assert s == [s[0]] + s[1..];
      Insert(s[0], SortBy(s[1..], le), le)
  }

  /** The elements of s with the same key as e, in their order in s. */
  function SameKey<T>(s: seq<T>, le: (T, T) -> bool, e: T): seq<T> {
    if s == [] then []
    else (if le(s[0], e) && le(e, s[0]) then [s[0]] else []) + SameKey(s[1..], le, e)
  }

  lemma {:induction false} InsertSorted<T(!new)>(x: T, s: seq<T>, le: (T, T) -> bool)
    requires TotalPreorder(le) && SortedBy(le, s)
    ensures SortedBy(le, Insert(x, s, le))
  {
    if s != [] && !le(x, s[0]) {
      var t := Insert(x, s[1..], le);
      InsertSorted(x, s[1..], le);
      forall y | y in t ensures le(s[0], y) {
        assert y in multiset(t);
        if y != x {
          assert y in s[1..];
        }
      }
    }
  }

  /** sorted() returns its input ordered by the key. */
  lemma {:induction false} SortBySorted<T(!new)>(s: seq<T>, le: (T, T) -> bool)
    requires TotalPreorder(le)
    ensures SortedBy(le, SortBy(s, le))
  {
    if s != [] {
      SortBySorted(s[1..], le);
      InsertSorted(s[0], SortBy(s[1..], le), le);
    }
  }

  lemma {:induction false} InsertSameKey<T(!new)>(x: T, s: seq<T>, le: (T, T) -> bool, e: T)
    requires TotalPreorder(le)
    ensures SameKey(Insert(x, s, le), le, e)
         == (if le(x, e) && le(e, x) then [x] else []) + SameKey(s, le, e)
  {
    if s == [] || le(x, s[0]) {
      SameKeyCons(x, s, le, e);
    } else {
      InsertSameKey(x, s[1..], le, e);
      // x and s[0] cannot both share e's key, since x does not come before s[0]
      NotAcross(x, s[0], le, e);
      InsertSameKeyStep(x, s, le, e);
    }
  }

  /** The step of InsertSameKey past an element that x does not come before. */
  lemma InsertSameKeyStep<T>(x: T, s: seq<T>, le: (T, T) -> bool, e: T)
    requires s != [] && !le(x, s[0]) && !(le(x, e) && le(e, s[0]))
    requires SameKey(Insert(x, s[1..], le), le, e)
          == (if le(x, e) && le(e, x) then [x] else []) + SameKey(s[1..], le, e)
    ensures SameKey(Insert(x, s, le), le, e)
         == (if le(x, e) && le(e, x) then [x] else []) + SameKey(s, le, e)
  {
    var rest := SameKey(s[1..], le, e);
    var sx := if le(x, e) && le(e, x) then [x] else [];
    var s0 := if le(s[0], e) && le(e, s[0]) then [s[0]] else [];
    SameKeyCons(s[0], Insert(x, s[1..], le), le, e);
    SameKeyCons(s[0], s[1..], le, e);
    assert [s[0]] + s[1..] == s;
    SwapEmpty(s0, sx, rest);
  }

  /** Under a total preorder, e cannot lie between x and y when x is not below y. */
  lemma NotAcross<T(!new)>(x: T, y: T, le: (T, T) -> bool, e: T)
    requires TotalPreorder(le) && !le(x, y)
    ensures !(le(x, e) && le(e, y))
  {
  }

  lemma SwapEmpty<T>(a: seq<T>, b: seq<T>, r: seq<T>)
    requires a == [] || b == []
    ensures a + (b + r) == b + (a + r)
  {
    if a == [] {
      assert a + (b + r) == b + r && a + r == r;
    } else {
      assert b + r == r && b + (a + r) == a + r;
    }
  }

  lemma SameKeyCons<T>(y: T, t: seq<T>, le: (T, T) -> bool, e: T)
    ensures SameKey([y] + t, le, e) == (if le(y, e) && le(e, y) then [y] else []) + SameKey(t, le, e)
  {
    assert ([y] + t)[1..] == t;
  }

  /** sorted() is stable: elements with equal keys keep their relative order. */
  lemma {:induction false} SortByStable<T(!new)>(s: seq<T>, le: (T, T) -> bool, e: T)
    requires TotalPreorder(le)
    ensures SameKey(SortBy(s, le), le, e) == SameKey(s, le, e)
  {
    if s != [] {
      SortByStable(s[1..], le, e);
      InsertSameKey(s[0], SortBy(s[1..], le), le, e);
    }
  }

  /** Sorting a sequence already in order leaves it unchanged. */
  lemma {:induction false} SortBySortedInput<T(!new)>(s: seq<T>, le: (T, T) -> bool)
    requires SortedBy(le, s)
    ensures SortBy(s, le) == s
  {
    if s != [] {
      SortBySortedInput(s[1..], le);
      assert s == [s[0]] + s[1..];
    }
  }
}
