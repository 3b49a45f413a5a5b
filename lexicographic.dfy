/**
 * Python's comparison of strings and of tuples: lexicographic order built
 * from a strict total order on the elements.
 */
module Lexicographic {

  ghost predicate StrictTotal<T(!new)>(lt: (T, T) -> bool) {
    && (forall x :: !lt(x, x))
    && (forall x, y :: x != y ==> lt(x, y) || lt(y, x))
    && (forall x, y, z :: lt(x, y) && lt(y, z) ==> lt(x, z))
  }

  /** a < b: a proper prefix of b, or smaller at the first position where they differ. */
  predicate LexLt<T(==)>(a: seq<T>, b: seq<T>, lt: (T, T) -> bool)
    decreases |a|
  {
    if a == [] then b != []
    else b != [] && (lt(a[0], b[0]) || (a[0] == b[0] && LexLt(a[1..], b[1..], lt)))
  }

  lemma {:induction false} LexLtIrreflexive<T(!new)>(a: seq<T>, lt: (T, T) -> bool)
    requires StrictTotal(lt)
    ensures !LexLt(a, a, lt)
    decreases |a|
  {
    if a != [] {
      LexLtIrreflexive(a[1..], lt);
    }
  }

  lemma {:induction false} LexLtTotal<T(!new)>(a: seq<T>, b: seq<T>, lt: (T, T) -> bool)
    requires StrictTotal(lt)
    ensures a == b || LexLt(a, b, lt) || LexLt(b, a, lt)
    decreases |a|
  {
    if a != [] && b != [] && a[0] == b[0] {
      LexLtTotal(a[1..], b[1..], lt);
      if a[1..] == b[1..] {
        assert a == [a[0]] + a[1..] && b == [b[0]] + b[1..];
      }
    }
  }

  lemma {:induction false} LexLtTransitive<T(!new)>(a: seq<T>, b: seq<T>, c: seq<T>, lt: (T, T) -> bool)
    requires StrictTotal(lt) && LexLt(a, b, lt) && LexLt(b, c, lt)
    ensures LexLt(a, c, lt)
    decreases |a|
  {
    if a != [] && a[0] == b[0] && b[0] == c[0] {
      LexLtTransitive(a[1..], b[1..], c[1..], lt);
    }
  }

  predicate CharLt(x: char, y: char) {
    x < y
  }

  /** str < str: by code point. */
  predicate StrLt(a: string, b: string) {
    LexLt(a, b, CharLt)
  }

  /** tuple < tuple, for tuples of strings. */
  predicate StrsLt(a: seq<string>, b: seq<string>) {
    LexLt(a, b, StrLt)
  }

  /** str comparison is a strict total order. */
  lemma StrLtStrictTotal()
    ensures StrictTotal(StrLt)
  {
    assert StrictTotal(CharLt);
    forall a: string ensures !StrLt(a, a) {
      LexLtIrreflexive(a, CharLt);
    }
    forall a: string, b: string | a != b ensures StrLt(a, b) || StrLt(b, a) {
      LexLtTotal(a, b, CharLt);
    }
    forall a: string, b: string, c: string | StrLt(a, b) && StrLt(b, c) ensures StrLt(a, c) {
      LexLtTransitive(a, b, c, CharLt);
    }
  }

  /** Comparison of tuples of strings is a strict total order. */
  lemma StrsLtStrictTotal()
    ensures StrictTotal(StrsLt)
  {
    StrLtStrictTotal();
    forall a: seq<string> ensures !StrsLt(a, a) {
      LexLtIrreflexive(a, StrLt);
    }
    forall a: seq<string>, b: seq<string> | a != b ensures StrsLt(a, b) || StrsLt(b, a) {
      LexLtTotal(a, b, StrLt);
    }
    forall a: seq<string>, b: seq<string>, c: seq<string> | StrsLt(a, b) && StrsLt(b, c) ensures StrsLt(a, c) {
      LexLtTransitive(a, b, c, StrLt);
    }
  }
}
