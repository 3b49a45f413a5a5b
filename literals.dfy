/**
 * Literals and rules as the planning layer sees them, and their textual
 * rendering (popper/util.py:188-198).
 *
 * A literal carries a predicate symbol, its argument variables and one
 * direction per argument ('+' input, '-' output, '?' undeclared).  Its
 * input and output variables are derived from these, pairing arguments
 * with directions position by position.
 */
module Literals {
  import opened Wrappers

  datatype Mode = In | Out | Unbound

  datatype Literal = Literal(pred: string, arguments: seq<string>, modes: seq<Mode>)

  /** A rule: a head (None for a constraint) and a body, listed in iteration order. */
  datatype Rule = Rule(head: Option<Literal>, body: seq<Literal>)

  /** Argument positions whose direction is m (pairing stops at the shorter list). */
  function PositionsWith(lit: Literal, m: Mode): set<int> {
    set i | 0 <= i < |lit.arguments| && i < |lit.modes| && lit.modes[i] == m
  }

  /** The variables at '+' positions. */
  function Inputs(lit: Literal): set<string> {
    set i | i in PositionsWith(lit, In) :: lit.arguments[i]
  }

  /** The variables at '-' positions. */
  function Outputs(lit: Literal): set<string> {
    set i | i in PositionsWith(lit, Out) :: lit.arguments[i]
  }

  /** The scheduler's generator test: as many output variables as arguments. */
  predicate IsGenerator(lit: Literal) {
    |Outputs(lit)| == |lit.arguments|
  }

  predicate IsOutAt(lit: Literal, i: int) {
    0 <= i < |lit.arguments| && i < |lit.modes| && lit.modes[i] == Out
  }

  /** Output variables at positions below n. */
  function OutputsBelow(lit: Literal, n: nat): set<string>
    requires n <= |lit.arguments|
  {
    if n == 0 then {}
    else OutputsBelow(lit, n - 1) + if IsOutAt(lit, n - 1) then {lit.arguments[n - 1]} else {}
  }

  lemma {:induction false} OutputsBelowMembers(lit: Literal, n: nat, v: string)
    requires n <= |lit.arguments|
    ensures v in OutputsBelow(lit, n) <==> exists i :: 0 <= i < n && IsOutAt(lit, i) && lit.arguments[i] == v
  {
    if n > 0 {
      OutputsBelowMembers(lit, n - 1, v);
    }
  }

  lemma {:induction false} OutputsBelowSize(lit: Literal, n: nat, k: int)
    requires n <= |lit.arguments|
    ensures |OutputsBelow(lit, n)| <= n
    ensures 0 <= k < n && !IsOutAt(lit, k) ==> |OutputsBelow(lit, n)| < n
  {
    if n > 0 {
      OutputsBelowSize(lit, n - 1, k);
    }
  }

  /**
   * A literal passes the generator test only when every argument position is
   * output-moded (so its arguments are pairwise distinct); in particular it has
   * no input variables and is always ready to run.
   */
  lemma GeneratorAllOutputs(lit: Literal)
    requires IsGenerator(lit)
    ensures forall i :: 0 <= i < |lit.arguments| ==> IsOutAt(lit, i)
    ensures Inputs(lit) == {}
  {
    var n := |lit.arguments|;
    forall v ensures v in Outputs(lit) <==> v in OutputsBelow(lit, n) {
      OutputsBelowMembers(lit, n, v);
    }
    assert Outputs(lit) == OutputsBelow(lit, n);
    forall k | 0 <= k < n ensures IsOutAt(lit, k) {
      OutputsBelowSize(lit, n, k);
    }
    assert forall i :: i in PositionsWith(lit, In) ==> IsOutAt(lit, i);
  }

  // ---------------------------------------------------------------------------
  // Rendering: format_literal and format_rule

  /** ','.join(parts) */
  function Join(parts: seq<string>, sep: char): string {
    if |parts| == 0 then ""
    else if |parts| == 1 then parts[0]
    else parts[0] + [sep] + Join(parts[1..], sep)
  }

  /** "pred(A,B)" */
  function FormatLiteral(lit: Literal): string {
    lit.pred + "(" + Join(lit.arguments, ',') + ")"
  }

  function FormatLiterals(lits: seq<Literal>): seq<string> {
    seq(|lits|, i requires 0 <= i < |lits| => FormatLiteral(lits[i]))
  }

  /** "head:- body1,body2." (an empty head string for a constraint) */
  function FormatRule(rule: Rule): string {
    var headStr := if rule.head.Some? then FormatLiteral(rule.head.value) else "";
    headStr + ":- " + Join(FormatLiterals(rule.body), ',') + "."
  }

  // ---------------------------------------------------------------------------
  // Reading a rendered literal back: the partner of FormatLiteral

  /** str.split(sep): a string without sep is one field; "" splits into [""]. */
  function Split(s: string, sep: char): (parts: seq<string>)
    ensures |parts| >= 1
  {
    if s == [] then [""]
    else
      var rest := Split(s[1..], sep);
      if s[0] == sep then [""] + rest else [[s[0]] + rest[0]] + rest[1..]
  }

  /** Index of the first occurrence of c in s, or |s|. */
  function IndexOf(s: string, c: char): (i: nat)
    ensures i <= |s|
    ensures i < |s| ==> s[i] == c
    ensures forall j :: 0 <= j < i ==> s[j] != c
  {
    if s == [] then 0 else if s[0] == c then 0 else 1 + IndexOf(s[1..], c)
  }

  /** The predicate and arguments of "pred(A,B)", or None for other text. */
  function ParseLiteral(s: string): Option<(string, seq<string>)> {
    var i := IndexOf(s, '(');
    if i == |s| || s[|s| - 1] != ')' then None
    else
      var inner := s[i + 1..|s| - 1];
      Some((s[..i], if inner == "" then [] else Split(inner, ',')))
  }

  /** Names the rendering can be read back from. */
  predicate WellNamed(lit: Literal) {
    && '(' !in lit.pred
    && forall a :: a in lit.arguments ==> a != "" && ',' !in a
  }

  lemma {:induction false} SplitNoSep(a: string, sep: char)
    requires sep !in a
    ensures Split(a, sep) == [a]
  {
    if a != [] {
      SplitNoSep(a[1..], sep);
      assert [a[0]] + a[1..] == a;
    }
  }

  lemma {:induction false} SplitField(a: string, sep: char, b: string)
    requires sep !in a
    ensures Split(a + [sep] + b, sep) == [a] + Split(b, sep)
  {
    if a == [] {
      assert a + [sep] + b == [sep] + b;
      assert ([sep] + b)[1..] == b;
    } else {
      SplitField(a[1..], sep, b);
      assert (a + [sep] + b)[1..] == a[1..] + [sep] + b;
      assert [a[0]] + a[1..] == a;
    }
  }

  lemma {:induction false} SplitJoin(parts: seq<string>, sep: char)
    requires |parts| >= 1
    requires forall p :: p in parts ==> sep !in p
    ensures Split(Join(parts, sep), sep) == parts
  {
    if |parts| == 1 {
      SplitNoSep(parts[0], sep);
    } else {
      SplitJoin(parts[1..], sep);
      SplitField(parts[0], sep, Join(parts[1..], sep));
      assert [parts[0]] + parts[1..] == parts;
    }
  }

  lemma {:induction false} JoinEmpty(parts: seq<string>, sep: char)
    requires forall p :: p in parts ==> p != ""
    ensures Join(parts, sep) == "" <==> parts == []
  {
    if |parts| == 1 {
      assert parts[0] in parts;
    } else if |parts| >= 2 {
      assert parts[0] in parts;
      assert |Join(parts, sep)| >= |parts[0]|;
    }
  }

  lemma {:induction false} IndexOfPrefix(a: string, c: char, b: string)
    requires c !in a
    ensures IndexOf(a + [c] + b, c) == |a|
  {
    var s := a + [c] + b;
    var i := IndexOf(s, c);
    assert s[|a|] == c;
    assert s[..|a|] == a;
  }

  /** A well-named literal is read back from its rendering: format_literal loses only the modes. */
  lemma ParseFormatLiteral(lit: Literal)
    requires WellNamed(lit)
    ensures ParseLiteral(FormatLiteral(lit)) == Some((lit.pred, lit.arguments))
  {
    var s := FormatLiteral(lit);
    var body := Join(lit.arguments, ',');
    assert s == lit.pred + ['('] + (body + ")");
    IndexOfPrefix(lit.pred, '(', body + ")");
    assert s[..|lit.pred|] == lit.pred;
    assert s[|lit.pred| + 1..|s| - 1] == body;
    JoinEmpty(lit.arguments, ',');
    if lit.arguments != [] {
      SplitJoin(lit.arguments, ',');
    }
  }

  /** Two well-named literals render alike exactly when predicate and arguments agree. */
  lemma FormatLiteralInjective(a: Literal, b: Literal)
    requires WellNamed(a) && WellNamed(b)
    ensures FormatLiteral(a) == FormatLiteral(b) <==> a.pred == b.pred && a.arguments == b.arguments
  {
    ParseFormatLiteral(a);
    ParseFormatLiteral(b);
  }

  /**
   * format_rule writes the head's rendering (nothing for a constraint), then
   * ":- ", then the body, then "."; a well-named head is read back from the
   * text before ":- ".
   */
  lemma FormatRuleHead(rule: Rule)
    ensures var h := if rule.head.Some? then FormatLiteral(rule.head.value) else "";
            var text := FormatRule(rule);
            && |text| >= |h| + 4
            && text[..|h|] == h
            && text[|h|..|h| + 3] == ":- "
            && text[|text| - 1] == '.'
    ensures rule.head.Some? && WellNamed(rule.head.value) ==>
              ParseLiteral(FormatRule(rule)[..|FormatLiteral(rule.head.value)|])
                == Some((rule.head.value.pred, rule.head.value.arguments))
  {
    var h := if rule.head.Some? then FormatLiteral(rule.head.value) else "";
    var rest := Join(FormatLiterals(rule.body), ',') + ".";
    assert FormatRule(rule) == h + (":- " + rest);
    if rule.head.Some? && WellNamed(rule.head.value) {
      ParseFormatLiteral(rule.head.value);
    }
  }

  // ---------------------------------------------------------------------------
  // Reading a rendered body back: the partner of the body half of FormatRule

  /** Literals whose rendering ends at its first ')', so a body can be cut after each ')'. */
  predicate Closable(lit: Literal) {
    && WellNamed(lit)
    && ')' !in lit.pred
    && forall a :: a in lit.arguments ==> ')' !in a
  }

  /** The (predicate, arguments) pairs of a body, in order. */
  function Signatures(lits: seq<Literal>): (sigs: seq<(string, seq<string>)>)
    ensures |sigs| == |lits|
    ensures forall i :: 0 <= i < |lits| ==> sigs[i] == (lits[i].pred, lits[i].arguments)
  {
    seq(|lits|, i requires 0 <= i < |lits| => (lits[i].pred, lits[i].arguments))
  }

  /** Reads "p(A),q(A,B)" as a list of literals: each one ends at the next ')' and is followed by ',' or the end. */
  function ParseBody(s: string): Option<seq<(string, seq<string>)>>
    decreases |s|
  {
    if s == "" then Some([])
    else
      var i := IndexOf(s, ')');
      if i == |s| then None
      else match ParseLiteral(s[..i + 1])
        case None => None
        case Some(lit) =>
          if i + 1 == |s| then Some([lit])
          else if s[i + 1] != ',' then None
          else match ParseBody(s[i + 2..])
            case None => None
            case Some(rest) => Some([lit] + rest)
  }

  lemma {:induction false} JoinAvoids(parts: seq<string>, sep: char, c: char)
    requires c != sep && forall p :: p in parts ==> c !in p
    ensures c !in Join(parts, sep)
  {
    if |parts| >= 2 {
      assert parts[0] in parts;
      JoinAvoids(parts[1..], sep, c);
    } else if |parts| == 1 {
      assert parts[0] in parts;
    }
  }

  /** The rendering of a closable literal ends at its only ')'. */
  lemma ClosableRendering(lit: Literal) returns (open: string)
    requires Closable(lit)
    ensures FormatLiteral(lit) == open + ")" && ')' !in open
  {
    JoinAvoids(lit.arguments, ',', ')');
    open := lit.pred + "(" + Join(lit.arguments, ',');
  }

  /** One step of ParseBody: a literal's text ending at its only ')', then the end or ',' and the rest. */
  lemma ParseBodyStep(open: string, lit: (string, seq<string>), rest: string)
    requires ')' !in open && ParseLiteral(open + ")") == Some(lit)
    ensures ParseBody(open + ")") == Some([lit])
    ensures ParseBody(open + ")" + "," + rest) ==
              match ParseBody(rest) case None => None case Some(r) => Some([lit] + r)
  {
    IndexOfPrefix(open, ')', "");
    assert open + ")" == open + [')'] + "";
    var s := open + ")" + "," + rest;
    assert s == open + [')'] + ("," + rest);
    IndexOfPrefix(open, ')', "," + rest);
    assert s[..|open| + 1] == open + ")";
    assert s[|open| + 2..] == rest;
  }

  /** A body of closable literals, rendered and joined with ',', reads back literal by literal. */
  lemma {:induction false} ParseBodyJoin(lits: seq<Literal>)
    requires forall l :: l in lits ==> Closable(l)
    ensures ParseBody(Join(FormatLiterals(lits), ',')) == Some(Signatures(lits))
    decreases |lits|
  {
    if lits != [] {
      var parts := FormatLiterals(lits);
      var rest := Join(parts[1..], ',');
      assert lits[0] in lits;
      var open := ClosableRendering(lits[0]);
      assert parts[0] == open + ")";
      ParseFormatLiteral(lits[0]);
      var sig := (lits[0].pred, lits[0].arguments);
      ParseBodyStep(open, sig, rest);
      if |lits| > 1 {
        assert FormatLiterals(lits[1..]) == parts[1..];
        assert forall l :: l in lits[1..] ==> l in lits;
        ParseBodyJoin(lits[1..]);
        assert Join(parts, ',') == open + ")" + "," + rest;
        assert Signatures(lits) == [sig] + Signatures(lits[1..]);
      } else {
        assert Join(parts, ',') == open + ")";
        assert Signatures(lits) == [sig];
      }
    }
  }

  /** The text of a rendered rule between ":- " and the final "." reads back as its body, literal by literal. */
  lemma FormatRuleBody(rule: Rule)
    requires forall l :: l in rule.body ==> Closable(l)
    ensures var h := if rule.head.Some? then FormatLiteral(rule.head.value) else "";
            var text := FormatRule(rule);
            |text| >= |h| + 4 && ParseBody(text[|h| + 3..|text| - 1]) == Some(Signatures(rule.body))
  {
    var h := if rule.head.Some? then FormatLiteral(rule.head.value) else "";
    var b := Join(FormatLiterals(rule.body), ',');
    var text := FormatRule(rule);
    assert text == h + ":- " + b + ".";
    assert text[|h| + 3..|text| - 1] == b;
    ParseBodyJoin(rule.body);
  }
}
