/**
 * Program canonicalisation and comparison (popper/util.py:201-255, 370-371,
 * 579-589): sizes and the MDL score, the recursion and invention tests,
 * the two display orders, deduplication by signature, subsumption and
 * flatten.
 */
module Canonical {
  import opened Wrappers
  import opened Seqs
  import opened Literals
  import opened Sorting
  import opened Lexicographic
  import opened RecallScheduler
  import opened LiteralScheduler
  import Config

  // ---------------------------------------------------------------------------
  // Sizes

  /** rule_size: the head counts as one literal, so every rule has size at least 1. */
  function RuleSize(rule: Rule): (n: nat)
    ensures n >= 1 && n > |rule.body|
  {
    1 + |rule.body|
  }

  /** calc_prog_size: the sum of the rule sizes. */
  function ProgSize(prog: seq<Rule>): (n: nat)
    ensures n >= |prog|
  {
    if prog == [] then 0 else RuleSize(prog[0]) + ProgSize(prog[1..])
  }

  /** mdl_score: false negatives plus false positives plus program size. */
  function MdlScore(fn: nat, fp: nat, size: nat): (score: nat)
    ensures score >= fn && score >= fp && score >= size
  {
    fn + fp + size
  }

  lemma {:induction false} ProgSizeConcat(a: seq<Rule>, b: seq<Rule>)
    ensures ProgSize(a + b) == ProgSize(a) + ProgSize(b)
  {
    if a == [] {
      assert a + b == b;
    } else {
      ProgSizeConcat(a[1..], b);
      assert (a + b)[1..] == a[1..] + b;
    }
  }

  lemma ProgSizeRemove(b: seq<Rule>, k: nat)
    requires k < |b|
    ensures ProgSize(b) == RuleSize(b[k]) + ProgSize(b[..k] + b[k + 1..])
  {
    assert b == b[..k] + b[k..];
    ProgSizeConcat(b[..k], b[k..]);
    ProgSizeConcat(b[..k], b[k + 1..]);
    assert b[k..][1..] == b[k + 1..];
  }

  /** In two sequences with the same elements, the first of one occurs in the other, with the same remainders. */
  lemma MatchFirst<T>(a: seq<T>, b: seq<T>) returns (k: nat)
    requires multiset(a) == multiset(b) && a != []
    ensures k < |b| && b[k] == a[0]
    ensures multiset(a[1..]) == multiset(b[..k] + b[k + 1..])
  {
    assert a[0] in multiset(a);
    k :| 0 <= k < |b| && b[k] == a[0];
    assert a == [a[0]] + a[1..];
    assert b == b[..k] + [b[k]] + b[k + 1..];
    assert multiset(a[1..]) == multiset(a) - multiset{a[0]};
  }

  /** The size of a program does not depend on the order of its rules. */
  lemma {:induction false} ProgSizePermutation(a: seq<Rule>, b: seq<Rule>)
    requires multiset(a) == multiset(b)
    ensures ProgSize(a) == ProgSize(b)
    decreases |a|
  {
    if a == [] {
      assert |b| == |multiset(b)| == 0;
    } else {
      var k := MatchFirst(a, b);
      ProgSizePermutation(a[1..], b[..k] + b[k + 1..]);
      ProgSizeRemove(b, k);
    }
  }

  // ---------------------------------------------------------------------------
  // Recursion and invention

  /** rule_is_recursive: the head's predicate occurs in the body. */
  predicate RuleIsRecursive(rule: Rule) {
    rule.head.Some? && exists lit :: lit in rule.body && lit.pred == rule.head.value.pred
  }

  /** prog_is_recursive: false for fewer than two rules, else some rule is recursive. */
  predicate ProgIsRecursive(prog: seq<Rule>) {
    |prog| >= 2 && exists rule :: rule in prog && RuleIsRecursive(rule)
  }

  /** rule_is_invented: the head's predicate starts with "inv". */
  predicate RuleIsInvented(rule: Rule) {
    rule.head.Some? && "inv" <= rule.head.value.pred
  }

  /** prog_has_invention: false for fewer than two rules, else some rule is invented. */
  predicate ProgHasInvention(prog: seq<Rule>) {
    |prog| >= 2 && exists rule :: rule in prog && RuleIsInvented(rule)
  }

  /** Whether a rule is recursive depends only on its head and the literals its body holds. */
  lemma RecursiveSameLiterals(r1: Rule, r2: Rule)
    requires r1.head == r2.head && forall x :: x in r1.body <==> x in r2.body
    ensures RuleIsRecursive(r1) == RuleIsRecursive(r2)
  {
  }

  /** Reordering a program's rules changes neither program test. */
  lemma ProgTestsPermutation(a: seq<Rule>, b: seq<Rule>)
    requires multiset(a) == multiset(b)
    ensures ProgIsRecursive(a) == ProgIsRecursive(b)
    ensures ProgHasInvention(a) == ProgHasInvention(b)
  {
    assert |a| == |multiset(a)| == |b|;
    assert forall r :: r in a <==> r in b by {
      forall r ensures r in a <==> r in b {
        assert r in a <==> r in multiset(a);
        assert r in b <==> r in multiset(b);
      }
    }
  }

  /** Scheduling a rule keeps its head and the literals of its body, so it stays (non-)recursive. */
  lemma ScheduledSameLiterals(rule: Rule, recall: map<Config.RecallKey, int>)
    ensures ModeOrderAsWritten(rule).Ordered? ==>
              var r := ModeOrderAsWritten(rule).rule;
              r.head == rule.head && (forall x :: x in r.body <==> x in rule.body) && RuleIsRecursive(r) == RuleIsRecursive(rule)
    ensures var r := DatalogOrder(rule, recall);
            r.head == rule.head && (forall x :: x in r.body <==> x in rule.body) && RuleIsRecursive(r) == RuleIsRecursive(rule)
  {
    if ModeOrderAsWritten(rule).Ordered? {
      var r := ModeOrderAsWritten(rule).rule;
      ModeOrderSound(rule);
      forall x ensures x in r.body <==> x in rule.body {
        assert x in r.body <==> x in multiset(r.body);
        assert x in Distinct(rule.body) <==> x in multiset(Distinct(rule.body));
      }
      RecursiveSameLiterals(r, rule);
    }
    var d := DatalogOrder(rule, recall);
    RecallOrderMembers(recall, HeadArgs(rule.head), Distinct(rule.body));
    RecursiveSameLiterals(d, rule);
  }

  /** A scheduled body drops repeated literals, so the rule never grows, and keeps its size without repeats. */
  lemma ScheduledSize(rule: Rule)
    requires ModeOrderAsWritten(rule).Ordered?
    ensures RuleSize(ModeOrderAsWritten(rule).rule) <= RuleSize(rule)
    ensures NoDuplicates(rule.body) ==> RuleSize(ModeOrderAsWritten(rule).rule) == RuleSize(rule)
  {
    ModeOrderSound(rule);
    var r := ModeOrderAsWritten(rule).rule;
    assert |r.body| == |multiset(r.body)| == |Distinct(rule.body)|;
    if NoDuplicates(rule.body) {
      DistinctOfDistinct(rule.body);
    }
  }

  // ---------------------------------------------------------------------------
  // order_prog

  function RecRank(rule: Rule): nat {
    if RuleIsRecursive(rule) then 1 else 0
  }

  /** The order_prog key (rule_is_recursive, len(body)), False before True. */
  predicate ProgLe(x: Rule, y: Rule) {
    RecRank(x) < RecRank(y) || (RecRank(x) == RecRank(y) && |x.body| <= |y.body|)
  }

  /** order_prog: sorted by the key; sorted() is stable. */
  function OrderProg(prog: seq<Rule>): seq<Rule> {
    SortBy(prog, ProgLe)
  }

  /**
   * order_prog returns the same rules, the non-recursive ones first, each
   * class by non-decreasing body length, rules with equal keys in their
   * original order; ordering twice changes nothing.
   */
  lemma OrderProgCorrect(prog: seq<Rule>)
    ensures var out := OrderProg(prog);
            && multiset(out) == multiset(prog)
            && (forall i, j :: 0 <= i < j < |out| && RuleIsRecursive(out[i]) ==> RuleIsRecursive(out[j]))
            && (forall i, j :: 0 <= i < j < |out| && RuleIsRecursive(out[i]) == RuleIsRecursive(out[j]) ==>
                  |out[i].body| <= |out[j].body|)
            && (forall e :: SameKey(out, ProgLe, e) == SameKey(prog, ProgLe, e))
            && OrderProg(out) == out
  {
    assert TotalPreorder(ProgLe);
    SortBySorted(prog, ProgLe);
    forall e ensures SameKey(OrderProg(prog), ProgLe, e) == SameKey(prog, ProgLe, e) {
      SortByStable(prog, ProgLe, e);
    }
    SortBySortedInput(OrderProg(prog), ProgLe);
  }

  /** A non-recursive two-literal rule and a recursive one-literal rule: the non-recursive rule comes first. */
  lemma OrderProgExample()
    ensures var base := Rule(Some(Literal("f", ["A"], [In])), [Literal("g", ["A"], [In]), Literal("h", ["A"], [In])]);
            var rec := Rule(Some(Literal("f", ["A"], [In])), [Literal("f", ["A"], [In])]);
            OrderProg([rec, base]) == [base, rec]
  {
    var base := Rule(Some(Literal("f", ["A"], [In])), [Literal("g", ["A"], [In]), Literal("h", ["A"], [In])]);
    var rec := Rule(Some(Literal("f", ["A"], [In])), [Literal("f", ["A"], [In])]);
    assert rec.body[0] in rec.body;
    assert !RuleIsRecursive(base) by {
      assert forall lit :: lit in base.body ==> lit == base.body[0] || lit == base.body[1];
    }
    assert RuleIsRecursive(rec);
    assert [rec, base][1..] == [base];
    assert SortBy([base], ProgLe) == [base];
  }

  // ---------------------------------------------------------------------------
  // order_rule2

  /** The order_rule2 key (len(arguments), predicate, arguments), compared as a Python tuple. */
  predicate LiteralLe(x: Literal, y: Literal) {
    || |x.arguments| < |y.arguments|
    || (|x.arguments| == |y.arguments| && StrLt(x.pred, y.pred))
    || (|x.arguments| == |y.arguments| && x.pred == y.pred && (StrsLt(x.arguments, y.arguments) || x.arguments == y.arguments))
  }

  lemma LiteralLeTotalPreorder()
    ensures TotalPreorder(LiteralLe)
  {
    StrLtStrictTotal();
    StrsLtStrictTotal();
  }

  /** order_rule2: the body sorted by the key, head unchanged. */
  function OrderRule2(rule: Rule): Rule {
    Rule(rule.head, SortBy(rule.body, LiteralLe))
  }

  /**
   * order_rule2 keeps the head and the body literals (with repeats), orders
   * them by the key, keeps literals that differ only in their modes in their
   * original order, and is idempotent.
   */
  lemma OrderRule2Correct(rule: Rule)
    ensures var r := OrderRule2(rule);
            && r.head == rule.head
            && multiset(r.body) == multiset(rule.body)
            && SortedBy(LiteralLe, r.body)
            && (forall e :: SameKey(r.body, LiteralLe, e) == SameKey(rule.body, LiteralLe, e))
            && OrderRule2(r) == r
  {
    LiteralLeTotalPreorder();
    SortBySorted(rule.body, LiteralLe);
    forall e ensures SameKey(OrderRule2(rule).body, LiteralLe, e) == SameKey(rule.body, LiteralLe, e) {
      SortByStable(rule.body, LiteralLe, e);
    }
    SortBySortedInput(OrderRule2(rule).body, LiteralLe);
  }

  // ---------------------------------------------------------------------------
  // reduce_prog

  /** A literal's signature: predicate and arguments, without modes. */
  type Sig = (string, seq<string>)

  function SigOf(lit: Literal): Sig {
    (lit.pred, lit.arguments)
  }

  function BodySigs(body: seq<Literal>): set<Sig> {
    set lit | lit in body :: SigOf(lit)
  }

  /** The reduce_prog key: head signature and the set of body signatures. */
  type Key = (Sig, set<Sig>)

  /** reduce_prog dereferences every head. */
  predicate AllHeaded(prog: seq<Rule>) {
    forall i :: 0 <= i < |prog| ==> prog[i].head.Some?
  }

  function KeyOf(rule: Rule): Key
    requires rule.head.Some?
  {
    (SigOf(rule.head.value), BodySigs(rule.body))
  }

  function Keys(prog: seq<Rule>): (keys: seq<Key>)
    requires AllHeaded(prog)
    ensures |keys| == |prog|
  {
    seq(|prog|, i requires 0 <= i < |prog| => KeyOf(prog[i]))
  }

  /** The position of the last rule with key k. */
  function LastIndex(prog: seq<Rule>, k: Key): (j: nat)
    requires AllHeaded(prog) && k in Keys(prog)
    ensures j < |prog| && KeyOf(prog[j]) == k
    ensures forall j' :: j < j' < |prog| ==> KeyOf(prog[j']) != k
    decreases |prog|
  {
    var n := |prog| - 1;
    if KeyOf(prog[n]) == k then n
    else
      assert Keys(prog) == Keys(prog[..n]) + [KeyOf(prog[n])];
      LastIndex(prog[..n], k)
  }

  /** reduce_prog's result: one rule per key, keys in first-occurrence order, each the last rule with it. */
  function Reduced(prog: seq<Rule>): seq<Rule>
    requires AllHeaded(prog)
  {
    var keys := Distinct(Keys(prog));
    seq(|keys|, i requires 0 <= i < |keys| => prog[LastIndex(prog, keys[i])])
  }

  lemma KeysPrefix(prog: seq<Rule>, i: nat)
    requires AllHeaded(prog) && i < |prog|
    ensures Keys(prog[..i + 1]) == Keys(prog[..i]) + [KeyOf(prog[i])]
  {
  }

  /** Extending the prefix by rule i makes rule i the last with its key and leaves the others alone. */
  lemma LastIndexPrefix(prog: seq<Rule>, i: nat, k: Key)
    requires AllHeaded(prog) && i < |prog| && k in Keys(prog[..i + 1])
    ensures KeyOf(prog[i]) == k ==> LastIndex(prog[..i + 1], k) == i
    ensures KeyOf(prog[i]) != k ==> k in Keys(prog[..i]) && LastIndex(prog[..i + 1], k) == LastIndex(prog[..i], k)
  {
    KeysPrefix(prog, i);
    assert prog[..i + 1][..i] == prog[..i];
  }

  /** What the reduce_prog loop knows after the first i rules: the dict's keys in insertion order, each mapped to its last rule. */
  ghost predicate ReduceInv(prog: seq<Rule>, i: nat, keys: seq<Key>, reduced: map<Key, Rule>)
    requires AllHeaded(prog) && i <= |prog|
  {
    && keys == Distinct(Keys(prog[..i]))
    && (forall k :: k in reduced <==> k in keys)
    && (forall k :: k in keys ==> k in Keys(prog[..i]) && reduced[k] == prog[LastIndex(prog[..i], k)])
  }

  lemma ReduceStepKeys(prog: seq<Rule>, i: nat, keys: seq<Key>)
    requires AllHeaded(prog) && i < |prog| && keys == Distinct(Keys(prog[..i]))
    ensures var k := KeyOf(prog[i]);
            (if k in keys then keys else keys + [k]) == Distinct(Keys(prog[..i + 1]))
  {
    KeysPrefix(prog, i);
    DistinctSnoc(Keys(prog[..i]), KeyOf(prog[i]));
  }

  lemma ReduceStepLast(prog: seq<Rule>, i: nat, keys: seq<Key>, reduced: map<Key, Rule>)
    requires AllHeaded(prog) && i < |prog|
    requires forall k :: k in reduced <==> k in keys
    requires forall k :: k in keys ==> k in Keys(prog[..i]) && reduced[k] == prog[LastIndex(prog[..i], k)]
    ensures var k := KeyOf(prog[i]);
            var keys', reduced' := if k in reduced then keys else keys + [k], reduced[k := prog[i]];
            forall k' :: k' in keys' ==> k' in Keys(prog[..i + 1]) && reduced'[k'] == prog[LastIndex(prog[..i + 1], k')]
  {
    var k := KeyOf(prog[i]);
    var keys', reduced' := if k in reduced then keys else keys + [k], reduced[k := prog[i]];
    KeysPrefix(prog, i);
    forall k' | k' in keys' ensures k' in Keys(prog[..i + 1]) && reduced'[k'] == prog[LastIndex(prog[..i + 1], k')] {
      LastIndexPrefix(prog, i, k');
    }
  }

  lemma ReduceStep(prog: seq<Rule>, i: nat, keys: seq<Key>, reduced: map<Key, Rule>)
    requires AllHeaded(prog) && i < |prog| && ReduceInv(prog, i, keys, reduced)
    ensures var k := KeyOf(prog[i]);
            ReduceInv(prog, i + 1, if k in reduced then keys else keys + [k], reduced[k := prog[i]])
  {
    ReduceStepKeys(prog, i, keys);
    ReduceStepLast(prog, i, keys, reduced);
  }

  lemma ReduceDone(prog: seq<Rule>, keys: seq<Key>, reduced: map<Key, Rule>)
    requires AllHeaded(prog) && ReduceInv(prog, |prog|, keys, reduced)
    ensures seq(|keys|, j requires 0 <= j < |keys| => reduced[keys[j]]) == Reduced(prog)
  {
    assert prog[..|prog|] == prog;
  }

  /** reduce_prog (lines 208-218): fills an insertion-ordered dict, then takes its values. */
  method ReduceProg(prog: seq<Rule>) returns (result: seq<Rule>)
    requires AllHeaded(prog)
    ensures result == Reduced(prog)
  {
    var keys: seq<Key> := [];
    var reduced: map<Key, Rule> := map[];
    for i := 0 to |prog|
      invariant ReduceInv(prog, i, keys, reduced)
    {
      var rule := prog[i];
      var k := KeyOf(rule);
      ReduceStep(prog, i, keys, reduced);
      if k !in reduced {
        keys := keys + [k];
      }
      reduced := reduced[k := rule];
    }
    ReduceDone(prog, keys, reduced);
    result := seq(|keys|, j requires 0 <= j < |keys| => reduced[keys[j]]);
  }

  /**
   * The reduced program holds one rule per key: its keys are the input's
   * keys, each once, in first-occurrence order; each of its rules is the
   * last input rule with that key.
   */
  lemma ReducedCorrect(prog: seq<Rule>)
    requires AllHeaded(prog)
    ensures AllHeaded(Reduced(prog))
    ensures Keys(Reduced(prog)) == Distinct(Keys(prog))
    ensures forall i :: 0 <= i < |Reduced(prog)| ==>
              exists j :: 0 <= j < |prog| && Reduced(prog)[i] == prog[j] &&
                forall j' :: j < j' < |prog| ==> KeyOf(prog[j']) != KeyOf(prog[j])
  {
    var out := Reduced(prog);
    var keys := Distinct(Keys(prog));
    forall i | 0 <= i < |out|
      ensures exists j :: 0 <= j < |prog| && out[i] == prog[j] &&
                forall j' :: j < j' < |prog| ==> KeyOf(prog[j']) != KeyOf(prog[j])
    {
      var j := LastIndex(prog, keys[i]);
      assert out[i] == prog[j];
    }
  }

  /** Reducing a reduced program changes nothing. */
  lemma ReducedIdempotent(prog: seq<Rule>)
    requires AllHeaded(prog)
    ensures AllHeaded(Reduced(prog)) && Reduced(Reduced(prog)) == Reduced(prog)
  {
    ReducedCorrect(prog);
    var out := Reduced(prog);
    DistinctOfDistinct(Keys(out));
    forall i | 0 <= i < |out| ensures LastIndex(out, Keys(out)[i]) == i {
      var j := LastIndex(out, Keys(out)[i]);
      assert Keys(out)[j] == Keys(out)[i];
    }
  }

  /** Of two rules with the same key, reduce_prog keeps only the later one. */
  lemma ReducedPair(r1: Rule, r2: Rule)
    requires r1.head.Some? && r2.head.Some? && KeyOf(r1) == KeyOf(r2)
    ensures AllHeaded([r1, r2]) && Reduced([r1, r2]) == [r2]
  {
    var prog := [r1, r2];
    var k := KeyOf(r1);
    assert Keys(prog) == [k] + [k];
    DistinctSnoc([], k);
    DistinctSnoc([k], k);
    assert LastIndex(prog, k) == 1;
  }

  /** p(A,B):- q(A),r(B). and p(A,B):- r(B),q(A). reduce to one rule, the later one. */
  lemma ReducedExample()
    ensures var p := Literal("p", ["A", "B"], [In, In]);
            var q := Literal("q", ["A"], [In]);
            var r := Literal("r", ["B"], [In]);
            var prog := [Rule(Some(p), [q, r]), Rule(Some(p), [r, q])];
            AllHeaded(prog) && Reduced(prog) == [prog[1]]
  {
    var p := Literal("p", ["A", "B"], [In, In]);
    var q := Literal("q", ["A"], [In]);
    var r := Literal("r", ["B"], [In]);
    assert BodySigs([q, r]) == BodySigs([r, q]) by {
      assert forall x :: x in [q, r] <==> x in [r, q];
    }
    ReducedPair(Rule(Some(p), [q, r]), Rule(Some(p), [r, q]));
  }

  // ---------------------------------------------------------------------------
  // Subsumption

  /** A rule as rule_subsumes sees it: an optional head and a set of body signatures. */
  datatype SigRule = SigRule(head: Option<Sig>, body: set<Sig>)

  function Signature(rule: Rule): SigRule {
    SigRule(if rule.head.Some? then Some(SigOf(rule.head.value)) else None, BodySigs(rule.body))
  }

  /** rule_subsumes: a rule with a head never subsumes a constraint; otherwise body containment. */
  predicate RuleSubsumes(r1: SigRule, r2: SigRule) {
    !(r1.head.Some? && r2.head.None?) && r1.body <= r2.body
  }

  /** theory_subsumes: each rule of p2 is subsumed by some rule of p1. */
  predicate TheorySubsumes(p1: seq<SigRule>, p2: seq<SigRule>) {
    forall r2 :: r2 in p2 ==> exists r1 :: r1 in p1 && RuleSubsumes(r1, r2)
  }

  lemma RuleSubsumesPreorder(r1: SigRule, r2: SigRule, r3: SigRule)
    ensures RuleSubsumes(r1, r1)
    ensures RuleSubsumes(r1, r2) && RuleSubsumes(r2, r3) ==> RuleSubsumes(r1, r3)
    ensures r1.head.Some? && r2.head.None? ==> !RuleSubsumes(r1, r2)
  {
  }

  /** theory_subsumes is reflexive, and every program subsumes the empty one. */
  lemma TheorySubsumesReflexive(p1: seq<SigRule>)
    ensures TheorySubsumes(p1, p1)
    ensures TheorySubsumes(p1, [])
  {
    forall r | r in p1 ensures exists r1 :: r1 in p1 && RuleSubsumes(r1, r) {
      RuleSubsumesPreorder(r, r, r);
    }
  }

  /** theory_subsumes is transitive. */
  lemma TheorySubsumesTransitive(p1: seq<SigRule>, p2: seq<SigRule>, p3: seq<SigRule>)
    requires TheorySubsumes(p1, p2) && TheorySubsumes(p2, p3)
    ensures TheorySubsumes(p1, p3)
  {
    forall r3 | r3 in p3 ensures exists r1 :: r1 in p1 && RuleSubsumes(r1, r3) {
      var r2 :| r2 in p2 && RuleSubsumes(r2, r3);
      var r1 :| r1 in p1 && RuleSubsumes(r1, r2);
      RuleSubsumesPreorder(r1, r2, r3);
    }
  }

  /** {p(A):- q(A).} subsumes {p(A):- q(A), r(A).} and not the other way round. */
  lemma TheorySubsumesExample()
    ensures var q, r := ("q", ["A"]), ("r", ["A"]);
            var general := [SigRule(Some(("p", ["A"])), {q})];
            var special := [SigRule(Some(("p", ["A"])), {q, r})];
            TheorySubsumes(general, special) && !TheorySubsumes(special, general)
  {
    var q, r := ("q", ["A"]), ("r", ["A"]);
    var g := SigRule(Some(("p", ["A"])), {q});
    var sp := SigRule(Some(("p", ["A"])), {q, r});
    assert r != q by {
      assert r.0[0] != q.0[0];
    }
    assert RuleSubsumes(g, sp);
    assert !RuleSubsumes(sp, g) by {
      assert r in sp.body && r !in g.body;
    }
    assert forall x :: x in [sp] ==> x == sp;
    assert forall x :: x in [g] ==> x == g;
  }

  /** The test ignores variable renaming: :- c3(A), c2(A). does not subsume :- c3(B), c2(B). */
  lemma RenamingNotRecognised()
    ensures !RuleSubsumes(SigRule(None, {("c3", ["A"]), ("c2", ["A"])}), SigRule(None, {("c3", ["B"]), ("c2", ["B"])}))
    ensures !RuleSubsumes(SigRule(None, {("c3", ["B"]), ("c2", ["B"])}), SigRule(None, {("c3", ["A"]), ("c2", ["A"])}))
  {
    assert ("c3", ["A"]) !in {("c3", ["B"]), ("c2", ["B"])} by {
      assert ["A"][0] != ["B"][0];
    }
    assert ("c3", ["B"]) !in {("c3", ["A"]), ("c2", ["A"])} by {
      assert ["B"][0] != ["A"][0];
    }
  }

  /** A rule and its scheduled form subsume each other: scheduling keeps the signature. */
  lemma ScheduledSignature(rule: Rule)
    requires ModeOrderAsWritten(rule).Ordered?
    ensures Signature(ModeOrderAsWritten(rule).rule) == Signature(rule)
  {
    ScheduledSameLiterals(rule, map[]);
    var r := ModeOrderAsWritten(rule).rule;
    assert BodySigs(r.body) == BodySigs(rule.body);
  }

  // ---------------------------------------------------------------------------
  // flatten

  /** flatten: the concatenation of the sublists. */
  function Flatten<T>(xss: seq<seq<T>>): seq<T> {
    if xss == [] then [] else xss[0] + Flatten(xss[1..])
  }

  /** An element is in the flattened list exactly when it is in one of the sublists. */
  lemma {:induction false} FlattenMembers<T>(xss: seq<seq<T>>, x: T)
    ensures x in Flatten(xss) <==> exists i :: 0 <= i < |xss| && x in xss[i]
  {
    if xss != [] {
      FlattenMembers(xss[1..], x);
      if x in Flatten(xss[1..]) {
        var i :| 0 <= i < |xss[1..]| && x in xss[1..][i];
        assert x in xss[i + 1];
      }
      if exists i :: 0 <= i < |xss| && x in xss[i] {
        var i :| 0 <= i < |xss| && x in xss[i];
        if i > 0 {
          assert x in xss[1..][i - 1];
        }
      }
    }
  }

  function TotalLength<T>(xss: seq<seq<T>>): nat {
    if xss == [] then 0 else |xss[0]| + TotalLength(xss[1..])
  }

  lemma {:induction false} FlattenConcat<T>(a: seq<seq<T>>, b: seq<seq<T>>)
    ensures Flatten(a + b) == Flatten(a) + Flatten(b)
  {
    if a == [] {
      assert a + b == b;
    } else {
      FlattenConcat(a[1..], b);
      assert (a + b)[0] == a[0] && (a + b)[1..] == a[1..] + b;
      calc {
        Flatten(a + b);
        a[0] + Flatten(a[1..] + b);
        a[0] + (Flatten(a[1..]) + Flatten(b));
        (a[0] + Flatten(a[1..])) + Flatten(b);
      }
    }
  }

  lemma {:induction false} FlattenLength<T>(xss: seq<seq<T>>)
    ensures |Flatten(xss)| == TotalLength(xss)
  {
    if xss != [] {
      FlattenLength(xss[1..]);
    }
  }
}
