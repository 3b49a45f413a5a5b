/**
 * The search schedule: bias_order (popper/util.py:621-664).
 *
 * Without no_bias or order_space the schedule is one entry per program size
 * below max_size, at the largest variable and rule bounds.  Otherwise every
 * (rules, literals, variables) triple within the bias bounds is visited in
 * lexicographic order; a triple is kept when its estimated hypothesis space
 * C(predicates * vars^arity, literals) is non-zero and it is not a multi-rule
 * program of fewer than five literals.  Under order_space the kept triples
 * are then sorted, stably, by (space, literals).
 */
module SpaceEnumerator {
  import opened Wrappers
  import opened Seqs
  import opened Sorting
  import opened Config

  /** pow(b, e) on naturals; pow(0, 0) is 1 as in Python. */
  function Pow(b: nat, e: nat): (r: nat)
    ensures b > 0 ==> r > 0
  {
    if e == 0 then 1 else b * Pow(b, e - 1)
  }

  /** math.comb(n, k): the number of k-element subsets of an n-element set. */
  function Comb(n: nat, k: nat): (r: nat)
    ensures r == 0 <==> k > n
  {
    if k == 0 then 1
    else if n == 0 then 0
    else Comb(n - 1, k - 1) + Comb(n - 1, k)
  }

  /** There are n ways to choose one element. */
  lemma {:induction false} CombOne(n: nat)
    ensures Comb(n, 1) == n
  {
    if n > 0 {
      CombOne(n - 1);
    }
  }

  /** The settings bias_order reads. */
  datatype Bias = Bias(noBias: bool, orderSpace: bool, maxVars: nat, maxRules: nat,
                       maxBody: nat, arity: nat, predicates: nat)

  function BiasOf(s: Settings): Bias
    reads s`noBias, s`orderSpace, s`maxVars, s`maxRules, s`maxBody, s`maxArity, s`bodyPreds
  {
    Bias(s.noBias, s.orderSpace, s.maxVars, s.maxRules, s.maxBody, s.maxArity, |s.bodyPreds| + 1)
  }

  /** The expanded enumeration is used under no_bias or order_space. */
  predicate Expanded(b: Bias) {
    b.noBias || b.orderSpace
  }

  function MinRules(b: Bias): nat {
    if b.noBias then 1 else b.maxRules
  }

  function MinVars(b: Bias): nat {
    if b.noBias then 1 else b.maxVars
  }

  /** The largest program size for a rule count: each rule has a head and at most max_body literals. */
  function MaxLiterals(b: Bias, rules: nat): nat {
    (1 + b.maxBody) * rules
  }

  /** The hypothesis-space estimate hspace. */
  function Space(b: Bias, vars: nat, literals: nat): nat {
    Comb(b.predicates * Pow(vars, b.arity), literals)
  }

  /** More variables than literals * arity - 1 leave every literal disconnected. */
  predicate TooManyVars(b: Bias, literals: nat, vars: nat) {
    vars > literals * b.arity - 1
  }

  /** The triple survives both skips. */
  predicate Kept(b: Bias, rules: nat, literals: nat, vars: nat) {
    Space(b, vars, literals) != 0 && !(rules > 1 && literals < 5)
  }

  /** A triple the expanded enumeration produces, counting rules from r. */
  predicate AdmissibleFrom(b: Bias, r: nat, e: Entry) {
    && r <= e.rules <= b.maxRules
    && 1 <= e.literals <= MaxLiterals(b, e.rules)
    && MinVars(b) <= e.vars <= b.maxVars
    && !TooManyVars(b, e.literals, e.vars)
    && Kept(b, e.rules, e.literals, e.vars)
    && e.space == Some(Space(b, e.vars, e.literals))
  }

  predicate Admissible(b: Bias, e: Entry) {
    AdmissibleFrom(b, MinRules(b), e)
  }

  // ---------------------------------------------------------------------------
  // The expanded enumeration, one loop level per function

  /** The innermost loop from size_vars = v, stopping at the break. */
  function VarSweep(b: Bias, rules: nat, literals: nat, v: nat): seq<Entry>
    decreases b.maxVars + 1 - v
  {
    if v > b.maxVars || TooManyVars(b, literals, v) then []
    else
      (if Kept(b, rules, literals, v) then [Entry(literals, v, rules, Some(Space(b, v, literals)))] else [])
      + VarSweep(b, rules, literals, v + 1)
  }

  /** The middle loop from size_literals = l. */
  function LitSweep(b: Bias, rules: nat, l: nat): seq<Entry>
    decreases MaxLiterals(b, rules) + 1 - l
  {
    if l > MaxLiterals(b, rules) then []
    else VarSweep(b, rules, l, MinVars(b)) + LitSweep(b, rules, l + 1)
  }

  /** The outer loop from size_rules = r. */
  function RuleSweep(b: Bias, r: nat): seq<Entry>
    decreases b.maxRules + 1 - r
  {
    if r > b.maxRules then []
    else LitSweep(b, r, 1) + RuleSweep(b, r + 1)
  }

  /** The list ret after the three loops. */
  function Candidates(b: Bias): seq<Entry> {
    RuleSweep(b, MinRules(b))
  }

  /** The order_space sort key (space, literals); a missing space counts as 0. */
  function SpaceKey(e: Entry): nat {
    if e.space.Some? then e.space.value else 0
  }

  predicate SpaceLe(x: Entry, y: Entry) {
    SpaceKey(x) < SpaceKey(y) || (SpaceKey(x) == SpaceKey(y) && x.literals <= y.literals)
  }

  function ExpandedOrder(b: Bias): seq<Entry> {
    if b.orderSpace then SortBy(Candidates(b), SpaceLe) else Candidates(b)
  }

  /** The list comprehension of line 624. */
  function SimpleOrder(b: Bias, maxSize: int): seq<Entry> {
    seq(if maxSize > 1 then maxSize - 1 else 0, i requires 0 <= i => Entry(i + 1, b.maxVars, b.maxRules, None))
  }

  /** What bias_order returns. */
  function SearchOrder(b: Bias, maxSize: int): seq<Entry> {
    if Expanded(b) then ExpandedOrder(b) else SimpleOrder(b, maxSize)
  }

  // ---------------------------------------------------------------------------
  // Which triples are enumerated

  lemma {:induction false} VarSweepMembers(b: Bias, rules: nat, literals: nat, v: nat, e: Entry)
    ensures e in VarSweep(b, rules, literals, v) <==>
            && e.rules == rules && e.literals == literals
            && v <= e.vars <= b.maxVars && !TooManyVars(b, literals, e.vars)
            && Kept(b, rules, literals, e.vars) && e.space == Some(Space(b, e.vars, literals))
    decreases b.maxVars + 1 - v
  {
    if !(v > b.maxVars || TooManyVars(b, literals, v)) {
      VarSweepMembers(b, rules, literals, v + 1, e);
    }
  }

  lemma {:induction false} LitSweepMembers(b: Bias, rules: nat, l: nat, e: Entry)
    ensures e in LitSweep(b, rules, l) <==>
            && e.rules == rules && l <= e.literals <= MaxLiterals(b, rules)
            && MinVars(b) <= e.vars <= b.maxVars && !TooManyVars(b, e.literals, e.vars)
            && Kept(b, rules, e.literals, e.vars) && e.space == Some(Space(b, e.vars, e.literals))
    decreases MaxLiterals(b, rules) + 1 - l
  {
    if l <= MaxLiterals(b, rules) {
      VarSweepMembers(b, rules, l, MinVars(b), e);
      LitSweepMembers(b, rules, l + 1, e);
    }
  }

  lemma {:induction false} RuleSweepMembers(b: Bias, r: nat, e: Entry)
    ensures e in RuleSweep(b, r) <==> AdmissibleFrom(b, r, e)
    decreases b.maxRules + 1 - r
  {
    if r <= b.maxRules {
      LitSweepMembers(b, r, 1, e);
      RuleSweepMembers(b, r + 1, e);
    }
  }

  /**
   * The expanded enumeration yields exactly the triples within the bias
   * bounds that are connected, have a non-zero space and are not multi-rule
   * programs of fewer than five literals.
   */
  lemma CandidatesMembers(b: Bias, e: Entry)
    ensures e in Candidates(b) <==> Admissible(b, e)
  {
    RuleSweepMembers(b, MinRules(b), e);
  }

  // ---------------------------------------------------------------------------
  // In which order

  /** Lexicographic order on (rules, literals, vars), the nesting of the loops. */
  predicate LoopLess(x: Entry, y: Entry) {
    || x.rules < y.rules
    || (x.rules == y.rules && x.literals < y.literals)
    || (x.rules == y.rules && x.literals == y.literals && x.vars < y.vars)
  }

  predicate Ascending(s: seq<Entry>) {
    forall i, j :: 0 <= i < j < |s| ==> LoopLess(s[i], s[j])
  }

  lemma AscendingConcat(a: seq<Entry>, c: seq<Entry>)
    requires Ascending(a) && Ascending(c)
    requires forall x, y :: x in a && y in c ==> LoopLess(x, y)
    ensures Ascending(a + c)
  {
    forall i, j | 0 <= i < j < |a + c| ensures LoopLess((a + c)[i], (a + c)[j]) {
      if j < |a| {
        assert (a + c)[i] == a[i] && (a + c)[j] == a[j];
      } else if i >= |a| {
        assert (a + c)[i] == c[i - |a|] && (a + c)[j] == c[j - |a|];
      } else {
        assert (a + c)[i] in a && (a + c)[j] in c;
      }
    }
  }

  lemma {:induction false} VarSweepAscending(b: Bias, rules: nat, literals: nat, v: nat)
    ensures Ascending(VarSweep(b, rules, literals, v))
    decreases b.maxVars + 1 - v
  {
    if !(v > b.maxVars || TooManyVars(b, literals, v)) {
      var rest := VarSweep(b, rules, literals, v + 1);
      VarSweepAscending(b, rules, literals, v + 1);
      forall y | y in rest ensures v < y.vars && y.rules == rules && y.literals == literals {
        VarSweepMembers(b, rules, literals, v + 1, y);
      }
      var head := if Kept(b, rules, literals, v) then [Entry(literals, v, rules, Some(Space(b, v, literals)))] else [];
      AscendingConcat(head, rest);
    }
  }

  lemma {:induction false} LitSweepAscending(b: Bias, rules: nat, l: nat)
    ensures Ascending(LitSweep(b, rules, l))
    decreases MaxLiterals(b, rules) + 1 - l
  {
    if l <= MaxLiterals(b, rules) {
      var block := VarSweep(b, rules, l, MinVars(b));
      var rest := LitSweep(b, rules, l + 1);
      VarSweepAscending(b, rules, l, MinVars(b));
      LitSweepAscending(b, rules, l + 1);
      forall x, y | x in block && y in rest ensures LoopLess(x, y) {
        VarSweepMembers(b, rules, l, MinVars(b), x);
        LitSweepMembers(b, rules, l + 1, y);
      }
      AscendingConcat(block, rest);
    }
  }

  lemma {:induction false} RuleSweepAscending(b: Bias, r: nat)
    ensures Ascending(RuleSweep(b, r))
    decreases b.maxRules + 1 - r
  {
    if r <= b.maxRules {
      var block := LitSweep(b, r, 1);
      var rest := RuleSweep(b, r + 1);
      LitSweepAscending(b, r, 1);
      RuleSweepAscending(b, r + 1);
      forall x, y | x in block && y in rest ensures LoopLess(x, y) {
        LitSweepMembers(b, r, 1, x);
        RuleSweepMembers(b, r + 1, y);
      }
      AscendingConcat(block, rest);
    }
  }

  /** SpaceLe is the order of a sort key: total and transitive. */
  lemma SpaceLeTotalPreorder()
    ensures TotalPreorder(SpaceLe)
  {
  }

  /**
   * The expanded schedule holds each admissible triple once.  Without
   * order_space it follows the loops' (rules, literals, vars) order; with it,
   * it is sorted by (space, literals), and triples with equal keys keep the
   * loops' order.
   */
  lemma ExpandedOrderCorrect(b: Bias)
    ensures forall e :: e in ExpandedOrder(b) <==> Admissible(b, e)
    ensures multiset(ExpandedOrder(b)) == multiset(Candidates(b))
    ensures Ascending(Candidates(b)) && NoDuplicates(Candidates(b))
    ensures !b.orderSpace ==> ExpandedOrder(b) == Candidates(b)
    ensures b.orderSpace ==> SortedBy(SpaceLe, ExpandedOrder(b))
    ensures b.orderSpace ==> forall e :: SameKey(ExpandedOrder(b), SpaceLe, e) == SameKey(Candidates(b), SpaceLe, e)
  {
    RuleSweepAscending(b, MinRules(b));
    forall e ensures e in ExpandedOrder(b) <==> Admissible(b, e) {
      CandidatesMembers(b, e);
      assert e in ExpandedOrder(b) <==> e in multiset(ExpandedOrder(b));
    }
    if b.orderSpace {
      SpaceLeTotalPreorder();
      SortBySorted(Candidates(b), SpaceLe);
      forall e ensures SameKey(ExpandedOrder(b), SpaceLe, e) == SameKey(Candidates(b), SpaceLe, e) {
        SortByStable(Candidates(b), SpaceLe, e);
      }
    }
  }

  /** The simple schedule: one entry per size from 1 below max_size, with no space estimate. */
  lemma SimpleOrderCorrect(b: Bias, maxSize: int)
    ensures forall e :: e in SimpleOrder(b, maxSize) <==>
              1 <= e.literals < maxSize && e.vars == b.maxVars && e.rules == b.maxRules && e.space == None
    ensures forall i, j :: 0 <= i < j < |SimpleOrder(b, maxSize)| ==>
              SimpleOrder(b, maxSize)[i].literals < SimpleOrder(b, maxSize)[j].literals
  {
    var s := SimpleOrder(b, maxSize);
    forall e: Entry | 1 <= e.literals < maxSize && e.vars == b.maxVars && e.rules == b.maxRules && e.space == None
      ensures e in s
    {
      assert s[e.literals - 1] == e;
    }
  }

  /** Under no_bias or order_space the max_size argument has no effect (line 634 rebinds it). */
  lemma ExpandedIgnoresMaxSize(b: Bias, m1: int, m2: int)
    requires Expanded(b)
    ensures SearchOrder(b, m1) == SearchOrder(b, m2)
  {
  }

  // ---------------------------------------------------------------------------
  // The imperative source

  lemma AppendAssoc<T>(a: seq<T>, c: seq<T>, d: seq<T>, e: seq<T>)
    ensures a + (c + d) + e == (a + c) + d + e
  {
  }

  /** The innermost loop (lines 640-655), appending to ret. */
  method SweepVars(b: Bias, rules: nat, literals: nat, ret: seq<Entry>) returns (ret': seq<Entry>)
    ensures ret' == ret + VarSweep(b, rules, literals, MinVars(b))
  {
    ret' := ret;
    var sizeVars := MinVars(b);
    while sizeVars <= b.maxVars
      invariant MinVars(b) <= sizeVars <= b.maxVars + 1
      invariant ret + VarSweep(b, rules, literals, MinVars(b)) == ret' + VarSweep(b, rules, literals, sizeVars)
      decreases b.maxVars + 1 - sizeVars
    {
      var maxPossibleVars := literals * b.arity - 1;
      if sizeVars > maxPossibleVars {
        break;
      }
      var hspace := Comb(b.predicates * Pow(sizeVars, b.arity), literals);
      if hspace == 0 {
        sizeVars := sizeVars + 1;
        continue;
      }
      if rules > 1 && literals < 5 {
        sizeVars := sizeVars + 1;
        continue;
      }
      AppendAssoc(ret', [Entry(literals, sizeVars, rules, Some(hspace))], VarSweep(b, rules, literals, sizeVars + 1), []);
      ret' := ret' + [Entry(literals, sizeVars, rules, Some(hspace))];
      sizeVars := sizeVars + 1;
    }
    assert ret' + [] == ret';
  }

  /** The middle loop (lines 635-655) for one rule count, appending to ret. */
  method SweepLiterals(b: Bias, rules: nat, ret: seq<Entry>) returns (ret': seq<Entry>)
    ensures ret' == ret + LitSweep(b, rules, 1)
  {
    ret' := ret;
    var maxSize := (1 + b.maxBody) * rules;
    var sizeLiterals := 1;
    while sizeLiterals <= maxSize
      invariant 1 <= sizeLiterals <= maxSize + 1
      invariant ret + LitSweep(b, rules, 1) == ret' + LitSweep(b, rules, sizeLiterals)
      decreases maxSize + 1 - sizeLiterals
    {
      var next := SweepVars(b, rules, sizeLiterals, ret');
      AppendAssoc(ret', VarSweep(b, rules, sizeLiterals, MinVars(b)), LitSweep(b, rules, sizeLiterals + 1), []);
      ret' := next;
      sizeLiterals := sizeLiterals + 1;
    }
    assert ret' + [] == ret';
  }

  /** The outer loop of bias_order (lines 630-655): rule counts from min_rules to max_rules. */
  method SweepRules(b: Bias) returns (ret: seq<Entry>)
    ensures ret == Candidates(b)
  {
    ret := [];
    var minRules := b.maxRules;
    if b.noBias {
      minRules := 1;
    }
    var sizeRules := minRules;
    while sizeRules <= b.maxRules
      invariant minRules == MinRules(b) && minRules <= sizeRules <= b.maxRules + 1
      invariant Candidates(b) == ret + RuleSweep(b, sizeRules)
      decreases b.maxRules + 1 - sizeRules
    {
      var next := SweepLiterals(b, sizeRules, ret);
      AppendAssoc(ret, LitSweep(b, sizeRules, 1), RuleSweep(b, sizeRules + 1), []);
      ret := next;
      sizeRules := sizeRules + 1;
    }
    assert ret + [] == ret;
  }

  /** bias_order (lines 621-664): returns the schedule; the expanded one is also stored in the settings. */
  method BiasOrder(settings: Settings, maxSize: int) returns (order: seq<Entry>)
    modifies settings`searchOrder
    ensures order == SearchOrder(BiasOf(settings), maxSize)
    ensures !Expanded(BiasOf(settings)) ==> settings.searchOrder == old(settings.searchOrder)
    ensures Expanded(BiasOf(settings)) ==> settings.searchOrder == order
  {
    var b := BiasOf(settings);
    if !(settings.noBias || settings.orderSpace) {
      return SimpleOrder(b, maxSize);
    }
    var ret := SweepRules(b);
    if settings.orderSpace {
      ret := SortBy(ret, SpaceLe);
    }
    settings.searchOrder := ret;
    return ret;
  }
}
