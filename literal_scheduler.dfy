/**
 * Mode-directed body ordering: order_rule (popper/util.py:261-300).
 *
 * The grounded variables start as the head's input variables.  Each step
 * scans the remaining body literals (set(body), in first-occurrence order)
 * and takes the first "eager" literal -- a generator, or a ready literal
 * whose predicate differs from the head's -- and otherwise the first ready
 * literal.  A literal is ready when its inputs are grounded.  The chosen
 * literal's outputs become grounded.  When no literal is ready the rule
 * cannot be grounded and a ValueError is raised.
 */
module LiteralScheduler {
  import opened Wrappers
  import opened Seqs
  import opened Literals
  import opened Config
  import opened RecallScheduler

  /** What order_rule returns or raises. */
  datatype Ordering = Ordered(rule: Rule) | ValueError(message: string)

  /** All input variables of lit are grounded. */
  predicate Ready(lit: Literal, grounded: set<string>) {
    Inputs(lit) <= grounded
  }

  /** Taken as soon as the scan reaches it: a generator, or a ready non-recursive literal. */
  predicate Eager(head: Option<Literal>, grounded: set<string>, lit: Literal) {
    || IsGenerator(lit)
    || (Ready(lit, grounded) && head.Some? && lit.pred != head.value.pred)
  }

  /**
   * The choice rule of one step over the remaining literals rem: the literal
   * taken is ready, and it is eager whenever some remaining literal is.
   */
  ghost predicate Preferred(head: Option<Literal>, grounded: set<string>, rem: seq<Literal>, lit: Literal) {
    && Ready(lit, grounded)
    && ((exists x :: x in rem && Eager(head, grounded, x)) ==> Eager(head, grounded, lit))
  }

  function FirstEager(head: Option<Literal>, grounded: set<string>, pool: seq<Literal>): (i: nat)
    ensures i <= |pool|
    ensures i < |pool| ==> Eager(head, grounded, pool[i])
    ensures forall j :: 0 <= j < i ==> !Eager(head, grounded, pool[j])
  {
    if pool == [] then 0
    else if Eager(head, grounded, pool[0]) then 0
    else 1 + FirstEager(head, grounded, pool[1..])
  }

  function FirstReady(grounded: set<string>, pool: seq<Literal>): (i: nat)
    ensures i <= |pool|
    ensures i < |pool| ==> Ready(pool[i], grounded)
    ensures forall j :: 0 <= j < i ==> !Ready(pool[j], grounded)
  {
    if pool == [] then 0
    else if Ready(pool[0], grounded) then 0
    else 1 + FirstReady(grounded, pool[1..])
  }

  /** The literal one scan (lines 274-290) selects, or None when nothing is ready. */
  function Select(head: Option<Literal>, grounded: set<string>, pool: seq<Literal>): (r: Option<nat>)
    ensures r.Some? ==> r.value < |pool| && Preferred(head, grounded, pool, pool[r.value])
    ensures r.None? <==> forall x :: x in pool ==> !Ready(x, grounded)
  {
    var e := FirstEager(head, grounded, pool);
    if e < |pool| then
      EagerReady(head, grounded, pool[e]);
      assert pool[e] in pool;
      Some(e)
    else
      var k := FirstReady(grounded, pool);
      assert forall x :: x in pool ==> !Eager(head, grounded, x) by {
        forall x | x in pool ensures !Eager(head, grounded, x) {
          var j :| 0 <= j < |pool| && pool[j] == x;
        }
      }
      if k < |pool| then
        assert pool[k] in pool;
        Some(k)
      else
        assert forall x :: x in pool ==> !Ready(x, grounded) by {
          forall x | x in pool ensures !Ready(x, grounded) {
            var j :| 0 <= j < |pool| && pool[j] == x;
          }
        }
        None
  }

  /** An eager literal is ready: a generator has no inputs. */
  lemma EagerReady(head: Option<Literal>, grounded: set<string>, lit: Literal)
    requires Eager(head, grounded, lit)
    ensures Ready(lit, grounded)
  {
    if IsGenerator(lit) {
      GeneratorAllOutputs(lit);
    }
  }

  /** The order the while loop (lines 273-299) produces, or None when it raises. */
  function Schedule(head: Option<Literal>, grounded: set<string>, pool: seq<Literal>): Option<seq<Literal>>
    decreases |pool|
  {
    if pool == [] then Some([])
    else
      var sel := Select(head, grounded, pool);
      if sel.None? then None
      else
        var lit := pool[sel.value];
        Then([lit], Schedule(head, grounded + Outputs(lit), Without(pool, lit)))
  }

  /** Keeps a prefix in front of a schedule that may fail. */
  function Then(prefix: seq<Literal>, rest: Option<seq<Literal>>): (r: Option<seq<Literal>>)
    ensures r.Some? <==> rest.Some?
    ensures r.Some? ==> |r.value| == |prefix| + |rest.value|
  {
    if rest.Some? then Some(prefix + rest.value) else None
  }

  lemma ThenAssoc(a: seq<Literal>, b: seq<Literal>, rest: Option<seq<Literal>>)
    ensures Then(a, Then(b, rest)) == Then(a + b, rest)
    ensures Then([], rest) == rest
  {
    if rest.Some? {
      assert a + (b + rest.value) == (a + b) + rest.value;
      assert [] + rest.value == rest.value;
    }
  }

  lemma ScheduleUnfold(head: Option<Literal>, grounded: set<string>, pool: seq<Literal>)
    requires pool != [] && Select(head, grounded, pool).Some?
    ensures var lit := pool[Select(head, grounded, pool).value];
            Schedule(head, grounded, pool) == Then([lit], Schedule(head, grounded + Outputs(lit), Without(pool, lit)))
  {
  }

  function HeadInputs(head: Option<Literal>): set<string> {
    if head.Some? then Inputs(head.value) else {}
  }

  /** The ValueError text: the f-string interpolates selected_literal, which is None there. */
  function GroundingMessage(rule: Rule): string {
    "None in clause " + FormatRule(rule) + " could not be grounded"
  }

  /** order_rule's mode-directed branch as written: the test at line 267 never holds. */
  function ModeOrderAsWritten(rule: Rule): Ordering {
    var s := Schedule(rule.head, HeadInputs(rule.head), Distinct(rule.body));
    if s.Some? then Ordered(Rule(rule.head, s.value)) else ValueError(GroundingMessage(rule))
  }

  /**
   * order_rule's mode-directed branch with the test at line 267 read as intended:
   * a head without inputs returns the rule unchanged, its body unscheduled.
   */
  function ModeOrder(rule: Rule): (r: Ordering)
    ensures rule.head.Some? && Inputs(rule.head.value) == {} ==> r == Ordered(rule)
    ensures !(rule.head.Some? && Inputs(rule.head.value) == {}) ==> r == ModeOrderAsWritten(rule)
  {
    if rule.head.Some? && Inputs(rule.head.value) == {} then Ordered(rule)
    else ModeOrderAsWritten(rule)
  }

  // ---------------------------------------------------------------------------
  // Grounding safety

  /** Every literal is ready once the literals before it have run. */
  predicate GroundingSafe(grounded: set<string>, s: seq<Literal>)
    decreases |s|
  {
    s == [] || (Ready(s[0], grounded) && GroundingSafe(grounded + Outputs(s[0]), s[1..]))
  }

  /** The output variables of a sequence of literals. */
  function OutputsOf(s: seq<Literal>): set<string>
    decreases |s|
  {
    if s == [] then {} else Outputs(s[0]) + OutputsOf(s[1..])
  }

  /**
   * Grounding safety read position by position: each literal's inputs are
   * among the starting variables and the outputs of the literals before it.
   */
  lemma {:induction false} GroundingSafeAt(grounded: set<string>, s: seq<Literal>)
    ensures GroundingSafe(grounded, s) <==>
            forall k :: 0 <= k < |s| ==> Inputs(s[k]) <= grounded + OutputsOf(s[..k])
    decreases |s|
  {
    if s != [] {
      var g' := grounded + Outputs(s[0]);
      GroundingSafeAt(g', s[1..]);
      forall k | 0 < k < |s|
        ensures grounded + OutputsOf(s[..k]) == g' + OutputsOf(s[1..][..k - 1])
      {
        assert s[..k][1..] == s[1..][..k - 1];
      }
      assert OutputsOf(s[..0]) == {};
      if forall k :: 0 <= k < |s| ==> Inputs(s[k]) <= grounded + OutputsOf(s[..k]) {
        forall k | 0 <= k < |s| - 1 ensures Inputs(s[1..][k]) <= g' + OutputsOf(s[1..][..k]) {
          assert s[1..][k] == s[k + 1];
        }
      }
      if GroundingSafe(grounded, s) {
        forall k | 0 < k < |s| ensures Inputs(s[k]) <= grounded + OutputsOf(s[..k]) {
          assert s[1..][k - 1] == s[k];
        }
      }
    }
  }

  /** Running a ready literal first keeps the rest of a safe order safe. */
  lemma {:induction false} SafeWithout(grounded: set<string>, s: seq<Literal>, lit: Literal)
    requires GroundingSafe(grounded, s) && Ready(lit, grounded)
    ensures GroundingSafe(grounded + Outputs(lit), Without(s, lit))
    decreases |s|
  {
    if s != [] {
      if s[0] == lit {
        SafeWithout(grounded + Outputs(lit), s[1..], lit);
        assert grounded + Outputs(lit) + Outputs(lit) == grounded + Outputs(lit);
        assert Without(s, lit) == [] + Without(s[1..], lit) == Without(s[1..], lit);
        assert GroundingSafe(grounded + Outputs(lit), Without(s[1..], lit));
      } else {
        SafeWithout(grounded + Outputs(s[0]), s[1..], lit);
        assert grounded + Outputs(s[0]) + Outputs(lit) == grounded + Outputs(lit) + Outputs(s[0]);
        assert Without(s, lit) == [s[0]] + Without(s[1..], lit);
        assert ([s[0]] + Without(s[1..], lit))[1..] == Without(s[1..], lit);
      }
    }
  }

  // ---------------------------------------------------------------------------
  // Properties of the schedule

  /** A successful schedule is grounding-safe. */
  lemma {:induction false} ScheduleSafe(head: Option<Literal>, grounded: set<string>, pool: seq<Literal>)
    requires Schedule(head, grounded, pool).Some?
    ensures GroundingSafe(grounded, Schedule(head, grounded, pool).value)
    decreases |pool|
  {
    if pool != [] {
      var lit := pool[Select(head, grounded, pool).value];
      ScheduleSafe(head, grounded + Outputs(lit), Without(pool, lit));
      var out := Schedule(head, grounded, pool).value;
      assert out[0] == lit && out[1..] == Schedule(head, grounded + Outputs(lit), Without(pool, lit)).value;
    }
  }

  /** A successful schedule holds exactly the literals of the pool. */
  lemma {:induction false} ScheduleMembers(head: Option<Literal>, grounded: set<string>, pool: seq<Literal>)
    requires Schedule(head, grounded, pool).Some?
    ensures forall x :: x in Schedule(head, grounded, pool).value <==> x in pool
    decreases |pool|
  {
    if pool != [] {
      var lit := pool[Select(head, grounded, pool).value];
      ScheduleMembers(head, grounded + Outputs(lit), Without(pool, lit));
    }
  }

  /** On a pool without duplicates a successful schedule is a permutation of it. */
  lemma {:induction false} SchedulePermutation(head: Option<Literal>, grounded: set<string>, pool: seq<Literal>)
    requires NoDuplicates(pool) && Schedule(head, grounded, pool).Some?
    ensures multiset(Schedule(head, grounded, pool).value) == multiset(pool)
    decreases |pool|
  {
    if pool != [] {
      var lit := pool[Select(head, grounded, pool).value];
      var rest := Without(pool, lit);
      WithoutDistinct(pool, lit);
      SchedulePermutation(head, grounded + Outputs(lit), rest);
      ScheduleUnfold(head, grounded, pool);
      ConsPermutation(pool, lit, rest, Schedule(head, grounded + Outputs(lit), rest).value);
    }
  }

  /**
   * The greedy schedule fails only when no grounding-safe order of the same
   * literals exists: whenever one does, the schedule succeeds.
   */
  lemma {:induction false} ScheduleComplete(head: Option<Literal>, grounded: set<string>, pool: seq<Literal>, s: seq<Literal>)
    requires GroundingSafe(grounded, s)
    requires forall x :: x in s <==> x in pool
    ensures Schedule(head, grounded, pool).Some?
    decreases |pool|
  {
    if pool != [] {
      assert pool[0] in s;
      assert s[0] in pool;
      var lit := pool[Select(head, grounded, pool).value];
      SafeWithout(grounded, s, lit);
      ScheduleComplete(head, grounded + Outputs(lit), Without(pool, lit), Without(s, lit));
    }
  }

  /** Step k of a successful schedule follows the choice rule against the literals still left. */
  lemma {:induction false} SchedulePriority(head: Option<Literal>, grounded: set<string>, pool: seq<Literal>, k: nat)
    requires Schedule(head, grounded, pool).Some? && k < |Schedule(head, grounded, pool).value|
    ensures var out := Schedule(head, grounded, pool).value;
            Preferred(head, grounded + OutputsOf(out[..k]), out[k..], out[k])
    decreases |pool|
  {
    var lit := pool[Select(head, grounded, pool).value];
    if k == 0 {
      ScheduleMembers(head, grounded, pool);
      SchedulePriorityFirst(head, grounded, pool);
    } else {
      SchedulePriority(head, grounded + Outputs(lit), Without(pool, lit), k - 1);
      SchedulePriorityLater(head, grounded, pool, k);
    }
  }

  lemma SchedulePriorityFirst(head: Option<Literal>, grounded: set<string>, pool: seq<Literal>)
    requires Schedule(head, grounded, pool).Some? && pool != []
    requires forall x :: x in Schedule(head, grounded, pool).value <==> x in pool
    ensures var out := Schedule(head, grounded, pool).value;
            |out| > 0 && Preferred(head, grounded + OutputsOf(out[..0]), out[0..], out[0])
  {
    var out := Schedule(head, grounded, pool).value;
    assert out[..0] == [] && out[0..] == out;
    assert grounded + OutputsOf(out[..0]) == grounded;
  }

  lemma OutputsOfCons(lit: Literal, s: seq<Literal>)
    ensures OutputsOf([lit] + s) == Outputs(lit) + OutputsOf(s)
  {
    assert ([lit] + s)[1..] == s;
  }

  lemma SchedulePriorityLater(head: Option<Literal>, grounded: set<string>, pool: seq<Literal>, k: nat)
    requires Schedule(head, grounded, pool).Some? && 0 < k < |Schedule(head, grounded, pool).value|
    requires var lit := pool[Select(head, grounded, pool).value];
             var g' := grounded + Outputs(lit);
             var rest := Schedule(head, g', Without(pool, lit));
             rest.Some? && k - 1 < |rest.value| &&
             Preferred(head, g' + OutputsOf(rest.value[..k - 1]), rest.value[k - 1..], rest.value[k - 1])
    ensures var out := Schedule(head, grounded, pool).value;
            Preferred(head, grounded + OutputsOf(out[..k]), out[k..], out[k])
  {
    var out := Schedule(head, grounded, pool).value;
    var lit := pool[Select(head, grounded, pool).value];
    var g' := grounded + Outputs(lit);
    var rest := Schedule(head, g', Without(pool, lit)).value;
    ScheduleUnfold(head, grounded, pool);
    assert out == [lit] + rest;
    ConsSlices(lit, rest, k);
    OutputsOfCons(lit, rest[..k - 1]);
    var before := out[..k];
    assert grounded + OutputsOf(before) == g' + OutputsOf(rest[..k - 1]);
    assert out[k..] == rest[k - 1..] && out[k] == rest[k - 1];
  }

  // ---------------------------------------------------------------------------
  // Properties of order_rule's mode-directed branch

  /**
   * Ordered bodies are grounding-safe permutations of the distinct body
   * literals, given the head's inputs; the head is kept.
   */
  lemma ModeOrderSound(rule: Rule)
    requires ModeOrderAsWritten(rule).Ordered?
    ensures var r := ModeOrderAsWritten(rule).rule;
            && r.head == rule.head
            && multiset(r.body) == multiset(Distinct(rule.body))
            && forall k :: 0 <= k < |r.body| ==> Inputs(r.body[k]) <= HeadInputs(rule.head) + OutputsOf(r.body[..k])
  {
    var g := HeadInputs(rule.head);
    var pool := Distinct(rule.body);
    SchedulePermutation(rule.head, g, pool);
    ScheduleSafe(rule.head, g, pool);
    GroundingSafeAt(g, Schedule(rule.head, g, pool).value);
  }

  /** s orders exactly the given body literals and is grounding-safe from the given variables. */
  ghost predicate SafeOrdering(grounded: set<string>, body: seq<Literal>, s: seq<Literal>) {
    && (forall x :: x in s <==> x in body)
    && GroundingSafe(grounded, s)
  }

  /** The ValueError is raised exactly when no grounding-safe order of the body literals exists. */
  lemma ModeOrderFailsIff(rule: Rule)
    ensures ModeOrderAsWritten(rule).ValueError? <==> !exists s :: SafeOrdering(HeadInputs(rule.head), rule.body, s)
    ensures ModeOrderAsWritten(rule).ValueError? ==> ModeOrderAsWritten(rule).message == GroundingMessage(rule)
  {
    var g := HeadInputs(rule.head);
    var pool := Distinct(rule.body);
    if ModeOrderAsWritten(rule).Ordered? {
      var out := Schedule(rule.head, g, pool).value;
      ScheduleSafe(rule.head, g, pool);
      ScheduleMembers(rule.head, g, pool);
      assert SafeOrdering(g, rule.body, out);
    } else {
      forall s | SafeOrdering(g, rule.body, s)
        ensures false
      {
        ScheduleComplete(rule.head, g, pool, s);
      }
    }
  }

  /** A body literal whose input never gets bound makes the rule fail to ground. */
  lemma UngroundableInput(rule: Rule, v: string)
    requires rule.head.Some? ==> v !in Inputs(rule.head.value)
    requires forall x :: x in rule.body ==> v !in Outputs(x)
    requires exists x :: x in rule.body && v in Inputs(x)
    ensures ModeOrderAsWritten(rule).ValueError?
  {
    ModeOrderFailsIff(rule);
    forall s | SafeOrdering(HeadInputs(rule.head), rule.body, s)
      ensures false
    {
      var x :| x in rule.body && v in Inputs(x);
      var k :| 0 <= k < |s| && s[k] == x;
      OutputsOfMembers(s[..k], v);
      GroundingSafeAt(HeadInputs(rule.head), s);
    }
  }

  lemma {:induction false} OutputsOfMembers(s: seq<Literal>, v: string)
    ensures v in OutputsOf(s) <==> exists x :: x in s && v in Outputs(x)
    decreases |s|
  {
    if s != [] {
      OutputsOfMembers(s[1..], v);
      assert forall x :: x in s <==> x == s[0] || x in s[1..];
    }
  }

  // ---------------------------------------------------------------------------
  // The test at line 267

  /** p(A) with A an output argument, and body q(A) with A an input argument. */
  function HeadWithoutInputs(): Rule {
    Rule(Some(Literal("p", ["A"], [Out])), [Literal("q", ["A"], [In])])
  }

  /**
   * The head of p(A):- q(A) has no input variables, so the rule should come
   * back unchanged; as written the test at line 267 compares a set with a
   * list, never holds, and the rule is scheduled and fails to ground.
   */
  lemma HeadWithoutInputsDiffers()
    ensures ModeOrderAsWritten(HeadWithoutInputs()) == ValueError("None in clause p(A):- q(A). could not be grounded")
    ensures ModeOrder(HeadWithoutInputs()) == Ordered(HeadWithoutInputs())
  {
    var rule := HeadWithoutInputs();
    HeadWithoutInputsModes();
    UngroundableInput(rule, "A");
    ModeOrderFailsIff(rule);
    HeadWithoutInputsText();
  }

  lemma HeadWithoutInputsModes()
    ensures Inputs(HeadWithoutInputs().head.value) == {}
    ensures "A" in Inputs(HeadWithoutInputs().body[0])
    ensures forall x :: x in HeadWithoutInputs().body ==> "A" !in Outputs(x)
  {
    var rule := HeadWithoutInputs();
    var p := rule.head.value;
    var q := rule.body[0];
    assert PositionsWith(p, In) == {};
    assert 0 in PositionsWith(q, In);
    assert PositionsWith(q, Out) == {};
  }

  lemma HeadWithoutInputsText()
    ensures GroundingMessage(HeadWithoutInputs()) == "None in clause p(A):- q(A). could not be grounded"
  {
    var rule := HeadWithoutInputs();
    var p := rule.head.value;
    var q := rule.body[0];
    assert Join(p.arguments, ',') == "A";
    assert FormatLiteral(p) == "p(A)";
    assert Join(q.arguments, ',') == "A";
    assert FormatLiteral(q) == "q(A)";
    var parts := FormatLiterals(rule.body);
    assert |parts| == 1 && parts[0] == "q(A)";
    assert Join(parts, ',') == "q(A)";
  }

  // ---------------------------------------------------------------------------
  // The imperative source

  /** The scan of lines 275-290, with its break and continue. */
  method SelectLiteral(head: Option<Literal>, grounded: set<string>, pool: seq<Literal>) returns (selected: Option<nat>)
    ensures selected == Select(head, grounded, pool)
  {
    selected := None;
    var i := 0;
    while i < |pool|
      invariant 0 <= i <= |pool|
      invariant forall j :: 0 <= j < i ==> !Eager(head, grounded, pool[j])
      invariant selected.None? ==> forall j :: 0 <= j < i ==> !Ready(pool[j], grounded)
      invariant selected.Some? ==> selected.value < i && selected.value == FirstReady(grounded, pool)
    {
      var lit := pool[i];
      if |Outputs(lit)| == |lit.arguments| {
        selected := Some(i);
        break;
      }
      if !(Inputs(lit) <= grounded) {
        i := i + 1;
        continue;
      }
      if head.Some? && lit.pred != head.value.pred {
        selected := Some(i);
        break;
      } else if selected.None? {
        selected := Some(i);
      }
      i := i + 1;
    }
  }

  lemma ScheduleStep(head: Option<Literal>, grounded: set<string>, pool: seq<Literal>, i: nat,
                     done: seq<Literal>, target: Option<seq<Literal>>)
    requires pool != [] && Select(head, grounded, pool) == Some(i)
    requires target == Then(done, Schedule(head, grounded, pool))
    ensures target == Then(done + [pool[i]], Schedule(head, grounded + Outputs(pool[i]), Without(pool, pool[i])))
  {
    ScheduleUnfold(head, grounded, pool);
    ThenAssoc(done, [pool[i]], Schedule(head, grounded + Outputs(pool[i]), Without(pool, pool[i])));
  }

  /** order_rule (lines 261-300), dispatching to order_rule_datalog under the datalog setting. */
  method OrderRule(rule: Rule, settings: Settings?) returns (result: Ordering)
    ensures settings != null && settings.datalog ==> result == Ordered(DatalogOrder(rule, settings.recall))
    ensures !(settings != null && settings.datalog) ==> result == ModeOrder(rule)
  {
    if settings != null && settings.datalog {
      var ordered := OrderRuleDatalog(rule, settings);
      return Ordered(ordered);
    }
    var head := rule.head;
    if head.Some? && Inputs(head.value) == {} {
      return Ordered(rule);
    }
    result := OrderByModes(rule);
  }

  /** The while loop of lines 273-299, starting from the head's input variables. */
  method OrderByModes(rule: Rule) returns (result: Ordering)
    ensures result == ModeOrderAsWritten(rule)
  {
    var head := rule.head;
    var orderedBody: seq<Literal> := [];
    var grounded := HeadInputs(head);
    var pool := Distinct(rule.body);
    ghost var target := Schedule(head, grounded, pool);
    ThenAssoc([], [], target);
    while pool != []
      invariant target == Then(orderedBody, Schedule(head, grounded, pool))
      decreases |pool|
    {
      var selected := SelectLiteral(head, grounded, pool);
      if selected.None? {
        return ValueError(GroundingMessage(rule));
      }
      var lit := pool[selected.value];
      ScheduleStep(head, grounded, pool, selected.value, orderedBody, target);
      orderedBody := orderedBody + [lit];
      grounded := grounded + Outputs(lit);
      pool := Without(pool, lit);
    }
    assert orderedBody + [] == orderedBody;
    return Ordered(Rule(head, orderedBody));
  }
}
