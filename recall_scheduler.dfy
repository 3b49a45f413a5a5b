/**
 * Recall-directed body ordering: order_rule_datalog (popper/util.py:302-344).
 *
 * Starting from the head's arguments as "seen" variables, each step takes a
 * remaining body literal whose arguments are all seen; when there is none,
 * it takes the literal with the least recall score for its current
 * boundedness pattern.  The chosen literal's arguments become seen.  The
 * pool of remaining literals is set(body), iterated in first-occurrence
 * order; ties go to the earlier literal in that order.
 */
module RecallScheduler {
  import opened Wrappers
  import opened Seqs
  import opened Literals
  import opened Config

  /** The score of a (predicate, pattern) pair missing from the recall table. */
  const DefaultScore := 1000000

  function ArgSet(lit: Literal): set<string> {
    set a | a in lit.arguments
  }

  function HeadArgs(head: Option<Literal>): set<string> {
    if head.Some? then ArgSet(head.value) else {}
  }

  /** Every argument of lit has been seen. */
  predicate AllSeen(lit: Literal, seen: set<string>) {
    ArgSet(lit) <= seen
  }

  /** The boundedness bitstring: '1' where the argument has been seen, '0' elsewhere. */
  function Pattern(seen: set<string>, args: seq<string>): (key: string)
    ensures |key| == |args|
  {
    seq(|args|, i requires 0 <= i < |args| => if args[i] in seen then '1' else '0')
  }

  /** tmp_score: the recall entry for the literal's predicate and pattern, else the default. */
  function Score(recall: map<RecallKey, int>, seen: set<string>, lit: Literal): int {
    var k := (lit.pred, Pattern(seen, lit.arguments));
    if k in recall then recall[k] else DefaultScore
  }

  /** Index of the first literal of least score: sorted(pool, key=tmp_score)[0] for a stable sort. */
  function LeastScoreIndex(recall: map<RecallKey, int>, seen: set<string>, pool: seq<Literal>): (i: nat)
    requires pool != []
    ensures i < |pool|
    ensures forall j :: 0 <= j < |pool| ==> Score(recall, seen, pool[i]) <= Score(recall, seen, pool[j])
    ensures forall j :: 0 <= j < i ==> Score(recall, seen, pool[j]) > Score(recall, seen, pool[i])
  {
    if |pool| == 1 then 0
    else
      var k := 1 + LeastScoreIndex(recall, seen, pool[1..]);
      if Score(recall, seen, pool[0]) <= Score(recall, seen, pool[k]) then 0 else k
  }

  /** Index of the first literal whose arguments have all been seen, or |pool|. */
  function FirstAllSeen(seen: set<string>, pool: seq<Literal>): (i: nat)
    ensures i <= |pool|
    ensures i < |pool| ==> AllSeen(pool[i], seen)
    ensures forall j :: 0 <= j < i ==> !AllSeen(pool[j], seen)
  {
    if pool == [] then 0
    else if AllSeen(pool[0], seen) then 0
    else 1 + FirstAllSeen(seen, pool[1..])
  }

  /**
   * The choice rule of one step, over the remaining literals rem: a literal
   * with all arguments seen wins if there is one, else a literal of least score.
   */
  ghost predicate Prioritised(recall: map<RecallKey, int>, seen: set<string>, rem: seq<Literal>, lit: Literal) {
    && ((exists x :: x in rem && AllSeen(x, seen)) ==> AllSeen(lit, seen))
    && ((forall x :: x in rem ==> !AllSeen(x, seen)) ==>
          forall x :: x in rem ==> Score(recall, seen, lit) <= Score(recall, seen, x))
  }

  /** The literal one step of the loop at lines 324-337 takes. */
  function Choose(recall: map<RecallKey, int>, seen: set<string>, pool: seq<Literal>): (i: nat)
    requires pool != []
    ensures i < |pool|
    ensures Prioritised(recall, seen, pool, pool[i])
  {
    var k := FirstAllSeen(seen, pool);
    if k < |pool| then k
    else
      var m := LeastScoreIndex(recall, seen, pool);
      assert forall x :: x in pool ==> Score(recall, seen, pool[m]) <= Score(recall, seen, x) by {
        forall x | x in pool ensures Score(recall, seen, pool[m]) <= Score(recall, seen, x) {
          var j :| 0 <= j < |pool| && pool[j] == x;
        }
      }
      m
  }

  /** The order the loop produces from the seen variables and the pool. */
  function RecallOrder(recall: map<RecallKey, int>, seen: set<string>, pool: seq<Literal>): seq<Literal>
    decreases |pool|
  {
    if pool == [] then []
    else
      var lit := pool[Choose(recall, seen, pool)];
      [lit] + RecallOrder(recall, seen + ArgSet(lit), Without(pool, lit))
  }

  /** order_rule_datalog's result for a rule and a recall table. */
  function DatalogOrder(rule: Rule, recall: map<RecallKey, int>): Rule {
    Rule(rule.head, RecallOrder(recall, HeadArgs(rule.head), Distinct(rule.body)))
  }

  /** The variables seen after the literals of s, starting from seen. */
  function SeenAfter(seen: set<string>, s: seq<Literal>): set<string>
    decreases |s|
  {
    if s == [] then seen else SeenAfter(seen + ArgSet(s[0]), s[1..])
  }

  // ---------------------------------------------------------------------------
  // Properties of the recall-directed order

  /** No literal is lost or invented. */
  lemma {:induction false} RecallOrderMembers(recall: map<RecallKey, int>, seen: set<string>, pool: seq<Literal>)
    ensures forall x :: x in RecallOrder(recall, seen, pool) <==> x in pool
    decreases |pool|
  {
    if pool != [] {
      var lit := pool[Choose(recall, seen, pool)];
      RecallOrderMembers(recall, seen + ArgSet(lit), Without(pool, lit));
    }
  }

  /** The result is a permutation of the distinct body literals. */
  lemma {:induction false} RecallOrderPermutation(recall: map<RecallKey, int>, seen: set<string>, pool: seq<Literal>)
    requires NoDuplicates(pool)
    ensures multiset(RecallOrder(recall, seen, pool)) == multiset(pool)
    decreases |pool|
  {
    if pool != [] {
      var lit := pool[Choose(recall, seen, pool)];
      WithoutDistinct(pool, lit);
      RecallOrderPermutation(recall, seen + ArgSet(lit), Without(pool, lit));
      RecallOrderUnfold(recall, seen, pool);
      ConsPermutation(pool, lit, Without(pool, lit), RecallOrder(recall, seen + ArgSet(lit), Without(pool, lit)));
    }
  }

  /**
   * At every step k, with the variables seen so far: if some remaining literal
   * has all its arguments seen, the literal taken has too; otherwise the
   * literal taken has the least recall score among the remaining ones.
   */
  lemma {:induction false} RecallOrderPriority(recall: map<RecallKey, int>, seen: set<string>, pool: seq<Literal>, k: nat)
    requires k < |RecallOrder(recall, seen, pool)|
    ensures var out := RecallOrder(recall, seen, pool);
            Prioritised(recall, SeenAfter(seen, out[..k]), out[k..], out[k])
    decreases |pool|
  {
    if k == 0 {
      PriorityFirst(recall, seen, pool);
      var out := RecallOrder(recall, seen, pool);
      assert out[..0] == [] && out[0..] == out;
    } else {
      var lit := pool[Choose(recall, seen, pool)];
      RecallOrderPriority(recall, seen + ArgSet(lit), Without(pool, lit), k - 1);
      PriorityLater(recall, seen, pool, k);
    }
  }

  /** Step k of the whole order is step k - 1 of the order after the first literal. */
  lemma PriorityLater(recall: map<RecallKey, int>, seen: set<string>, pool: seq<Literal>, k: nat)
    requires 0 < k < |RecallOrder(recall, seen, pool)|
    requires var lit := pool[Choose(recall, seen, pool)];
             var rest := RecallOrder(recall, seen + ArgSet(lit), Without(pool, lit));
             k - 1 < |rest| && Prioritised(recall, SeenAfter(seen + ArgSet(lit), rest[..k - 1]), rest[k - 1..], rest[k - 1])
    ensures var out := RecallOrder(recall, seen, pool);
            Prioritised(recall, SeenAfter(seen, out[..k]), out[k..], out[k])
  {
    var out := RecallOrder(recall, seen, pool);
    var lit := pool[Choose(recall, seen, pool)];
    var seen' := seen + ArgSet(lit);
    var rest := RecallOrder(recall, seen', Without(pool, lit));
    RecallOrderUnfold(recall, seen, pool);
    SeenAfterCons(seen, lit, rest[..k - 1]);
    ConsSlices(lit, rest, k);
    PrioritisedTransfer(recall, SeenAfter(seen', rest[..k - 1]), SeenAfter(seen, out[..k]),
                        rest[k - 1..], out[k..], rest[k - 1], out[k]);
  }

  lemma RecallOrderUnfold(recall: map<RecallKey, int>, seen: set<string>, pool: seq<Literal>)
    requires pool != []
    ensures var lit := pool[Choose(recall, seen, pool)];
            RecallOrder(recall, seen, pool) == [lit] + RecallOrder(recall, seen + ArgSet(lit), Without(pool, lit))
  {
  }

  lemma PrioritisedTransfer(recall: map<RecallKey, int>, s1: set<string>, s2: set<string>,
                            r1: seq<Literal>, r2: seq<Literal>, l1: Literal, l2: Literal)
    requires s1 == s2 && r1 == r2 && l1 == l2
    requires Prioritised(recall, s1, r1, l1)
    ensures Prioritised(recall, s2, r2, l2)
  {
  }

  lemma PriorityFirst(recall: map<RecallKey, int>, seen: set<string>, pool: seq<Literal>)
    requires pool != []
    ensures var out := RecallOrder(recall, seen, pool);
            |out| > 0 && Prioritised(recall, seen, out, out[0])
  {
    var out := RecallOrder(recall, seen, pool);
    var lit := pool[Choose(recall, seen, pool)];
    assert out[0] == lit;
    RecallOrderMembers(recall, seen, pool);
    PrioritisedSameMembers(recall, seen, pool, out, lit);
  }

  lemma PrioritisedSameMembers(recall: map<RecallKey, int>, seen: set<string>, a: seq<Literal>, b: seq<Literal>, lit: Literal)
    requires forall x :: x in a <==> x in b
    ensures Prioritised(recall, seen, a, lit) == Prioritised(recall, seen, b, lit)
  {
  }

  lemma SeenAfterCons(seen: set<string>, lit: Literal, s: seq<Literal>)
    ensures SeenAfter(seen, [lit] + s) == SeenAfter(seen + ArgSet(lit), s)
  {
    assert ([lit] + s)[1..] == s;
  }

  // ---------------------------------------------------------------------------
  // The imperative source

  /** tmp_score (lines 304-315): builds the bitstring argument by argument. */
  method TmpScore(recall: map<RecallKey, int>, seen: set<string>, lit: Literal) returns (score: int)
    ensures score == Score(recall, seen, lit)
  {
    var key: string := [];
    for i := 0 to |lit.arguments|
      invariant key == Pattern(seen, lit.arguments)[..i]
    {
      if lit.arguments[i] in seen {
        key := key + ['1'];
      } else {
        key := key + ['0'];
      }
    }
    assert key == Pattern(seen, lit.arguments);
    var k := (lit.pred, key);
    if k in recall {
      return recall[k];
    }
    return DefaultScore;
  }

  /** The first literal of least score, computing each score as sorted() does. */
  method LeastScore(recall: map<RecallKey, int>, seen: set<string>, pool: seq<Literal>) returns (best: nat)
    requires pool != []
    ensures best == LeastScoreIndex(recall, seen, pool)
  {
    best := 0;
    var bestScore := TmpScore(recall, seen, pool[0]);
    var i := 1;
    while i < |pool|
      invariant 1 <= i <= |pool|
      invariant best < i && bestScore == Score(recall, seen, pool[best])
      invariant forall j :: 0 <= j < i ==> bestScore <= Score(recall, seen, pool[j])
      invariant forall j :: 0 <= j < best ==> Score(recall, seen, pool[j]) > bestScore
    {
      var s := TmpScore(recall, seen, pool[i]);
      if s < bestScore {
        best, bestScore := i, s;
      }
      i := i + 1;
    }
  }

  /** One step of the loop extends the ordered prefix by the literal Choose picks. */
  lemma RecallOrderStep(recall: map<RecallKey, int>, seen: set<string>, pool: seq<Literal>, i: nat,
                        done: seq<Literal>, target: seq<Literal>)
    requires pool != [] && i == Choose(recall, seen, pool)
    requires target == done + RecallOrder(recall, seen, pool)
    ensures target == (done + [pool[i]]) + RecallOrder(recall, seen + ArgSet(pool[i]), Without(pool, pool[i]))
  {
  }

  /** One pass of the loop body at lines 324-333: scan for a fully seen literal, else sort by score. */
  method SelectDatalog(recall: map<RecallKey, int>, seen: set<string>, pool: seq<Literal>) returns (selected: nat)
    requires pool != []
    ensures selected == Choose(recall, seen, pool)
  {
    var i := 0;
    while i < |pool|
      invariant 0 <= i <= |pool|
      invariant forall j :: 0 <= j < i ==> !AllSeen(pool[j], seen)
    {
      if ArgSet(pool[i]) <= seen {
        break;
      }
      i := i + 1;
    }
    if i < |pool| {
      selected := i;
    } else {
      selected := LeastScore(recall, seen, pool);
    }
  }

  /** order_rule_datalog (lines 302-344). */
  method OrderRuleDatalog(rule: Rule, settings: Settings) returns (ordered: Rule)
    ensures ordered == DatalogOrder(rule, settings.recall)
  {
    var recall := settings.recall;
    var head := rule.head;
    var orderedBody: seq<Literal> := [];
    var seen := HeadArgs(head);
    var pool := Distinct(rule.body);
    ghost var target := RecallOrder(recall, seen, pool);
    assert target == orderedBody + target;
    while pool != []
      invariant target == orderedBody + RecallOrder(recall, seen, pool)
      decreases |pool|
    {
      var i := SelectDatalog(recall, seen, pool);
      var lit := pool[i];
      RecallOrderStep(recall, seen, pool, i, orderedBody, target);
      orderedBody := orderedBody + [lit];
      seen := seen + ArgSet(lit);
      pool := Without(pool, lit);
    }
    assert orderedBody == orderedBody + RecallOrder(recall, seen, pool);
    ordered := Rule(head, orderedBody);
  }
}
