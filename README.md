# Popper's rule and program utilities, modelled in Dafny

Popper is an inductive logic programming system. It learns logic programs
from examples and background knowledge. This project models the planning
and canonicalisation helpers of `popper/util.py` that the search relies on.

- **Body ordering.** `order_rule` schedules a rule's body literals so that
  every literal's input variables are bound before it runs. Under the
  datalog setting it delegates to `order_rule_datalog`, which orders by
  variable coverage and recall scores.
- **The search schedule.** `bias_order` lists the (literals, variables,
  rules, space) configurations that the search visits.
- **Canonical forms and comparisons.** This covers the size and MDL
  score, the recursion and invention tests, the display orders
  `order_prog` and `order_rule2`, deduplication by `reduce_prog`, the
  subsumption tests, rendering of literals and rules, and `flatten`.
- **Configuration.** The `Settings` fields these helpers read: bounds
  taken from bias facts, the `max_rules` fallback, `max_arity` and the
  variable-name table.

Modules, one file each:

- `wrappers.dfy`: `Option`.
- `seqs.dfy`: sequence helpers. `Distinct` models iteration over a Python
  `set` built from a sequence.
- `literals.dfy`: literals, rules, their input and output variables, and
  rendering with a parser as partner.
- `sorting.dfy`: Python's stable `sorted()` and `list.sort()` as insertion
  sort by a key preorder.
- `lexicographic.dfy`: Python's string and tuple-of-strings comparison.
- `config.dfy`: the `Settings` class.
- `recall_scheduler.dfy`: `order_rule_datalog`.
- `literal_scheduler.dfy`: `order_rule`.
- `space_enumerator.dfy`: `bias_order`.
- `canonical.dfy`: everything else.

Each imperative function of the source has two forms here. A `method`
keeps the source's loops, `break` and `continue`. It is proved equal to a
recursive specification function, and the properties the source promises
are proved about that function as lemmas.

Python iterates a `set` in hash order. The model fixes that order as
first occurrence in the body with repeats dropped. Where the result
depends on that order, the lemmas state what holds for every order:
membership, permutation, and the choice rule applied at every step.

## Model

| member | source | states |
|---|---|---|
| Literals.GeneratorAllOutputs | popper/util.py:276-278 | a literal with as many output variables as arguments has every argument in output mode and no input variables |
| Literals.ParseFormatLiteral | popper/util.py:188-190 | reading back the rendering `pred(A,B)` of a literal with separator-free names gives its predicate and arguments |
| Literals.FormatLiteralInjective | popper/util.py:188-190 | two such literals render equally exactly when their predicates and argument lists are equal |
| Literals.FormatRuleHead | popper/util.py:192-198 | a rendered rule starts with the head's rendering (empty for a constraint) followed by ":- ", and ends in "."; a well-named head is read back from the text before ":- " |
| Literals.ParseBodyJoin | popper/util.py:197 | the body text, the renderings joined with ',', reads back literal by literal, in order, to each literal's predicate and arguments when no name holds ')' |
| Literals.FormatRuleBody | popper/util.py:192-198 | the text of a rendered rule between ":- " and the final "." reads back as its body, literal by literal, in order |
| Sorting.SortBy | popper/util.py:220-221 | sorted() returns a permutation of its input |
| Sorting.SortBySorted | popper/util.py:220-221 | sorted() returns its input ordered by the key |
| Sorting.SortByStable | popper/util.py:220-221 | sorted() is stable: the elements of each key keep their input order |
| Sorting.SortBySortedInput | popper/util.py:220-221 | sorting an already ordered list leaves it unchanged |
| Lexicographic.StrLtStrictTotal | popper/util.py:247 | Python's string comparison, used on `x.predicate`, is a strict total order |
| Lexicographic.StrsLtStrictTotal | popper/util.py:247 | the comparison of argument tuples of strings is a strict total order |
| Config.MaxArity | popper/util.py:484-512 | max_arity bounds every declared arity and is one of them, or 0 when none is declared |
| Config.ArgName | popper/util.py:514 | variable number i is named by the character with code ord('A') + i |
| Config.AtomArgNamesInjective | popper/util.py:514-520 | cached_atom_args maps distinct keys of distinct variable numbers to distinct name tuples with pairwise distinct names |
| Config.Settings.constructor | popper/util.py:433-548 | max_body and max_vars come from the bias facts when given; max_rules is max_clauses, else the caller's bound under recursion or predicate invention, else 1; max_arity is the largest head or body arity; body_preds is the set of body predicates |
| RecallScheduler.Pattern | popper/util.py:305-311 | the boundedness key has one character per argument |
| RecallScheduler.TmpScore | popper/util.py:304-315 | tmp_score is the recall entry for (predicate, key), or 1000000 when the pair is missing |
| RecallScheduler.LeastScoreIndex | popper/util.py:332-333 | the first of the least-scoring literals, i.e. `sorted(..., key=tmp_score)[0]` |
| RecallScheduler.LeastScore | popper/util.py:332-333 | the loop finds exactly that literal |
| RecallScheduler.Choose | popper/util.py:325-333 | one step takes a literal whose arguments are all seen when one exists, and otherwise one of least score |
| RecallScheduler.SelectDatalog | popper/util.py:325-333 | the for loop with its break followed by the sort makes exactly that choice |
| RecallScheduler.RecallOrderMembers | popper/util.py:317-337 | the ordered body holds exactly the literals of the body |
| RecallScheduler.RecallOrderPermutation | popper/util.py:323-337 | the ordered body is a permutation of the body's distinct literals |
| RecallScheduler.RecallOrderPriority | popper/util.py:324-337 | at every step k, with the variables seen after the first k literals, the k-th literal follows the choice rule over the literals still remaining |
| RecallScheduler.OrderRuleDatalog | popper/util.py:302-344 | order_rule_datalog keeps the head and returns the body ordered as above |
| LiteralScheduler.Select | popper/util.py:274-290 | a step takes a ready literal, and an eager one (a generator, or a ready non-recursive literal) whenever one remains; it takes nothing exactly when no remaining literal is ready |
| LiteralScheduler.SelectLiteral | popper/util.py:274-290 | the scan with its break and continue makes exactly that choice |
| LiteralScheduler.ScheduleSafe | popper/util.py:273-299 | a successful schedule binds each literal's inputs before it |
| LiteralScheduler.ScheduleMembers | popper/util.py:273-299 | a successful schedule holds exactly the pool's literals |
| LiteralScheduler.SchedulePermutation | popper/util.py:273-299 | a successful schedule is a permutation of the distinct body literals |
| LiteralScheduler.ScheduleComplete | popper/util.py:292-294 | if any grounding-safe order of the literals exists, the greedy schedule does not fail |
| LiteralScheduler.SchedulePriority | popper/util.py:274-299 | every position k of the schedule obeys the choice rule given the outputs of the literals before it |
| LiteralScheduler.ModeOrder | popper/util.py:261-300 | order_rule's mode branch with line 267 read as intended (see ## Findings): a rule whose head has no input variables comes back unchanged, with its body unscheduled, and any other rule is scheduled as the code is written |
| LiteralScheduler.ModeOrderSound | popper/util.py:261-300 | as written: the ordered rule keeps the head, permutes the distinct body literals, and binds each literal's inputs from the head's inputs and earlier outputs |
| LiteralScheduler.ModeOrderFailsIff | popper/util.py:292-294 | as written: ValueError is raised exactly when no grounding-safe order of the body exists; its message is "None in clause <rule> could not be grounded" |
| LiteralScheduler.UngroundableInput | popper/util.py:292-294 | as written: a body input variable that neither the head's inputs nor any body output binds makes the rule fail |
| LiteralScheduler.HeadWithoutInputsDiffers | popper/util.py:266-268 | for p(A) with A an output and body q(A) with A an input, the code as written raises ValueError, while the intended early return gives the rule back |
| LiteralScheduler.OrderByModes | popper/util.py:262-300 | the while loop returns exactly the specified schedule or ValueError |
| LiteralScheduler.OrderRule | popper/util.py:257-300 | order_rule dispatches to order_rule_datalog under the datalog setting; otherwise, with line 267 read as intended (see ## Findings), it returns the rule unchanged when the head has no inputs, or schedules it |
| SpaceEnumerator.Pow | popper/util.py:648 | a positive base gives a positive power |
| SpaceEnumerator.Comb | popper/util.py:648 | math.comb(n, k) is 0 exactly when k > n |
| SpaceEnumerator.CombOne | popper/util.py:648 | comb(n, 1) is n |
| SpaceEnumerator.CandidatesMembers | popper/util.py:627-655 | the loops append exactly the triples within the bias bounds that are not over the variable limit, have a non-zero space and are not multi-rule programs below five literals |
| SpaceEnumerator.RuleSweepAscending | popper/util.py:633-655 | the loops produce the triples in strictly ascending (rules, literals, vars) order, so without repeats |
| SpaceEnumerator.SpaceLeTotalPreorder | popper/util.py:658 | the order_space key (space, literals) is a total preorder |
| SpaceEnumerator.ExpandedOrderCorrect | popper/util.py:627-658 | the expanded schedule holds each admissible triple once; under order_space it is sorted by (space, literals) with equal keys in loop order, and otherwise it is in loop order |
| SpaceEnumerator.SimpleOrderCorrect | popper/util.py:623-624 | the simple schedule has one entry per size 1 .. max_size - 1, in ascending order, with max_vars, max_rules and no space |
| SpaceEnumerator.ExpandedIgnoresMaxSize | popper/util.py:634 | in expanded mode the max_size argument has no effect |
| SpaceEnumerator.SweepVars | popper/util.py:640-655 | the innermost loop, with its break and continues, appends exactly the kept triples for one (rules, literals) |
| SpaceEnumerator.SweepLiterals | popper/util.py:634-655 | the middle loop appends exactly the kept triples for one rule count |
| SpaceEnumerator.SweepRules | popper/util.py:627-655 | the outer loop builds exactly the candidate list |
| SpaceEnumerator.BiasOrder | popper/util.py:621-664 | bias_order returns the specified schedule; it stores the schedule in search_order in expanded mode and leaves search_order alone otherwise |
| Canonical.RuleSize | popper/util.py:204-206 | a rule's size is one more than its body length |
| Canonical.ProgSize | popper/util.py:201-202 | a program's size is at least its number of rules |
| Canonical.ProgSizeConcat | popper/util.py:201-202 | the size of a concatenation is the sum of the sizes |
| Canonical.ProgSizePermutation | popper/util.py:201-202 | the size does not depend on the order of the rules |
| Canonical.MdlScore | popper/util.py:253-255 | the MDL score bounds each of false negatives, false positives and size |
| Canonical.ProgTestsPermutation | popper/util.py:228-238 | prog_is_recursive and prog_has_invention do not depend on rule order |
| Canonical.ScheduledSameLiterals | popper/util.py:223-227 | ordering a rule, by modes or by recall, keeps its head and body literals, so it stays recursive or non-recursive |
| Canonical.ScheduledSize | popper/util.py:204-206 | ordering by modes never makes a rule larger, and keeps its size when the body has no repeats |
| Canonical.OrderProgCorrect | popper/util.py:220-221 | order_prog permutes the rules, puts non-recursive rules first, orders each class by body length, keeps equal keys in input order, and is idempotent |
| Canonical.OrderProgExample | popper/util.py:220-221 | a non-recursive two-literal rule is placed before a recursive one-literal rule |
| Canonical.LiteralLeTotalPreorder | popper/util.py:247 | the key (len(arguments), predicate, arguments) is a total preorder |
| Canonical.OrderRule2Correct | popper/util.py:245-247 | order_rule2 keeps the head, permutes the body into key order, keeps literals that differ only in modes in input order, and is idempotent |
| Canonical.Keys | popper/util.py:209-216 | there is one (head signature, body-signature set) key per rule |
| Canonical.LastIndex | popper/util.py:211-217 | finds the last rule with a given key |
| Canonical.ReduceProg | popper/util.py:208-218 | the dict loop returns the last rule for each key, keys in first-insertion order |
| Canonical.ReducedCorrect | popper/util.py:208-218 | the result's keys are the input's keys, each once, in first-occurrence order; each result rule is the last input rule with its key |
| Canonical.ReducedIdempotent | popper/util.py:208-218 | reducing twice is reducing once |
| Canonical.ReducedPair | popper/util.py:208-218 | of two rules with the same key, only the later one is kept |
| Canonical.ReducedExample | popper/util.py:208-218 | p(A,B):- q(A),r(B) and p(A,B):- r(B),q(A) reduce to the second rule alone |
| Canonical.RuleSubsumesPreorder | popper/util.py:579-585 | rule subsumption is reflexive and transitive; a rule with a head never subsumes a constraint |
| Canonical.TheorySubsumesReflexive | popper/util.py:587-589 | every program subsumes itself and the empty program |
| Canonical.TheorySubsumesTransitive | popper/util.py:587-589 | theory subsumption is transitive |
| Canonical.TheorySubsumesExample | popper/util.py:579-589 | {p(A):- q(A)} subsumes {p(A):- q(A),r(A)} and not the other way round |
| Canonical.RenamingNotRecognised | popper/util.py:575-585 | constraints equal up to variable renaming do not subsume each other, in either direction |
| Canonical.ScheduledSignature | popper/util.py:579-585 | ordering a rule keeps its head and body signatures, so the rule and its ordered form subsume each other |
| Canonical.FlattenMembers | popper/util.py:370-371 | an item is in the flattened list exactly when it is in one of the sublists |
| Canonical.FlattenConcat | popper/util.py:370-371 | flattening distributes over concatenation |
| Canonical.FlattenLength | popper/util.py:370-371 | the flattened length is the sum of the sublist lengths |

## Left out

- Iteration order of Python sets: `set(body)` is iterated in first-occurrence order with repeats dropped. The properties proved about the schedules (membership, permutation, the per-step choice rule, failure exactly when no safe order exists) hold for whatever order the pool is in.
- The `Literal` class and its input/output computation are defined in `popper/core.py`, which is not part of this model. A literal here carries its arguments and one direction per argument; inputs and outputs are derived by position. Literal equality, which `set(body)` (lines 271, 323) and `body_literals.difference({selected_literal})` (lines 298, 337) rely on through `Literal.__eq__` and `__hash__`, is modelled as structural equality of predicate, arguments and directions.
- Python sorts that compare `None` with an integer would raise `TypeError`. In the model a missing space counts as 0 (`SpaceKey`), and under `order_space` every candidate has a space.
- `Config.Settings.constructor`: it does not read clingo atoms, load types, directions, the head literal or `cached_literals`. The bias facts it receives are already decoded.
- `Config.ArgName`: `arg_lookup` has entries below 100 only, so larger variable numbers would raise `KeyError`. The model requires numbers below 100.
- `Canonical.ReduceProg`: it requires every rule to have a head, because line 214 dereferences the head.
- `Canonical.Keys`: a key compares the body as a set of (predicate, arguments) signatures; Python's frozenset equality is modelled as set equality.
- `format_prog` and `format_prog2` (lines 182-186) are not modelled. They only join rendered rules with newlines.
- `order_rule2` compares argument tuples with Python's string ordering over code points. Unicode collation plays no part in it.
- These parts involve timing, I/O, threads, clingo or the command line, and are not modelled: `timeout` and `_windows_timeout`, `Stats`, `DurationSummary`, `print_prog_score`, `parse_args`, `load_kbpath`, `suppress_stdout_stderr`, `load_types`, the `Constraint` enum, and the logging methods of `Settings`.
- `Literals.FormatRuleBody`: the body is read back only when no predicate or argument holds ')', no predicate holds '(', and no argument is empty or holds ','. The reader cuts the text after each ')', and format_literal itself writes such names ambiguously.
- Integer widths play no part: Python integers are unbounded, as are Dafny's.

## Findings

| source | as written | input that shows it | evidently intended | confidence | as-written member | corrected member |
|---|---|---|---|---|---|---|
| popper/util.py:267 | `head.inputs == []` compares the head's input variables, a frozenset, with a list, which is never equal in Python, so the early return is dead code | the rule p(A):- q(A) with p's argument an output and q's an input: the code raises ValueError("None in clause p(A):- q(A). could not be grounded") | a head without input variables returns the rule unchanged | high, not executed | LiteralScheduler.HeadWithoutInputsDiffers | LiteralScheduler.ModeOrder, LiteralScheduler.OrderRule |

On the corrected path the body comes back as given, not scheduled, so it need not be grounding-safe: the witness p(A):- q(A) itself binds nothing for q's input. The scheduling lemmas (`ModeOrderSound`, `ModeOrderFailsIff`, `UngroundableInput`, `ScheduledSize`, `ScheduledSignature`) are therefore stated about `ModeOrderAsWritten`, the branch the code runs for every other rule.
