/**
 * The run configuration (the Settings object of popper/util.py:373-559),
 * reduced to what the planning layer reads and writes, built from bias facts
 * that have already been decoded.
 */
module Config {
  import opened Wrappers

  /** One search-order configuration: literal count, variable count, rule count, estimated space. */
  datatype Entry = Entry(literals: nat, vars: nat, rules: nat, space: Option<nat>)

  /** A recall key: predicate symbol and boundedness bitstring. */
  type RecallKey = (string, string)

  /** The bias facts the configuration is derived from, already decoded. */
  datatype BiasFacts = BiasFacts(
    headPreds: seq<(string, nat)>,
    bodyPreds: seq<(string, nat)>,
    maxBody: Option<nat>,
    maxVars: Option<nat>,
    maxClauses: Option<nat>,
    recursion: bool,
    invention: bool)

  /** A bound given by a fact overrides the caller's value. */
  function Override(fact: Option<nat>, default: nat): nat {
    if fact.Some? then fact.value else default
  }

  /** max_clauses if given; else the caller's bound under recursion or invention, else 1. */
  function MaxRulesDefault(maxClauses: Option<nat>, recursion: bool, invention: bool, callerMax: nat): nat {
    if maxClauses.Some? then maxClauses.value
    else if recursion || invention then callerMax
    else 1
  }

  /** The largest arity among the declared predicates, 0 when there are none. */
  function MaxArity(preds: seq<(string, nat)>): (r: nat)
    ensures forall p :: p in preds ==> p.1 <= r
    ensures r == 0 || exists p :: p in preds && p.1 == r
  {
    if preds == [] then 0
    else
      var rest := MaxArity(preds[1..]);
      assert forall p :: p in preds[1..] ==> p in preds;
      if preds[0].1 >= rest then preds[0].1 else rest
  }

  function ToSet<T>(s: seq<T>): set<T> {
    set x | x in s
  }

  /** arg_lookup: variable number i is named chr(ord('A') + i); the table holds i below 100. */
  function ArgName(i: nat): (c: char)
    requires i < 100
    ensures c as int == 65 + i
  {
    (65 + i) as char
  }

  /** The variable names a cached atom key maps to. */
  function AtomArgNames(key: seq<nat>): (names: string)
    requires forall i :: 0 <= i < |key| ==> key[i] < 100
    ensures |names| == |key|
  {
    seq(|key|, i requires 0 <= i < |key| => ArgName(key[i]))
  }

  /** A key of cached_atom_args: 1..max_arity distinct variable numbers below max_vars. */
  predicate IsAtomKey(key: seq<nat>, maxArity: nat, maxVars: nat) {
    && 1 <= |key| <= maxArity
    && (forall i, j :: 0 <= i < j < |key| ==> key[i] != key[j])
    && (forall i :: 0 <= i < |key| ==> key[i] < maxVars)
  }

  /** Distinct keys get distinct names, and a key's names are pairwise distinct. */
  lemma AtomArgNamesInjective(k1: seq<nat>, k2: seq<nat>, maxArity: nat, maxVars: nat)
    requires maxVars <= 100
    requires IsAtomKey(k1, maxArity, maxVars) && IsAtomKey(k2, maxArity, maxVars)
    ensures AtomArgNames(k1) == AtomArgNames(k2) <==> k1 == k2
    ensures forall i, j :: 0 <= i < j < |k1| ==> AtomArgNames(k1)[i] != AtomArgNames(k1)[j]
  {
    if AtomArgNames(k1) == AtomArgNames(k2) {
      forall i | 0 <= i < |k1| ensures k1[i] == k2[i] {
        assert AtomArgNames(k1)[i] as int == AtomArgNames(k2)[i] as int;
      }
    }
    forall i, j | 0 <= i < j < |k1| ensures AtomArgNames(k1)[i] != AtomArgNames(k1)[j] {
      assert AtomArgNames(k1)[i] as int != AtomArgNames(k1)[j] as int;
    }
  }

  class Settings {
    var datalog: bool
    var noBias: bool
    var orderSpace: bool
    var maxBody: nat
    var maxVars: nat
    var maxRules: nat
    var maxArity: nat
    var bodyPreds: set<(string, nat)>
    var recall: map<RecallKey, int>
    var searchOrder: seq<Entry>

    /**
     * The configuration for the caller's options and the decoded bias facts:
     * facts override max_body and max_vars, max_rules falls back as in
     * MaxRulesDefault, and the recall table starts empty.
     */
    constructor (datalog: bool, noBias: bool, orderSpace: bool,
                 maxBody: nat, maxVars: nat, maxRules: nat, facts: BiasFacts)
      ensures this.datalog == datalog && this.noBias == noBias && this.orderSpace == orderSpace
      ensures this.maxBody == Override(facts.maxBody, maxBody)
      ensures this.maxVars == Override(facts.maxVars, maxVars)
      ensures this.maxRules == MaxRulesDefault(facts.maxClauses, facts.recursion, facts.invention, maxRules)
      ensures this.maxArity == MaxArity(facts.headPreds + facts.bodyPreds)
      ensures this.bodyPreds == ToSet(facts.bodyPreds)
      // __init__ never sets search_order (bias_order assigns it first); [] stands for "not yet set"
      ensures this.recall == map[] && this.searchOrder == []
    {
      this.datalog := datalog;
      this.noBias := noBias;
      this.orderSpace := orderSpace;
      this.maxBody := Override(facts.maxBody, maxBody);
      this.maxVars := Override(facts.maxVars, maxVars);
      this.maxRules := MaxRulesDefault(facts.maxClauses, facts.recursion, facts.invention, maxRules);
      this.maxArity := MaxArity(facts.headPreds + facts.bodyPreds);
      this.bodyPreds := ToSet(facts.bodyPreds);
      this.recall := map[];
      this.searchOrder := [];
    }
  }
}
