/** The automaton value shared by `FA`, `NFA` and `DFA`: its fields, the transition
    relation as `transitions[state][symbol]` reads it, the structural rules of
    `FA::validate_automaton` and `DFA::validate_automaton`, and what an NFA and a
    DFA accept. */
module FiniteAutomata {

  /** `unordered_map<string, unordered_map<string, set<string>>>` */
  type Transitions = map<string, map<string, set<string>>>

  /** The five fields of `FA`. An absent start state is the empty string. */
  datatype Fa = Fa(
    alphabet: set<string>,
    states: set<string>,
    start: string,
    final: set<string>,
    transitions: Transitions)

  /** `transitions[state][symbol]`, where `operator[]` makes a missing row or entry
      read as the empty set. */
  function Dest(t: Transitions, q: string, a: string): set<string>
  {
    if q in t && a in t[q] then t[q][a] else {}
  }

  function Row(t: Transitions, q: string): map<string, set<string>>
  {
    if q in t then t[q] else map[]
  }

  /** `transitions[q][a].insert(x)` */
  function Inserted(t: Transitions, q: string, a: string, x: string): (r: Transitions)
    ensures forall p, b :: Dest(r, p, b) == if p == q && b == a then Dest(t, q, a) + {x} else Dest(t, p, b)
    ensures forall p :: p in r <==> p in t || p == q
    ensures forall p, b :: p in r && b in r[p] <==> (p in t && b in t[p]) || (p == q && b == a)
  {
    t[q := Row(t, q)[a := Dest(t, q, a) + {x}]]
  }

  /** `transitions[q][a] = v` */
  function Assigned(t: Transitions, q: string, a: string, v: set<string>): (r: Transitions)
    ensures forall p, b :: Dest(r, p, b) == if p == q && b == a then v else Dest(t, p, b)
    ensures forall p :: p in r <==> p in t || p == q
    ensures forall p, b :: p in r && b in r[p] <==> (p in t && b in t[p]) || (p == q && b == a)
  {
    t[q := Row(t, q)[a := v]]
  }

  /** The checks of `FA::validate_automaton`, in the order it makes them. */
  predicate StartOk(fa: Fa)
  {
    fa.start != "" && fa.start in fa.states
  }

  predicate FinalOk(fa: Fa)
  {
    fa.final <= fa.states
  }

  predicate TransitionsOk(fa: Fa)
  {
    && (forall q | q in fa.transitions :: q in fa.states)
    && (forall q, a | q in fa.transitions && a in fa.transitions[q] :: a in fa.alphabet)
    && (forall q, a | q in fa.transitions && a in fa.transitions[q] :: fa.transitions[q][a] <= fa.states)
  }

  /** The structural invariants every automaton must meet. */
  predicate FaValid(fa: Fa)
  {
    StartOk(fa) && FinalOk(fa) && TransitionsOk(fa)
  }

  /** `DFA::validate_automaton`: the base checks, then exactly one destination for
      every state and every symbol. */
  predicate DfaValid(fa: Fa)
  {
    && FaValid(fa)
    && forall q, a | q in fa.states && a in fa.alphabet :: |Dest(fa.transitions, q, a)| == 1
  }

  /** The `invalid_argument` exceptions the validators throw. */
  datatype ValidationError =
    | NoStartState
    | StartNotInStates(state: string)
    | FinalNotInStates(state: string)
    | SourceNotInStates(state: string)
    | SymbolNotInAlphabet(symbol: string)
    | TargetNotInStates(state: string)
    | NoTransition(state: string, symbol: string)
    | MoreThanOneTransition(state: string, symbol: string)

  datatype Outcome = Pass | Fail(error: ValidationError)

  /** `e` names a real violation in `fa`, and every check the validators make
      before the one that reports `e` has passed. Which offending name is
      reported among several depends on hash-container order and is left open. */
  predicate Explains(fa: Fa, e: ValidationError)
  {
    match e
    case NoStartState =>
      fa.start == ""
    case StartNotInStates(q) =>
      fa.start != "" && q == fa.start && q !in fa.states
    case FinalNotInStates(q) =>
      StartOk(fa) && q in fa.final && q !in fa.states
    case SourceNotInStates(q) =>
      StartOk(fa) && FinalOk(fa) && q in fa.transitions && q !in fa.states
    case SymbolNotInAlphabet(a) =>
      StartOk(fa) && FinalOk(fa) &&
      exists q | q in fa.transitions && q in fa.states :: a in fa.transitions[q] && a !in fa.alphabet
    case TargetNotInStates(x) =>
      StartOk(fa) && FinalOk(fa) &&
      exists q, a | q in fa.transitions && q in fa.states && a in fa.transitions[q] ::
        a in fa.alphabet && x in fa.transitions[q][a] && x !in fa.states
    case NoTransition(q, a) =>
      FaValid(fa) && q in fa.states && a in fa.alphabet && Dest(fa.transitions, q, a) == {}
    case MoreThanOneTransition(q, a) =>
      FaValid(fa) && q in fa.states && a in fa.alphabet && |Dest(fa.transitions, q, a)| > 1
  }

  /** A reported error always means the automaton is invalid: the base errors
      contradict `FaValid`, the two DFA errors contradict `DfaValid`. */
  lemma ExplainedErrorsAreFatal(fa: Fa, e: ValidationError)
    requires Explains(fa, e)
    ensures !DfaValid(fa)
    ensures !(e.NoTransition? || e.MoreThanOneTransition?) ==> !FaValid(fa)
  {
    match e
    case SymbolNotInAlphabet(a) =>
      var q :| q in fa.transitions && q in fa.states && a in fa.transitions[q] && a !in fa.alphabet;
    case TargetNotInStates(x) =>
      var q, a :| q in fa.transitions && q in fa.states && a in fa.transitions[q] &&
        a in fa.alphabet && x in fa.transitions[q][a] && x !in fa.states;
    case _ =>
  }

  // ---------------------------------------------------------------------------
  // What the automata accept.

  /** The union of `transitions[s][a]` over the states `s` of `c`. */
  function Next(t: Transitions, c: set<string>, a: string): set<string>
  {
    set s, q | s in c && q in Dest(t, s, a) :: q
  }

  /** The set of NFA states reached from `c` by reading `w`. */
  function Run(t: Transitions, c: set<string>, w: seq<string>): set<string>
    decreases |w|
  {
    if w == [] then c else Run(t, Next(t, c, w[0]), w[1..])
  }

  /** Every symbol of `w` belongs to `alphabet`. */
  predicate Over(w: seq<string>, alphabet: set<string>)
  {
    forall i | 0 <= i < |w| :: w[i] in alphabet
  }

  predicate NfaAccepts(n: Fa, w: seq<string>)
  {
    Run(n.transitions, {n.start}, w) * n.final != {}
  }

  /** The destination a DFA moves to; meaningful where there is exactly one. */
  ghost function Step(d: Fa, q: string, a: string): string
  {
    var ds := Dest(d.transitions, q, a);
    if ds == {} then q else var x :| x in ds; x
  }

  ghost function DfaRun(d: Fa, q: string, w: seq<string>): string
    decreases |w|
  {
    if w == [] then q else DfaRun(d, Step(d, q, w[0]), w[1..])
  }

  ghost predicate DfaAccepts(d: Fa, w: seq<string>)
  {
    DfaRun(d, d.start, w) in d.final
  }

  lemma NextOfEmpty(t: Transitions, a: string)
    ensures Next(t, {}, a) == {}
  {
  }

  /** Adding one state to a subset adds its own destinations to the successors. */
  lemma NextAdd(t: Transitions, c: set<string>, s: string, a: string)
    ensures Next(t, c + {s}, a) == Next(t, c, a) + Dest(t, s, a)
  {
    assert forall q | q in Dest(t, s, a) :: q in Next(t, c + {s}, a);
  }

  lemma {:induction false} RunOfEmpty(t: Transitions, w: seq<string>)
    ensures Run(t, {}, w) == {}
    decreases |w|
  {
    if w != [] {
      NextOfEmpty(t, w[0]);
      RunOfEmpty(t, w[1..]);
    }
  }

  /** Reading one more symbol takes one more `Next` step. */
  lemma {:induction false} RunSnoc(t: Transitions, c: set<string>, w: seq<string>, a: string)
    ensures Run(t, c, w + [a]) == Next(t, Run(t, c, w), a)
    decreases |w|
  {
    if w == [] {
      assert [a][1..] == [];
    } else {
      assert (w + [a])[1..] == w[1..] + [a];
      RunSnoc(t, Next(t, c, w[0]), w[1..], a);
    }
  }

  /** A validated automaton's transitions never leave its states. */
  lemma NextWithin(fa: Fa, c: set<string>, a: string)
    requires TransitionsOk(fa)
    ensures Next(fa.transitions, c, a) <= fa.states
  {
    forall q | q in Next(fa.transitions, c, a)
      ensures q in fa.states
    {
      var s :| s in c && q in Dest(fa.transitions, s, a);
      assert s in fa.transitions && a in fa.transitions[s];
    }
  }

  lemma {:induction false} RunWithin(fa: Fa, c: set<string>, w: seq<string>)
    requires TransitionsOk(fa) && c <= fa.states
    ensures Run(fa.transitions, c, w) <= fa.states
    decreases |w|
  {
    if w != [] {
      NextWithin(fa, c, w[0]);
      RunWithin(fa, Next(fa.transitions, c, w[0]), w[1..]);
    }
  }
}
