/** The classes `FA`, `NFA` and `DFA`: one automaton object whose fields the
    validators check and `to_dfa` builds in place, step by step. */
module Automata {
  import opened Naming
  import opened FiniteAutomata
  import opened SubsetSpec
  import opened ReadSpec

  /** The elements of a set, in whatever order the container yields them. */
  method Enumerate(s: set<string>) returns (xs: seq<string>)
    ensures forall x :: x in xs <==> x in s
  {
    xs := [];
    var rest := s;
    while rest != {}
      invariant rest <= s
      invariant forall x :: x in xs <==> x in s - rest
      decreases |rest|
    {
      var x :| x in rest;
      xs := xs + [x];
      rest := rest - {x};
    }
  }

  class Automaton {
    var alphabet: set<string>
    var states: set<string>
    var start: string
    var final: set<string>
    var transitions: Transitions

    /** The five fields, as a value. */
    function Value(): Fa
      reads this
    {
      Fa(alphabet, states, start, final, transitions)
    }

    /** `NFA()` and `DFA()`: every field empty, no start state. */
    constructor ()
      ensures Value() == Fa({}, {}, "", {}, map[])
    {
      alphabet, states, start, final, transitions := {}, {}, "", {}, map[];
    }

    /** `FA::read` once the file is open: the `getline` loop over `lines`, then
        `validate_automaton()`, whose exception is returned as a `Fail`. */
    method Read(lines: seq<string>) returns (r: Outcome)
      requires Readable(NoSection, lines)
      modifies this
      ensures Value() == Load(old(Value()), NoSection, lines)
      ensures r.Pass? <==> FaValid(Value())
      ensures r.Fail? ==> Explains(Value(), r.error)
    {
      var section := NoSection;
      var i := 0;
      while i < |lines|
        invariant i <= |lines|
        invariant Readable(section, lines[i..])
        invariant Load(Value(), section, lines[i..]) == Load(old(Value()), NoSection, lines)
      {
        assert lines[i..][1..] == lines[i + 1..];
        var line := TrimEnd(lines[i]);
        if line == "ALPHABET" {
          section := AlphabetSection;
        } else if line == "STATES" {
          section := StatesSection;
        } else if line == "START" {
          section := StartSection;
        } else if line == "FINAL" {
          section := FinalSection;
        } else if line == "TRANSITIONS" {
          section := TransitionsSection;
        } else if line == "END" {
          break;
        } else {
          match section
          case NoSection =>
          case AlphabetSection =>
            alphabet := alphabet + {line};
          case StatesSection =>
            states := states + {line};
          case StartSection =>
            start := line;
          case FinalSection =>
            final := final + {line};
          case TransitionsSection =>
            var tokens := Tokens(line);
            transitions := Inserted(transitions, tokens[0], tokens[1], tokens[2]);
        }
        i := i + 1;
      }
      r := Validate();
    }

    /** `FA::validate_automaton`: passes exactly when the structural invariants
        hold, and otherwise reports a violation the base checks find. */
    method Validate() returns (r: Outcome)
      ensures r.Pass? <==> FaValid(Value())
      ensures r.Fail? ==> Explains(Value(), r.error)
      ensures r.Fail? ==> !r.error.NoTransition? && !r.error.MoreThanOneTransition?
    {
      if start == "" {
        return Fail(NoStartState);
      }
      if start !in states {
        return Fail(StartNotInStates(start));
      }
      var finals := final;
      while finals != {}
        invariant finals <= final
        invariant forall q | q in final && q !in finals :: q in states
        decreases |finals|
      {
        var q :| q in finals;
        if q !in states {
          return Fail(FinalNotInStates(q));
        }
        finals := finals - {q};
      }
      var sources := transitions.Keys;
      while sources != {}
        invariant sources <= transitions.Keys
        invariant forall q | q in transitions && q !in sources :: q in states
        invariant forall q, a | q in transitions && q !in sources && a in transitions[q] :: a in alphabet
        invariant forall q, a | q in transitions && q !in sources && a in transitions[q] :: transitions[q][a] <= states
        decreases |sources|
      {
        var q :| q in sources;
        if q !in states {
          return Fail(SourceNotInStates(q));
        }
        r := ValidateRow(q);
        if r.Fail? {
          return;
        }
        sources := sources - {q};
      }
      return Pass;
    }

    /** The checks of one row of `transitions`, for a source already found in `states`. */
    method ValidateRow(q: string) returns (r: Outcome)
      requires StartOk(Value()) && FinalOk(Value())
      requires q in transitions && q in states
      ensures r.Pass? <==> forall a | a in transitions[q] :: a in alphabet && transitions[q][a] <= states
      ensures r.Fail? ==> Explains(Value(), r.error)
      ensures r.Fail? ==> r.error.SymbolNotInAlphabet? || r.error.TargetNotInStates?
    {
      var row := transitions[q];
      var symbols := row.Keys;
      while symbols != {}
        invariant symbols <= row.Keys
        invariant forall a | a in row && a !in symbols :: a in alphabet && row[a] <= states
        decreases |symbols|
      {
        var a :| a in symbols;
        if a !in alphabet {
          return Fail(SymbolNotInAlphabet(a));
        }
        var targets := row[a];
        while targets != {}
          invariant targets <= row[a]
          invariant forall x | x in row[a] && x !in targets :: x in states
          decreases |targets|
        {
          var x :| x in targets;
          if x !in states {
            return Fail(TargetNotInStates(x));
          }
          targets := targets - {x};
        }
        symbols := symbols - {a};
      }
      return Pass;
    }

    /** `DFA::validate_automaton`: the base checks, then exactly one destination
        for every state and symbol. */
    method ValidateDfa() returns (r: Outcome)
      ensures r.Pass? <==> DfaValid(Value())
      ensures r.Fail? ==> Explains(Value(), r.error)
    {
      r := Validate();
      if r.Fail? {
        return;
      }
      var qs := states;
      while qs != {}
        invariant qs <= states
        invariant forall q, a | q in states && q !in qs && a in alphabet :: |Dest(transitions, q, a)| == 1
        decreases |qs|
      {
        var q :| q in qs;
        var symbols := alphabet;
        while symbols != {}
          invariant symbols <= alphabet
          invariant forall a | a in alphabet && a !in symbols :: |Dest(transitions, q, a)| == 1
          decreases |symbols|
        {
          var a :| a in symbols;
          var targets := Dest(transitions, q, a);
          if |targets| == 0 {
            return Fail(NoTransition(q, a));
          } else if |targets| > 1 {
            return Fail(MoreThanOneTransition(q, a));
          }
          symbols := symbols - {a};
        }
        qs := qs - {q};
      }
      return Pass;
    }

    /** The innermost loop of `to_dfa`: the union of `transitions[s][a]` over the
        states `s` of `c`. */
    method Successors(c: set<string>, a: string) returns (next: set<string>)
      ensures next == Next(transitions, c, a)
    {
      next := {};
      var rest := c;
      while rest != {}
        invariant rest <= c
        invariant next == Next(transitions, c - rest, a)
        decreases |rest|
      {
        var s :| s in rest;
        NextAdd(transitions, c - rest, s, a);
        assert c - (rest - {s}) == (c - rest) + {s};
        next := next + Dest(transitions, s, a);
        rest := rest - {s};
      }
    }

    /** `states.insert(q)` after `states.find(q) == states.end()`. */
    method InsertState(q: string)
      modifies this
      ensures Value() == old(Value()).(states := old(states) + {q})
    {
      if q !in states {
        states := states + {q};
      }
    }

    /** `final.insert(q)` */
    method InsertFinal(q: string)
      modifies this
      ensures Value() == old(Value()).(final := old(final) + {q})
    {
      final := final + {q};
    }

    /** `transitions[q][a].insert(x)` */
    method InsertTransition(q: string, a: string, x: string)
      modifies this
      ensures Value() == old(Value()).(transitions := Inserted(old(transitions), q, a, x))
    {
      transitions := Inserted(transitions, q, a, x);
    }

    /** `transitions[q][a] = v` */
    method AssignTransition(q: string, a: string, v: set<string>)
      modifies this
      ensures Value() == old(Value()).(transitions := Assigned(old(transitions), q, a, v))
    {
      transitions := Assigned(transitions, q, a, v);
    }

    /** `transitions[SINK][b].insert(SINK)` for each symbol `b`, in order. */
    method LoopSink(symbols: seq<string>)
      modifies this
      ensures Value() == old(Value()).(transitions := SinkLooped(old(transitions), symbols))
    {
      ghost var t := transitions;
      for i := 0 to |symbols|
        invariant transitions == SinkLooped(t, symbols[..i])
        invariant alphabet == old(alphabet) && states == old(states)
        invariant start == old(start) && final == old(final)
      {
        assert symbols[..i + 1][..i] == symbols[..i];
        transitions := Inserted(transitions, Sink, symbols[i], Sink);
      }
      assert symbols[..|symbols|] == symbols;
    }

    /** `NFA::to_dfa`: the subset construction, breadth first from `{start}`,
        naming each subset with `set_to_string` and adding `SINK` the first time a
        subset has no successor on a symbol. */
    method ToDfa() returns (dfa: Automaton, ghost reached: set<set<string>>)
      requires FaValid(Value())
      ensures fresh(dfa)
      ensures SubsetConstructed(Value(), SetToString, dfa.Value(), reached)
      ensures Sink !in states ==> Sink !in dfa.final
      ensures Sink !in states && Sink in dfa.states ==>
                forall a | a in alphabet :: Dest(dfa.transitions, Sink, a) == {Sink}
      ensures ProperNames(Value()) ==> DfaValid(dfa.Value())
      ensures ProperNames(Value()) ==>
                forall w | Over(w, alphabet) :: DfaAccepts(dfa.Value(), w) <==> NfaAccepts(Value(), w)
    {
      dfa := new Automaton();
      dfa.alphabet := alphabet;
      dfa.start := start;
      var symbols := Enumerate(alphabet);
      reached := Explore(dfa, SetToString, symbols);
      ghost var n := Value();
      if Sink !in states {
        SetToStringAvoidsSink(n);
        SinkNotFinal(n, SetToString, dfa.Value(), reached);
        SinkOnlyIfNeeded(n, SetToString, dfa.Value(), reached);
      }
      if ProperNames(n) {
        SetToStringSeparates(n);
        ConstructedIsDfa(n, SetToString, dfa.Value(), reached);
        forall w | Over(w, alphabet)
          ensures DfaAccepts(dfa.Value(), w) <==> NfaAccepts(n, w)
        {
          LanguageEquivalence(n, SetToString, dfa.Value(), reached, w);
        }
      }
    }

    /** The `while (!operation_queue.empty())` loop of `to_dfa`, for a DFA that so
        far holds only the alphabet and the start state, with subsets named by
        `nameOf`. */
    method Explore(dfa: Automaton, nameOf: set<string> -> string, symbols: seq<string>)
      returns (ghost reached: set<set<string>>)
      requires dfa != this && FaValid(Value())
      requires dfa.Value() == Fa(alphabet, {}, start, {}, map[])
      requires nameOf({start}) == start
      requires forall b :: b in symbols <==> b in alphabet
      modifies dfa
      ensures SubsetConstructed(Value(), nameOf, dfa.Value(), reached)
    {
      ghost var n := Value();
      var queue := [{start}];
      var visited := {{start}};
      ghost var settled: set<set<string>> := {};
      ghost var done: set<Pair> := {};
      ghost var words: map<set<string>, seq<string>> := map[{start} := []];
      FrontierStart(n);
      BuildingStart(n, nameOf, dfa.Value());
      while queue != []
        invariant Frontier(n, queue, visited, settled, words)
        invariant Building(n, nameOf, dfa.Value(), Names(nameOf, settled), FinalNames(n, nameOf, settled),
                           done, visited)
        invariant forall p :: p in done <==> p.0 in settled && p.1 in alphabet
        decreases |SubsetsOf(states) - settled|
      {
        var current := queue[0];
        FrontierPop(n, queue, visited, settled, words);
        SettleShrinks(states, settled, current);
        queue := queue[1..];
        var name := nameOf(current);
        ghost var d := dfa.Value();
        dfa.InsertState(name);
        Register(n, nameOf, d, Names(nameOf, settled), FinalNames(n, nameOf, settled), done, visited, name);
        NamesAdd(nameOf, settled, current);
        queue, visited, done, words := ExpandSubset(dfa, nameOf, current, symbols, queue, visited, settled, done, words);
        settled := settled + {current};
      }
      reached := settled;
      Finished(n, nameOf, dfa.Value(), done, visited, settled, words);
    }

    /** One pass of `for state in current_states` per state of the popped subset,
        which joins the subsets `prior` already settled: the subset's name turns
        final on a final state, and every symbol's transition is written (again,
        on every pass after the first). Its ensures and loop invariants write
        `Frontier` and `Building` as `(P(...) == true)`: that keeps Dafny from
        splitting them into their conjuncts at every check, without which this
        method is too costly to verify. */
    method ExpandSubset(dfa: Automaton, nameOf: set<string> -> string, current: set<string>, symbols: seq<string>,
                        queue: seq<set<string>>, visited: set<set<string>>, ghost prior: set<set<string>>,
                        ghost done: set<Pair>, ghost words: map<set<string>, seq<string>>)
      returns (queue': seq<set<string>>, visited': set<set<string>>, ghost done': set<Pair>,
               ghost words': map<set<string>, seq<string>>)
      requires dfa != this && FaValid(Value())
      requires forall b :: b in symbols <==> b in alphabet
      requires current != {}
      requires Frontier(Value(), queue, visited, prior + {current}, words)
      requires Building(Value(), nameOf, dfa.Value(), Names(nameOf, prior + {current}),
                        FinalNames(Value(), nameOf, prior), done, visited)
      requires forall p :: p in done <==> p.0 in prior && p.1 in alphabet
      modifies dfa
      ensures (Frontier(Value(), queue', visited', prior + {current}, words') == true)
      ensures (Building(Value(), nameOf, dfa.Value(), Names(nameOf, prior + {current}),
                        FinalNames(Value(), nameOf, prior + {current}), done', visited') == true)
      ensures forall p :: p in done' <==> p.0 in prior + {current} && p.1 in alphabet
    {
      ghost var n := Value();
      ghost var before := FinalNames(n, nameOf, prior);
      var name := nameOf(current);
      var members := Enumerate(current);
      queue', visited', done', words' := queue, visited, done, words;
      ghost var marked := false;
      assert Marked(before, name, marked) == before;
      for i := 0 to |members|
        invariant marked <==> exists k | 0 <= k < i :: members[k] in final
        invariant (Frontier(n, queue', visited', prior + {current}, words') == true)
        invariant (Building(n, nameOf, dfa.Value(), Names(nameOf, prior + {current}), Marked(before, name, marked),
                            done', visited') == true)
        invariant forall p :: p in done' <==> p in done || (i > 0 && p.0 == current && p.1 in alphabet)
      {
        if members[i] in final {
          ghost var d := dfa.Value();
          dfa.InsertFinal(name);
          MarkFinal(n, nameOf, d, Names(nameOf, prior + {current}), before, marked, done', visited', name);
          marked := true;
        }
        assert marked <==> exists k | 0 <= k < i + 1 :: members[k] in final;
        queue', visited', done', words' :=
          ExpandSymbols(dfa, nameOf, current, name, symbols, queue', visited', prior + {current},
                        Marked(before, name, marked), done', words');
      }
      assert members != [] by {
        var x :| x in current;
        assert x in members;
      }
      assert marked <==> current * final != {} by {
        if current * final != {} {
          var x :| x in current * final;
          assert x in members;
          var k :| 0 <= k < |members| && members[k] == x;
        }
        if marked {
          var k :| 0 <= k < |members| && members[k] in final;
          assert members[k] in current * final;
        }
      }
      FinalNamesAdd(n, nameOf, prior, current);
      assert Marked(before, name, marked) == FinalNames(n, nameOf, prior + {current});
    }

    /** `for symbol in alphabet`: writes the transition of `current` on every symbol. */
    method ExpandSymbols(dfa: Automaton, nameOf: set<string> -> string, current: set<string>, name: string, symbols: seq<string>,
                         queue: seq<set<string>>, visited: set<set<string>>, ghost settled: set<set<string>>,
                         ghost finals: set<string>, ghost done: set<Pair>, ghost words: map<set<string>, seq<string>>)
      returns (queue': seq<set<string>>, visited': set<set<string>>, ghost done': set<Pair>,
               ghost words': map<set<string>, seq<string>>)
      requires dfa != this && FaValid(Value())
      requires forall b :: b in symbols <==> b in alphabet
      requires current in settled && name == nameOf(current)
      requires Frontier(Value(), queue, visited, settled, words)
      requires Building(Value(), nameOf, dfa.Value(), Names(nameOf, settled), finals, done, visited)
      modifies dfa
      ensures Frontier(Value(), queue', visited', settled, words')
      ensures Building(Value(), nameOf, dfa.Value(), Names(nameOf, settled), finals, done', visited')
      ensures forall p :: p in done' <==> p in done || (p.0 == current && p.1 in alphabet)
    {
      queue', visited', done', words' := queue, visited, done, words;
      for j := 0 to |symbols|
        invariant Frontier(Value(), queue', visited', settled, words')
        invariant Building(Value(), nameOf, dfa.Value(), Names(nameOf, settled), finals, done', visited')
        invariant forall p :: p in done' <==> p in done || (p.0 == current && p.1 in symbols[..j])
      {
        assert symbols[..j + 1] == symbols[..j] + [symbols[j]];
        queue', visited', words' :=
          ExpandSymbol(dfa, nameOf, current, name, symbols[j], symbols, queue', visited', settled, finals, done', words');
        done' := done' + {(current, symbols[j])};
      }
      assert symbols[..|symbols|] == symbols;
    }

    /** The body of `for symbol in alphabet`: the successors of `current` on
        `symbol`, then either the transition to their name (queueing them if not
        yet visited) or the transition to `SINK`. */
    method ExpandSymbol(dfa: Automaton, nameOf: set<string> -> string, current: set<string>, name: string, symbol: string, symbols: seq<string>,
                        queue: seq<set<string>>, visited: set<set<string>>, ghost settled: set<set<string>>,
                        ghost finals: set<string>, ghost done: set<Pair>, ghost words: map<set<string>, seq<string>>)
      returns (queue': seq<set<string>>, visited': set<set<string>>, ghost words': map<set<string>, seq<string>>)
      requires dfa != this && FaValid(Value())
      requires forall b :: b in symbols <==> b in alphabet
      requires current in settled && name == nameOf(current) && symbol in alphabet
      requires Frontier(Value(), queue, visited, settled, words)
      requires Building(Value(), nameOf, dfa.Value(), Names(nameOf, settled), finals, done, visited)
      modifies dfa
      ensures Frontier(Value(), queue', visited', settled, words')
      ensures Building(Value(), nameOf, dfa.Value(), Names(nameOf, settled), finals,
                       done + {(current, symbol)}, visited')
    {
      ghost var n := Value();
      ghost var d := dfa.Value();
      assert forall v | v in visited :: v <= n.states;
      var next := Successors(current, symbol);
      if next != {} {
        var nextName := nameOf(next);
        dfa.InsertTransition(name, symbol, nextName);
        ExpandToSuccessor(n, nameOf, d, Names(nameOf, settled), finals, done, visited, settled,
                          current, symbol);
        if next !in visited {
          FrontierPush(n, queue, visited, settled, words, current, symbol);
          queue', visited', words' := queue + [next], visited + {next}, words[next := words[current] + [symbol]];
        } else {
          assert visited + {next} == visited;
          queue', visited', words' := queue, visited, words;
        }
      } else {
        dfa.InsertState(Sink);
        dfa.LoopSink(symbols);
        dfa.AssignTransition(name, symbol, {Sink});
        ExpandToSink(n, nameOf, d, Names(nameOf, settled), finals, done, visited, settled,
                     current, symbol, symbols);
        queue', visited', words' := queue, visited, words;
      }
    }
  }
}
