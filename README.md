# NFA to DFA by subset construction

A Dafny model of the core of a small C++ tool, `project1/EGE_GUNGORDU_S021463.cpp`. The tool
reads an automaton description and validates it as an NFA. It then turns the NFA into a DFA
with the Rabin–Scott subset construction and prints the result.

The model covers four parts of the source:

- **The line loop of `FA::read`.** The model starts from lines already read from the file.
  Each line loses at most one trailing blank. A header switches the current section, `END`
  stops the loop, and every other line is stored in the field of the current section.
  `ReadSpec.Load` states this as a function over the lines. `Automata.Automaton.Read` is the
  loop itself, proved equal to `Load` and followed by base validation.
- **Validation.** `FA::validate_automaton` checks the start state, the final states and every
  transition's source, symbol and target. `DFA::validate_automaton` adds exactly one destination
  for every state and symbol. Both are methods of the class `Automata.Automaton` that iterate
  over the containers in an unspecified order, as hash containers do. Each passes exactly when
  the predicate `FaValid` (or `DfaValid`) holds. When one fails, the reported error names a
  real violation, and every check made before it has passed.
- **Canonical subset names.** `Naming.SetToString` is `set_to_string`. It gives "" for the empty
  set and the element itself for a singleton. Otherwise it gives `{`, the elements in
  `std::set<std::string>` order separated by commas, and `}`. `Naming.ParseName` decodes a name
  back into its subset. The round trip shows the naming is injective on subsets whose state
  names are non-empty and contain no `,` or `{`.
- **`NFA::to_dfa`.** The class method `Automata.Automaton.ToDfa` drives a FIFO queue and a
  visited set of subsets. It keeps the source's nesting: for each state of the popped subset,
  the loop over the alphabet runs again. It adds `SINK` lazily, with self-loops. The
  specification `SubsetSpec.SubsetConstructed` says what the result is:
  - the explored subsets are exactly the non-empty reachable ones;
  - the DFA's states are their names, plus `SINK` when some subset is stuck on some symbol;
  - a name is final iff its subset holds an NFA final state;
  - every (state, symbol) pair has a destination, and `SINK` loops to itself on every symbol.
  When no NFA state is named `SINK`, `SINK` is never final and goes only to itself.
  When state names are well formed (`SubsetSpec.ProperNames`), more is proved. Every
  transition goes to the name of the successor subset, or to `SINK`. The output passes DFA
  validation. It accepts exactly the words the NFA accepts.

Modules: `Naming` (string order, sorted listing, `SetToString`, decoding), `FiniteAutomata`
(the automaton value `Fa`, transition lookup as `operator[]` reads it, validity, runs and
acceptance), `ReadSpec` (the read loop as a function), `SubsetSpec` (the construction's
specification, loop invariants and correctness lemmas), and `Automata` (the class and its
methods).

## Model

| member | source | states |
|---|---|---|
| `Automata.Automaton.Read` | project1/EGE_GUNGORDU_S021463.cpp:29-65 | the fields after the loop are `Load` of the old fields over the lines, starting in no section; the result passes iff the loaded automaton meets the base invariants, and a failure names a real violation |
| `ReadSpec.Load` | project1/EGE_GUNGORDU_S021463.cpp:29-63 | the loop only ever adds to the automaton: every set it fills and every destination set keeps what it held; with no line before `END` nothing changes |
| `ReadSpec.Store` | project1/EGE_GUNGORDU_S021463.cpp:45-61 | a data line lands in the field of the current section (replacing the start state in START, adding `tokens[2]` to `transitions[tokens[0]][tokens[1]]` in TRANSITIONS), outside any section it is dropped, and no other field changes |
| `ReadSpec.TrimEnd` | project1/EGE_GUNGORDU_S021463.cpp:31 | at most the last character is removed, and it is removed iff it is a blank |
| `ReadSpec.Tokens` | project1/EGE_GUNGORDU_S021463.cpp:54-56 | every token is non-empty and blank-free |
| `ReadSpec.TokensSplit` | project1/EGE_GUNGORDU_S021463.cpp:54-56 | a blank separates tokens: the tokens of `x + blank + y` are those of `x` followed by those of `y` |
| `ReadSpec.TrimEndKeepsTokens` | project1/EGE_GUNGORDU_S021463.cpp:31-59 | trimming a line never changes its tokens |
| `ReadSpec.ThreeTokensIsData` | project1/EGE_GUNGORDU_S021463.cpp:32-44 | a line with three tokens is never taken for a header or `END` |
| `ReadSpec.EndStops` | project1/EGE_GUNGORDU_S021463.cpp:42-43 | everything after an `END` line is ignored |
| `ReadSpec.LeadingLinesIgnored` | project1/EGE_GUNGORDU_S021463.cpp:44-62 | data lines before any header leave the automaton unchanged |
| `ReadSpec.SetSectionCollects` | project1/EGE_GUNGORDU_S021463.cpp:45-52 | in ALPHABET, STATES and FINAL, the trimmed data lines are added to that section's set and nothing else changes |
| `ReadSpec.StartLastWins` | project1/EGE_GUNGORDU_S021463.cpp:49-50 | in START, the last data line is the start state |
| `ReadSpec.ExtraTokensIgnored` | project1/EGE_GUNGORDU_S021463.cpp:54-60 | a transition line contributes only its first three tokens; appending more changes nothing |
| `Automata.Automaton.Validate` | project1/EGE_GUNGORDU_S021463.cpp:108-142 | passes iff start is set and in states, finals are states, and every transition source, symbol and target is known; a failure names a real violation, a missing start comes before all else, and nothing is modified |
| `Automata.Automaton.ValidateRow` | project1/EGE_GUNGORDU_S021463.cpp:131-140 | passes iff every symbol of one source's row is in the alphabet and all its targets are states |
| `Automata.Automaton.ValidateDfa` | project1/EGE_GUNGORDU_S021463.cpp:164-177 | passes iff the base checks pass and every state has exactly one destination on every symbol; a failure is a base error, "no transition" or "more than one transition" for a real pair |
| `FiniteAutomata.ExplainedErrorsAreFatal` | project1/EGE_GUNGORDU_S021463.cpp:108-177 | every error the validators may report means the automaton is not a DFA; the base errors mean it breaks a base invariant |
| `FiniteAutomata.Inserted` | project1/EGE_GUNGORDU_S021463.cpp:60 | `transitions[q][a].insert(x)` adds `x` to that one destination set and changes no other |
| `FiniteAutomata.Assigned` | project1/EGE_GUNGORDU_S021463.cpp:249 | `transitions[q][a] = v` replaces that one destination set and changes no other |
| `FiniteAutomata.RunWithin` | project1/EGE_GUNGORDU_S021463.cpp:124-141 | in a validated automaton, runs from a set of states never leave the states |
| `FiniteAutomata.RunSnoc` | project1/EGE_GUNGORDU_S021463.cpp:226-232 | reading one more symbol takes one more successor step |
| `Naming.Sorted` | project1/EGE_GUNGORDU_S021463.cpp:150 | the listing is strictly ascending in `std::string` order and holds exactly the set's elements |
| `Naming.SetToString` | project1/EGE_GUNGORDU_S021463.cpp:143-157 | a singleton is named by its element; a larger set gets a name wrapped in braces |
| `Naming.NameOfSeveral` | project1/EGE_GUNGORDU_S021463.cpp:148-155 | for two or more elements the loop plus `pop_back` yields `{` + the sorted elements joined by commas + `}` |
| `Naming.NameOfListing` | project1/EGE_GUNGORDU_S021463.cpp:150-152 | the name of a set depends only on its contents: any ascending listing of the same elements gives the same name |
| `Naming.NameRoundTrip` | project1/EGE_GUNGORDU_S021463.cpp:143-157 | decoding the name of a set of non-empty, comma- and brace-free names gives the set back |
| `Naming.NameInjective` | project1/EGE_GUNGORDU_S021463.cpp:143-157 | two such sets with the same name are equal |
| `Naming.SplitJoin` | project1/EGE_GUNGORDU_S021463.cpp:150-153 | splitting comma-joined, comma-free names gives the names back |
| `SubsetSpec.SetToStringAvoidsSink` | project1/EGE_GUNGORDU_S021463.cpp:143-157 | when no NFA state is named `SINK`, no subset of the states is named `SINK` either |
| `SubsetSpec.SetToStringSeparates` | project1/EGE_GUNGORDU_S021463.cpp:143-157 | for well-named NFAs, distinct subsets of the states get distinct names and none is `SINK` |
| `Automata.Automaton.ToDfa` | project1/EGE_GUNGORDU_S021463.cpp:195-255 | the fresh DFA meets `SubsetConstructed`; when no NFA state is named `SINK`, `SINK` is never final and, once added, goes only to itself; for well-named NFAs it is a valid DFA and accepts exactly the NFA's words over the alphabet |
| `Automata.Automaton.Explore` | project1/EGE_GUNGORDU_S021463.cpp:200-253 | the BFS from `{start}` leaves the DFA that `SubsetConstructed` describes, and terminates because each subset of the states is settled at most once |
| `Automata.Automaton.ExpandSubset` | project1/EGE_GUNGORDU_S021463.cpp:218-252 | the repeated per-state passes make the name final iff the subset holds a final state, and write every symbol's transition exactly as one pass would |
| `Automata.Automaton.ExpandSymbols` | project1/EGE_GUNGORDU_S021463.cpp:225-251 | after the symbol loop, the popped subset's transition on every symbol is written |
| `Automata.Automaton.ExpandSymbol` | project1/EGE_GUNGORDU_S021463.cpp:226-250 | one symbol: the transition goes to the successor's name, which is queued if not yet visited, or to `SINK`, which is added with self-loops |
| `Automata.Automaton.Successors` | project1/EGE_GUNGORDU_S021463.cpp:227-232 | the computed set is the union of `transitions[s][a]` over the subset |
| `Automata.Automaton.LoopSink` | project1/EGE_GUNGORDU_S021463.cpp:246-248 | `SINK` gains a self-loop on every symbol and nothing else changes |
| `Automata.Automaton.constructor` | project1/EGE_GUNGORDU_S021463.cpp:194-196 | a new automaton (`NFA()`, and the `DFA dfa;` that `to_dfa` declares) has an empty alphabet, states, finals and transitions, and no start state |
| `Automata.Automaton.InsertFinal` | project1/EGE_GUNGORDU_S021463.cpp:220-223 | the subset's name is added to the final states and nothing else changes |
| `Automata.Automaton.InsertTransition` | project1/EGE_GUNGORDU_S021463.cpp:237 | `dfa.transitions[current][symbol].insert(next)` adds one destination and changes nothing else |
| `Automata.Automaton.AssignTransition` | project1/EGE_GUNGORDU_S021463.cpp:249 | `dfa.transitions[current][symbol] = {SINK}` replaces that one destination set and changes nothing else |
| `Automata.Automaton.InsertState` | project1/EGE_GUNGORDU_S021463.cpp:213-216 | the name is added to the states and nothing else changes |
| `SubsetSpec.SinkLooped` | project1/EGE_GUNGORDU_S021463.cpp:246-248 | `SINK` gains itself as a destination on exactly the listed symbols |
| `SubsetSpec.FrontierPush` | project1/EGE_GUNGORDU_S021463.cpp:239-242 | a successor is queued only if not yet visited, so each subset enters the queue at most once, and it is reached by a recorded word |
| `SubsetSpec.FrontierPop` | project1/EGE_GUNGORDU_S021463.cpp:208-209 | the popped subset was not settled before and is a subset of the states |
| `SubsetSpec.SettleShrinks` | project1/EGE_GUNGORDU_S021463.cpp:206-209 | settling a new subset shrinks the unsettled subsets of the states, the loop's termination measure |
| `SubsetSpec.ReachableStep` | project1/EGE_GUNGORDU_S021463.cpp:227-241 | a non-empty successor of a reachable subset is reachable |
| `SubsetSpec.ExploredAreReachable` | project1/EGE_GUNGORDU_S021463.cpp:203-253 | when the queue is empty, the explored subsets are exactly the reachable ones |
| `SubsetSpec.ConstructedIsDfa` | project1/EGE_GUNGORDU_S021463.cpp:225-250 | the constructed automaton passes `DFA::validate_automaton`: one destination for every state and symbol |
| `SubsetSpec.FinalIffSubsetFinal` | project1/EGE_GUNGORDU_S021463.cpp:218-223 | for any naming that gives distinct subsets of the states distinct names, a subset's name is final iff the subset holds an NFA final state |
| `SubsetSpec.SinkNotFinal` | project1/EGE_GUNGORDU_S021463.cpp:244-249 | `SINK` is never final, for any naming that gives no subset of the states the name `SINK` |
| `SubsetSpec.SinkOnlyIfNeeded` | project1/EGE_GUNGORDU_S021463.cpp:244-249 | for such a naming, `SINK` is a DFA state iff some explored subset has no successor on some symbol |
| `SubsetSpec.SinkAbsorbs` | project1/EGE_GUNGORDU_S021463.cpp:245-248 | once in `SINK`, the DFA stays there on every word, for any naming that gives no subset of the states the name `SINK` |
| `SubsetSpec.DfaTracksNfa` | project1/EGE_GUNGORDU_S021463.cpp:206-253 | from a subset's name, the DFA ends in the name of the NFA's run, or in `SINK` when the run dies |
| `SubsetSpec.LanguageEquivalence` | project1/EGE_GUNGORDU_S021463.cpp:195-255 | the DFA accepts a word over the alphabet iff the NFA accepts it |

## Left out

- Opening the file and the "File not found" error (project1/EGE_GUNGORDU_S021463.cpp:18-27) are I/O. `Read` takes the lines.
- `print` (project1/EGE_GUNGORDU_S021463.cpp:67-99) only sorts and writes to standard output.
- `main` (project1/EGE_GUNGORDU_S021463.cpp:258-285) is command-line glue. Note that it never calls `DFA::validate_automaton` on the result; `ConstructedIsDfa` stands in for that check.
- `hash_on_sum` (project1/EGE_GUNGORDU_S021463.cpp:181-189) only serves the hash set. The visited set is a `set<set<string>>`, equal by contents.
- The read loop's undefined behaviour is excluded by the precondition `Readable`. Trimming an empty line reads before its start, and a transition line with fewer than three tokens is read out of bounds. So every line the loop reaches is non-empty, and every transition data line has three tokens.
- Which offending name a validator reports first depends on hash-container order. The model leaves it open and only says the reported one is a real violation.
- `operator[]` lookups that create empty entries (project1/EGE_GUNGORDU_S021463.cpp:170 and :231) are read as empty sets without inserting the key. Empty entries change no check and no output.
- Automata.Automaton.ToDfa: the exact transitions, DFA validity and language equivalence are proved only when `ProperNames` holds. That means no NFA state is empty, contains `,` or `{`, or is named `SINK`. The facts about `SINK` need only that no NFA state is named `SINK`. Without it, two subsets, or a subset and the sink, can share a name, and the source's output need not be a DFA.
- The texts of the validators' exceptions are not modelled. An error is modelled by its kind and the offending state or symbol it names (`FiniteAutomata.ValidationError`).
- The idempotence scenario, where converting an already deterministic, total automaton gives an isomorphic one, is not proved.
