# Regular expression to minimized DFA, in Dafny

This project models the C++ pipeline of `cpp/src/nfa.cpp` and
`cpp/src/dfa.cpp`. The pipeline has five stages:

1. **Parse.** A pattern over alphanumerics, `*`, `|` and parentheses gets
   explicit `.` concatenation operators (`addConcat`). The shunting-yard
   algorithm then rewrites it to postfix (`toPostfix`).
2. **Build an NFA.** Thompson's construction turns the postfix string into
   an NFA (`createState`, `singleCharNFA`, `concat`, `alternate`,
   `kleeneStar`, `regexToNFA`).
3. **Build a DFA.** The subset construction turns the NFA into a DFA that
   accepts the same language. It uses breadth-first epsilon-closures and a
   FIFO worklist (`convertNFAtoDFA`).
4. **Run the DFA.** `simulateDFA` runs the DFA on an input and records a
   trace. `isDeadState` is the one-hop dead-state test.
5. **Minimize.** `minimizeDFA` minimizes the DFA by partition refinement
   with a FIFO queue of splitters, then rebuilds one state per block.

The modules follow the stages:

| module | file | stage |
|---|---|---|
| `Common` | `common.dfy` | options, `isalnum`, and the least elements that `std::set` and `std::map` iterate first |
| `Parser` | `parser.dfy` | `addConcat`, `precedence` and `toPostfix` |
| `PostfixFacts` | `postfix_facts.dfy` | what `toPostfix` guarantees |
| `PostfixExamples` | `postfix_examples.dfy` | the postfix form of four small patterns |
| `Nfa` | `nfa.dfy` | the NFA states and fragments of `nfa.h` |
| `Thompson` | `thompson.dfy` | the builder and `regexToNFA` |
| `ThompsonFacts` | `thompson_facts.dfy` | what `regexToNFA` guarantees |
| `Closures` | `closure.dfy` | epsilon-closure and symbol moves |
| `Dfa` | `dfa.dfy` | the DFA of `dfa.h` and the meaning of running it |
| `Simulation` | `simulate.dfy` | `simulateDFA` and `isDeadState` |
| `SubsetConstruction` | `subset.dfy` | `convertNFAtoDFA` |
| `Minimization` | `minimize.dfy` | `minimizeDFA` as written |
| `MinimizationFacts` | `minimize_facts.dfy` | what it guarantees, and the counterexample |
| `MinimizationFixed` | `minimize_fixed.dfy` | the corrected refinement loop and its language preservation |

**How the C++ objects are represented:**
- **NFA states.** They live in an arena, a `seq<NfaNode>` indexed by state
  id. Each node has a `map<char, seq<nat>>` of edges, and `'\0'` labels an
  epsilon edge. A `State*` becomes its id, a `set<State*>` becomes a
  `set<nat>`, and an `NFA` fragment becomes a pair of ids.
- **The builder.** The global counter `stateId` and the heap of states are
  the fields of the class `NfaBuilder`. Its methods update them in place,
  as the C++ functions do.
- **Loops.** Each loop of the source that builds its result step by step
  is a `method` with a `while` loop. It is proved equal to a specification
  function, such as `WithConcat`, `PostfixOf`, `ThompsonOf`, `Closure`,
  `Refine` or `MinimizedOf`. The properties are lemmas about those
  functions. Two pairs of loops are not loops in the model: the copy of a
  state set into `nfaStates` and the scan for the accept id
  (cpp/src/dfa.cpp:46-50 and 108-112). With states named by id, the copy is
  the set itself and the scan is the test `acceptId in S`.
- **Undefined behaviour.** Where the C++ code pops or reads an empty
  `std::stack`, the model returns `None`. This happens on an unmatched `)`,
  an operator short of operands, or an empty pattern.

## Model

| member | source | states |
|---|---|---|
| Parser.AddConcat | cpp/src/nfa.cpp:48-66 | returns `WithConcat(regex)`: every character of the input in order, with a `.` after position i exactly when `regex[i]` is alphanumeric, `*` or `)` and `regex[i+1]` is alphanumeric or `(` |
| Parser.WithConcatLength | cpp/src/nfa.cpp:51-63 | the output is as long as the input plus the number of adjacent pairs that need a `.` |
| Parser.RemoveInsertedDots | cpp/src/nfa.cpp:48-66 | on a pattern without `.`, deleting every `.` from the output gives back the input: only dots are inserted and nothing moves |
| Parser.WithConcatSeam | cpp/src/nfa.cpp:55-62 | the insertion is local: on `x + y` it is the insertion on `x`, a `.` at the seam exactly when the last character of `x` and the first of `y` concatenate, then the insertion on `y` |
| Parser.ToPostfix | cpp/src/nfa.cpp:83-122 | returns `PostfixOf(regex)`: the shunting-yard output over the dotted pattern, operators flushed top first at the end, and `None` exactly where a `)` pops the empty stack (line 104) |
| PostfixFacts.PostfixKeepsOperands | cpp/src/nfa.cpp:89-92 | whenever `toPostfix` succeeds, the alphanumerics of the output are those of the input, in the same order and multiplicity |
| PostfixFacts.PostfixParentheses | cpp/src/nfa.cpp:93-105 | on a pattern of operands, operators and parentheses, `toPostfix` succeeds exactly when no `)` closes a group that is not open; on a balanced pattern the output holds no parenthesis |
| PostfixFacts.PopWhileDiscipline | cpp/src/nfa.cpp:106-113 | before an operator of precedence p is pushed, the output receives exactly the run of operators on top of the stack that bind at least as tightly as p, top first; what stays below binds less tightly, or the stack is empty |
| PostfixFacts.RunAscending | cpp/src/nfa.cpp:68-122 | throughout the loop, above each `(` the stack holds operators of strictly increasing precedence (`\|` 1, `.` 2, `*` 3), so the tightest-binding pending operator is always emitted first |
| PostfixExamples.StarBindsTightest | cpp/src/nfa.cpp:68-122 | `a\|bc*` becomes `abc*.\|`: `*` is applied to `c` before `.` and `.` before `\|`. The postfix leaves one fragment, and `regexToNFA` succeeds on the pattern |
| PostfixExamples.StarBeforeConcat | cpp/src/nfa.cpp:68-122 | `ab*` becomes `ab*.`: the star applies to `b` alone. One fragment remains, and `regexToNFA` succeeds |
| PostfixExamples.ConcatBeforeAlternation | cpp/src/nfa.cpp:106-113 | `ab\|c` becomes `ab.c\|`: the `\|` first pops the pending `.`, so the concatenation groups first. One fragment remains, and `regexToNFA` succeeds |
| PostfixExamples.GroupBeforeConcat | cpp/src/nfa.cpp:93-105 | `(a\|b)c` becomes `ab\|c.`: the `)` emits the alternation, which is then concatenated with `c` as a whole. One fragment remains, and `regexToNFA` succeeds |
| Thompson.NfaBuilder.constructor | cpp/src/nfa.cpp:6 | a run starts with no states and the counter at 0 (the reset at line 126) |
| Thompson.NfaBuilder.CreateState | cpp/src/nfa.cpp:8-13 | returns the old counter as the new state's id, increments the counter, and adds exactly one state with that id and no edges |
| Thompson.NfaBuilder.SingleCharNFA | cpp/src/nfa.cpp:15-21 | the arena becomes `SingleCharArena(old arena, c)`, and the builder stays valid (ids 0 .. n-1 by position, every edge to an existing state) |
| Thompson.NfaBuilder.Concat | cpp/src/nfa.cpp:23-27 | the arena becomes `ConcatArena(old arena, a, b)`, and the builder stays valid |
| Thompson.NfaBuilder.Alternate | cpp/src/nfa.cpp:29-37 | the arena becomes `AlternateArena(old arena, a, b)`, and the builder stays valid |
| Thompson.NfaBuilder.KleeneStar | cpp/src/nfa.cpp:39-46 | the arena becomes `StarArena(old arena, a)`, and the builder stays valid |
| Thompson.SingleCharArena | cpp/src/nfa.cpp:15-21 | exactly two fresh states are appended and no old state changes; the start has the single edge `c` to the accept; the accept has no edges |
| Thompson.ConcatArena | cpp/src/nfa.cpp:23-27 | no state is created; only `a.accept` changes, gaining one epsilon edge to `b.start` at the end of its list; the fragment is (a.start, b.accept) |
| Thompson.AlternateArena | cpp/src/nfa.cpp:29-37 | two fresh states, the new start with epsilon edges to `a.start` and `b.start`; each operand's accept gains one epsilon edge to the new accept, which has no edges; no other state and no non-epsilon edge changes |
| Thompson.StarArena | cpp/src/nfa.cpp:39-46 | two fresh states, the new start with epsilon edges to `a.start` and the new accept; the epsilon list of `a.accept` is replaced by `[a.start, accept]`; no other state and no non-epsilon edge changes |
| Thompson.RegexToNFA | cpp/src/nfa.cpp:124-160 | returns `ThompsonOf(regex)`: the top fragment after evaluating the postfix pattern with the builder from an empty arena, or `None` where the C++ code reads an empty stack |
| ThompsonFacts.EvaluateFacts | cpp/src/nfa.cpp:130-158 | evaluation fails exactly when some operator finds too few fragments (an operand pushes one, `*` keeps the depth, `.` and `\|` take one); on success every fragment's accept has no edges, the accepts increase up the stack with the top one the newest state, the depth is the counted one, and each operand, `*` and `\|` allocated exactly two states |
| ThompsonFacts.RegexToNfaShape | cpp/src/nfa.cpp:124-160 | `regexToNFA` succeeds exactly when the postfix form exists and leaves at least one fragment. The NFA then has states 0 .. n-1 with id = position and edges only to states, with n twice the number of operands, `*` and `\|`. Its start is a state, and its accept is the last state created (id n-1) and has no edges. So the overwrite at line 44 loses no edge, as the accept id used by the export at line 220 requires |
| Closures.EpsilonClosure | cpp/src/dfa.cpp:18-38 | the breadth-first search with a visited set returns `Closure(nfa, seeds)`, the least superset of the seeds closed under epsilon edges; this holds on epsilon cycles too (the same loop as lines 77-98) |
| Closures.ClosureLeast | cpp/src/dfa.cpp:25-38 | the closure lies inside every epsilon-closed superset of the seeds; with `Closure`'s own contract (contains the seeds, closed, within the arena) this pins it down |
| Closures.CollectMoves | cpp/src/dfa.cpp:63-73 | `transitions` has an entry exactly for each non-epsilon symbol on which some state of the set has an edge, holding exactly the targets of those edges |
| SubsetConstruction.ConvertNFAtoDFA | cpp/src/dfa.cpp:11-123 | the result is the subset DFA. Ids are exactly 0 .. n-1 and the start is 0, standing for the closure of the NFA start. Each state's `nfaStates` is its set, and it accepts iff that set holds the NFA accept id. Distinct ids stand for distinct sets. Each state has a transition on exactly the non-epsilon symbols its set moves on, to the state of the closure of that move. Every state but 0 was discovered from an earlier one. From its start the DFA accepts exactly the words the NFA accepts (`NfaAccepts`), and it never reads an id that is not a state |
| SubsetConstruction.SubsetRun | cpp/src/dfa.cpp:59-123 | in a subset DFA, reading a word from any state ends with the verdict "the NFA states reached from that state's set hold the accept id", where reaching means a symbol move followed by the epsilon-closure, and `'\0'` in the input reaches nothing |
| SubsetConstruction.SubsetLanguage | cpp/src/dfa.cpp:11-123 | a subset DFA accepts from its start exactly the language of the NFA: the words that lead the closure of the NFA start to a set holding the accept state |
| Simulation.SimulateDFA | cpp/src/dfa.cpp:175-199 | the verdict is `Run(dfa, start, input)`: rejection at the first missing transition, otherwise the final state's accept flag, or `OutOfRange` where `states.at` throws. The trace is the caller's trace, then the start, then one state per symbol consumed |
| Simulation.VisitedSteps | cpp/src/dfa.cpp:177-192 | the trace starts with the state it started from and records at most one state per symbol; consecutive entries are joined by the transition on the symbol read |
| Simulation.VisitedComplete | cpp/src/dfa.cpp:180-193 | on a consistent DFA, the trace has one entry per symbol plus one exactly when every symbol had a transition, and then it ends in the state reached |
| Simulation.RunVerdict | cpp/src/dfa.cpp:185-198 | on a consistent DFA the simulation never throws, and it accepts iff every symbol has a transition and the state reached accepts |
| Simulation.IsDeadState | cpp/src/dfa.cpp:165-173 | false for an accepting state; otherwise true iff no transition leads into the given set |
| Simulation.DeadWithAllIds | cpp/src/dfa.cpp:137-147 | with every state id as the set, as the export passes it, the test flags exactly the non-accepting states without transitions |
| Simulation.TrulyDeadIsOneHopDead | cpp/src/dfa.cpp:165-173 | a state from which no input is accepted passes the test against the accepting states |
| Simulation.OneHopIsShallow | cpp/src/dfa.cpp:165-173 | the converse fails: in 0 -a-> 1 -a-> 2 with only 2 accepting, state 0 passes the test although it accepts `aa` |
| Minimization.PartitionByAccept | cpp/src/dfa.cpp:206-214 | `accept` holds exactly the accepting ids and `nonAccept` exactly the others |
| Minimization.CollectAlphabet | cpp/src/dfa.cpp:216-222 | `alphaSet` holds exactly the symbols of all transitions |
| Common.SortChars | cpp/src/dfa.cpp:223-224 | returns `SortedChars(s)`: each element of the set once, in strictly increasing order, the order in which a `std::set<char>` is iterated |
| Minimization.InitialQueueOf | cpp/src/dfa.cpp:232-239 | for each symbol in order, the accepting class and then the non-accepting class, each only when non-empty |
| Minimization.OrderBlocks | cpp/src/dfa.cpp:247 | the blocks of the partition in iteration order: each block once, by increasing least element, which is lexicographic order for disjoint non-empty blocks |
| Minimization.SplitBlock | cpp/src/dfa.cpp:249-257 | `Y1` holds exactly the members of `Y` with a `c` transition into `A`, and `Y2` the rest |
| Minimization.FindSplit | cpp/src/dfa.cpp:247-259 | `None` exactly when the splitter cuts no block; otherwise the first block in iteration order that it cuts into two non-empty parts, with the two parts |
| Minimization.PushAll | cpp/src/dfa.cpp:264-268 | the queue grows by `(Y1, a), (Y2, a)` for each symbol `a` in order |
| Minimization.SplitPartition | cpp/src/dfa.cpp:259-263 | replacing a cut block by its two parts keeps a partition of the states (non-empty, disjoint blocks covering all states) and adds exactly one block |
| Minimization.PartitionSize | cpp/src/dfa.cpp:241-272 | a partition has at most as many blocks as there are states; with `SplitPartition` this bounds the number of splits, so the loop terminates by the measure (states - blocks, queue length) |
| Minimization.Refinement | cpp/src/dfa.cpp:241-272 | returns `Refine(...)`: pop the front splitter, split the first block it cuts, queue both parts for every symbol, then drop the splitter (the `break`); the partition invariant holds throughout |
| Minimization.AssignGroups | cpp/src/dfa.cpp:275-284 | `stateToGroup` maps each member of the k-th block in iteration order to k |
| Minimization.BuildState | cpp/src/dfa.cpp:289-299 | group g takes the accept flag and transitions of the block's least member (`*block.begin()`), each destination replaced by its group, or 0 for an id in no group (what `operator[]` inserts) |
| Minimization.BuildStates | cpp/src/dfa.cpp:286-300 | one state per block, keyed 0 .. k-1 by iteration order |
| Minimization.MinimizeDFA | cpp/src/dfa.cpp:201-304 | returns `MinimizedOf(dfa)`: the rebuild of the refined partition, with the start group that of the original start |
| MinimizationFacts.RefineRefines | cpp/src/dfa.cpp:241-272 | blocks only ever split: every block of the result lies inside a block of the starting partition |
| MinimizationFacts.FinalHomogeneous | cpp/src/dfa.cpp:206-272 | each final block is uniformly accepting or non-accepting, and the final partition refines the accept/non-accept split |
| MinimizationFacts.MinimizedShape | cpp/src/dfa.cpp:274-303 | at most as many states as the input, ids dense 0 .. k-1, consistent (every destination and the start are states) whenever the input has a state, the start group holds the original start, and every state's group accepts exactly when the state does |
| MinimizationFacts.BreakMergesDistinctStates | cpp/src/dfa.cpp:269 | on the chain 0 -a-> 1 -a-> 2 -a-> 3 with 2 and 3 accepting, the minimized DFA accepts `aaaa` and the original rejects it |
| MinimizationFixed.RefinementFixed | cpp/src/dfa.cpp:241-272 | the corrected loop: a splitter that cut a block stays at the front of the queue until it cuts no block |
| MinimizationFixed.FixedPartitionFacts | cpp/src/dfa.cpp:241-272 | the corrected final partition is accept-homogeneous and stable: for any of its blocks A and any symbol c, no block has both members with a `c` transition into A and members without one |
| MinimizationFixed.FixedPreservesLanguage | cpp/src/dfa.cpp:201-304 | on a consistent DFA, the corrected minimization gives the same `Run` outcome as the original on every input |
| MinimizationFixed.MinimizeDFAFixed | cpp/src/dfa.cpp:201-304 | returns the rebuild of the corrected partition, and on a consistent DFA it accepts exactly the words the input accepts |

## Left out

- `printNFA` and `exportToJson` (cpp/src/nfa.cpp:162-222), and `exportDFAtoJson` and `printDFA` (cpp/src/dfa.cpp:125-163): console and JSON output only. The facts they rely on are modelled: the accept is the last id (`RegexToNfaShape`), and every id is passed to `isDeadState` (`DeadWithAllIds`).
- The `verbose` output of `simulateDFA` (cpp/src/dfa.cpp:182-196): printing only.
- `cpp/src/main.cpp`, `cpp/server/main.py`, `cpp/visualize/*.py` and `cpp/test/test_all.cpp` are not part of this model. They do I/O, process control and rendering. The test scenarios (concrete patterns and state counts) are not restated as lemmas.
- Heap allocation, the states that `new` leaks, and identity by address: a state is its index in the arena, so a `set<State*>`, ordered by address, becomes a set of ids. For the same reason the copy loops and accept scans at cpp/src/dfa.cpp:46-50 and 108-112 are not loops in the model: the copy is the set and the scan is a membership test.
- The static counter at cpp/src/nfa.cpp:6: it is the builder field `stateId`, and `RegexToNFA` starts from a fresh builder, which matches the reset at line 126. Interleaved calls that share the global are not modelled.
- Undefined behaviour: where the source pops or reads an empty `std::stack` (cpp/src/nfa.cpp:104, 138-159), the model returns `None`, since the source defines no result there.
- Characters outside operands, operators and parentheses: `toPostfix` treats them as operators of precedence 0 and `regexToNFA` skips them, as the code does. The properties about parentheses are stated only for supported patterns.
- `transitions['\0']` inserting an empty entry when a state has no epsilon edge (cpp/src/dfa.cpp:29, 89), and the default insertion of `stateToGroup[id]` (line 297): neither changes any value the code computes, so the model reads without inserting (`Targets`, `Lookup` with default 0).
- `currDFA` at cpp/src/dfa.cpp:61: a reference into `dfa.states`. The model collects the transitions of the state being expanded in a local map and stores them back when the state is done. Nothing else reads that state's transitions in between.
- `groupMap` (cpp/src/dfa.cpp:277, 283, 287): it maps each block to its position in iteration order, so the model uses that position directly.
- `SubsetConstruction.ConvertNFAtoDFA`: `IsSubsetDfa` fixes the states, sets, accept flags and transitions, and the language is stated. It does not fix which id each set gets beyond "0 is the start and each later id was discovered from an earlier one". The breadth-first order of the ids is not stated.
- `Parser.ToPostfix`: precedence is proved as stack discipline for every pattern (`PopWhileDiscipline`, `RunAscending`) and as the exact output on four worked patterns (`PostfixExamples`). No lemma gives the postfix form of an arbitrary pattern, or proves that every well-formed pattern leaves exactly one fragment. The model has no grammar of well-formed patterns to state that against.
- `Closures.EpsilonClosure`: the order in which the queue visits states is not modelled, because only the resulting set is observable. The same holds for the iteration order of `std::map` and `std::set` wherever the result does not depend on it.
- `Minimization.MinimizeDFA`: no lemma states that the as-written minimization preserves the language, because it does not. See Findings.
- Minimality (no smaller equivalent DFA) of the corrected minimization is not proved; only language preservation and stability are.

## Findings

| source | as written | input that shows it | evidently intended | confidence | as-written member | corrected member |
|---|---|---|---|---|---|---|
| cpp/src/dfa.cpp:269 | after a popped splitter (A, c) cuts one block, the `break` drops it, so the other blocks it would cut are never cut by it | the 4-state chain 0 -a-> 1 -a-> 2 -a-> 3 with 2 and 3 accepting (the subset DFA of `aa\|aaa` has this shape). The first splitter ({2,3}, a) cuts {0,1} into {1} and {0}, and the `break` drops it before it reaches {2,3}. It would cut {2,3} too, since 2 moves into {2,3} and 3 has no move. No later splitter separates 2 from 3. The minimized DFA loops on {2,3} and accepts `aaaa`, which the original rejects | minimization preserves the language: a splitter keeps being applied until it cuts no block | not executed | MinimizationFacts.BreakMergesDistinctStates | MinimizationFixed.MinimizeDFAFixed |
