/** The deterministic automaton: states keyed by id, each with the set of
    NFA states it stands for, at most one destination per symbol, and an
    accept flag. */
module Dfa {
  import opened Common

  datatype DfaState = DfaState(id: nat, nfaStates: set<nat>, transitions: map<char, nat>, isAccept: bool)

  datatype Dfa = Dfa(startState: nat, states: map<nat, DfaState>)

  /** The start and every transition destination are states of the automaton. */
  predicate Consistent(d: Dfa) {
    d.startState in d.states &&
    forall q :: q in d.states ==>
      forall c :: c in d.states[q].transitions ==> d.states[q].transitions[c] in d.states
  }

  /** How `simulateDFA` ends: with a verdict, or with the `std::out_of_range`
      that `states.at` throws for an id that is not a state. */
  datatype Outcome = Verdict(accepted: bool) | OutOfRange

  /** The outcome of reading `w` from state `q`: a missing transition
      rejects at once, otherwise the accept flag of the state reached. */
  function Run(d: Dfa, q: nat, w: string): Outcome
    decreases |w|
  {
    if q !in d.states then OutOfRange
    else if w == [] then Verdict(d.states[q].isAccept)
    else if w[0] !in d.states[q].transitions then Verdict(false)
    else Run(d, d.states[q].transitions[w[0]], w[1..])
  }

  /** The states `simulateDFA` appends to the trace when it reads `w` from
      `q`: `q` itself, then one state per symbol consumed. */
  function Visited(d: Dfa, q: nat, w: string): seq<nat>
    decreases |w|
  {
    if q !in d.states || w == [] || w[0] !in d.states[q].transitions then [q]
    else [q] + Visited(d, d.states[q].transitions[w[0]], w[1..])
  }

  /** The language of the automaton from state `q`. */
  predicate Accepts(d: Dfa, q: nat, w: string) {
    Run(d, q, w) == Verdict(true)
  }

  /** The state reached by reading all of `w` from `q`, if every transition exists. */
  function Delta(d: Dfa, q: nat, w: string): Option<nat>
    decreases |w|
  {
    if w == [] then Some(q)
    else if q in d.states && w[0] in d.states[q].transitions then
      Delta(d, d.states[q].transitions[w[0]], w[1..])
    else None
  }
}
