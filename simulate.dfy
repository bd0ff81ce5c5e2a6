/** Running a DFA on an input (`simulateDFA`) and the one-hop dead-state
    test (`isDeadState`). */
module Simulation {
  import opened Common
  import opened Dfa

  /** `simulateDFA`: the trace the caller passes in, extended with the
      states visited. */
  method SimulateDFA(dfa: Dfa, input: string, trace0: seq<nat>) returns (outcome: Outcome, trace: seq<nat>)
    ensures outcome == Run(dfa, dfa.startState, input)
    ensures trace == trace0 + Visited(dfa, dfa.startState, input)
  {
    var current := dfa.startState;
    trace := trace0 + [current];
    var i := 0;
    while i < |input|
      invariant 0 <= i <= |input|
      invariant Run(dfa, current, input[i..]) == Run(dfa, dfa.startState, input)
      invariant trace + Visited(dfa, current, input[i..])[1..] == trace0 + Visited(dfa, dfa.startState, input)
    {
      var c := input[i];
      assert input[i..][1..] == input[i + 1..];
      if current !in dfa.states {
        return OutOfRange, trace;
      }
      if c !in dfa.states[current].transitions {
        return Verdict(false), trace;
      }
      current := dfa.states[current].transitions[c];
      trace := trace + [current];
      i := i + 1;
    }
    assert input[i..] == [];
    if current !in dfa.states {
      return OutOfRange, trace;
    }
    outcome := Verdict(dfa.states[current].isAccept);
  }

  /** The trace starts at `q`, records at most one state per symbol, and
      each recorded step follows a transition on the symbol read. */
  lemma {:induction false} VisitedSteps(d: Dfa, q: nat, w: string)
    ensures var v := Visited(d, q, w);
            1 <= |v| <= |w| + 1 && v[0] == q &&
            forall i :: 0 <= i < |v| - 1 ==>
              v[i] in d.states && w[i] in d.states[v[i]].transitions &&
              d.states[v[i]].transitions[w[i]] == v[i + 1]
    decreases |w|
  {
    if q in d.states && w != [] && w[0] in d.states[q].transitions {
      var q' := d.states[q].transitions[w[0]];
      VisitedSteps(d, q', w[1..]);
      var v := Visited(d, q, w);
      forall i | 1 <= i < |v| - 1
        ensures v[i] in d.states && w[i] in d.states[v[i]].transitions &&
                d.states[v[i]].transitions[w[i]] == v[i + 1]
      {
        assert v[i] == Visited(d, q', w[1..])[i - 1];
        assert v[i + 1] == Visited(d, q', w[1..])[i];
        assert w[i] == w[1..][i - 1];
      }
    }
  }

  /** The trace holds the start plus one state per symbol exactly when
      every symbol has a transition, and then it ends in the state reached. */
  lemma {:induction false} VisitedComplete(d: Dfa, q: nat, w: string)
    requires Consistent(d) && q in d.states
    ensures |Visited(d, q, w)| == |w| + 1 <==> Delta(d, q, w).Some?
    ensures Delta(d, q, w).Some? ==>
              Visited(d, q, w)[|w|] == Delta(d, q, w).value && Delta(d, q, w).value in d.states
    decreases |w|
  {
    VisitedSteps(d, q, w);
    if w != [] && w[0] in d.states[q].transitions {
      var q' := d.states[q].transitions[w[0]];
      VisitedComplete(d, q', w[1..]);
    }
  }

  /** On a well-formed DFA the simulation never throws: it accepts exactly
      when every symbol has a transition and the state reached accepts. */
  lemma {:induction false} RunVerdict(d: Dfa, q: nat, w: string)
    requires Consistent(d) && q in d.states
    ensures Run(d, q, w).Verdict?
    ensures Run(d, q, w).accepted <==>
              Delta(d, q, w).Some? && Delta(d, q, w).value in d.states &&
              d.states[Delta(d, q, w).value].isAccept
    decreases |w|
  {
    if w != [] && w[0] in d.states[q].transitions {
      RunVerdict(d, d.states[q].transitions[w[0]], w[1..]);
    }
  }

  // ---------------------------------------------------------------------
  // isDeadState
  // ---------------------------------------------------------------------

  /** The one-hop test: the state does not accept and no transition leads
      into `targets`. */
  predicate OneHopDead(s: DfaState, targets: set<nat>) {
    !s.isAccept && forall c :: c in s.transitions ==> s.transitions[c] !in targets
  }

  /** `isDeadState`. The map's key order does not matter to the verdict,
      so the scan takes the keys in any order. */
  method IsDeadState(state: DfaState, acceptStates: set<nat>) returns (dead: bool)
    ensures dead == OneHopDead(state, acceptStates)
  {
    if state.isAccept {
      return false;
    }
    var keys := state.transitions.Keys;
    while keys != {}
      invariant keys <= state.transitions.Keys
      invariant forall c :: c in state.transitions && c !in keys ==> state.transitions[c] !in acceptStates
      decreases keys
    {
      var c :| c in keys;
      if state.transitions[c] in acceptStates {
        return false;
      }
      keys := keys - {c};
    }
    return true;
  }

  /** The ids of the accepting states: the set the tests pass in. */
  function AcceptIds(d: Dfa): (r: set<nat>)
    ensures forall q :: q in r <==> q in d.states && d.states[q].isAccept
  {
    set q | q in d.states && d.states[q].isAccept
  }

  /** The export passes every state id, and then the test flags exactly the
      non-accepting states without any transition. */
  lemma DeadWithAllIds(d: Dfa, q: nat)
    requires Consistent(d) && q in d.states
    ensures OneHopDead(d.states[q], d.states.Keys) <==>
              !d.states[q].isAccept && d.states[q].transitions == map[]
  {
    var t := d.states[q].transitions;
    if t != map[] {
      var c :| c in t;
      assert t[c] in d.states.Keys;
    }
  }

  /** A state from which no input is accepted passes the one-hop test
      against the accepting states. */
  lemma TrulyDeadIsOneHopDead(d: Dfa, q: nat)
    requires q in d.states
    requires forall w :: !Accepts(d, q, w)
    ensures OneHopDead(d.states[q], AcceptIds(d))
  {
    assert !Accepts(d, q, []);
    forall c | c in d.states[q].transitions
      ensures d.states[q].transitions[c] !in AcceptIds(d)
    {
      var q' := d.states[q].transitions[c];
      assert [c][1..] == [];
      assert !Accepts(d, q, [c]);
      assert Run(d, q, [c]) == Run(d, q', []);
    }
  }

  /** The one-hop test is only an approximation: in 0 -a-> 1 -a-> 2 with 2
      accepting, state 0 passes it although it accepts "aa". */
  lemma OneHopIsShallow()
    ensures var d := Dfa(0, map[0 := DfaState(0, {}, map['a' := 1], false),
                                1 := DfaState(1, {}, map['a' := 2], false),
                                2 := DfaState(2, {}, map[], true)]);
            OneHopDead(d.states[0], AcceptIds(d)) && Accepts(d, 0, "aa")
  {
    var d := Dfa(0, map[0 := DfaState(0, {}, map['a' := 1], false),
                        1 := DfaState(1, {}, map['a' := 2], false),
                        2 := DfaState(2, {}, map[], true)]);
    assert "aa"[1..] == "a" && "a"[1..] == [];
    assert 1 !in AcceptIds(d);
  }
}
