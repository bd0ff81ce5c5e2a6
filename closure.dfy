/** Epsilon-closure and symbol moves over the NFA arena: the two set
    computations the subset construction performs for every DFA state. */
module Closures {
  import opened Common
  import opened Nfa

  /** The elements of the target list of `node` on `c`. */
  function TargetSet(node: NfaNode, c: char): (r: set<nat>)
    ensures forall y :: y in r <==> y in Targets(node, c)
  {
    set y | y in Targets(node, c)
  }

  /** The states one `c` edge away from some state of `S`. */
  function Move(nfa: seq<NfaNode>, S: set<nat>, c: char): set<nat> {
    set x, y | x in S && x < |nfa| && y in Targets(nfa[x], c) :: y
  }

  /** The states one epsilon edge away from `S`. */
  function EpsImage(nfa: seq<NfaNode>, S: set<nat>): set<nat> {
    Move(nfa, S, Epsilon)
  }

  lemma MoveInArena(nfa: seq<NfaNode>, S: set<nat>, c: char)
    requires WellFormed(nfa)
    ensures Move(nfa, S, c) <= Range(|nfa|)
  {
    forall y | y in Move(nfa, S, c) ensures y < |nfa| {
      var x :| x in S && x < |nfa| && y in Targets(nfa[x], c);
      var k :| 0 <= k < |Targets(nfa[x], c)| && Targets(nfa[x], c)[k] == y;
    }
  }

  lemma MoveMember(nfa: seq<NfaNode>, S: set<nat>, c: char, x: nat, y: nat)
    requires x in S && x < |nfa| && y in Targets(nfa[x], c)
    ensures y in Move(nfa, S, c)
  {
  }

  lemma MoveMonotone(nfa: seq<NfaNode>, S: set<nat>, T: set<nat>, c: char)
    requires S <= T
    ensures Move(nfa, S, c) <= Move(nfa, T, c)
  {
  }

  lemma MoveEmpty(nfa: seq<NfaNode>, c: char)
    ensures Move(nfa, {}, c) == {}
  {
  }

  /** The least superset of `S` closed under epsilon edges. */
  ghost function Closure(nfa: seq<NfaNode>, S: set<nat>): (r: set<nat>)
    requires WellFormed(nfa) && S <= Range(|nfa|)
    ensures S <= r <= Range(|nfa|)
    ensures EpsImage(nfa, r) <= r
    decreases Range(|nfa|) - S
  {
    MoveInArena(nfa, S, Epsilon);
    if EpsImage(nfa, S) <= S then S
    else
      assert Range(|nfa|) - (S + EpsImage(nfa, S)) < Range(|nfa|) - S;
      Closure(nfa, S + EpsImage(nfa, S))
  }

  /** Closure is the least epsilon-closed superset: together with the
      ensures of `Closure` this pins it down. */
  lemma {:induction false} ClosureLeast(nfa: seq<NfaNode>, S: set<nat>, T: set<nat>)
    requires WellFormed(nfa) && S <= T <= Range(|nfa|)
    requires EpsImage(nfa, T) <= T
    ensures Closure(nfa, S) <= T
    decreases Range(|nfa|) - S
  {
    MoveInArena(nfa, S, Epsilon);
    if !(EpsImage(nfa, S) <= S) {
      MoveMonotone(nfa, S, T, Epsilon);
      assert Range(|nfa|) - (S + EpsImage(nfa, S)) < Range(|nfa|) - S;
      ClosureLeast(nfa, S + EpsImage(nfa, S), T);
    }
  }

  /** A set that is already closed is its own closure; in particular the
      closure of the empty set is empty. */
  lemma ClosureOfClosed(nfa: seq<NfaNode>, S: set<nat>)
    requires WellFormed(nfa) && S <= Range(|nfa|)
    requires EpsImage(nfa, S) <= S
    ensures Closure(nfa, S) == S
  {
  }

  lemma ClosureMonotone(nfa: seq<NfaNode>, S: set<nat>, T: set<nat>)
    requires WellFormed(nfa) && S <= T <= Range(|nfa|)
    ensures Closure(nfa, S) <= Closure(nfa, T)
  {
    ClosureLeast(nfa, S, Closure(nfa, T));
  }

  /** The NFA states reachable from `S` by reading `w`, epsilon edges taken
      freely before and after each symbol (`S` itself is taken as closed).
      No edge reads `Epsilon` as a symbol, so a word holding it reaches
      nothing. */
  ghost function NfaReach(nfa: seq<NfaNode>, S: set<nat>, w: string): (r: set<nat>)
    requires WellFormed(nfa) && S <= Range(|nfa|)
    ensures r <= Range(|nfa|)
    decreases |w|
  {
    if w == [] then S
    else if w[0] == Epsilon then {}
    else
      MoveInArena(nfa, S, w[0]);
      NfaReach(nfa, Closure(nfa, Move(nfa, S, w[0])), w[1..])
  }

  /** The language of the NFA with ends `start` and `accept`: the words that
      lead the closure of the start to a set holding the accept state. */
  ghost predicate NfaAccepts(nfa: seq<NfaNode>, start: nat, accept: nat, w: string)
    requires WellFormed(nfa) && start < |nfa|
  {
    accept in NfaReach(nfa, Closure(nfa, {start}), w)
  }

  /** Nothing is reachable from no state. */
  lemma {:induction false} NfaReachEmpty(nfa: seq<NfaNode>, w: string)
    requires WellFormed(nfa)
    ensures NfaReach(nfa, {}, w) == {}
    decreases |w|
  {
    if w != [] && w[0] != Epsilon {
      MoveEmpty(nfa, w[0]);
      MoveEmpty(nfa, Epsilon);
      ClosureOfClosed(nfa, {});
      NfaReachEmpty(nfa, w[1..]);
    }
  }

  /** Every element of a queue (in whatever order the queue holds them). */
  method QueueOf(s: set<nat>) returns (q: seq<nat>)
    ensures forall x :: x in q <==> x in s
  {
    q := [];
    var rest := s;
    while rest != {}
      invariant rest <= s
      invariant forall x :: x in q <==> x in s - rest
      decreases rest
    {
      var x :| x in rest;
      q := q + [x];
      rest := rest - {x};
    }
  }

  /** The breadth-first epsilon-closure of `convertNFAtoDFA` (used for the
      start state and again for every symbol move). A state enters the
      queue only when it is first visited, so epsilon cycles terminate. */
  method EpsilonClosure(nfa: seq<NfaNode>, seeds: set<nat>) returns (closure: set<nat>)
    requires WellFormed(nfa) && seeds <= Range(|nfa|)
    ensures closure == Closure(nfa, seeds)
  {
    closure := seeds;
    var q := QueueOf(seeds);
    while q != []
      invariant seeds <= closure <= Closure(nfa, seeds)
      invariant forall x :: x in q ==> x in closure
      invariant forall x :: x in closure ==> x in q || forall y :: y in Targets(nfa[x], Epsilon) ==> y in closure
      decreases Range(|nfa|) - closure, |q|
    {
      var curr := q[0];
      assert curr in Range(|nfa|);
      ghost var closure0 := closure;
      closure, q := VisitSuccessors(nfa, seeds, curr, closure, q[1..]);
      assert Range(|nfa|) - closure < Range(|nfa|) - closure0 || closure == closure0;
    }
    ClosureLeast(nfa, seeds, closure);
  }

  /** The inner loop of the closure: every epsilon successor of `curr` not
      yet visited is visited and queued. */
  method VisitSuccessors(nfa: seq<NfaNode>, ghost seeds: set<nat>, curr: nat, closure0: set<nat>, q0: seq<nat>)
    returns (closure: set<nat>, q: seq<nat>)
    requires WellFormed(nfa) && seeds <= Range(|nfa|) && curr < |nfa|
    requires curr in closure0 && closure0 <= Closure(nfa, seeds)
    requires forall x :: x in q0 ==> x in closure0
    ensures closure0 <= closure <= Closure(nfa, seeds)
    ensures closure == closure0 ==> q == q0
    ensures forall x :: x in q ==> x in closure
    ensures forall x :: x in q0 ==> x in q
    ensures forall x :: x in closure ==> x in closure0 || x in q
    ensures forall y :: y in Targets(nfa[curr], Epsilon) ==> y in closure
  {
    closure, q := closure0, q0;
    var eps := Targets(nfa[curr], Epsilon);
    var j := 0;
    while j < |eps|
      invariant 0 <= j <= |eps|
      invariant closure0 <= closure <= Closure(nfa, seeds)
      invariant closure == closure0 ==> q == q0
      invariant forall x :: x in q ==> x in closure
      invariant forall x :: x in q0 ==> x in q
      invariant forall x :: x in closure ==> x in closure0 || x in q
      invariant forall k :: 0 <= k < j ==> eps[k] in closure
    {
      var next := eps[j];
      if next !in closure {
        MoveMember(nfa, Closure(nfa, seeds), Epsilon, curr, next);
        closure := closure + {next};
        q := q + [next];
      }
      j := j + 1;
    }
  }

  /** The move of `T + {x}` adds the targets of `x`. */
  lemma MoveAddState(nfa: seq<NfaNode>, T: set<nat>, x: nat, c: char)
    requires x < |nfa|
    ensures Move(nfa, T + {x}, c) == Move(nfa, T, c) + TargetSet(nfa[x], c)
  {
  }

  /** The symbol moves of `S` that `convertNFAtoDFA` collects: one entry per
      non-epsilon symbol some state of `S` has an edge on, holding every
      target of such an edge. */
  method CollectMoves(nfa: seq<NfaNode>, S: set<nat>) returns (moves: map<char, set<nat>>)
    requires WellFormed(nfa) && S <= Range(|nfa|)
    ensures forall c :: c in moves <==> c != Epsilon && Move(nfa, S, c) != {}
    ensures forall c :: c in moves ==> moves[c] == Move(nfa, S, c)
  {
    moves := map[];
    var rest := S;
    while rest != {}
      invariant rest <= S
      invariant forall c :: c in moves <==> c != Epsilon && Move(nfa, S - rest, c) != {}
      invariant forall c :: c in moves ==> moves[c] == Move(nfa, S - rest, c)
      decreases rest
    {
      var x :| x in rest;
      ghost var done := S - rest;
      moves := AddMoves(nfa, x, moves, done);
      forall c ensures Move(nfa, done + {x}, c) == Move(nfa, done, c) + TargetSet(nfa[x], c) {
        MoveAddState(nfa, done, x, c);
      }
      assert S - (rest - {x}) == done + {x};
      rest := rest - {x};
    }
  }

  /** What the moves of `done` become once the symbols of `node` outside
      `syms` have been merged in. */
  function Partial(nfa: seq<NfaNode>, done: set<nat>, node: NfaNode, syms: set<char>, c: char): set<nat> {
    Move(nfa, done, c) + (if c in syms then {} else TargetSet(node, c))
  }

  /** `moves` holds exactly the non-empty partial moves: an entry per
      non-epsilon symbol whose partial move is non-empty, holding that move. */
  ghost predicate Records(moves: map<char, set<nat>>, nfa: seq<NfaNode>, done: set<nat>, node: NfaNode, syms: set<char>) {
    (forall c :: c in moves <==> c != Epsilon && Partial(nfa, done, node, syms, c) != {}) &&
    (forall c :: c in moves ==> moves[c] == Partial(nfa, done, node, syms, c))
  }

  /** The edges on `symbol` leave every other partial move alone. */
  lemma PartialDrop(nfa: seq<NfaNode>, done: set<nat>, node: NfaNode, syms: set<char>, symbol: char)
    requires symbol in syms
    ensures forall c :: c != symbol ==> Partial(nfa, done, node, syms - {symbol}, c) == Partial(nfa, done, node, syms, c)
    ensures Partial(nfa, done, node, syms - {symbol}, symbol) == Partial(nfa, done, node, syms, symbol) + TargetSet(node, symbol)
  {
  }

  /** An epsilon list is skipped: no entry for it either way. */
  lemma SkipStep(moves: map<char, set<nat>>, nfa: seq<NfaNode>, done: set<nat>, node: NfaNode, syms: set<char>)
    requires Epsilon in syms && Records(moves, nfa, done, node, syms)
    ensures Records(moves, nfa, done, node, syms - {Epsilon})
  {
    PartialDrop(nfa, done, node, syms, Epsilon);
  }

  /** Merging the list of `symbol` records its edges. */
  lemma MergeStep(moves0: map<char, set<nat>>, moves: map<char, set<nat>>, nfa: seq<NfaNode>,
                  done: set<nat>, node: NfaNode, syms: set<char>, symbol: char)
    requires symbol in syms && symbol in node.transitions && symbol != Epsilon
    requires Records(moves0, nfa, done, node, syms)
    requires forall c :: c != symbol ==> (c in moves <==> c in moves0) && (c in moves ==> moves[c] == moves0[c])
    requires symbol in moves <==> symbol in moves0 || node.transitions[symbol] != []
    requires symbol in moves ==>
               moves[symbol] == (if symbol in moves0 then moves0[symbol] else {}) + (set y | y in node.transitions[symbol])
    ensures Records(moves, nfa, done, node, syms - {symbol})
  {
    var vec := node.transitions[symbol];
    var rest := syms - {symbol};
    PartialDrop(nfa, done, node, syms, symbol);
    assert (set y | y in vec) == TargetSet(node, symbol);
    assert vec != [] <==> TargetSet(node, symbol) != {} by {
      if vec != [] {
        assert vec[0] in TargetSet(node, symbol);
      }
    }
    forall c
      ensures (c in moves <==> c != Epsilon && Partial(nfa, done, node, rest, c) != {})
      ensures c in moves ==> moves[c] == Partial(nfa, done, node, rest, c)
    {
      if c == symbol {
        assert Partial(nfa, done, node, rest, c) == Partial(nfa, done, node, syms, c) + TargetSet(node, symbol);
        assert (symbol in moves0 <==> Partial(nfa, done, node, syms, c) != {});
      }
    }
  }

  /** The symbol loop for one NFA state `x`. */
  method AddMoves(nfa: seq<NfaNode>, x: nat, moves0: map<char, set<nat>>, ghost done: set<nat>)
    returns (moves: map<char, set<nat>>)
    requires x < |nfa|
    requires forall c :: c in moves0 <==> c != Epsilon && Move(nfa, done, c) != {}
    requires forall c :: c in moves0 ==> moves0[c] == Move(nfa, done, c)
    ensures forall c :: c in moves <==> c != Epsilon && Move(nfa, done, c) + TargetSet(nfa[x], c) != {}
    ensures forall c :: c in moves ==> moves[c] == Move(nfa, done, c) + TargetSet(nfa[x], c)
  {
    moves := moves0;
    var node := nfa[x];
    var syms := node.transitions.Keys;
    assert forall c :: Partial(nfa, done, node, syms, c) == Move(nfa, done, c);
    while syms != {}
      invariant syms <= node.transitions.Keys
      invariant Records(moves, nfa, done, node, syms)
      decreases syms
    {
      var symbol :| symbol in syms;
      if symbol != Epsilon {
        ghost var before := moves;
        moves := MergeTargets(moves, symbol, node.transitions[symbol]);
        MergeStep(before, moves, nfa, done, node, syms, symbol);
      } else {
        SkipStep(moves, nfa, done, node, syms);
      }
      syms := syms - {symbol};
    }
    assert forall c :: Partial(nfa, done, node, {}, c) == Move(nfa, done, c) + TargetSet(nfa[x], c);
  }

  /** `for (dest : vec) transitions[symbol].insert(dest)`: no entry appears
      for an empty list. */
  method MergeTargets(moves0: map<char, set<nat>>, symbol: char, vec: seq<nat>) returns (moves: map<char, set<nat>>)
    ensures forall c :: c != symbol ==> (c in moves <==> c in moves0) && (c in moves ==> moves[c] == moves0[c])
    ensures symbol in moves <==> symbol in moves0 || vec != []
    ensures symbol in moves ==>
              moves[symbol] == (if symbol in moves0 then moves0[symbol] else {}) + (set y | y in vec)
  {
    moves := moves0;
    var k := 0;
    while k < |vec|
      invariant 0 <= k <= |vec|
      invariant forall c :: c != symbol ==> (c in moves <==> c in moves0) && (c in moves ==> moves[c] == moves0[c])
      invariant symbol in moves <==> symbol in moves0 || k > 0
      invariant symbol in moves ==>
                  moves[symbol] == (if symbol in moves0 then moves0[symbol] else {}) + (set y | y in vec[..k])
    {
      var dest := vec[k];
      assert vec[..k + 1] == vec[..k] + [dest];
      moves := moves[symbol := (if symbol in moves then moves[symbol] else {}) + {dest}];
      k := k + 1;
    }
    assert vec[..k] == vec;
  }
}
