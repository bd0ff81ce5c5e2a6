/** `convertNFAtoDFA`: the subset construction by a FIFO worklist. Each DFA
    state stands for an epsilon-closed set of NFA states; ids are handed out
    densely from 0 in discovery order. */
module SubsetConstruction {
  import opened Common
  import opened Nfa
  import opened Closures
  import opened Dfa

  /** The DFA successor of the NFA state set `S` on `c`. */
  ghost function DStep(nfa: seq<NfaNode>, S: set<nat>, c: char): (r: set<nat>)
    requires WellFormed(nfa) && S <= Range(|nfa|)
    ensures r <= Range(|nfa|)
  {
    MoveInArena(nfa, S, c);
    Closure(nfa, Move(nfa, S, c))
  }

  /** Every subset of 0 .. n-1: a finite bound on the states one can discover. */
  function AllSubsets(n: nat): set<set<nat>>
    decreases n
  {
    if n == 0 then {{}}
    else
      var smaller := AllSubsets(n - 1);
      smaller + set S | S in smaller :: S + {n - 1}
  }

  lemma {:induction false} InAllSubsets(S: set<nat>, n: nat)
    requires S <= Range(n)
    ensures S in AllSubsets(n)
    decreases n
  {
    if n == 0 {
      assert S == {};
    } else if n - 1 in S {
      InAllSubsets(S - {n - 1}, n - 1);
      assert S == (S - {n - 1}) + {n - 1};
    } else {
      InAllSubsets(S, n - 1);
    }
  }

  /** State `i` has id `i`, stands for `S`, and accepts iff `S` holds the
      NFA's accept state. */
  ghost predicate StateOk(nfa: seq<NfaNode>, acceptId: nat, i: nat, s: DfaState, S: set<nat>) {
    s.id == i && s.nfaStates == S && s.isAccept == (acceptId in S) && S <= Range(|nfa|)
  }

  /** State `i` has a transition on exactly the non-epsilon symbols some of
      its NFA states move on, to the state standing for the closure of the move. */
  ghost predicate ExpandedAt(nfa: seq<NfaNode>, states: map<nat, DfaState>, reverseMap: map<nat, set<nat>>, i: nat) {
    WellFormed(nfa) && i in states && i in reverseMap && reverseMap[i] <= Range(|nfa|) &&
    (forall c {:trigger c in states[i].transitions} ::
       c in states[i].transitions <==> c != Epsilon && Move(nfa, reverseMap[i], c) != {}) &&
    (forall c {:trigger c in states[i].transitions} :: c in states[i].transitions ==>
       states[i].transitions[c] in reverseMap &&
       reverseMap[states[i].transitions[c]] == DStep(nfa, reverseMap[i], c))
  }

  /** What `convertNFAtoDFA` returns, up to nothing but the numbering: ids
      are 0 .. n-1 with start 0; state 0 is the closure of the NFA start;
      each state accepts iff it holds the NFA accept state; distinct states
      hold distinct sets; transitions are exactly the non-empty moves; and
      every state but the start was discovered from an earlier one. */
  ghost predicate IsSubsetDfa(nfa: seq<NfaNode>, start: nat, acceptId: nat, dfa: Dfa) {
    var n := |dfa.states|;
    WellFormed(nfa) && start < |nfa| &&
    n >= 1 && dfa.startState == 0 && dfa.states.Keys == Range(n) &&
    dfa.states[0].nfaStates == Closure(nfa, {start}) &&
    (forall i :: i in dfa.states ==>
       StateOk(nfa, acceptId, i, dfa.states[i], dfa.states[i].nfaStates)) &&
    (forall i, j :: i in dfa.states && j in dfa.states && i != j ==>
       dfa.states[i].nfaStates != dfa.states[j].nfaStates) &&
    (forall i :: i in dfa.states ==>
       ExpandedAt(nfa, dfa.states, SetsOf(dfa.states), i)) &&
    (forall i :: 0 < i < n ==> DiscoveredFrom(dfa, i))
  }

  /** The NFA state set each DFA state stands for. */
  function SetsOf(states: map<nat, DfaState>): (r: map<nat, set<nat>>)
    ensures r.Keys == states.Keys
    ensures forall j :: j in states ==> r[j] == states[j].nfaStates
  {
    map j | j in states :: states[j].nfaStates
  }

  /** State `i` is the destination of a transition of an earlier state. */
  ghost predicate DiscoveredFrom(dfa: Dfa, i: nat) {
    exists j, c :: 0 <= j < i && j in dfa.states && c in dfa.states[j].transitions &&
                   dfa.states[j].transitions[c] == i
  }

  /** The locals of `convertNFAtoDFA`: the DFA's states, `stateMap` from
      NFA state sets to ids and its inverse `reverseMap`, the id counter and
      the FIFO worklist of ids still to expand. */
  datatype Tables = Tables(states: map<nat, DfaState>, stateMap: map<set<nat>, nat>,
                           reverseMap: map<nat, set<nat>>, idCounter: nat, worklist: seq<nat>)

  /** The bookkeeping both loops keep: dense ids, per-state facts, and
      `stateMap` and `reverseMap` inverse to each other. */
  ghost predicate Core(nfa: seq<NfaNode>, startClosure: set<nat>, acceptId: nat, t: Tables) {
    WellFormed(nfa) && t.idCounter >= 1 &&
    (forall i: nat :: i in t.states <==> i < t.idCounter) &&
    (forall i: nat :: i in t.reverseMap <==> i < t.idCounter) &&
    (forall i :: i in t.states ==> StateOk(nfa, acceptId, i, t.states[i], t.reverseMap[i])) &&
    t.reverseMap[0] == startClosure &&
    (forall S :: S in t.stateMap ==> t.stateMap[S] < t.idCounter && t.reverseMap[t.stateMap[S]] == S) &&
    (forall i :: i in t.reverseMap ==> t.reverseMap[i] in t.stateMap && t.stateMap[t.reverseMap[i]] == i)
  }

  /** The worklist holds the ids from `done` up to the counter, in order. */
  predicate Queued(t: Tables, done: nat) {
    done <= t.idCounter && |t.worklist| == t.idCounter - done &&
    forall k :: 0 <= k < |t.worklist| ==> t.worklist[k] == done + k
  }

  /** State `i` was first reached from the earlier state `j` on the
      non-epsilon symbol `c`: `j`'s NFA states move on `c`, and `i` stands
      for the closure of that move. */
  ghost predicate ParentEdge(nfa: seq<NfaNode>, reverseMap: map<nat, set<nat>>, j: nat, c: char, i: nat) {
    WellFormed(nfa) && j in reverseMap && i in reverseMap && reverseMap[j] <= Range(|nfa|) &&
    c != Epsilon && Move(nfa, reverseMap[j], c) != {} && reverseMap[i] == DStep(nfa, reverseMap[j], c)
  }

  /** Every state after the start has a recorded parent edge. */
  ghost predicate Parents(nfa: seq<NfaNode>, reverseMap: map<nat, set<nat>>, parent: map<nat, (nat, char)>, n: nat) {
    forall i :: 0 < i < n ==>
      i in parent && parent[i].0 < i && ParentEdge(nfa, reverseMap, parent[i].0, parent[i].1, i)
  }

  /** Parent edges only read `reverseMap`, so extending it keeps them. */
  lemma ParentsFrame(nfa: seq<NfaNode>, reverseMap: map<nat, set<nat>>, reverseMap': map<nat, set<nat>>,
                     parent: map<nat, (nat, char)>, n: nat)
    requires Parents(nfa, reverseMap, parent, n)
    requires forall j :: j in reverseMap ==> j in reverseMap' && reverseMap'[j] == reverseMap[j]
    ensures Parents(nfa, reverseMap', parent, n)
  {
    forall i | 0 < i < n ensures ParentEdge(nfa, reverseMap', parent[i].0, parent[i].1, i) {
      assert ParentEdge(nfa, reverseMap, parent[i].0, parent[i].1, i);
    }
  }

  /** Recording the parent edge of the newest state `n`. */
  lemma ParentsExtend(nfa: seq<NfaNode>, reverseMap: map<nat, set<nat>>, parent: map<nat, (nat, char)>,
                      n: nat, j: nat, c: char)
    requires Parents(nfa, reverseMap, parent, n) && j < n && ParentEdge(nfa, reverseMap, j, c, n)
    ensures Parents(nfa, reverseMap, parent[n := (j, c)], n + 1)
  {
    var parent' := parent[n := (j, c)];
    forall i | 0 < i < n + 1
      ensures i in parent' && parent'[i].0 < i && ParentEdge(nfa, reverseMap, parent'[i].0, parent'[i].1, i)
    {
      if i < n {
        assert parent'[i] == parent[i];
      }
    }
  }

  /** Reading ids below `n` only, the expansion of state `i` survives any
      update that leaves state `i` alone and only adds to `reverseMap`. */
  lemma ExpandedFrame(nfa: seq<NfaNode>, states: map<nat, DfaState>, reverseMap: map<nat, set<nat>>,
                      states': map<nat, DfaState>, reverseMap': map<nat, set<nat>>, i: nat)
    requires ExpandedAt(nfa, states, reverseMap, i)
    requires i in states' && states'[i] == states[i]
    requires forall j :: j in reverseMap ==> j in reverseMap' && reverseMap'[j] == reverseMap[j]
    ensures ExpandedAt(nfa, states', reverseMap', i)
  {
  }

  /** `t` only adds to `t0`: ids, the inverse table and the set of known
      NFA state sets grow, and the counter moves only with a new set. */
  ghost predicate Extends(t0: Tables, t: Tables) {
    t0.idCounter <= t.idCounter &&
    (forall j :: j in t0.reverseMap ==> j in t.reverseMap && t.reverseMap[j] == t0.reverseMap[j]) &&
    t0.stateMap.Keys <= t.stateMap.Keys &&
    (t.stateMap.Keys == t0.stateMap.Keys ==> t.idCounter == t0.idCounter)
  }

  /** Every state of `t0` but `q` is unchanged in `t`. */
  ghost predicate StatesKept(t0: Tables, t: Tables, q: nat) {
    forall j :: j in t0.states && j != q ==> j in t.states && t.states[j] == t0.states[j]
  }

  /** Every state of `t0` is unchanged in `t`. */
  ghost predicate Kept(t0: Tables, t: Tables) {
    forall j :: j in t0.states ==> j in t.states && t.states[j] == t0.states[j]
  }

  /** The states from `lo` on have no transitions yet. */
  ghost predicate FreshEmpty(t: Tables, lo: nat) {
    forall i :: lo <= i < t.idCounter ==> i in t.states && t.states[i].transitions == map[]
  }

  method ConvertNFAtoDFA(nfa: seq<NfaNode>, start: nat, acceptId: nat) returns (dfa: Dfa)
    requires WellFormed(nfa) && start < |nfa|
    ensures IsSubsetDfa(nfa, start, acceptId, dfa)
    ensures forall w :: Run(dfa, dfa.startState, w) == Verdict(NfaAccepts(nfa, start, acceptId, w))
  {
    var startClosure := EpsilonClosure(nfa, {start});
    var idCounter: nat := 0;
    var startId := idCounter;
    idCounter := idCounter + 1;
    var t := Tables(map[startId := DfaState(startId, startClosure, map[], acceptId in startClosure)],
                    map[startClosure := startId], map[startId := startClosure], idCounter, [startId]);
    ghost var done: nat := 0;
    ghost var parent: map<nat, (nat, char)> := map[];
    InitialProgress(nfa, startClosure, acceptId);

    while t.worklist != []
      invariant Progress(nfa, startClosure, acceptId, t, done, parent)
      decreases AllSubsets(|nfa|) - t.stateMap.Keys, |t.worklist|
    {
      t, done, parent := NextInWorklist(nfa, startClosure, acceptId, t, done, parent);
    }
    dfa := Dfa(startId, t.states);
    FinishedIsSubsetDfa(nfa, start, startClosure, acceptId, t, parent);
    forall w ensures Run(dfa, dfa.startState, w) == Verdict(NfaAccepts(nfa, start, acceptId, w)) {
      SubsetLanguage(nfa, start, acceptId, dfa, w);
    }
  }

  /** Each state of a subset DFA accepts exactly the words that lead its NFA
      state set to the accept state, and never reaches an id that is not a
      state. */
  lemma {:induction false} SubsetRun(nfa: seq<NfaNode>, start: nat, acceptId: nat, dfa: Dfa, i: nat, w: string)
    requires IsSubsetDfa(nfa, start, acceptId, dfa) && i in dfa.states
    ensures Run(dfa, i, w) == Verdict(acceptId in NfaReach(nfa, dfa.states[i].nfaStates, w))
    decreases |w|
  {
    var s := dfa.states[i];
    assert StateOk(nfa, acceptId, i, s, s.nfaStates);
    assert ExpandedAt(nfa, dfa.states, SetsOf(dfa.states), i);
    if w != [] {
      if w[0] !in s.transitions {
        if w[0] != Epsilon {
          assert Move(nfa, s.nfaStates, w[0]) == {};
          MoveEmpty(nfa, Epsilon);
          ClosureOfClosed(nfa, {});
          NfaReachEmpty(nfa, w[1..]);
        }
      } else {
        SubsetRun(nfa, start, acceptId, dfa, s.transitions[w[0]], w[1..]);
      }
    }
  }

  /** The subset DFA accepts the NFA's language: from its start it accepts
      exactly the words the NFA accepts, and rejects every other word. */
  lemma SubsetLanguage(nfa: seq<NfaNode>, start: nat, acceptId: nat, dfa: Dfa, w: string)
    requires IsSubsetDfa(nfa, start, acceptId, dfa)
    ensures Run(dfa, dfa.startState, w) == Verdict(NfaAccepts(nfa, start, acceptId, w))
  {
    SubsetRun(nfa, start, acceptId, dfa, 0, w);
  }

  /** One pass of the worklist loop: pop the front id and expand its state. */
  method NextInWorklist(nfa: seq<NfaNode>, ghost startClosure: set<nat>, acceptId: nat, t0: Tables, ghost done0: nat,
                        ghost parent0: map<nat, (nat, char)>)
    returns (t: Tables, ghost done: nat, ghost parent: map<nat, (nat, char)>)
    requires Progress(nfa, startClosure, acceptId, t0, done0, parent0) && t0.worklist != []
    ensures Progress(nfa, startClosure, acceptId, t, done, parent)
    ensures AllSubsets(|nfa|) - t.stateMap.Keys < AllSubsets(|nfa|) - t0.stateMap.Keys ||
            (t.stateMap.Keys == t0.stateMap.Keys && |t.worklist| < |t0.worklist|)
  {
    var currId := t0.worklist[0];
    t := t0.(worklist := t0.worklist[1..]);
    done := done0 + 1;
    t, parent := ExpandState(nfa, startClosure, acceptId, currId, t, parent0);
    ProgressStep(nfa, startClosure, acceptId, t0, t, currId, parent0, parent);
  }

  /** The invariant of the worklist loop: the states before `done` are
      expanded, the others have no transitions yet. */
  ghost predicate Progress(nfa: seq<NfaNode>, startClosure: set<nat>, acceptId: nat, t: Tables, done: nat,
                           parent: map<nat, (nat, char)>) {
    Core(nfa, startClosure, acceptId, t) && Queued(t, done) &&
    t.stateMap.Keys <= AllSubsets(|nfa|) &&
    (forall i :: 0 <= i < done ==> ExpandedAt(nfa, t.states, t.reverseMap, i)) &&
    FreshEmpty(t, done) &&
    Parents(nfa, t.reverseMap, parent, t.idCounter)
  }

  /** Before the loop only the start state exists, waiting in the worklist. */
  lemma InitialProgress(nfa: seq<NfaNode>, startClosure: set<nat>, acceptId: nat)
    requires WellFormed(nfa) && startClosure <= Range(|nfa|)
    ensures Progress(nfa, startClosure, acceptId,
                     Tables(map[0 := DfaState(0, startClosure, map[], acceptId in startClosure)],
                            map[startClosure := 0], map[0 := startClosure], 1, [0]), 0, map[])
  {
    InAllSubsets(startClosure, |nfa|);
    InitialCore(nfa, startClosure, acceptId);
  }

  lemma InitialCore(nfa: seq<NfaNode>, startClosure: set<nat>, acceptId: nat)
    requires WellFormed(nfa) && startClosure <= Range(|nfa|)
    ensures Core(nfa, startClosure, acceptId,
                 Tables(map[0 := DfaState(0, startClosure, map[], acceptId in startClosure)],
                        map[startClosure := 0], map[0 := startClosure], 1, [0]))
  {
    var t := Tables(map[0 := DfaState(0, startClosure, map[], acceptId in startClosure)],
                    map[startClosure := 0], map[0 := startClosure], 1, [0]);
    assert forall i: nat :: i in t.states <==> i < t.idCounter;
    assert forall i: nat :: i in t.reverseMap <==> i < t.idCounter;
  }

  /** Expanding the state at the head of the worklist keeps the invariant
      and makes progress: a new set is known, or the worklist is shorter. */
  lemma ProgressStep(nfa: seq<NfaNode>, startClosure: set<nat>, acceptId: nat, t0: Tables, t: Tables, currId: nat,
                     parent0: map<nat, (nat, char)>, parent: map<nat, (nat, char)>)
    requires Progress(nfa, startClosure, acceptId, t0, currId, parent0) && t0.worklist != []
    requires AfterExpand(nfa, startClosure, acceptId, currId, t0.(worklist := t0.worklist[1..]), t, parent)
    ensures Progress(nfa, startClosure, acceptId, t, currId + 1, parent)
    ensures AllSubsets(|nfa|) - t.stateMap.Keys < AllSubsets(|nfa|) - t0.stateMap.Keys ||
            (t.stateMap.Keys == t0.stateMap.Keys && |t.worklist| < |t0.worklist|)
  {
    ExpandedKept(nfa, t0, t, currId);
    KnownSetsBounded(nfa, startClosure, acceptId, t);
    Shrinks(AllSubsets(|nfa|), t0.stateMap.Keys, t.stateMap.Keys);
  }

  lemma Shrinks(all: set<set<nat>>, k0: set<set<nat>>, k: set<set<nat>>)
    requires k0 <= k <= all
    ensures all - k < all - k0 || k == k0
  {
    if k != k0 {
      var x :| x in k && x !in k0;
      assert x in all - k0 && x !in all - k;
    }
  }

  /** The expansions done earlier survive the expansion of `q`. */
  lemma ExpandedKept(nfa: seq<NfaNode>, t0: Tables, t: Tables, q: nat)
    requires forall i :: 0 <= i < q ==> ExpandedAt(nfa, t0.states, t0.reverseMap, i)
    requires ExpandedAt(nfa, t.states, t.reverseMap, q)
    requires StatesKept(t0, t, q)
    requires forall j :: j in t0.reverseMap ==> j in t.reverseMap && t.reverseMap[j] == t0.reverseMap[j]
    ensures forall i :: 0 <= i < q + 1 ==> ExpandedAt(nfa, t.states, t.reverseMap, i)
  {
    forall i | 0 <= i < q ensures ExpandedAt(nfa, t.states, t.reverseMap, i) {
      ExpandedFrame(nfa, t0.states, t0.reverseMap, t.states, t.reverseMap, i);
    }
  }

  /** Every known set is a set of NFA states, hence one of finitely many. */
  lemma KnownSetsBounded(nfa: seq<NfaNode>, startClosure: set<nat>, acceptId: nat, t: Tables)
    requires Core(nfa, startClosure, acceptId, t)
    ensures t.stateMap.Keys <= AllSubsets(|nfa|)
  {
    forall T | T in t.stateMap.Keys ensures T in AllSubsets(|nfa|) {
      assert t.reverseMap[t.stateMap[T]] == T;
      InAllSubsets(T, |nfa|);
    }
  }

  /** Once the worklist is empty the tables describe the subset automaton. */
  lemma FinishedIsSubsetDfa(nfa: seq<NfaNode>, start: nat, startClosure: set<nat>, acceptId: nat, t: Tables,
                            parent: map<nat, (nat, char)>)
    requires start < |nfa| && Core(nfa, startClosure, acceptId, t)
    requires startClosure == Closure(nfa, {start})
    requires forall i :: 0 <= i < t.idCounter ==> ExpandedAt(nfa, t.states, t.reverseMap, i)
    requires Parents(nfa, t.reverseMap, parent, t.idCounter)
    ensures IsSubsetDfa(nfa, start, acceptId, Dfa(0, t.states))
  {
    FinishedStates(nfa, startClosure, acceptId, t);
    FinishedExpanded(nfa, startClosure, acceptId, t);
    FinishedInjective(nfa, startClosure, acceptId, t);
    FinishedDiscovered(nfa, startClosure, acceptId, t, parent);
  }

  /** The ids are 0 .. n-1 and each state carries its id, its set and its
      accept flag. */
  lemma FinishedStates(nfa: seq<NfaNode>, startClosure: set<nat>, acceptId: nat, t: Tables)
    requires Core(nfa, startClosure, acceptId, t)
    ensures t.states.Keys == Range(t.idCounter) && |t.states| == t.idCounter
    ensures t.states[0].nfaStates == startClosure
    ensures forall i :: i in t.states ==> StateOk(nfa, acceptId, i, t.states[i], t.states[i].nfaStates)
  {
    assert t.states.Keys == Range(t.idCounter);
    forall i | i in t.states ensures StateOk(nfa, acceptId, i, t.states[i], t.states[i].nfaStates) {
      assert StateOk(nfa, acceptId, i, t.states[i], t.reverseMap[i]);
    }
  }

  /** With `reverseMap` read off the states, every state is expanded. */
  lemma FinishedExpanded(nfa: seq<NfaNode>, startClosure: set<nat>, acceptId: nat, t: Tables)
    requires Core(nfa, startClosure, acceptId, t)
    requires forall i :: 0 <= i < t.idCounter ==> ExpandedAt(nfa, t.states, t.reverseMap, i)
    ensures forall i :: i in t.states ==> ExpandedAt(nfa, t.states, SetsOf(t.states), i)
  {
    assert SetsOf(t.states) == t.reverseMap;
  }

  /** Distinct states stand for distinct sets, `stateMap` being their inverse. */
  lemma FinishedInjective(nfa: seq<NfaNode>, startClosure: set<nat>, acceptId: nat, t: Tables)
    requires Core(nfa, startClosure, acceptId, t)
    ensures forall i, j :: i in t.states && j in t.states && i != j ==>
              t.states[i].nfaStates != t.states[j].nfaStates
  {
    forall i, j | i in t.states && j in t.states && i != j
      ensures t.states[i].nfaStates != t.states[j].nfaStates
    {
      assert t.stateMap[t.reverseMap[i]] == i && t.stateMap[t.reverseMap[j]] == j;
    }
  }

  /** The parent edge of each later state is one of its parent's transitions. */
  lemma FinishedDiscovered(nfa: seq<NfaNode>, startClosure: set<nat>, acceptId: nat, t: Tables,
                           parent: map<nat, (nat, char)>)
    requires Core(nfa, startClosure, acceptId, t)
    requires forall i :: 0 <= i < t.idCounter ==> ExpandedAt(nfa, t.states, t.reverseMap, i)
    requires Parents(nfa, t.reverseMap, parent, t.idCounter)
    ensures forall i :: 0 < i < t.idCounter ==> DiscoveredFrom(Dfa(0, t.states), i)
  {
    forall i | 0 < i < t.idCounter
      ensures DiscoveredFrom(Dfa(0, t.states), i)
    {
      var (j, c) := parent[i];
      assert ParentEdge(nfa, t.reverseMap, j, c, i);
      assert ExpandedAt(nfa, t.states, t.reverseMap, j);
      var d := t.states[j].transitions[c];
      assert t.stateMap[t.reverseMap[i]] == i && t.stateMap[t.reverseMap[d]] == d;
      assert 0 <= j < i && j in t.states && c in t.states[j].transitions && t.states[j].transitions[c] == i;
    }
  }

  /** The loop state of the expansion of `currId` (standing for `S`) after
      the first `k` symbols: the tables have only grown, transitions so far
      are in `tr`, and every new state has its parent edge. */
  ghost predicate Midway(nfa: seq<NfaNode>, startClosure: set<nat>, acceptId: nat, currId: nat, S: set<nat>,
                         symbols: seq<char>, k: nat, t0: Tables, t: Tables, tr: map<char, nat>,
                         parent: map<nat, (nat, char)>) {
    Core(nfa, startClosure, acceptId, t) && Queued(t, currId + 1) &&
    currId in t.reverseMap && t.reverseMap[currId] == S &&
    Extends(t0, t) && Kept(t0, t) && FreshEmpty(t, t0.idCounter) &&
    Recorded(nfa, S, symbols, k, tr, t.reverseMap, t.idCounter) &&
    Parents(nfa, t.reverseMap, parent, t.idCounter)
  }

  /** One pass of the worklist loop: the moves of state `currId`, in
      ascending symbol order (the order of `std::map<char, _>`). The
      transitions are gathered in `tr`, which stands for the reference
      `currDFA` into the state table, and stored once at the end. */
  method ExpandState(nfa: seq<NfaNode>, ghost startClosure: set<nat>, acceptId: nat, currId: nat, t0: Tables,
                     ghost parent0: map<nat, (nat, char)>)
    returns (t: Tables, ghost parent: map<nat, (nat, char)>)
    requires Core(nfa, startClosure, acceptId, t0) && Queued(t0, currId + 1)
    requires FreshEmpty(t0, currId)
    requires Parents(nfa, t0.reverseMap, parent0, t0.idCounter)
    ensures AfterExpand(nfa, startClosure, acceptId, currId, t0, t, parent)
  {
    t, parent := t0, parent0;
    var S := t.reverseMap[currId];
    var moves := CollectMoves(nfa, S);
    var symbols := SortChars(moves.Keys);
    var tr: map<char, nat> := t.states[currId].transitions;
    var k := 0;
    assert Midway(nfa, startClosure, acceptId, currId, S, symbols, k, t0, t, tr, parent);
    while k < |symbols|
      invariant 0 <= k <= |symbols|
      invariant Midway(nfa, startClosure, acceptId, currId, S, symbols, k, t0, t, tr, parent)
    {
      var c := symbols[k];
      assert c in moves;
      t, tr, parent := ExpandSymbol(nfa, startClosure, acceptId, currId, S, symbols, k, moves[c], t0, t, tr, parent);
      k := k + 1;
    }
    StoreFacts(nfa, startClosure, acceptId, currId, S, moves, symbols, t0, t, tr, parent);
    t := t.(states := t.states[currId := t.states[currId].(transitions := tr)]);
  }

  /** What the expansion of `currId` leaves behind: the bookkeeping, state
      `currId` expanded, the tables only grown, no other state changed,
      later states still without transitions, and all parent edges. */
  ghost predicate AfterExpand(nfa: seq<NfaNode>, startClosure: set<nat>, acceptId: nat, currId: nat,
                              t0: Tables, t: Tables, parent: map<nat, (nat, char)>) {
    Core(nfa, startClosure, acceptId, t) && Queued(t, currId + 1) &&
    ExpandedAt(nfa, t.states, t.reverseMap, currId) &&
    Extends(t0, t) && StatesKept(t0, t, currId) && FreshEmpty(t, currId + 1) &&
    Parents(nfa, t.reverseMap, parent, t.idCounter)
  }

  /** The end of the expansion: the gathered transitions become those of
      state `currId`, which is then fully expanded. */
  lemma StoreFacts(nfa: seq<NfaNode>, startClosure: set<nat>, acceptId: nat, currId: nat, S: set<nat>,
                   moves: map<char, set<nat>>, symbols: seq<char>, t0: Tables, t1: Tables, tr: map<char, nat>,
                   parent: map<nat, (nat, char)>)
    requires Core(nfa, startClosure, acceptId, t1) && Queued(t1, currId + 1)
    requires currId in t1.reverseMap && t1.reverseMap[currId] == S && currId in t1.states
    requires Extends(t0, t1) && Kept(t0, t1) && FreshEmpty(t1, t0.idCounter)
    requires Recorded(nfa, S, symbols, |symbols|, tr, t1.reverseMap, t1.idCounter)
    requires Parents(nfa, t1.reverseMap, parent, t1.idCounter)
    requires currId < t0.idCounter && FreshEmpty(t0, currId)
    requires forall c :: c in moves <==> c != Epsilon && Move(nfa, S, c) != {}
    requires symbols == SortedChars(moves.Keys)
    ensures AfterExpand(nfa, startClosure, acceptId, currId, t0,
                        t1.(states := t1.states[currId := t1.states[currId].(transitions := tr)]), parent)
  {
    CoreTransitions(nfa, startClosure, acceptId, t1, currId, tr);
    var t := t1.(states := t1.states[currId := t1.states[currId].(transitions := tr)]);
    StoredFrame(t0, t1, currId, tr);
    StoredExpanded(nfa, S, moves, symbols, tr, t.states, t1.reverseMap, t1.idCounter, currId);
  }

  /** Steps 5 and 6 of the expansion for the symbol `symbols[k]`: close the
      move, find or create its state, and record the transition in `tr`. */
  method ExpandSymbol(nfa: seq<NfaNode>, ghost startClosure: set<nat>, acceptId: nat, currId: nat,
                      ghost S: set<nat>, symbols: seq<char>, k: nat, nextStates: set<nat>, ghost t0: Tables,
                      t1: Tables, tr1: map<char, nat>, ghost parent1: map<nat, (nat, char)>)
    returns (t: Tables, tr: map<char, nat>, ghost parent: map<nat, (nat, char)>)
    requires k < |symbols| && Midway(nfa, startClosure, acceptId, currId, S, symbols, k, t0, t1, tr1, parent1)
    requires nextStates == Move(nfa, S, symbols[k]) && nextStates != {} && symbols[k] != Epsilon
    ensures Midway(nfa, startClosure, acceptId, currId, S, symbols, k + 1, t0, t, tr, parent)
  {
    var c := symbols[k];
    MoveInArena(nfa, S, c);
    var closureSet := EpsilonClosure(nfa, nextStates);
    var dest: nat;
    t, dest := Intern(nfa, startClosure, acceptId, closureSet, t1, currId + 1);
    ParentsFrame(nfa, t1.reverseMap, t.reverseMap, parent1, t1.idCounter);
    parent := parent1;
    if t.idCounter != t1.idCounter {
      assert ParentEdge(nfa, t.reverseMap, currId, c, t1.idCounter);
      ParentsExtend(nfa, t.reverseMap, parent, t1.idCounter, currId, c);
      parent := parent[t1.idCounter := (currId, c)];
    }
    RecordedStep(nfa, S, symbols, k, tr1, t1.reverseMap, t1.idCounter, t.reverseMap, t.idCounter, dest);
    tr := tr1[c := dest];
    ExtendsTrans(t0, t1, t);
  }

  lemma ExtendsTrans(t0: Tables, t1: Tables, t2: Tables)
    requires Extends(t0, t1) && Extends(t1, t2) && Kept(t0, t1) && Kept(t1, t2)
    requires FreshEmpty(t1, t0.idCounter) && FreshEmpty(t2, t1.idCounter)
    ensures Extends(t0, t2) && Kept(t0, t2) && FreshEmpty(t2, t0.idCounter)
  {
    forall i | t0.idCounter <= i < t2.idCounter
      ensures i in t2.states && t2.states[i].transitions == map[]
    {
      if i < t1.idCounter {
        assert t2.states[i] == t1.states[i];
      }
    }
  }

  /** Storing the transitions of `currId` changes no other state. */
  lemma StoredFrame(t0: Tables, t1: Tables, currId: nat, tr: map<char, nat>)
    requires Extends(t0, t1) && Kept(t0, t1) && FreshEmpty(t0, currId) && FreshEmpty(t1, t0.idCounter)
    requires currId < t0.idCounter
    ensures var t := t1.(states := t1.states[currId := t1.states[currId].(transitions := tr)]);
            Extends(t0, t) && StatesKept(t0, t, currId) && FreshEmpty(t, currId + 1)
  {
    var t := t1.(states := t1.states[currId := t1.states[currId].(transitions := tr)]);
    forall j | j in t0.states && j != currId ensures j in t.states && t.states[j] == t0.states[j] {
      assert t1.states[j] == t0.states[j];
    }
    forall i | currId + 1 <= i < t.idCounter ensures i in t.states && t.states[i].transitions == map[] {
      if i < t0.idCounter {
        assert t1.states[i] == t0.states[i];
      }
    }
  }

  /** Transitions recorded for every symbol with a non-empty move make the
      state expanded. */
  lemma StoredExpanded(nfa: seq<NfaNode>, S: set<nat>, moves: map<char, set<nat>>, symbols: seq<char>,
                       tr: map<char, nat>, states: map<nat, DfaState>, reverseMap: map<nat, set<nat>>, n: nat, q: nat)
    requires Recorded(nfa, S, symbols, |symbols|, tr, reverseMap, n)
    requires forall c :: c in moves <==> c != Epsilon && Move(nfa, S, c) != {}
    requires symbols == SortedChars(moves.Keys)
    requires q in states && states[q].transitions == tr && q in reverseMap && reverseMap[q] == S
    ensures ExpandedAt(nfa, states, reverseMap, q)
  {
    assert symbols[..|symbols|] == symbols;
    forall c ensures c in tr <==> c != Epsilon && Move(nfa, S, c) != {} {
      assert c in symbols <==> c in moves.Keys;
    }
  }

  /** The transitions gathered for the state standing for `S` after the
      first `k` symbols: one per symbol so far, each to the state standing
      for the closed move. */
  ghost predicate Recorded(nfa: seq<NfaNode>, S: set<nat>, symbols: seq<char>, k: nat,
                           tr: map<char, nat>, reverseMap: map<nat, set<nat>>, n: nat) {
    WellFormed(nfa) && S <= Range(|nfa|) && k <= |symbols| &&
    (forall c :: c in tr <==> c in symbols[..k]) &&
    (forall c {:trigger c in tr} :: c in tr ==> tr[c] < n && tr[c] in reverseMap && reverseMap[tr[c]] == DStep(nfa, S, c))
  }

  lemma RecordedStep(nfa: seq<NfaNode>, S: set<nat>, symbols: seq<char>, k: nat, tr: map<char, nat>,
                     reverseMap: map<nat, set<nat>>, n: nat, reverseMap': map<nat, set<nat>>, n': nat, dest: nat)
    requires Recorded(nfa, S, symbols, k, tr, reverseMap, n) && k < |symbols|
    requires n <= n' && forall j :: j in reverseMap && j < n ==> j in reverseMap' && reverseMap'[j] == reverseMap[j]
    requires dest < n' && dest in reverseMap' && reverseMap'[dest] == DStep(nfa, S, symbols[k])
    ensures Recorded(nfa, S, symbols, k + 1, tr[symbols[k] := dest], reverseMap', n')
  {
    assert symbols[..k + 1] == symbols[..k] + [symbols[k]];
    var tr': map<char, nat> := tr[symbols[k] := dest];
    forall c | c in tr'
      ensures tr'[c] < n' && tr'[c] in reverseMap' && reverseMap'[tr'[c]] == DStep(nfa, S, c)
    {
      if c != symbols[k] {
        assert tr'[c] == tr[c] < n;
      }
    }
  }

  /** A new state for a set not seen before keeps the bookkeeping. */
  lemma CoreAddState(nfa: seq<NfaNode>, startClosure: set<nat>, acceptId: nat, t: Tables, T: set<nat>, worklist: seq<nat>)
    requires Core(nfa, startClosure, acceptId, t)
    requires T !in t.stateMap && T <= Range(|nfa|)
    ensures Core(nfa, startClosure, acceptId,
                 Tables(t.states[t.idCounter := DfaState(t.idCounter, T, map[], acceptId in T)],
                        t.stateMap[T := t.idCounter], t.reverseMap[t.idCounter := T],
                        t.idCounter + 1, worklist))
  {
    var n := t.idCounter;
    var states' := t.states[n := DfaState(n, T, map[], acceptId in T)];
    var stateMap' := t.stateMap[T := n];
    var reverseMap' := t.reverseMap[n := T];
    forall i | i in states'
      ensures StateOk(nfa, acceptId, i, states'[i], reverseMap'[i])
    {
      if i != n {
        assert states'[i] == t.states[i] && reverseMap'[i] == t.reverseMap[i];
      }
    }
    forall S | S in stateMap'
      ensures stateMap'[S] < n + 1 && reverseMap'[stateMap'[S]] == S
    {
      if S != T {
        assert stateMap'[S] == t.stateMap[S] < n;
      }
    }
    forall i | i in reverseMap'
      ensures reverseMap'[i] in stateMap' && stateMap'[reverseMap'[i]] == i
    {
      if i != n {
        assert reverseMap'[i] == t.reverseMap[i];
        assert t.reverseMap[i] != T;
      }
    }
    assert reverseMap'[0] == t.reverseMap[0];
  }

  /** A new state goes to the back of the worklist, only adds to the tables
      and has no transitions. */
  lemma AddStateFrame(t: Tables, T: set<nat>, acceptId: nat, done: nat)
    requires Queued(t, done) && T !in t.stateMap
    requires forall i: nat :: i in t.states <==> i < t.idCounter
    requires forall i: nat :: i in t.reverseMap <==> i < t.idCounter
    ensures var t' := Tables(t.states[t.idCounter := DfaState(t.idCounter, T, map[], acceptId in T)],
                             t.stateMap[T := t.idCounter], t.reverseMap[t.idCounter := T],
                             t.idCounter + 1, t.worklist + [t.idCounter]);
            Queued(t', done) && Extends(t, t') && Kept(t, t') && FreshEmpty(t', t.idCounter) &&
            t'.stateMap.Keys == t.stateMap.Keys + {T}
  {
    var n := t.idCounter;
    var w := t.worklist + [n];
    forall k | 0 <= k < |w| ensures w[k] == done + k {
      if k < |t.worklist| {
        assert w[k] == t.worklist[k];
      }
    }
  }

  /** Transitions are not part of the bookkeeping. */
  lemma CoreTransitions(nfa: seq<NfaNode>, startClosure: set<nat>, acceptId: nat, t: Tables, q: nat, tr: map<char, nat>)
    requires Core(nfa, startClosure, acceptId, t) && q in t.states
    ensures Core(nfa, startClosure, acceptId, t.(states := t.states[q := t.states[q].(transitions := tr)]))
  {
  }

  /** The `stateMap` lookup of one closed move: the id already given to the
      set, or a fresh id with a new state (no transitions yet) appended to
      the worklist. */
  method Intern(nfa: seq<NfaNode>, ghost startClosure: set<nat>, acceptId: nat, closureSet: set<nat>,
                t0: Tables, ghost done: nat)
    returns (t: Tables, dest: nat)
    requires Core(nfa, startClosure, acceptId, t0) && Queued(t0, done) && closureSet <= Range(|nfa|)
    ensures Core(nfa, startClosure, acceptId, t) && Queued(t, done)
    ensures dest < t.idCounter && t.reverseMap[dest] == closureSet
    ensures t.stateMap.Keys == t0.stateMap.Keys + {closureSet}
    ensures t.idCounter == t0.idCounter ||
            (t.idCounter == t0.idCounter + 1 && dest == t0.idCounter && closureSet !in t0.stateMap)
    ensures Extends(t0, t) && Kept(t0, t) && FreshEmpty(t, t0.idCounter)
  {
    t := t0;
    if closureSet !in t.stateMap {
      var newId := t.idCounter;
      CoreAddState(nfa, startClosure, acceptId, t, closureSet, t.worklist + [newId]);
      AddStateFrame(t, closureSet, acceptId, done);
      t := Tables(t.states[newId := DfaState(newId, closureSet, map[], acceptId in closureSet)],
                  t.stateMap[closureSet := newId], t.reverseMap[newId := closureSet],
                  t.idCounter + 1, t.worklist + [newId]);
    }
    dest := t.stateMap[closureSet];
  }
}
