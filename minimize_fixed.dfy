/** The refinement loop of `minimizeDFA` with the splitter kept until it
    cuts no block (the `break` then only restarts the scan of the
    partition), and the proof that the DFA rebuilt from its partition
    accepts the same language as the DFA it was given. */
module MinimizationFixed {
  import opened Common
  import opened Dfa
  import opened Minimization
  import opened MinimizationFacts

  /** The work-queue loop, with a splitter that cuts a block left at the
      head of the queue so that it is tried again on the new partition. */
  ghost function RefineFixed(d: Dfa, alphabet: seq<char>, P: set<Block>, queue: seq<(Block, char)>): (r: set<Block>)
    requires IsPartition(P, d.states.Keys)
    ensures IsPartition(r, d.states.Keys)
    decreases |d.states.Keys| - |P|, |queue|
  {
    if queue == [] then P
    else
      var A, c := queue[0].0, queue[0].1;
      match FirstSplit(d, Order(P), A, c)
      case None => RefineFixed(d, alphabet, P, queue[1..])
      case Some(Y) =>
        FirstSplitIn(d, Order(P), A, c);
        var Y1, Y2 := Inside(d, Y, A, c), Outside(d, Y, A, c);
        SplitPartition(d, P, d.states.Keys, Y, A, c);
        PartitionSize(P - {Y} + {Y1, Y2}, d.states.Keys);
        RefineFixed(d, alphabet, P - {Y} + {Y1, Y2}, queue + Pushes(Y1, Y2, alphabet))
  }

  ghost function FixedPartition(d: Dfa): (r: set<Block>)
    ensures IsPartition(r, d.states.Keys)
  {
    InitialIsPartition(d);
    RefineFixed(d, SortedAlphabet(d), InitialPartition(AcceptSet(d), RejectSet(d)),
                InitialQueue(AcceptSet(d), RejectSet(d), SortedAlphabet(d)))
  }

  /** The corrected minimization. */
  ghost function MinimizedFixedOf(d: Dfa): Dfa {
    Rebuild(d, FixedPartition(d))
  }

  // ---------------------------------------------------------------------
  // Stability
  // ---------------------------------------------------------------------

  /** The splitter (A, c) cuts no block of `P`. */
  ghost predicate Stable(d: Dfa, P: set<Block>, A: Block, c: char) {
    forall Y :: Y in P ==> !Splits(d, Y, A, c)
  }

  /** Every block, with every symbol, is still queued or already cuts
      nothing. */
  ghost predicate Pending(d: Dfa, alphabet: seq<char>, P: set<Block>, queue: seq<(Block, char)>) {
    forall X, c :: X in P && c in alphabet ==> (X, c) in queue || Stable(d, P, X, c)
  }

  lemma {:induction false} FirstSplitNone(d: Dfa, order: seq<Block>, A: Block, c: char)
    requires FirstSplit(d, order, A, c) == None
    ensures forall k :: 0 <= k < |order| ==> !Splits(d, order[k], A, c)
    decreases |order|
  {
    if order != [] {
      FirstSplitNone(d, order[1..], A, c);
      assert forall k :: 1 <= k < |order| ==> order[k] == order[1..][k - 1];
    }
  }

  /** A splitter for which the scan finds nothing is stable. */
  lemma NoneIsStable(d: Dfa, P: set<Block>, A: Block, c: char)
    requires NonEmptyBlocks(P) && FirstSplit(d, Order(P), A, c) == None
    ensures Stable(d, P, A, c)
  {
    FirstSplitNone(d, Order(P), A, c);
    forall Y | Y in P ensures !Splits(d, Y, A, c) {
      var k :| 0 <= k < |Order(P)| && Order(P)[k] == Y;
    }
  }

  /** Cutting blocks keeps a splitter stable. */
  lemma StableRefined(d: Dfa, P': set<Block>, P: set<Block>, A: Block, c: char)
    requires Refines(P', P) && Stable(d, P, A, c)
    ensures Stable(d, P', A, c)
  {
    forall Y' | Y' in P' ensures !Splits(d, Y', A, c) {
      var Y :| Y in P && Y' <= Y;
      assert !Splits(d, Y, A, c);
      assert Inside(d, Y', A, c) <= Inside(d, Y, A, c);
      assert Outside(d, Y', A, c) <= Outside(d, Y, A, c);
    }
  }

  lemma {:induction false} PushesHas(Y1: Block, Y2: Block, alphabet: seq<char>, c: char)
    requires c in alphabet
    ensures (Y1, c) in Pushes(Y1, Y2, alphabet) && (Y2, c) in Pushes(Y1, Y2, alphabet)
    decreases |alphabet|
  {
    var k := |alphabet| - 1;
    if alphabet[k] != c {
      assert c in alphabet[..k] by {
        var i :| 0 <= i < |alphabet| && alphabet[i] == c;
        assert alphabet[..k][i] == c;
      }
      PushesHas(Y1, Y2, alphabet[..k], c);
    }
  }

  lemma {:induction false} InitialQueueHas(accept: Block, nonAccept: Block, alphabet: seq<char>, c: char)
    requires c in alphabet
    ensures accept != {} ==> (accept, c) in InitialQueue(accept, nonAccept, alphabet)
    ensures nonAccept != {} ==> (nonAccept, c) in InitialQueue(accept, nonAccept, alphabet)
    decreases |alphabet|
  {
    var k := |alphabet| - 1;
    if alphabet[k] != c {
      assert c in alphabet[..k] by {
        var i :| 0 <= i < |alphabet| && alphabet[i] == c;
        assert alphabet[..k][i] == c;
      }
      InitialQueueHas(accept, nonAccept, alphabet[..k], c);
    }
  }

  /** Initially every block is queued with every symbol. */
  lemma InitialPending(d: Dfa, alphabet: seq<char>)
    ensures Pending(d, alphabet, InitialPartition(AcceptSet(d), RejectSet(d)),
                    InitialQueue(AcceptSet(d), RejectSet(d), alphabet))
  {
    forall X, c | X in InitialPartition(AcceptSet(d), RejectSet(d)) && c in alphabet
      ensures (X, c) in InitialQueue(AcceptSet(d), RejectSet(d), alphabet)
    {
      InitialQueueHas(AcceptSet(d), RejectSet(d), alphabet, c);
    }
  }

  /** Dropping a splitter the scan found nothing for keeps the invariant. */
  lemma PendingPop(d: Dfa, alphabet: seq<char>, P: set<Block>, queue: seq<(Block, char)>)
    requires NonEmptyBlocks(P) && Pending(d, alphabet, P, queue) && queue != []
    requires FirstSplit(d, Order(P), queue[0].0, queue[0].1) == None
    ensures Pending(d, alphabet, P, queue[1..])
  {
    NoneIsStable(d, P, queue[0].0, queue[0].1);
    forall X, c | X in P && c in alphabet && (X, c) in queue
      ensures (X, c) in queue[1..] || Stable(d, P, X, c)
    {
      var i :| 0 <= i < |queue| && queue[i] == (X, c);
      if i > 0 {
        assert queue[1..][i - 1] == (X, c);
      }
    }
  }

  /** A split keeps the invariant: the parts are queued with every symbol,
      the other blocks keep their entries or stay stable. */
  lemma PendingSplit(d: Dfa, alphabet: seq<char>, P: set<Block>, queue: seq<(Block, char)>, Y: Block, A: Block, c: char)
    requires Pending(d, alphabet, P, queue) && Y in P
    ensures var Y1, Y2 := Inside(d, Y, A, c), Outside(d, Y, A, c);
            Pending(d, alphabet, P - {Y} + {Y1, Y2}, queue + Pushes(Y1, Y2, alphabet))
  {
    var Y1, Y2 := Inside(d, Y, A, c), Outside(d, Y, A, c);
    var P', queue' := P - {Y} + {Y1, Y2}, queue + Pushes(Y1, Y2, alphabet);
    SplitRefines(d, P, Y, A, c);
    forall X, c' | X in P' && c' in alphabet
      ensures (X, c') in queue' || Stable(d, P', X, c')
    {
      if X == Y1 || X == Y2 {
        PushesHas(Y1, Y2, alphabet, c');
        var i :| 0 <= i < |Pushes(Y1, Y2, alphabet)| && Pushes(Y1, Y2, alphabet)[i] == (X, c');
        assert queue'[|queue| + i] == (X, c');
      } else if (X, c') in queue {
        var i :| 0 <= i < |queue| && queue[i] == (X, c');
        assert queue'[i] == (X, c');
      } else {
        StableRefined(d, P', P, X, c');
      }
    }
  }

  /** Every block with every symbol of `alphabet` cuts nothing. */
  ghost predicate Settled(d: Dfa, alphabet: seq<char>, P: set<Block>) {
    forall X, c :: X in P && c in alphabet ==> Stable(d, P, X, c)
  }

  /** A splitter that cuts nothing is dropped. */
  lemma RefineFixedSkip(d: Dfa, alphabet: seq<char>, P: set<Block>, queue: seq<(Block, char)>)
    requires IsPartition(P, d.states.Keys) && queue != []
    requires FirstSplit(d, Order(P), queue[0].0, queue[0].1) == None
    ensures RefineFixed(d, alphabet, P, queue) == RefineFixed(d, alphabet, P, queue[1..])
  {
  }

  /** A splitter that cuts the block `Y` replaces it by its two pieces and
      stays at the head of the queue. */
  lemma RefineFixedCut(d: Dfa, alphabet: seq<char>, P: set<Block>, queue: seq<(Block, char)>, Y: Block)
    requires IsPartition(P, d.states.Keys) && queue != []
    requires FirstSplit(d, Order(P), queue[0].0, queue[0].1) == Some(Y)
    requires IsPartition(P - {Y} + {Inside(d, Y, queue[0].0, queue[0].1), Outside(d, Y, queue[0].0, queue[0].1)}, d.states.Keys)
    ensures RefineFixed(d, alphabet, P, queue) ==
            RefineFixed(d, alphabet,
                        P - {Y} + {Inside(d, Y, queue[0].0, queue[0].1), Outside(d, Y, queue[0].0, queue[0].1)},
                        queue + Pushes(Inside(d, Y, queue[0].0, queue[0].1), Outside(d, Y, queue[0].0, queue[0].1), alphabet))
  {
  }

  /** When the queue runs out, every block with every symbol is stable. */
  lemma {:induction false} RefineFixedStable(d: Dfa, alphabet: seq<char>, P: set<Block>, queue: seq<(Block, char)>)
    requires IsPartition(P, d.states.Keys) && Pending(d, alphabet, P, queue)
    ensures Settled(d, alphabet, RefineFixed(d, alphabet, P, queue))
    decreases |d.states.Keys| - |P|, |queue|
  {
    if queue == [] {
      forall X, c | X in P && c in alphabet ensures Stable(d, P, X, c) {
        assert (X, c) !in queue;
      }
    } else {
      var A, c := queue[0].0, queue[0].1;
      match FirstSplit(d, Order(P), A, c)
      case None =>
        PendingPop(d, alphabet, P, queue);
        RefineFixedStable(d, alphabet, P, queue[1..]);
        RefineFixedSkip(d, alphabet, P, queue);
      case Some(Y) =>
        FirstSplitIn(d, Order(P), A, c);
        var Y1, Y2 := Inside(d, Y, A, c), Outside(d, Y, A, c);
        var P', queue' := P - {Y} + {Y1, Y2}, queue + Pushes(Y1, Y2, alphabet);
        SplitPartition(d, P, d.states.Keys, Y, A, c);
        PartitionSize(P', d.states.Keys);
        PendingSplit(d, alphabet, P, queue, Y, A, c);
        RefineFixedStable(d, alphabet, P', queue');
        RefineFixedCut(d, alphabet, P, queue, Y);
    }
  }

  /** The corrected refinement only cuts blocks. */
  lemma {:induction false} RefineFixedRefines(d: Dfa, alphabet: seq<char>, P: set<Block>, queue: seq<(Block, char)>)
    requires IsPartition(P, d.states.Keys)
    ensures Refines(RefineFixed(d, alphabet, P, queue), P)
    decreases |d.states.Keys| - |P|, |queue|
  {
    if queue == [] {
      forall Y | Y in P ensures exists Z :: Z in P && Y <= Z {
        assert Y <= Y;
      }
    } else {
      var A, c := queue[0].0, queue[0].1;
      match FirstSplit(d, Order(P), A, c)
      case None =>
        RefineFixedRefines(d, alphabet, P, queue[1..]);
      case Some(Y) =>
        FirstSplitIn(d, Order(P), A, c);
        var Y1, Y2 := Inside(d, Y, A, c), Outside(d, Y, A, c);
        var P' := P - {Y} + {Y1, Y2};
        SplitPartition(d, P, d.states.Keys, Y, A, c);
        PartitionSize(P', d.states.Keys);
        RefineFixedRefines(d, alphabet, P', queue + Pushes(Y1, Y2, alphabet));
        SplitRefines(d, P, Y, A, c);
        RefinesTrans(RefineFixed(d, alphabet, P', queue + Pushes(Y1, Y2, alphabet)), P', P);
    }
  }

  /** Every splitter, on any symbol, cuts no block of the partition. */
  ghost predicate AllStable(d: Dfa, P: set<Block>) {
    forall X, c :: X in P ==> Stable(d, P, X, c)
  }

  /** A symbol no state moves on never cuts a block. */
  lemma OffAlphabetStable(d: Dfa, P: set<Block>, X: Block, c: char)
    requires c !in Alphabet(d)
    ensures Stable(d, P, X, c)
  {
    assert forall q :: q in d.states ==> c !in d.states[q].transitions;
    forall Y | Y in P ensures Inside(d, Y, X, c) == {} {
      forall q | q in Y ensures !Hits(d, X, c, q) {
      }
    }
  }

  /** The corrected partition is homogeneous and stable. */
  lemma FixedPartitionFacts(d: Dfa)
    ensures Homogeneous(d, FixedPartition(d))
    ensures AllStable(d, FixedPartition(d))
  {
    var alphabet := SortedAlphabet(d);
    var P0, Q0 := InitialPartition(AcceptSet(d), RejectSet(d)), InitialQueue(AcceptSet(d), RejectSet(d), alphabet);
    InitialIsPartition(d);
    RefineFixedRefines(d, alphabet, P0, Q0);
    RefinesAcceptSplit(d, FixedPartition(d));
    InitialPending(d, alphabet);
    RefineFixedStable(d, alphabet, P0, Q0);
    SettledAllStable(d, alphabet, FixedPartition(d));
  }

  /** Settled on the whole alphabet means stable on every symbol. */
  lemma SettledAllStable(d: Dfa, alphabet: seq<char>, R: set<Block>)
    requires alphabet == SortedAlphabet(d) && Settled(d, alphabet, R)
    ensures AllStable(d, R)
  {
    forall X, c | X in R ensures Stable(d, R, X, c) {
      if c !in Alphabet(d) {
        OffAlphabetStable(d, R, X, c);
      } else {
        assert c in alphabet;
      }
    }
  }

  // ---------------------------------------------------------------------
  // Language preservation
  // ---------------------------------------------------------------------

  /** Two members of a block move on `c` into the same block, or neither
      moves on `c`. */
  lemma SameMove(d: Dfa, P: set<Block>, B: Block, p: nat, q: nat, c: char)
    requires Consistent(d) && IsPartition(P, d.states.Keys) && AllStable(d, P)
    requires B in P && p in B && q in B && p in d.states && q in d.states
    requires c in d.states[p].transitions
    ensures c in d.states[q].transitions
    ensures GroupIn(P, d.states[q].transitions[c]) == GroupIn(P, d.states[p].transitions[c])
  {
    var p' := d.states[p].transitions[c];
    GroupOf(P, d.states.Keys, p');
    var X := Order(P)[GroupIn(P, p')];
    assert X in P;
    assert Stable(d, P, X, c);
    assert !Splits(d, B, X, c);
    assert p in Inside(d, B, X, c);
    assert q !in Outside(d, B, X, c);
    SameGroup(P, d.states.Keys, d.states[q].transitions[c], p', X);
  }

  /** A state's group has the transition on `c` exactly when the state
      does, and then it leads to the group of the state's successor. */
  lemma GroupStep(d: Dfa, P: set<Block>, q: nat, c: char)
    requires Consistent(d) && IsPartition(P, d.states.Keys) && AllStable(d, P) && q in d.states
    ensures GroupIn(P, q) in Rebuild(d, P).states
    ensures c in Rebuild(d, P).states[GroupIn(P, q)].transitions <==> c in d.states[q].transitions
    ensures c in d.states[q].transitions ==>
              d.states[q].transitions[c] in d.states &&
              Rebuild(d, P).states[GroupIn(P, q)].transitions[c] == GroupIn(P, d.states[q].transitions[c])
  {
    var g := GroupIn(P, q);
    GroupOf(P, d.states.Keys, q);
    RebuildAt(d, P, g);
    var B := Order(P)[g];
    var r := MinNat(B);
    assert B in P && r in B;
    if c in d.states[q].transitions {
      SameMove(d, P, B, q, r, c);
    }
    if c in d.states[r].transitions {
      SameMove(d, P, B, r, q, c);
    }
  }

  /** From a state and from its group the same words are accepted. */
  lemma {:induction false} GroupRun(d: Dfa, P: set<Block>, q: nat, w: string)
    requires Consistent(d) && IsPartition(P, d.states.Keys) && Homogeneous(d, P) && AllStable(d, P)
    requires q in d.states
    ensures Run(d, q, w) == Run(Rebuild(d, P), GroupIn(P, q), w)
    decreases |w|
  {
    RebuildAccept(d, P, q);
    if w != [] {
      GroupStep(d, P, q, w[0]);
      if w[0] in d.states[q].transitions {
        GroupRun(d, P, d.states[q].transitions[w[0]], w[1..]);
      }
    }
  }

  /** The corrected minimization accepts exactly the words the DFA accepts. */
  lemma FixedPreservesLanguage(d: Dfa, w: string)
    requires Consistent(d)
    ensures Run(MinimizedFixedOf(d), MinimizedFixedOf(d).startState, w) == Run(d, d.startState, w)
  {
    FixedPartitionFacts(d);
    GroupRun(d, FixedPartition(d), d.startState, w);
  }

  /** The corrected minimization is no larger than the DFA it was given. */
  lemma FixedShape(d: Dfa)
    ensures |FixedPartition(d)| <= |d.states|
    ensures forall g: nat :: g in MinimizedFixedOf(d).states <==> g < |FixedPartition(d)|
    ensures d.states != map[] ==> Consistent(MinimizedFixedOf(d))
  {
    PartitionSize(FixedPartition(d), d.states.Keys);
    RebuildKeys(d, FixedPartition(d));
    if d.states != map[] {
      RebuildConsistent(d, FixedPartition(d));
    }
  }

  /** On the chain of `aa|aaa` the corrected minimization rejects "aaaa",
      as the chain does. */
  lemma FixedChainRejects()
    ensures !Accepts(MinimizedFixedOf(Chain()), MinimizedFixedOf(Chain()).startState, "aaaa")
  {
    ChainRejects();
    FixedPreservesLanguage(Chain(), "aaaa");
  }

  // ---------------------------------------------------------------------
  // The corrected method
  // ---------------------------------------------------------------------

  /** The work-queue loop, keeping a splitter until it cuts no block. */
  method RefinementFixed(dfa: Dfa, alphabet: seq<char>, P0: set<Block>, workQueue0: seq<(Block, char)>)
    returns (P: set<Block>)
    requires IsPartition(P0, dfa.states.Keys)
    ensures P == RefineFixed(dfa, alphabet, P0, workQueue0)
  {
    P := P0;
    var workQueue := workQueue0;
    while workQueue != []
      invariant IsPartition(P, dfa.states.Keys)
      invariant RefineFixed(dfa, alphabet, P, workQueue) == RefineFixed(dfa, alphabet, P0, workQueue0)
      decreases |dfa.states.Keys| - |P|, |workQueue|
    {
      var A, c := workQueue[0].0, workQueue[0].1;
      var split := FindSplit(dfa, P, A, c);
      if split.Some? {
        var Y, Y1, Y2 := split.value.0, split.value.1, split.value.2;
        FirstSplitIn(dfa, Order(P), A, c);
        SplitPartition(dfa, P, dfa.states.Keys, Y, A, c);
        PartitionSize(P - {Y} + {Y1, Y2}, dfa.states.Keys);
        P := P - {Y} + {Y1, Y2};
        workQueue := PushAll(workQueue, Y1, Y2, alphabet);
      } else {
        workQueue := workQueue[1..];
      }
    }
  }

  /** `minimizeDFA` with the corrected loop. */
  method MinimizeDFAFixed(dfa: Dfa) returns (minDFA: Dfa)
    ensures minDFA == MinimizedFixedOf(dfa)
    ensures Consistent(dfa) ==> forall w :: Run(minDFA, minDFA.startState, w) == Run(dfa, dfa.startState, w)
  {
    var accept, nonAccept := PartitionByAccept(dfa);
    var alphaSet := CollectAlphabet(dfa);
    var alphabet := SortChars(alphaSet);
    var P: set<Block> := {};
    if !(accept == {}) {
      P := P + {accept};
    }
    if !(nonAccept == {}) {
      P := P + {nonAccept};
    }
    var workQueue := InitialQueueOf(accept, nonAccept, alphabet);
    InitialIsPartition(dfa);
    assert P == InitialPartition(accept, nonAccept);
    P := RefinementFixed(dfa, alphabet, P, workQueue);
    var order := OrderBlocks(P);
    OrderInside(P, dfa.states.Keys);
    var stateToGroup := AssignGroups(order);
    var states := BuildStates(dfa, order, stateToGroup);
    minDFA := Dfa(Lookup(stateToGroup, dfa.startState), states);
    if Consistent(dfa) {
      forall w ensures Run(minDFA, minDFA.startState, w) == Run(dfa, dfa.startState, w) {
        FixedPreservesLanguage(dfa, w);
      }
    }
  }
}
