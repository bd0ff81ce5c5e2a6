/** What `minimizeDFA` guarantees as written: the final blocks partition
    the states, refine the accept split, and number the states of a
    well-formed DFA; and what it does not: with the `break` after the first
    split, a popped splitter is dropped while it may still cut other
    blocks, so states with different languages can end up merged. */
module MinimizationFacts {
  import opened Common
  import opened Dfa
  import opened Minimization

  /** Every block of `P'` lies inside a block of `P`. */
  ghost predicate Refines(P': set<Block>, P: set<Block>) {
    forall Y :: Y in P' ==> exists Z :: Z in P && Y <= Z
  }

  /** No block mixes accepting and non-accepting states. */
  ghost predicate Homogeneous(d: Dfa, P: set<Block>) {
    forall Y, p, q :: Y in P && p in Y && q in Y && p in d.states && q in d.states ==>
      d.states[p].isAccept == d.states[q].isAccept
  }

  lemma RefinesTrans(P'': set<Block>, P': set<Block>, P: set<Block>)
    requires Refines(P'', P') && Refines(P', P)
    ensures Refines(P'', P)
  {
    forall Y | Y in P'' ensures exists Z :: Z in P && Y <= Z {
      var Y' :| Y' in P' && Y <= Y';
      var Z :| Z in P && Y' <= Z;
    }
  }

  lemma SplitRefines(d: Dfa, P: set<Block>, Y: Block, A: Block, c: char)
    requires Y in P
    ensures Refines(P - {Y} + {Inside(d, Y, A, c), Outside(d, Y, A, c)}, P)
  {
    var P' := P - {Y} + {Inside(d, Y, A, c), Outside(d, Y, A, c)};
    forall Z | Z in P' ensures exists W :: W in P && Z <= W {
      if Z in P {
        assert Z <= Z;
      } else {
        assert Z <= Y;
      }
    }
  }

  /** Refinement only ever cuts blocks. */
  lemma {:induction false} RefineRefines(d: Dfa, alphabet: seq<char>, P: set<Block>, queue: seq<(Block, char)>)
    requires IsPartition(P, d.states.Keys)
    ensures Refines(Refine(d, alphabet, P, queue), P)
    decreases |d.states.Keys| - |P|, |queue|
  {
    if queue == [] {
      forall Y | Y in P ensures exists Z :: Z in P && Y <= Z {
        assert Y <= Y;
      }
    } else {
      var A, c := queue[0].0, queue[0].1;
      match FirstSplit(d, Order(P), A, c)
      case None =>
        RefineRefines(d, alphabet, P, queue[1..]);
      case Some(Y) =>
        FirstSplitIn(d, Order(P), A, c);
        var Y1, Y2 := Inside(d, Y, A, c), Outside(d, Y, A, c);
        var P' := P - {Y} + {Y1, Y2};
        SplitPartition(d, P, d.states.Keys, Y, A, c);
        PartitionSize(P', d.states.Keys);
        RefineRefines(d, alphabet, P', queue[1..] + Pushes(Y1, Y2, alphabet));
        SplitRefines(d, P, Y, A, c);
        RefinesTrans(Refine(d, alphabet, P', queue[1..] + Pushes(Y1, Y2, alphabet)), P', P);
    }
  }

  /** A partition refining the accept split is homogeneous. */
  lemma RefinesAcceptSplit(d: Dfa, P: set<Block>)
    requires Refines(P, InitialPartition(AcceptSet(d), RejectSet(d)))
    ensures Homogeneous(d, P)
  {
    forall Y, p, q | Y in P && p in Y && q in Y && p in d.states && q in d.states
      ensures d.states[p].isAccept == d.states[q].isAccept
    {
      var Z :| Z in InitialPartition(AcceptSet(d), RejectSet(d)) && Y <= Z;
    }
  }

  /** The final partition never merges an accepting with a non-accepting
      state. */
  lemma FinalHomogeneous(d: Dfa)
    ensures Homogeneous(d, FinalPartition(d))
    ensures Refines(FinalPartition(d), InitialPartition(AcceptSet(d), RejectSet(d)))
  {
    InitialIsPartition(d);
    RefineRefines(d, SortedAlphabet(d), InitialPartition(AcceptSet(d), RejectSet(d)),
                  InitialQueue(AcceptSet(d), RejectSet(d), SortedAlphabet(d)));
    RefinesAcceptSplit(d, FinalPartition(d));
  }

  // ---------------------------------------------------------------------
  // Group numbers
  // ---------------------------------------------------------------------

  /** The blocks in order are pairwise distinct. */
  lemma {:induction false} OrderDistinct(P: set<Block>)
    requires NonEmptyBlocks(P)
    ensures forall i, j :: 0 <= i < j < |Order(P)| ==> Order(P)[i] != Order(P)[j]
    decreases |P|
  {
    if P != {} {
      var Y := MinBlock(P);
      OrderDistinct(P - {Y});
      var r, rest := Order(P), Order(P - {Y});
      assert r == [Y] + rest;
      forall i, j | 0 <= i < j < |r| ensures r[i] != r[j] {
        assert r[j] == rest[j - 1];
        if i == 0 {
          assert rest[j - 1] in P - {Y};
        } else {
          assert r[i] == rest[i - 1];
        }
      }
    }
  }

  ghost predicate PairwiseDisjoint(order: seq<Block>) {
    forall i, j :: 0 <= i < j < |order| ==> order[i] !! order[j]
  }

  lemma OrderDisjoint(P: set<Block>, U: set<nat>)
    requires IsPartition(P, U)
    ensures PairwiseDisjoint(Order(P))
  {
    OrderDistinct(P);
  }

  /** Each member of the k-th block gets group k. */
  lemma {:induction false} AssignAt(order: seq<Block>, k: nat, q: nat)
    requires PairwiseDisjoint(order)
    requires k < |order| && q in order[k]
    ensures q in Assign(order) && Assign(order)[q] == k
    decreases |order|
  {
    var n := |order| - 1;
    if k < n {
      assert order[..n][k] == order[k];
      assert q !in order[n] by {
        assert order[k] !! order[n];
      }
      AssignAt(order[..n], k, q);
    }
  }

  /** Every group number is below the number of blocks. */
  lemma {:induction false} AssignRange(order: seq<Block>)
    ensures forall q :: q in Assign(order) ==> Assign(order)[q] < |order|
    decreases |order|
  {
    if order != [] {
      AssignRange(order[..|order| - 1]);
    }
  }

  /** The group of state `q` under the partition `P`. */
  ghost function GroupIn(P: set<Block>, q: nat): nat
    requires NonEmptyBlocks(P)
  {
    Lookup(Assign(Order(P)), q)
  }

  /** A state's group is the position of the block that holds it. */
  lemma GroupOf(P: set<Block>, U: set<nat>, q: nat)
    requires IsPartition(P, U) && q in U
    ensures GroupIn(P, q) < |P| && q in Order(P)[GroupIn(P, q)]
  {
    MembersIn(P, q);
    var Z :| Z in P && q in Z;
    var k :| 0 <= k < |Order(P)| && Order(P)[k] == Z;
    OrderDisjoint(P, U);
    AssignAt(Order(P), k, q);
  }

  /** States in one block share a group number. */
  lemma SameGroup(P: set<Block>, U: set<nat>, p: nat, q: nat, Y: Block)
    requires IsPartition(P, U) && Y in P && p in Y && q in Y
    ensures GroupIn(P, p) == GroupIn(P, q)
  {
    var k :| 0 <= k < |Order(P)| && Order(P)[k] == Y;
    OrderDisjoint(P, U);
    AssignAt(Order(P), k, p);
    AssignAt(Order(P), k, q);
  }

  /** Every lookup, of a state or not, lands on a block when there is one. */
  lemma GroupBound(P: set<Block>, q: nat)
    requires NonEmptyBlocks(P) && P != {}
    ensures GroupIn(P, q) < |P|
  {
    AssignRange(Order(P));
  }

  // ---------------------------------------------------------------------
  // The rebuilt DFA
  // ---------------------------------------------------------------------

  /** One state of the rebuilt DFA. */
  lemma RebuildAt(d: Dfa, P: set<Block>, g: nat)
    requires IsPartition(P, d.states.Keys) && g < |P|
    ensures Order(P)[g] != {} && MinNat(Order(P)[g]) in d.states
    ensures g in Rebuild(d, P).states &&
            Rebuild(d, P).states[g] == NewState(d, Order(P)[g], g, Assign(Order(P)))
  {
    OrderInside(P, d.states.Keys);
  }

  /** The rebuilt DFA has groups 0 .. |P|-1, each with its own number as
      id and no NFA states. */
  lemma RebuildKeys(d: Dfa, P: set<Block>)
    requires IsPartition(P, d.states.Keys)
    ensures forall g: nat :: g in Rebuild(d, P).states <==> g < |P|
    ensures forall g :: g in Rebuild(d, P).states ==>
              Rebuild(d, P).states[g].id == g && Rebuild(d, P).states[g].nfaStates == {}
  {
    OrderInside(P, d.states.Keys);
  }

  /** As soon as there is a state, the start and every destination of the
      rebuilt DFA are groups. */
  lemma RebuildConsistent(d: Dfa, P: set<Block>)
    requires IsPartition(P, d.states.Keys) && d.states != map[]
    ensures Consistent(Rebuild(d, P))
  {
    var q :| q in d.states;
    GroupOf(P, d.states.Keys, q);
    var stateToGroup := Assign(Order(P));
    AssignRange(Order(P));
    assert forall x :: Lookup(stateToGroup, x) < |P|;
    RebuildKeys(d, P);
    var m := Rebuild(d, P);
    forall g | g in m.states
      ensures forall c :: c in m.states[g].transitions ==> m.states[g].transitions[c] in m.states
    {
      RebuildAt(d, P, g);
    }
  }

  /** The start group holds the old start. */
  lemma RebuildStart(d: Dfa, P: set<Block>)
    requires IsPartition(P, d.states.Keys) && d.startState in d.states
    ensures Rebuild(d, P).startState < |P|
    ensures d.startState in Order(P)[Rebuild(d, P).startState]
  {
    GroupOf(P, d.states.Keys, d.startState);
  }

  /** With a homogeneous partition, a state's group accepts exactly when
      the state does. */
  lemma RebuildAccept(d: Dfa, P: set<Block>, q: nat)
    requires IsPartition(P, d.states.Keys) && Homogeneous(d, P) && q in d.states
    ensures GroupIn(P, q) in Rebuild(d, P).states
    ensures Rebuild(d, P).states[GroupIn(P, q)].isAccept == d.states[q].isAccept
  {
    GroupOf(P, d.states.Keys, q);
    RebuildAt(d, P, GroupIn(P, q));
    var B := Order(P)[GroupIn(P, q)];
    assert B in P && MinNat(B) in B;
  }

  /** `minimizeDFA` returns at most as many states as it was given,
      numbered densely, consistent whenever the input has a state, with the
      start group holding the old start and every state's group accepting
      exactly when the state does. */
  lemma MinimizedShape(d: Dfa)
    ensures |FinalPartition(d)| <= |d.states|
    ensures forall g: nat :: g in MinimizedOf(d).states <==> g < |FinalPartition(d)|
    ensures forall g :: g in MinimizedOf(d).states ==>
              MinimizedOf(d).states[g].id == g && MinimizedOf(d).states[g].nfaStates == {}
    ensures d.states != map[] ==> Consistent(MinimizedOf(d))
    ensures d.startState in d.states ==>
              d.startState in Order(FinalPartition(d))[MinimizedOf(d).startState]
    ensures forall q :: q in d.states ==>
              GroupIn(FinalPartition(d), q) in MinimizedOf(d).states &&
              MinimizedOf(d).states[GroupIn(FinalPartition(d), q)].isAccept == d.states[q].isAccept
  {
    var P := FinalPartition(d);
    PartitionSize(P, d.states.Keys);
    FinalHomogeneous(d);
    RebuildKeys(d, P);
    if d.states != map[] {
      RebuildConsistent(d, P);
    }
    if d.startState in d.states {
      RebuildStart(d, P);
    }
    forall q | q in d.states
      ensures GroupIn(P, q) in MinimizedOf(d).states &&
              MinimizedOf(d).states[GroupIn(P, q)].isAccept == d.states[q].isAccept
    {
      RebuildAccept(d, P, q);
    }
  }

  // ---------------------------------------------------------------------
  // The splitter dropped by the `break`
  // ---------------------------------------------------------------------

  /** A chain 0 -a-> 1 -a-> 2 -a-> 3 with 2 and 3 accepting: the DFA of
      `aa|aaa`. */
  function Chain(): Dfa {
    Dfa(0, map[0 := DfaState(0, {}, map['a' := 1], false),
               1 := DfaState(1, {}, map['a' := 2], false),
               2 := DfaState(2, {}, map['a' := 3], true),
               3 := DfaState(3, {}, map[], true)])
  }

  lemma ChainAlphabet()
    ensures SortedAlphabet(Chain()) == ['a']
    ensures AcceptSet(Chain()) == {2, 3} && RejectSet(Chain()) == {0, 1}
  {
    var d := Chain();
    assert Alphabet(d) == {'a'} by {
      assert 'a' in d.states[0].transitions;
    }
    var r := SortedAlphabet(d);
    assert |r| == 1 && 'a' in r;
  }

  lemma OrderOfTwo(Y: Block, Z: Block)
    requires Y != {} && Z != {} && Y !! Z && MinNat(Y) < MinNat(Z)
    ensures Order({Y, Z}) == [Y, Z]
  {
    var P := {Y, Z};
    MinBlockUnique(P, Y);
    assert P - {Y} == {Z};
    MinBlockUnique({Z}, Z);
    assert {Z} - {Z} == {};
  }

  lemma OrderOfThree(X: Block, Y: Block, Z: Block)
    requires X != {} && Y != {} && Z != {} && X !! Y && X !! Z && Y !! Z
    requires MinNat(X) < MinNat(Y) < MinNat(Z)
    ensures Order({X, Y, Z}) == [X, Y, Z]
  {
    var P := {X, Y, Z};
    MinBlockUnique(P, X);
    assert P - {X} == {Y, Z};
    OrderOfTwo(Y, Z);
  }

  /** The accept split of the chain and the queue it starts from. */
  lemma ChainStart()
    ensures InitialPartition(AcceptSet(Chain()), RejectSet(Chain())) == {{0, 1}, {2, 3}}
    ensures InitialQueue(AcceptSet(Chain()), RejectSet(Chain()), SortedAlphabet(Chain())) ==
            [({2, 3}, 'a'), ({0, 1}, 'a')]
  {
    ChainAlphabet();
    assert ['a'][..0] == [];
  }

  /** The first splitter ({2, 3}, a) cuts {0, 1} into {1} and {0}. */
  lemma ChainFirstSplit()
    ensures FirstSplit(Chain(), Order({{0, 1}, {2, 3}}), {2, 3}, 'a') == Some({0, 1})
    ensures Inside(Chain(), {0, 1}, {2, 3}, 'a') == {1}
    ensures Outside(Chain(), {0, 1}, {2, 3}, 'a') == {0}
  {
    var d := Chain();
    assert MinNat({0, 1}) == 0 && MinNat({2, 3}) == 2;
    OrderOfTwo({0, 1}, {2, 3});
    assert Hits(d, {2, 3}, 'a', 1) && !Hits(d, {2, 3}, 'a', 0);
  }

  lemma ChainSplitBlocks(P0: set<Block>)
    requires P0 == {{0, 1}, {2, 3}}
    ensures P0 - {{0, 1}} + {{1}, {0}} == {{0}, {1}, {2, 3}}
    ensures Pushes({1}, {0}, ['a']) == [({1}, 'a'), ({0}, 'a')]
  {
    assert ['a'][..0] == [];
  }

  /** A splitter that cuts the block `Y` replaces it by its two pieces and
      leaves the queue. */
  lemma RefineCut(d: Dfa, alphabet: seq<char>, P: set<Block>, queue: seq<(Block, char)>, Y: Block)
    requires IsPartition(P, d.states.Keys) && queue != []
    requires FirstSplit(d, Order(P), queue[0].0, queue[0].1) == Some(Y)
    requires IsPartition(P - {Y} + {Inside(d, Y, queue[0].0, queue[0].1), Outside(d, Y, queue[0].0, queue[0].1)}, d.states.Keys)
    ensures Refine(d, alphabet, P, queue) ==
            Refine(d, alphabet,
                   P - {Y} + {Inside(d, Y, queue[0].0, queue[0].1), Outside(d, Y, queue[0].0, queue[0].1)},
                   queue[1..] + Pushes(Inside(d, Y, queue[0].0, queue[0].1), Outside(d, Y, queue[0].0, queue[0].1), alphabet))
  {
  }

  /** After the first split the queue still holds ({0, 1}, a), then the two
      parts of {0, 1}; the splitter ({2, 3}, a) is gone. */
  lemma ChainStep()
    requires IsPartition({{0, 1}, {2, 3}}, Chain().states.Keys)
    ensures IsPartition({{0}, {1}, {2, 3}}, Chain().states.Keys)
    ensures Refine(Chain(), ['a'], {{0, 1}, {2, 3}}, [({2, 3}, 'a'), ({0, 1}, 'a')]) ==
            Refine(Chain(), ['a'], {{0}, {1}, {2, 3}}, [({0, 1}, 'a'), ({1}, 'a'), ({0}, 'a')])
  {
    var P0: set<Block> := {{0, 1}, {2, 3}};
    var Q0: seq<(Block, char)> := [({2, 3}, 'a'), ({0, 1}, 'a')];
    ChainFirstSplit();
    ChainSplitBlocks(P0);
    SplitPartition(Chain(), P0, Chain().states.Keys, {0, 1}, {2, 3}, 'a');
    assert Q0[0] == ({2, 3}, 'a');
    RefineCut(Chain(), ['a'], P0, Q0, {0, 1});
    assert Q0[1..] + [({1}, 'a'), ({0}, 'a')] == [({0, 1}, 'a'), ({1}, 'a'), ({0}, 'a')];
  }

  lemma ChainFinal()
    ensures IsPartition({{0, 1}, {2, 3}}, Chain().states.Keys)
    ensures FinalPartition(Chain()) ==
            Refine(Chain(), ['a'], {{0, 1}, {2, 3}}, [({2, 3}, 'a'), ({0, 1}, 'a')])
  {
    ChainStart();
    ChainAlphabet();
    InitialIsPartition(Chain());
  }

  /** The final partition of the chain. */
  lemma ChainPartition()
    ensures FinalPartition(Chain()) == {{0}, {1}, {2, 3}}
  {
    ChainFinal();
    ChainStep();
    ChainStable();
  }

  /** From {{0}, {1}, {2, 3}} none of the three splitters left cuts. */
  lemma ChainStable()
    requires IsPartition({{0}, {1}, {2, 3}}, Chain().states.Keys)
    ensures Refine(Chain(), ['a'], {{0}, {1}, {2, 3}}, [({0, 1}, 'a'), ({1}, 'a'), ({0}, 'a')]) == {{0}, {1}, {2, 3}}
  {
    var d, P := Chain(), {{0}, {1}, {2, 3}};
    var Q: seq<(Block, char)> := [({0, 1}, 'a'), ({1}, 'a'), ({0}, 'a')];
    ChainNoSplit({0, 1}, 'a');
    ChainNoSplit({1}, 'a');
    ChainNoSplit({0}, 'a');
    assert Q[1..] == [({1}, 'a'), ({0}, 'a')] && Q[1..][1..] == [({0}, 'a')] && Q[1..][1..][1..] == [];
    assert Refine(d, ['a'], P, Q[1..][1..]) == Refine(d, ['a'], P, []);
  }

  lemma ChainNoSplit(A: Block, c: char)
    requires A <= {0, 1}
    requires IsPartition({{0}, {1}, {2, 3}}, Chain().states.Keys)
    ensures FirstSplit(Chain(), Order({{0}, {1}, {2, 3}}), A, c) == None
  {
    var d := Chain();
    var order := Order({{0}, {1}, {2, 3}});
    assert !Hits(d, A, c, 2) && !Hits(d, A, c, 3);
    assert Inside(d, {2, 3}, A, c) == {};
    assert !Splits(d, {0}, A, c) by {
      if Hits(d, A, c, 0) {
        assert Outside(d, {0}, A, c) == {};
      } else {
        assert Inside(d, {0}, A, c) == {};
      }
    }
    assert !Splits(d, {1}, A, c) by {
      if Hits(d, A, c, 1) {
        assert Outside(d, {1}, A, c) == {};
      } else {
        assert Inside(d, {1}, A, c) == {};
      }
    }
    forall k | 0 <= k < |order| ensures !Splits(d, order[k], A, c) {
      assert order[k] in {{0}, {1}, {2, 3}};
    }
    NoSplitIn(d, order, A, c);
  }

  /** When no block in the order is cut, there is no split. */
  lemma {:induction false} NoSplitIn(d: Dfa, order: seq<Block>, A: Block, c: char)
    requires forall k :: 0 <= k < |order| ==> !Splits(d, order[k], A, c)
    ensures FirstSplit(d, order, A, c) == None
    decreases |order|
  {
    if order != [] {
      assert forall k :: 0 <= k < |order[1..]| ==> order[1..][k] == order[k + 1];
      NoSplitIn(d, order[1..], A, c);
    }
  }

  lemma ChainOrder()
    ensures Order({{0}, {1}, {2, 3}}) == [{0}, {1}, {2, 3}]
  {
    assert MinNat({0}) == 0 && MinNat({1}) == 1 && MinNat({2, 3}) == 2;
    OrderOfThree({0}, {1}, {2, 3});
  }

  lemma ChainAssignOne()
    ensures Assign([{0}]) == map[0 := 0]
  {
    var B0: Block := {0};
    assert [B0][..0] == [];
    var m0 := map q | q in B0 :: 0;
    assert m0 == map[0 := 0];
  }

  lemma ChainAssignTwo()
    ensures Assign([{0}, {1}]) == map[0 := 0, 1 := 1]
  {
    var B0, B1: Block := {0}, {1};
    assert [B0, B1][..1] == [B0];
    ChainAssignOne();
    var m1 := map q | q in B1 :: 1;
    assert m1 == map[1 := 1];
  }

  lemma ChainAssign()
    ensures Assign([{0}, {1}, {2, 3}]) == map[0 := 0, 1 := 1, 2 := 2, 3 := 2]
  {
    var B0, B1, B2: Block := {0}, {1}, {2, 3};
    assert [B0, B1, B2][..2] == [B0, B1];
    ChainAssignTwo();
    var m2 := map q | q in B2 :: 2;
    assert m2 == map[2 := 2, 3 := 2];
  }

  /** The three rebuilt states, from the representatives 0, 1 and 2. */
  lemma ChainNewStates(stateToGroup: map<nat, nat>)
    requires stateToGroup == map[0 := 0, 1 := 1, 2 := 2, 3 := 2]
    ensures NewState(Chain(), {0}, 0, stateToGroup).transitions == map['a' := 1]
    ensures NewState(Chain(), {1}, 1, stateToGroup).transitions == map['a' := 2]
    ensures NewState(Chain(), {2, 3}, 2, stateToGroup).transitions == map['a' := 2]
    ensures NewState(Chain(), {2, 3}, 2, stateToGroup).isAccept
  {
    assert MinNat({0}) == 0 && MinNat({1}) == 1 && MinNat({2, 3}) == 2;
  }

  /** The minimized chain: groups {0}, {1}, {2, 3}, with group 2 looping
      on `a`. */
  lemma ChainMinimized()
    ensures var m := MinimizedOf(Chain());
            m.startState == 0 && 0 in m.states && 1 in m.states && 2 in m.states &&
            m.states[0].transitions == map['a' := 1] &&
            m.states[1].transitions == map['a' := 2] &&
            m.states[2].transitions == map['a' := 2] && m.states[2].isAccept
  {
    var d := Chain();
    var P: set<Block> := {{0}, {1}, {2, 3}};
    ChainPartition();
    ChainOrder();
    ChainAssign();
    ChainNewStates(map[0 := 0, 1 := 1, 2 := 2, 3 := 2]);
    RebuildAt(d, P, 0);
    RebuildAt(d, P, 1);
    RebuildAt(d, P, 2);
  }

  /** The chain stops in state 3, which has no transition. */
  lemma ChainRejects()
    ensures !Accepts(Chain(), Chain().startState, "aaaa")
  {
    assert "aaaa"[1..] == "aaa" && "aaa"[1..] == "aa" && "aa"[1..] == "a" && "a"[1..] == [];
    assert Run(Chain(), 3, "a") == Verdict(false);
  }

  /** An automaton 0 -a-> 1 -a-> 2 -a-> 2 with 2 accepting accepts "aaaa". */
  lemma LoopAccepts(m: Dfa)
    requires m.startState == 0 && 0 in m.states && 1 in m.states && 2 in m.states
    requires m.states[0].transitions == map['a' := 1] && m.states[1].transitions == map['a' := 2]
    requires m.states[2].transitions == map['a' := 2] && m.states[2].isAccept
    ensures Accepts(m, m.startState, "aaaa")
  {
    assert "aaaa"[1..] == "aaa" && "aaa"[1..] == "aa" && "aa"[1..] == "a" && "a"[1..] == [];
    assert Run(m, 2, "a") == Verdict(true);
  }

  /** The minimized chain merges 2 and 3 and loops on group {2, 3}: it
      accepts "aaaa", which the chain itself rejects. */
  lemma BreakMergesDistinctStates()
    ensures !Accepts(Chain(), Chain().startState, "aaaa")
    ensures Accepts(MinimizedOf(Chain()), MinimizedOf(Chain()).startState, "aaaa")
  {
    ChainRejects();
    ChainMinimized();
    LoopAccepts(MinimizedOf(Chain()));
  }
}
