/** `minimizeDFA`: partition refinement from the accepting / non-accepting
    split, driven by a FIFO queue of (block, symbol) splitters, then a DFA
    rebuilt with one state per block. A popped splitter splits at most one
    block (the `break` in the loop over the partition). */
module Minimization {
  import opened Common
  import opened Dfa

  /** A block of the partition (`std::set<int>`). */
  type Block = set<nat>

  // ---------------------------------------------------------------------
  // Step 1: the initial partition and the alphabet
  // ---------------------------------------------------------------------

  function AcceptSet(d: Dfa): Block {
    set q | q in d.states && d.states[q].isAccept
  }

  function RejectSet(d: Dfa): Block {
    set q | q in d.states && !d.states[q].isAccept
  }

  /** Every symbol on which some state has a transition. */
  function Alphabet(d: Dfa): set<char> {
    set q, c | q in d.states && c in d.states[q].transitions :: c
  }

  /** The accepting and the non-accepting state ids. */
  method PartitionByAccept(d: Dfa) returns (accept: Block, nonAccept: Block)
    ensures accept == AcceptSet(d) && nonAccept == RejectSet(d)
  {
    accept, nonAccept := {}, {};
    var rest := d.states.Keys;
    while rest != {}
      invariant rest <= d.states.Keys
      invariant accept == set q | q in d.states.Keys - rest && d.states[q].isAccept
      invariant nonAccept == set q | q in d.states.Keys - rest && !d.states[q].isAccept
      decreases rest
    {
      var id :| id in rest;
      if d.states[id].isAccept {
        accept := accept + {id};
      } else {
        nonAccept := nonAccept + {id};
      }
      rest := rest - {id};
    }
  }

  /** The symbols of all transitions (`alphaSet`). */
  method CollectAlphabet(d: Dfa) returns (alphaSet: set<char>)
    ensures alphaSet == Alphabet(d)
  {
    alphaSet := {};
    var rest := d.states.Keys;
    while rest != {}
      invariant rest <= d.states.Keys
      invariant alphaSet == set q, c | q in d.states.Keys - rest && c in d.states[q].transitions :: c
      decreases rest
    {
      var id :| id in rest;
      alphaSet := alphaSet + d.states[id].transitions.Keys;
      rest := rest - {id};
    }
  }

  /** `P` before refinement: the non-empty ones of the two classes. */
  function InitialPartition(accept: Block, nonAccept: Block): set<Block> {
    (if accept != {} then {accept} else {}) + (if nonAccept != {} then {nonAccept} else {})
  }

  /** The initial work queue: for each symbol in order, the accepting class
      and then the non-accepting class, each only if non-empty. */
  function InitialQueue(accept: Block, nonAccept: Block, alphabet: seq<char>): seq<(Block, char)>
    decreases |alphabet|
  {
    if alphabet == [] then []
    else
      var k := |alphabet| - 1;
      InitialQueue(accept, nonAccept, alphabet[..k]) +
      (if accept != {} then [(accept, alphabet[k])] else []) +
      (if nonAccept != {} then [(nonAccept, alphabet[k])] else [])
  }

  method InitialQueueOf(accept: Block, nonAccept: Block, alphabet: seq<char>) returns (workQueue: seq<(Block, char)>)
    ensures workQueue == InitialQueue(accept, nonAccept, alphabet)
  {
    workQueue := [];
    var i := 0;
    while i < |alphabet|
      invariant 0 <= i <= |alphabet|
      invariant workQueue == InitialQueue(accept, nonAccept, alphabet[..i])
    {
      var c := alphabet[i];
      assert alphabet[..i + 1][..i] == alphabet[..i];
      if accept != {} {
        workQueue := workQueue + [(accept, c)];
      }
      if nonAccept != {} {
        workQueue := workQueue + [(nonAccept, c)];
      }
      i := i + 1;
    }
    assert alphabet[..i] == alphabet;
  }

  // ---------------------------------------------------------------------
  // Partitions and the order of their blocks
  // ---------------------------------------------------------------------

  ghost predicate NonEmptyBlocks(P: set<Block>) {
    forall Y :: Y in P ==> Y != {}
  }

  ghost predicate Disjoint(P: set<Block>) {
    forall Y, Z :: Y in P && Z in P && Y != Z ==> Y !! Z
  }

  ghost function Pick(P: set<Block>): Block
    requires P != {}
  {
    var Y :| Y in P; Y
  }

  /** The union of the blocks. */
  ghost function Members(P: set<Block>): set<nat>
    decreases |P|
  {
    if P == {} then {} else Pick(P) + Members(P - {Pick(P)})
  }

  lemma {:induction false} MembersIn(P: set<Block>, q: nat)
    ensures q in Members(P) <==> exists Y :: Y in P && q in Y
    decreases |P|
  {
    if P != {} {
      MembersIn(P - {Pick(P)}, q);
      if q in Members(P) && q !in Pick(P) {
        var Y :| Y in P - {Pick(P)} && q in Y;
        assert Y in P;
      }
    }
  }

  /** `P` is a partition of `U`: non-empty, pairwise disjoint blocks
      whose union is `U`. */
  ghost predicate IsPartition(P: set<Block>, U: set<nat>) {
    NonEmptyBlocks(P) && Disjoint(P) && Members(P) == U
  }

  /** Every block of a partition of `U` lies inside `U`. */
  lemma BlockInside(P: set<Block>, U: set<nat>, Y: Block)
    requires IsPartition(P, U) && Y in P
    ensures Y <= U
  {
    forall q | q in Y ensures q in U {
      MembersIn(P, q);
    }
  }

  lemma MinBlockExists(P: set<Block>)
    requires P != {} && NonEmptyBlocks(P)
    ensures exists Y :: Y in P && forall Z :: Z in P ==> MinNat(Y) <= MinNat(Z)
  {
    var mins := set Z | Z in P :: MinNat(Z);
    var Y0 :| Y0 in P;
    assert MinNat(Y0) in mins;
    var m := MinNat(mins);
    var Y :| Y in P && MinNat(Y) == m;
    assert forall Z :: Z in P ==> MinNat(Z) in mins;
  }

  /** The block with the smallest least element. */
  ghost function MinBlock(P: set<Block>): (Y: Block)
    requires P != {} && NonEmptyBlocks(P)
    ensures Y in P && forall Z :: Z in P ==> MinNat(Y) <= MinNat(Z)
  {
    MinBlockExists(P);
    var Y :| Y in P && forall Z :: Z in P ==> MinNat(Y) <= MinNat(Z); Y
  }

  /** Among disjoint blocks only one holds the smallest least element. */
  lemma MinBlockUnique(P: set<Block>, Y: Block)
    requires NonEmptyBlocks(P) && Disjoint(P)
    requires Y in P && forall Z :: Z in P ==> MinNat(Y) <= MinNat(Z)
    ensures MinBlock(P) == Y
  {
    var B := MinBlock(P);
    assert MinNat(B) == MinNat(Y);
    assert MinNat(Y) in B && MinNat(Y) in Y;
  }

  /** The blocks by increasing least element: the iteration order of a
      `std::set<std::set<int>>` of disjoint non-empty blocks, whose
      lexicographic order compares least elements first. */
  ghost function Order(P: set<Block>): (r: seq<Block>)
    requires NonEmptyBlocks(P)
    ensures |r| == |P|
    ensures forall i :: 0 <= i < |r| ==> r[i] in P
    ensures forall Y :: Y in P ==> Y in r
    decreases |P|
  {
    if P == {} then []
    else
      var Y := MinBlock(P);
      var rest := Order(P - {Y});
      assert forall i :: 0 <= i < |rest| ==> rest[i] in P - {Y};
      [Y] + rest
  }

  /** The block with the smallest least element, by a scan of `P`. */
  method SmallestBlock(P: set<Block>) returns (Y: Block)
    requires P != {} && NonEmptyBlocks(P) && Disjoint(P)
    ensures Y == MinBlock(P)
  {
    Y :| Y in P;
    var m := SmallestNat(Y);
    var rest := P - {Y};
    while rest != {}
      invariant rest <= P && Y in P && m == MinNat(Y)
      invariant forall Z :: Z in P - rest ==> m <= MinNat(Z)
      decreases rest
    {
      var Z :| Z in rest;
      var mz := SmallestNat(Z);
      if mz < m {
        Y, m := Z, mz;
      }
      assert forall W :: W in P - (rest - {Z}) ==> W in P - rest || W == Z;
      rest := rest - {Z};
    }
    assert P - rest == P;
    MinBlockUnique(P, Y);
  }

  lemma OrderStep(order: seq<Block>, rest: set<Block>, Y: Block)
    requires rest != {} && NonEmptyBlocks(rest) && Y == MinBlock(rest)
    ensures order + Order(rest) == (order + [Y]) + Order(rest - {Y})
  {
    assert Order(rest) == [Y] + Order(rest - {Y});
  }

  /** The blocks of `P` in iteration order. */
  method OrderBlocks(P: set<Block>) returns (order: seq<Block>)
    requires NonEmptyBlocks(P) && Disjoint(P)
    ensures order == Order(P)
  {
    order := [];
    var rest := P;
    while rest != {}
      invariant rest <= P
      invariant order + Order(rest) == Order(P)
      decreases rest
    {
      var Y := SmallestBlock(rest);
      OrderStep(order, rest, Y);
      order := order + [Y];
      rest := rest - {Y};
    }
  }

  // ---------------------------------------------------------------------
  // Splitting
  // ---------------------------------------------------------------------

  /** State `q` has a `c` transition into `A`. */
  predicate Hits(d: Dfa, A: Block, c: char, q: nat) {
    q in d.states && c in d.states[q].transitions && d.states[q].transitions[c] in A
  }

  /** `Y1`: the members of `Y` with a `c` transition into `A`. */
  function Inside(d: Dfa, Y: Block, A: Block, c: char): Block {
    set q | q in Y && Hits(d, A, c, q)
  }

  /** `Y2`: the other members of `Y`. */
  function Outside(d: Dfa, Y: Block, A: Block, c: char): Block {
    set q | q in Y && !Hits(d, A, c, q)
  }

  /** The splitter (A, c) cuts `Y` into two non-empty parts. */
  predicate Splits(d: Dfa, Y: Block, A: Block, c: char) {
    Inside(d, Y, A, c) != {} && Outside(d, Y, A, c) != {}
  }

  /** The scan of one block by the splitter (A, c). */
  method SplitBlock(d: Dfa, Y: Block, A: Block, c: char) returns (Y1: Block, Y2: Block)
    requires Y <= d.states.Keys
    ensures Y1 == Inside(d, Y, A, c) && Y2 == Outside(d, Y, A, c)
  {
    Y1, Y2 := {}, {};
    var rest := Y;
    while rest != {}
      invariant rest <= Y
      invariant Y1 == set q | q in Y - rest && Hits(d, A, c, q)
      invariant Y2 == set q | q in Y - rest && !Hits(d, A, c, q)
      decreases rest
    {
      var q :| q in rest;
      var trans := d.states[q].transitions;
      if c in trans && trans[c] in A {
        Y1 := Y1 + {q};
      } else {
        Y2 := Y2 + {q};
      }
      rest := rest - {q};
    }
  }

  /** The first block, in iteration order, that the splitter cuts. */
  function FirstSplit(d: Dfa, order: seq<Block>, A: Block, c: char): Option<Block>
    decreases |order|
  {
    if order == [] then None
    else if Splits(d, order[0], A, c) then Some(order[0])
    else FirstSplit(d, order[1..], A, c)
  }

  /** The loop over `P` up to its `break`: the first block the splitter
      cuts, with its two parts. */
  method FindSplit(d: Dfa, P: set<Block>, A: Block, c: char) returns (r: Option<(Block, Block, Block)>)
    requires IsPartition(P, d.states.Keys)
    ensures r.None? <==> FirstSplit(d, Order(P), A, c).None?
    ensures r.Some? ==> var Y := FirstSplit(d, Order(P), A, c).value;
                        r.value == (Y, Inside(d, Y, A, c), Outside(d, Y, A, c))
  {
    var rest := P;
    while rest != {}
      invariant rest <= P
      invariant FirstSplit(d, Order(rest), A, c) == FirstSplit(d, Order(P), A, c)
      decreases rest
    {
      var Y := SmallestBlock(rest);
      assert Order(rest) == [Y] + Order(rest - {Y});
      BlockInside(P, d.states.Keys, Y);
      var Y1, Y2 := SplitBlock(d, Y, A, c);
      if Y1 != {} && Y2 != {} {
        return Some((Y, Y1, Y2));
      }
      rest := rest - {Y};
    }
    return None;
  }

  /** What a split appends to the queue: both parts, for each symbol in order. */
  function Pushes(Y1: Block, Y2: Block, alphabet: seq<char>): seq<(Block, char)>
    decreases |alphabet|
  {
    if alphabet == [] then []
    else
      var k := |alphabet| - 1;
      Pushes(Y1, Y2, alphabet[..k]) + [(Y1, alphabet[k]), (Y2, alphabet[k])]
  }

  method PushAll(workQueue0: seq<(Block, char)>, Y1: Block, Y2: Block, alphabet: seq<char>)
    returns (workQueue: seq<(Block, char)>)
    ensures workQueue == workQueue0 + Pushes(Y1, Y2, alphabet)
  {
    workQueue := workQueue0;
    var i := 0;
    while i < |alphabet|
      invariant 0 <= i <= |alphabet|
      invariant workQueue == workQueue0 + Pushes(Y1, Y2, alphabet[..i])
    {
      assert alphabet[..i + 1][..i] == alphabet[..i];
      workQueue := workQueue + [(Y1, alphabet[i]), (Y2, alphabet[i])];
      i := i + 1;
    }
    assert alphabet[..i] == alphabet;
  }

  /** Splitting a block of a partition in two gives a partition with one
      block more. */
  lemma SplitPartition(d: Dfa, P: set<Block>, U: set<nat>, Y: Block, A: Block, c: char)
    requires IsPartition(P, U) && Y in P && Splits(d, Y, A, c)
    ensures IsPartition(P - {Y} + {Inside(d, Y, A, c), Outside(d, Y, A, c)}, U)
    ensures |P - {Y} + {Inside(d, Y, A, c), Outside(d, Y, A, c)}| == |P| + 1
  {
    var Y1, Y2 := Inside(d, Y, A, c), Outside(d, Y, A, c);
    var P' := P - {Y} + {Y1, Y2};
    var q1 :| q1 in Y1;
    var q2 :| q2 in Y2;
    assert q1 in Y && q2 in Y && q1 !in Y2;
    assert forall Z :: Z in P - {Y} ==> q1 !in Z && q2 !in Z by {
      forall Z | Z in P - {Y} ensures q1 !in Z && q2 !in Z {
        assert Z !! Y;
      }
    }
    assert |P - {Y}| == |P| - 1;
    assert |P'| == |P| + 1;
    forall q ensures q in Members(P') <==> q in U {
      MembersIn(P, q);
      MembersIn(P', q);
      if q in U {
        var Z :| Z in P && q in Z;
        if Z == Y {
          if Hits(d, A, c, q) {
            assert q in Y1;
          } else {
            assert q in Y2;
          }
        } else {
          assert Z in P';
        }
      }
      if q in Members(P') {
        var Z :| Z in P' && q in Z;
        if Z == Y1 || Z == Y2 {
          assert q in Y;
        }
      }
    }
  }

  /** A partition of `U` has at most |U| blocks. */
  lemma {:induction false} PartitionSize(P: set<Block>, U: set<nat>)
    requires IsPartition(P, U)
    ensures |P| <= |U|
    decreases |P|
  {
    if P != {} {
      var Y :| Y in P;
      var q :| q in Y;
      forall r ensures r in Members(P - {Y}) <==> r in U - Y {
        MembersIn(P, r);
        MembersIn(P - {Y}, r);
        if r in U - Y {
          var Z :| Z in P && r in Z;
          assert Z != Y;
        }
        if r in Members(P - {Y}) {
          var Z :| Z in P - {Y} && r in Z;
          assert Z !! Y;
        }
      }
      PartitionSize(P - {Y}, U - Y);
      BlockInside(P, U, Y);
      assert |U - Y| < |U| by {
        assert q in U && q !in U - Y;
        assert U - Y < U;
      }
    }
  }

  // ---------------------------------------------------------------------
  // The refinement loop
  // ---------------------------------------------------------------------

  /** The work-queue loop: pop a splitter; if it cuts some block, replace
      the first such block by its two parts and queue both parts for every
      symbol, then drop the splitter (the `break`). The partition stays a
      partition of the states. */
  ghost function Refine(d: Dfa, alphabet: seq<char>, P: set<Block>, queue: seq<(Block, char)>): (r: set<Block>)
    requires IsPartition(P, d.states.Keys)
    ensures IsPartition(r, d.states.Keys)
    decreases |d.states.Keys| - |P|, |queue|
  {
    if queue == [] then P
    else
      var A, c := queue[0].0, queue[0].1;
      match FirstSplit(d, Order(P), A, c)
      case None => Refine(d, alphabet, P, queue[1..])
      case Some(Y) =>
        FirstSplitIn(d, Order(P), A, c);
        var Y1, Y2 := Inside(d, Y, A, c), Outside(d, Y, A, c);
        SplitPartition(d, P, d.states.Keys, Y, A, c);
        PartitionSize(P - {Y} + {Y1, Y2}, d.states.Keys);
        Refine(d, alphabet, P - {Y} + {Y1, Y2}, queue[1..] + Pushes(Y1, Y2, alphabet))
  }

  /** The block found is one of those scanned and is cut by the splitter. */
  lemma {:induction false} FirstSplitIn(d: Dfa, order: seq<Block>, A: Block, c: char)
    ensures FirstSplit(d, order, A, c).Some? ==>
              FirstSplit(d, order, A, c).value in order && Splits(d, FirstSplit(d, order, A, c).value, A, c)
    decreases |order|
  {
    if order != [] && !Splits(d, order[0], A, c) {
      FirstSplitIn(d, order[1..], A, c);
    }
  }

  // ---------------------------------------------------------------------
  // Step 2: the minimized DFA
  // ---------------------------------------------------------------------

  /** `stateToGroup`: each member of the k-th block in order gets group k
      (a later block overwrites an earlier one, which a partition never needs). */
  function Assign(order: seq<Block>): map<nat, nat>
    decreases |order|
  {
    if order == [] then map[]
    else
      var k := |order| - 1;
      Assign(order[..k]) + map q | q in order[k] :: k
  }

  /** `stateToGroup[q]`: the group of `q`, or 0 for an id no block holds
      (the value `operator[]` inserts). */
  function Lookup(stateToGroup: map<nat, nat>, q: nat): nat {
    if q in stateToGroup then stateToGroup[q] else 0
  }

  /** The state of group `g` for block `B`: accept flag and transitions of
      the block's smallest member, each destination mapped to its group. */
  ghost function NewState(d: Dfa, B: Block, g: nat, stateToGroup: map<nat, nat>): DfaState
    requires B != {} && MinNat(B) in d.states
  {
    var rep := d.states[MinNat(B)];
    DfaState(g, {}, map sym | sym in rep.transitions :: Lookup(stateToGroup, rep.transitions[sym]), rep.isAccept)
  }

  lemma OrderInside(P: set<Block>, U: set<nat>)
    requires IsPartition(P, U)
    ensures forall k :: 0 <= k < |Order(P)| ==> Order(P)[k] != {} && Order(P)[k] <= U
  {
    forall k | 0 <= k < |Order(P)| ensures Order(P)[k] <= U {
      BlockInside(P, U, Order(P)[k]);
    }
  }

  /** The DFA with one state per block of `P`, numbered in block order. */
  ghost function Rebuild(d: Dfa, P: set<Block>): Dfa
    requires IsPartition(P, d.states.Keys)
  {
    OrderInside(P, d.states.Keys);
    var order := Order(P);
    var stateToGroup := Assign(order);
    Dfa(Lookup(stateToGroup, d.startState),
        map g: nat | g < |order| :: NewState(d, order[g], g, stateToGroup))
  }

  /** The alphabet in the order `minimizeDFA` lists it. */
  ghost function SortedAlphabet(d: Dfa): seq<char> {
    SortedChars(Alphabet(d))
  }

  lemma InitialIsPartition(d: Dfa)
    ensures IsPartition(InitialPartition(AcceptSet(d), RejectSet(d)), d.states.Keys)
  {
    var P := InitialPartition(AcceptSet(d), RejectSet(d));
    forall q ensures q in Members(P) <==> q in d.states.Keys {
      MembersIn(P, q);
      if q in d.states.Keys {
        if d.states[q].isAccept {
          assert q in AcceptSet(d);
        } else {
          assert q in RejectSet(d);
        }
      }
    }
  }

  /** The final partition of `minimizeDFA`. */
  ghost function FinalPartition(d: Dfa): (r: set<Block>)
    ensures IsPartition(r, d.states.Keys)
  {
    InitialIsPartition(d);
    Refine(d, SortedAlphabet(d), InitialPartition(AcceptSet(d), RejectSet(d)),
           InitialQueue(AcceptSet(d), RejectSet(d), SortedAlphabet(d)))
  }

  /** What `minimizeDFA` returns. */
  ghost function MinimizedOf(d: Dfa): Dfa {
    Rebuild(d, FinalPartition(d))
  }

  // ---------------------------------------------------------------------
  // The imperative rebuild
  // ---------------------------------------------------------------------

  /** Fills `stateToGroup` block by block. */
  method AssignGroups(order: seq<Block>) returns (stateToGroup: map<nat, nat>)
    ensures stateToGroup == Assign(order)
  {
    stateToGroup := map[];
    var groupId := 0;
    while groupId < |order|
      invariant 0 <= groupId <= |order|
      invariant stateToGroup == Assign(order[..groupId])
    {
      var block := order[groupId];
      ghost var m0 := stateToGroup;
      var rest := block;
      while rest != {}
        invariant rest <= block
        invariant stateToGroup == m0 + map q | q in block - rest :: groupId
        decreases rest
      {
        var id :| id in rest;
        stateToGroup := stateToGroup[id := groupId];
        assert block - (rest - {id}) == (block - rest) + {id};
        rest := rest - {id};
      }
      assert block - rest == block;
      assert order[..groupId + 1][..groupId] == order[..groupId];
      groupId := groupId + 1;
    }
    assert order[..groupId] == order;
  }

  /** The state of group `g`: its representative is the block's smallest
      member (`*block.begin()`). */
  method BuildState(d: Dfa, block: Block, g: nat, stateToGroup: map<nat, nat>) returns (s: DfaState)
    requires block != {} && block <= d.states.Keys
    ensures s == NewState(d, block, g, stateToGroup)
  {
    var rep := SmallestNat(block);
    var st := d.states[rep];
    var trans: map<char, nat> := map[];
    var rest := st.transitions.Keys;
    while rest != {}
      invariant rest <= st.transitions.Keys
      invariant trans == map sym | sym in st.transitions.Keys - rest :: Lookup(stateToGroup, st.transitions[sym])
      decreases rest
    {
      var sym :| sym in rest;
      trans := trans[sym := Lookup(stateToGroup, st.transitions[sym])];
      rest := rest - {sym};
    }
    s := DfaState(g, {}, trans, st.isAccept);
  }

  /** One state per block, keyed by its group id. */
  method BuildStates(d: Dfa, order: seq<Block>, stateToGroup: map<nat, nat>) returns (states: map<nat, DfaState>)
    requires forall k :: 0 <= k < |order| ==> order[k] != {} && order[k] <= d.states.Keys
    ensures states == map g: nat | g < |order| :: NewState(d, order[g], g, stateToGroup)
  {
    states := map[];
    var gid := 0;
    while gid < |order|
      invariant 0 <= gid <= |order|
      invariant states == map g: nat | g < gid :: NewState(d, order[g], g, stateToGroup)
    {
      var s := BuildState(d, order[gid], gid, stateToGroup);
      states := states[gid := s];
      gid := gid + 1;
    }
  }

  // ---------------------------------------------------------------------
  // minimizeDFA
  // ---------------------------------------------------------------------

  method MinimizeDFA(dfa: Dfa) returns (minDFA: Dfa)
    ensures minDFA == MinimizedOf(dfa)
  {
    var accept, nonAccept := PartitionByAccept(dfa);
    var alphaSet := CollectAlphabet(dfa);
    var alphabet := SortChars(alphaSet);
    var P: set<Block> := {};
    if !(accept == {}) {
      P := P + {accept};
    }
    if !(nonAccept == {}) {
      P := P + {nonAccept};
    }
    var workQueue := InitialQueueOf(accept, nonAccept, alphabet);
    InitialIsPartition(dfa);
    assert P == InitialPartition(accept, nonAccept);
    P := Refinement(dfa, alphabet, P, workQueue);
    var order := OrderBlocks(P);
    OrderInside(P, dfa.states.Keys);
    var stateToGroup := AssignGroups(order);
    var states := BuildStates(dfa, order, stateToGroup);
    minDFA := Dfa(Lookup(stateToGroup, dfa.startState), states);
  }

  /** The work-queue loop of `minimizeDFA`. */
  method Refinement(dfa: Dfa, alphabet: seq<char>, P0: set<Block>, workQueue0: seq<(Block, char)>)
    returns (P: set<Block>)
    requires IsPartition(P0, dfa.states.Keys)
    ensures P == Refine(dfa, alphabet, P0, workQueue0)
  {
    P := P0;
    var workQueue := workQueue0;
    while workQueue != []
      invariant IsPartition(P, dfa.states.Keys)
      invariant Refine(dfa, alphabet, P, workQueue) == Refine(dfa, alphabet, P0, workQueue0)
      decreases |dfa.states.Keys| - |P|, |workQueue|
    {
      var A, c := workQueue[0].0, workQueue[0].1;
      ghost var q0 := workQueue;
      workQueue := workQueue[1..];
      var split := FindSplit(dfa, P, A, c);
      if split.Some? {
        var Y, Y1, Y2 := split.value.0, split.value.1, split.value.2;
        FirstSplitIn(dfa, Order(P), A, c);
        SplitPartition(dfa, P, dfa.states.Keys, Y, A, c);
        PartitionSize(P - {Y} + {Y1, Y2}, dfa.states.Keys);
        P := P - {Y} + {Y1, Y2};
        workQueue := PushAll(workQueue, Y1, Y2, alphabet);
      }
    }
  }
}
