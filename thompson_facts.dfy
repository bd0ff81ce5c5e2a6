/** What `regexToNFA` guarantees: it succeeds exactly when every operator
    finds its operands, ids are the arena positions, each fragment's accept
    state has no edges (so the overwrite in `kleeneStar` loses none), and
    the automaton's accept state is the last one created. */
module ThompsonFacts {
  import opened Common
  import opened Nfa
  import opened Thompson
  import Parser

  // ---------------------------------------------------------------------
  // The fragment-stack invariant
  // ---------------------------------------------------------------------

  /** The arena is well formed; each fragment's accept state has no edges;
      accepts increase up the stack and the top one is the newest state. */
  predicate Inv(m: Machine) {
    WellFormed(m.nodes) && FragsIn(m) &&
    (forall k :: 0 <= k < |m.stack| ==> m.nodes[m.stack[k].accept].transitions == map[]) &&
    (forall j, k :: 0 <= j < k < |m.stack| ==> m.stack[j].accept < m.stack[k].accept) &&
    (m.stack != [] ==> m.stack[|m.stack| - 1].accept == |m.nodes| - 1)
  }

  lemma WellFormedFresh2(nodes: seq<NfaNode>)
    requires WellFormed(nodes)
    ensures WellFormed(Fresh2(nodes))
  {
    var r := Fresh2(nodes);
    forall i | 0 <= i < |r|
      ensures r[i].id == i
      ensures forall c :: c in r[i].transitions ==>
                forall k :: 0 <= k < |r[i].transitions[c]| ==> r[i].transitions[c][k] < |r|
    {
      if i < |nodes| {
        assert r[i] == nodes[i];
      }
    }
  }

  /** Replacing the top `j` fragments by `f`, the newest state, with no
      edges: the invariant holds again when the arena stays well formed and
      the accept states of the kept fragments are untouched and older. */
  lemma PushFrag(m: Machine, j: nat, nodes': seq<NfaNode>, f: Frag)
    requires Inv(m) && j <= |m.stack|
    requires WellFormed(nodes') && |m.nodes| <= |nodes'|
    requires forall k :: 0 <= k < |m.stack| - j ==>
               m.stack[k].accept < f.accept && nodes'[m.stack[k].accept] == m.nodes[m.stack[k].accept]
    requires f.start < |nodes'| && f.accept == |nodes'| - 1 && nodes'[f.accept].transitions == map[]
    ensures Inv(Machine(nodes', m.stack[..|m.stack| - j] + [f]))
  {
    var s := m.stack[..|m.stack| - j] + [f];
    forall k | 0 <= k < |s|
      ensures s[k].start < |nodes'| && s[k].accept < |nodes'| && nodes'[s[k].accept].transitions == map[]
    {
      if k < |s| - 1 {
        assert s[k] == m.stack[k];
      }
    }
    forall a, b | 0 <= a < b < |s| ensures s[a].accept < s[b].accept {
      assert s[a] == m.stack[a];
      if b < |s| - 1 {
        assert s[b] == m.stack[b];
      }
    }
  }

  lemma SingleCharInv(m: Machine, c: char)
    requires Inv(m)
    ensures Inv(Machine(SingleCharArena(m.nodes, c).nodes, m.stack + [SingleCharArena(m.nodes, c).frag]))
  {
    var n := |m.nodes|;
    WellFormedFresh2(m.nodes);
    PushWellFormed(Fresh2(m.nodes), n, c, n + 1);
    var b := SingleCharArena(m.nodes, c);
    forall k | 0 <= k < |m.stack|
      ensures m.stack[k].accept < b.frag.accept && b.nodes[m.stack[k].accept] == m.nodes[m.stack[k].accept]
    {
      assert b.nodes[..n][m.stack[k].accept] == m.nodes[m.stack[k].accept];
    }
    PushFrag(m, 0, b.nodes, b.frag);
    assert m.stack[..|m.stack| - 0] == m.stack;
  }

  lemma StarInv(m: Machine)
    requires Inv(m) && |m.stack| >= 1
    ensures Inv(Machine(StarArena(m.nodes, m.stack[|m.stack| - 1]).nodes,
                        m.stack[..|m.stack| - 1] + [StarArena(m.nodes, m.stack[|m.stack| - 1]).frag]))
  {
    var n := |m.nodes|;
    var a := m.stack[|m.stack| - 1];
    WellFormedFresh2(m.nodes);
    SetWellFormed(Fresh2(m.nodes), n, Epsilon, [a.start, n + 1]);
    var m1 := WithSet(Fresh2(m.nodes), n, Epsilon, [a.start, n + 1]);
    SetWellFormed(m1, a.accept, Epsilon, [a.start, n + 1]);
    var b := StarArena(m.nodes, a);
    forall k | 0 <= k < |m.stack| - 1
      ensures m.stack[k].accept < b.frag.accept && b.nodes[m.stack[k].accept] == m.nodes[m.stack[k].accept]
    {
      assert m.stack[k].accept < a.accept;
    }
    PushFrag(m, 1, b.nodes, b.frag);
  }

  lemma ConcatInv(m: Machine)
    requires Inv(m) && |m.stack| >= 2
    ensures Inv(Machine(ConcatArena(m.nodes, m.stack[|m.stack| - 2], m.stack[|m.stack| - 1]).nodes,
                        m.stack[..|m.stack| - 2] +
                        [ConcatArena(m.nodes, m.stack[|m.stack| - 2], m.stack[|m.stack| - 1]).frag]))
  {
    var x := m.stack[|m.stack| - 2];
    var y := m.stack[|m.stack| - 1];
    PushWellFormed(m.nodes, x.accept, Epsilon, y.start);
    var b := ConcatArena(m.nodes, x, y);
    assert x.accept < y.accept;
    forall k | 0 <= k < |m.stack| - 2
      ensures m.stack[k].accept < b.frag.accept && b.nodes[m.stack[k].accept] == m.nodes[m.stack[k].accept]
    {
      assert m.stack[k].accept < x.accept;
    }
    assert b.nodes[y.accept] == m.nodes[y.accept];
    PushFrag(m, 2, b.nodes, b.frag);
  }

  /** `alternate` keeps the arena well formed. */
  lemma AlternateWellFormed(nodes: seq<NfaNode>, x: Frag, y: Frag)
    requires WellFormed(nodes)
    requires x.start < |nodes| && y.start < |nodes| && x.accept < |nodes| && y.accept < |nodes|
    ensures WellFormed(AlternateArena(nodes, x, y).nodes)
  {
    var n := |nodes|;
    ForkWellFormed(nodes, x.start, y.start);
    var m1 := WithSet(Fresh2(nodes), n, Epsilon, [x.start, y.start]);
    JoinWellFormed(m1, x.accept, y.accept, n + 1);
    assert AlternateArena(nodes, x, y).nodes ==
           WithPush(WithPush(m1, x.accept, Epsilon, n + 1), y.accept, Epsilon, n + 1);
  }

  /** Two fresh states, the first with epsilon edges to `s1` and `s2`. */
  lemma ForkWellFormed(nodes: seq<NfaNode>, s1: nat, s2: nat)
    requires WellFormed(nodes) && s1 < |nodes| && s2 < |nodes|
    ensures WellFormed(WithSet(Fresh2(nodes), |nodes|, Epsilon, [s1, s2]))
  {
    WellFormedFresh2(nodes);
    SetWellFormed(Fresh2(nodes), |nodes|, Epsilon, [s1, s2]);
  }

  /** Epsilon edges from `a` and `b` to `t`. */
  lemma JoinWellFormed(nodes: seq<NfaNode>, a: nat, b: nat, t: nat)
    requires WellFormed(nodes) && a < |nodes| && b < |nodes| && t < |nodes|
    ensures WellFormed(WithPush(WithPush(nodes, a, Epsilon, t), b, Epsilon, t))
  {
    PushWellFormed(nodes, a, Epsilon, t);
    PushWellFormed(WithPush(nodes, a, Epsilon, t), b, Epsilon, t);
  }

  lemma AlternateInv(m: Machine)
    requires Inv(m) && |m.stack| >= 2
    ensures Inv(Machine(AlternateArena(m.nodes, m.stack[|m.stack| - 2], m.stack[|m.stack| - 1]).nodes,
                        m.stack[..|m.stack| - 2] +
                        [AlternateArena(m.nodes, m.stack[|m.stack| - 2], m.stack[|m.stack| - 1]).frag]))
  {
    var x := m.stack[|m.stack| - 2];
    var y := m.stack[|m.stack| - 1];
    AlternateWellFormed(m.nodes, x, y);
    var b := AlternateArena(m.nodes, x, y);
    assert x.accept < y.accept;
    forall k | 0 <= k < |m.stack| - 2
      ensures m.stack[k].accept < b.frag.accept && b.nodes[m.stack[k].accept] == m.nodes[m.stack[k].accept]
    {
      assert m.stack[k].accept < x.accept;
    }
    PushFrag(m, 2, b.nodes, b.frag);
  }

  lemma StepInv(m: Machine, c: char)
    requires Inv(m)
    requires EvalStep(m, c).Some?
    ensures Inv(EvalStep(m, c).value)
  {
    if IsAlnum(c) {
      SingleCharInv(m, c);
    } else if c == '*' {
      StarInv(m);
    } else if c == '.' {
      ConcatInv(m);
    } else if c == '|' {
      AlternateInv(m);
    }
  }

  // ---------------------------------------------------------------------
  // Operand counting
  // ---------------------------------------------------------------------

  /** The stack depth after the postfix string `p` from depth `d`, or None
      when some operator finds fewer operands than it pops: an operand
      pushes one, `*` replaces one, `.` and `|` replace two by one. */
  function FinalDepth(p: string, d: nat): Option<nat>
    decreases |p|
  {
    if p == [] then Some(d)
    else if IsAlnum(p[0]) then FinalDepth(p[1..], d + 1)
    else if p[0] == '*' then (if d < 1 then None else FinalDepth(p[1..], d))
    else if p[0] == '.' || p[0] == '|' then (if d < 2 then None else FinalDepth(p[1..], d - 1))
    else FinalDepth(p[1..], d)
  }

  /** The symbols that allocate two states: operands, `*` and `|`. */
  function Allocating(p: string): nat
    decreases |p|
  {
    if p == [] then 0
    else (if IsAlnum(p[0]) || p[0] == '*' || p[0] == '|' then 1 else 0) + Allocating(p[1..])
  }

  /** One symbol: it fails exactly when an operator finds too few
      fragments, and otherwise changes the stack depth and the arena size as
      `FinalDepth` and `Allocating` count. */
  lemma StepCounts(m: Machine, c: char)
    requires Inv(m)
    ensures EvalStep(m, c).Some? <==>
              (c == '*' ==> |m.stack| >= 1) && (c == '.' || c == '|' ==> |m.stack| >= 2)
    ensures EvalStep(m, c).Some? ==>
              |EvalStep(m, c).value.stack| ==
                (if IsAlnum(c) then |m.stack| + 1
                 else if c == '.' || c == '|' then |m.stack| - 1
                 else |m.stack|) &&
              |EvalStep(m, c).value.nodes| ==
                |m.nodes| + (if IsAlnum(c) || c == '*' || c == '|' then 2 else 0)
  {
  }

  /** Evaluation fails exactly when some operator lacks operands; on success
      the invariant holds, the stack depth is the counted one and every
      operand, `*` and `|` has allocated two states. */
  lemma {:induction false} EvaluateFacts(p: string, m: Machine)
    requires Inv(m)
    ensures Evaluate(p, m).Some? <==> FinalDepth(p, |m.stack|).Some?
    ensures Evaluate(p, m).Some? ==>
              Inv(Evaluate(p, m).value) &&
              |Evaluate(p, m).value.stack| == FinalDepth(p, |m.stack|).value &&
              |Evaluate(p, m).value.nodes| == |m.nodes| + 2 * Allocating(p)
    decreases |p|
  {
    if p != [] {
      var c := p[0];
      StepCounts(m, c);
      match EvalStep(m, c)
      case None =>
      case Some(m') =>
        StepInv(m, c);
        EvaluateFacts(p[1..], m');
    }
  }

  /** The automaton read off a machine that keeps the invariant. */
  lemma TopFacts(m: Machine)
    requires Inv(m) && m.stack != []
    ensures var top := m.stack[|m.stack| - 1];
            WellFormed(m.nodes) && top.start < |m.nodes| && top.accept == |m.nodes| - 1 &&
            m.nodes[top.accept].transitions == map[]
  {
    assert 0 <= |m.stack| - 1 < |m.stack|;
  }

  /** The main property of `regexToNFA`. It succeeds exactly when the
      pattern converts to postfix and evaluation leaves at least one
      fragment with none short of operands. The arena then holds
      states 0 .. n-1 with id = position and edges only to existing states,
      two states per operand, `*` and `|`. The start is a state of the
      arena, and the accept state is the last one created (id n-1) and has
      no outgoing edges. */
  lemma RegexToNfaShape(regex: string)
    ensures ThompsonOf(regex).Some? <==>
              Parser.PostfixOf(regex).Some? &&
              FinalDepth(Parser.PostfixOf(regex).value, 0).Some? &&
              FinalDepth(Parser.PostfixOf(regex).value, 0).value >= 1
    ensures ThompsonOf(regex).Some? ==>
              var nfa := ThompsonOf(regex).value;
              WellFormed(nfa.nodes) &&
              |nfa.nodes| == 2 * Allocating(Parser.PostfixOf(regex).value) &&
              nfa.start < |nfa.nodes| &&
              nfa.accept == |nfa.nodes| - 1 &&
              nfa.nodes[nfa.accept].transitions == map[]
  {
    var init := Machine([], []);
    assert Inv(init);
    if Parser.PostfixOf(regex).Some? {
      var p := Parser.PostfixOf(regex).value;
      EvaluateFacts(p, init);
      if Evaluate(p, init).Some? && Evaluate(p, init).value.stack != [] {
        TopFacts(Evaluate(p, init).value);
      }
    }
  }
}
