/** Thompson's construction: `regexToNFA` evaluates the postfix pattern
    over a stack of fragments, allocating states from a counter and adding
    edges to existing states in place. */
module Thompson {
  import opened Common
  import opened Nfa
  import Parser

  // ---------------------------------------------------------------------
  // The arena operations, as functions of the arena before the call
  // ---------------------------------------------------------------------

  /** A new arena together with the fragment an operation returns. */
  datatype Built = Built(nodes: seq<NfaNode>, frag: Frag)

  /** Two calls of `createState`: two fresh states without edges. */
  function Fresh2(nodes: seq<NfaNode>): seq<NfaNode> {
    nodes + [NfaNode(|nodes|, map[]), NfaNode(|nodes| + 1, map[])]
  }

  /** `nodes[i]->transitions[c].push_back(t)`. */
  function WithPush(nodes: seq<NfaNode>, i: nat, c: char, t: nat): seq<NfaNode>
    requires i < |nodes|
  {
    nodes[i := PushTarget(nodes[i], c, t)]
  }

  /** `nodes[i]->transitions[c] = ts`. */
  function WithSet(nodes: seq<NfaNode>, i: nat, c: char, ts: seq<nat>): seq<NfaNode>
    requires i < |nodes|
  {
    nodes[i := SetTargets(nodes[i], c, ts)]
  }

  lemma PushWellFormed(nodes: seq<NfaNode>, i: nat, c: char, t: nat)
    requires WellFormed(nodes) && i < |nodes| && t < |nodes|
    ensures WellFormed(WithPush(nodes, i, c, t))
  {
    var r := WithPush(nodes, i, c, t);
    forall j, d | 0 <= j < |r| && d in r[j].transitions
      ensures forall k :: 0 <= k < |r[j].transitions[d]| ==> r[j].transitions[d][k] < |r|
    {
      if j == i {
        assert r[j].transitions[d] == Targets(r[j], d);
        if d != c {
          assert Targets(r[j], d) == Targets(nodes[i], d);
        }
      }
    }
  }

  lemma SetWellFormed(nodes: seq<NfaNode>, i: nat, c: char, ts: seq<nat>)
    requires WellFormed(nodes) && i < |nodes|
    requires forall k :: 0 <= k < |ts| ==> ts[k] < |nodes|
    ensures WellFormed(WithSet(nodes, i, c, ts))
  {
    var r := WithSet(nodes, i, c, ts);
    forall j, d | 0 <= j < |r| && d in r[j].transitions
      ensures forall k :: 0 <= k < |r[j].transitions[d]| ==> r[j].transitions[d][k] < |r|
    {
      if j == i {
        assert r[j].transitions[d] == Targets(r[j], d);
        if d != c {
          assert Targets(r[j], d) == Targets(nodes[i], d);
        }
      }
    }
  }

  /** `singleCharNFA(c)`: two fresh states joined by one `c` edge. */
  function SingleCharArena(nodes: seq<NfaNode>, c: char): (b: Built)
    ensures |b.nodes| == |nodes| + 2 && b.nodes[..|nodes|] == nodes
    ensures b.frag == Frag(|nodes|, |nodes| + 1)
    ensures b.nodes[|nodes|].transitions == map[c := [|nodes| + 1]]
    ensures b.nodes[|nodes| + 1].transitions == map[]
  {
    var n := |nodes|;
    assert Targets(NfaNode(n, map[]), c) + [n + 1] == [n + 1];
    Built(WithPush(Fresh2(nodes), n, c, n + 1), Frag(n, n + 1))
  }

  /** `concat(a, b)`: no new state, one epsilon edge from a's accept to b's start. */
  function ConcatArena(nodes: seq<NfaNode>, a: Frag, b: Frag): (r: Built)
    requires a.accept < |nodes|
    ensures |r.nodes| == |nodes|
    ensures forall i :: 0 <= i < |nodes| && i != a.accept ==> r.nodes[i] == nodes[i]
    ensures Targets(r.nodes[a.accept], Epsilon) == Targets(nodes[a.accept], Epsilon) + [b.start]
    ensures forall d :: d != Epsilon ==> Targets(r.nodes[a.accept], d) == Targets(nodes[a.accept], d)
    ensures r.frag == Frag(a.start, b.accept)
  {
    Built(WithPush(nodes, a.accept, Epsilon, b.start), Frag(a.start, b.accept))
  }

  /** `alternate(a, b)`: a fresh start with epsilon edges to both starts, and
      epsilon edges from both accepts to a fresh accept. */
  function AlternateArena(nodes: seq<NfaNode>, a: Frag, b: Frag): (r: Built)
    requires a.accept < |nodes| && b.accept < |nodes|
    ensures |r.nodes| == |nodes| + 2
    ensures forall i :: 0 <= i < |nodes| && i != a.accept && i != b.accept ==> r.nodes[i] == nodes[i]
    ensures r.nodes[|nodes|].transitions == map[Epsilon := [a.start, b.start]]
    ensures r.nodes[|nodes| + 1].transitions == map[]
    ensures a.accept != b.accept ==>
              Targets(r.nodes[a.accept], Epsilon) == Targets(nodes[a.accept], Epsilon) + [|nodes| + 1] &&
              Targets(r.nodes[b.accept], Epsilon) == Targets(nodes[b.accept], Epsilon) + [|nodes| + 1]
    ensures forall d :: d != Epsilon ==>
              Targets(r.nodes[a.accept], d) == Targets(nodes[a.accept], d) &&
              Targets(r.nodes[b.accept], d) == Targets(nodes[b.accept], d)
    ensures r.frag == Frag(|nodes|, |nodes| + 1)
  {
    var n := |nodes|;
    var m := WithSet(Fresh2(nodes), n, Epsilon, [a.start, b.start]);
    Built(WithPush(WithPush(m, a.accept, Epsilon, n + 1), b.accept, Epsilon, n + 1), Frag(n, n + 1))
  }

  /** `kleeneStar(a)`: a fresh start and a fresh accept; the fresh start and
      a's accept both get exactly the epsilon edges to a's start and the
      fresh accept (the assignment replaces a's accept's epsilon list). */
  function StarArena(nodes: seq<NfaNode>, a: Frag): (r: Built)
    requires a.accept < |nodes|
    ensures |r.nodes| == |nodes| + 2
    ensures forall i :: 0 <= i < |nodes| && i != a.accept ==> r.nodes[i] == nodes[i]
    ensures r.nodes[|nodes|].transitions == map[Epsilon := [a.start, |nodes| + 1]]
    ensures r.nodes[|nodes| + 1].transitions == map[]
    ensures Targets(r.nodes[a.accept], Epsilon) == [a.start, |nodes| + 1]
    ensures forall d :: d != Epsilon ==> Targets(r.nodes[a.accept], d) == Targets(nodes[a.accept], d)
    ensures r.frag == Frag(|nodes|, |nodes| + 1)
  {
    var n := |nodes|;
    var m := WithSet(Fresh2(nodes), n, Epsilon, [a.start, n + 1]);
    Built(WithSet(m, a.accept, Epsilon, [a.start, n + 1]), Frag(n, n + 1))
  }

  // ---------------------------------------------------------------------
  // The builder: the arena and the state counter, updated in place
  // ---------------------------------------------------------------------

  class NfaBuilder {
    /** Every state allocated so far; state `i` is `nodes[i]`. */
    var nodes: seq<NfaNode>
    /** `static int stateId`: the id the next state gets. */
    var stateId: nat

    ghost predicate Valid()
      reads this
    {
      stateId == |nodes| && WellFormed(nodes)
    }

    /** A fresh run: `stateId = 0` and no states. */
    constructor ()
      ensures Valid() && nodes == [] && stateId == 0
    {
      nodes := [];
      stateId := 0;
    }

    /** `createState`: a state without edges, numbered by the counter. */
    method CreateState() returns (s: nat)
      requires Valid()
      modifies this
      ensures Valid()
      ensures s == old(stateId) && stateId == old(stateId) + 1
      ensures nodes == old(nodes) + [NfaNode(s, map[])]
    {
      s := stateId;
      nodes := nodes + [NfaNode(s, map[])];
      stateId := stateId + 1;
    }

    method SingleCharNFA(c: char) returns (f: Frag)
      requires Valid()
      modifies this
      ensures Valid()
      ensures nodes == SingleCharArena(old(nodes), c).nodes && f == SingleCharArena(old(nodes), c).frag
    {
      var start := CreateState();
      var accept := CreateState();
      PushWellFormed(nodes, start, c, accept);
      nodes := nodes[start := PushTarget(nodes[start], c, accept)];
      f := Frag(start, accept);
    }

    method Concat(a: Frag, b: Frag) returns (f: Frag)
      requires Valid() && a.accept < |nodes| && b.start < |nodes|
      modifies this
      ensures Valid()
      ensures nodes == ConcatArena(old(nodes), a, b).nodes && f == ConcatArena(old(nodes), a, b).frag
    {
      PushWellFormed(nodes, a.accept, Epsilon, b.start);
      nodes := nodes[a.accept := PushTarget(nodes[a.accept], Epsilon, b.start)];
      f := Frag(a.start, b.accept);
    }

    method Alternate(a: Frag, b: Frag) returns (f: Frag)
      requires Valid() && a.start < |nodes| && b.start < |nodes|
      requires a.accept < |nodes| && b.accept < |nodes|
      modifies this
      ensures Valid()
      ensures nodes == AlternateArena(old(nodes), a, b).nodes && f == AlternateArena(old(nodes), a, b).frag
    {
      var start := CreateState();
      var accept := CreateState();
      SetWellFormed(nodes, start, Epsilon, [a.start, b.start]);
      nodes := nodes[start := SetTargets(nodes[start], Epsilon, [a.start, b.start])];
      PushWellFormed(nodes, a.accept, Epsilon, accept);
      nodes := nodes[a.accept := PushTarget(nodes[a.accept], Epsilon, accept)];
      PushWellFormed(nodes, b.accept, Epsilon, accept);
      nodes := nodes[b.accept := PushTarget(nodes[b.accept], Epsilon, accept)];
      f := Frag(start, accept);
    }

    method KleeneStar(a: Frag) returns (f: Frag)
      requires Valid() && a.start < |nodes| && a.accept < |nodes|
      modifies this
      ensures Valid()
      ensures nodes == StarArena(old(nodes), a).nodes && f == StarArena(old(nodes), a).frag
    {
      var start := CreateState();
      var accept := CreateState();
      SetWellFormed(nodes, start, Epsilon, [a.start, accept]);
      nodes := nodes[start := SetTargets(nodes[start], Epsilon, [a.start, accept])];
      SetWellFormed(nodes, a.accept, Epsilon, [a.start, accept]);
      nodes := nodes[a.accept := SetTargets(nodes[a.accept], Epsilon, [a.start, accept])];
      f := Frag(start, accept);
    }
  }

  // ---------------------------------------------------------------------
  // Evaluating the postfix pattern
  // ---------------------------------------------------------------------

  /** The arena and the fragment stack (top at the end) of `regexToNFA`. */
  datatype Machine = Machine(nodes: seq<NfaNode>, stack: seq<Frag>)

  /** Every fragment on the stack names states of the arena. */
  predicate FragsIn(m: Machine) {
    forall k :: 0 <= k < |m.stack| ==> m.stack[k].start < |m.nodes| && m.stack[k].accept < |m.nodes|
  }

  /** One postfix symbol. An operator that finds too few fragments would
      read an empty `std::stack` (undefined behaviour in C++): that is a
      failure here. Symbols other than operands and the three operators are
      skipped, as the loop has no branch for them. */
  function EvalStep(m: Machine, c: char): (r: Option<Machine>)
    requires FragsIn(m)
    ensures r.Some? ==> FragsIn(r.value)
  {
    var s := m.stack;
    if IsAlnum(c) then
      var b := SingleCharArena(m.nodes, c);
      Some(Machine(b.nodes, s + [b.frag]))
    else if c == '*' then
      if |s| < 1 then None
      else
        var b := StarArena(m.nodes, s[|s| - 1]);
        Some(Machine(b.nodes, s[..|s| - 1] + [b.frag]))
    else if c == '.' then
      if |s| < 2 then None
      else
        var b := ConcatArena(m.nodes, s[|s| - 2], s[|s| - 1]);
        Some(Machine(b.nodes, s[..|s| - 2] + [b.frag]))
    else if c == '|' then
      if |s| < 2 then None
      else
        var b := AlternateArena(m.nodes, s[|s| - 2], s[|s| - 1]);
        Some(Machine(b.nodes, s[..|s| - 2] + [b.frag]))
    else Some(m)
  }

  /** The evaluation loop over a whole postfix string. */
  function Evaluate(postfix: string, m: Machine): Option<Machine>
    requires FragsIn(m)
    decreases |postfix|
  {
    if postfix == [] then Some(m)
    else
      match EvalStep(m, postfix[0])
      case None => None
      case Some(m') => Evaluate(postfix[1..], m')
  }

  /** What `regexToNFA` returns: the top fragment after evaluating the
      postfix pattern from an empty arena, or None where the C++ code
      reaches undefined behaviour. */
  function ThompsonOf(regex: string): Option<Nfa> {
    match Parser.PostfixOf(regex)
    case None => None
    case Some(p) =>
      match Evaluate(p, Machine([], []))
      case None => None
      case Some(m) =>
        if m.stack == [] then None
        else Some(Nfa(m.stack[|m.stack| - 1].start, m.stack[|m.stack| - 1].accept, m.nodes))
  }

  /** One iteration of the loop of `regexToNFA`: applies the symbol `c` to
      the builder and the fragment stack, or reports the empty-stack read. */
  method EvalSymbol(b: NfaBuilder, stack: seq<Frag>, c: char) returns (next: Option<seq<Frag>>)
    requires b.Valid() && FragsIn(Machine(b.nodes, stack))
    modifies b
    ensures b.Valid()
    ensures EvalStep(old(Machine(b.nodes, stack)), c) ==
            (if next.None? then None else Some(Machine(b.nodes, next.value)))
  {
    if IsAlnum(c) {
      var f := b.SingleCharNFA(c);
      return Some(stack + [f]);
    } else if c == '*' {
      if |stack| < 1 {
        return None;
      }
      var f := b.KleeneStar(stack[|stack| - 1]);
      return Some(stack[..|stack| - 1] + [f]);
    } else if c == '.' {
      if |stack| < 2 {
        return None;
      }
      var f := b.Concat(stack[|stack| - 2], stack[|stack| - 1]);
      return Some(stack[..|stack| - 2] + [f]);
    } else if c == '|' {
      if |stack| < 2 {
        return None;
      }
      var f := b.Alternate(stack[|stack| - 2], stack[|stack| - 1]);
      return Some(stack[..|stack| - 2] + [f]);
    }
    return Some(stack);
  }

  method RegexToNFA(regex: string) returns (r: Option<Nfa>)
    ensures r == ThompsonOf(regex)
  {
    var b := new NfaBuilder();
    var p := Parser.ToPostfix(regex);
    if p.None? {
      return None;
    }
    var postfix := p.value;
    var stack: seq<Frag> := [];
    var i := 0;
    while i < |postfix|
      invariant 0 <= i <= |postfix|
      invariant b.Valid() && FragsIn(Machine(b.nodes, stack))
      invariant Evaluate(postfix[i..], Machine(b.nodes, stack)) == Evaluate(postfix, Machine([], []))
    {
      assert postfix[i..][1..] == postfix[i + 1..];
      var next := EvalSymbol(b, stack, postfix[i]);
      if next.None? {
        return None;
      }
      stack := next.value;
      i := i + 1;
    }
    assert postfix[i..] == [];
    if stack == [] {
      return None;
    }
    var top := stack[|stack| - 1];
    r := Some(Nfa(top.start, top.accept, b.nodes));
  }
}
