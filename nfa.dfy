/** The NFA as an arena: node `i` of the sequence is the state with id `i`,
    and a transition list names its targets by id. The character `Epsilon`
    labels an epsilon edge. */
module Nfa {
  import opened Common

  /** `struct State`: an id and, per symbol, the ordered list of targets. */
  datatype NfaNode = NfaNode(id: nat, transitions: map<char, seq<nat>>)

  /** `struct NFA`: the start and accept state of a fragment. */
  datatype Frag = Frag(start: nat, accept: nat)

  /** A complete automaton: its fragment ends and the arena that holds it. */
  datatype Nfa = Nfa(start: nat, accept: nat, nodes: seq<NfaNode>)

  /** Every node's id is its position and every edge targets a node of the arena. */
  predicate WellFormed(nodes: seq<NfaNode>) {
    forall i :: 0 <= i < |nodes| ==>
      nodes[i].id == i &&
      forall c :: c in nodes[i].transitions ==>
        forall k :: 0 <= k < |nodes[i].transitions[c]| ==> nodes[i].transitions[c][k] < |nodes|
  }

  /** `transitions[c]`: the targets on `c`, empty when there is no entry. */
  function Targets(node: NfaNode, c: char): seq<nat> {
    if c in node.transitions then node.transitions[c] else []
  }

  /** `transitions[c].push_back(t)`. */
  function PushTarget(node: NfaNode, c: char, t: nat): (r: NfaNode)
    ensures r.id == node.id
    ensures Targets(r, c) == Targets(node, c) + [t]
    ensures forall d :: d != c ==> Targets(r, d) == Targets(node, d)
  {
    node.(transitions := node.transitions[c := Targets(node, c) + [t]])
  }

  /** `transitions[c] = ts`. */
  function SetTargets(node: NfaNode, c: char, ts: seq<nat>): (r: NfaNode)
    ensures r.id == node.id
    ensures Targets(r, c) == ts
    ensures forall d :: d != c ==> Targets(r, d) == Targets(node, d)
  {
    node.(transitions := node.transitions[c := ts])
  }
}
