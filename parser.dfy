/** The infix-to-postfix front end of the NFA builder: `addConcat` makes
    concatenation an explicit `.` operator and `toPostfix` rewrites the
    result into postfix with an operator stack (shunting-yard). */
module Parser {
  import opened Common

  // ---------------------------------------------------------------------
  // addConcat
  // ---------------------------------------------------------------------

  /** The adjacent pair (c1, c2) concatenates: c1 ends an operand and c2
      starts one. */
  predicate NeedsConcat(c1: char, c2: char) {
    (IsAlnum(c1) || c1 == '*' || c1 == ')') && (IsAlnum(c2) || c2 == '(')
  }

  /** The string `addConcat` builds: every character of `s`, with a `.`
      right after each position whose pair with the next character
      concatenates. */
  function WithConcat(s: string): string
    decreases |s|
  {
    if |s| <= 1 then s
    else [s[0]] + (if NeedsConcat(s[0], s[1]) then "." else "") + WithConcat(s[1..])
  }

  /** The number of positions i with NeedsConcat(s[i], s[i+1]). */
  function ConcatPairs(s: string): nat
    decreases |s|
  {
    if |s| <= 1 then 0
    else (if NeedsConcat(s[0], s[1]) then 1 else 0) + ConcatPairs(s[1..])
  }

  /** `s` with every `.` deleted. */
  function RemoveDots(s: string): string
    decreases |s|
  {
    if s == [] then []
    else (if s[0] == '.' then [] else [s[0]]) + RemoveDots(s[1..])
  }

  method AddConcat(regex: string) returns (result: string)
    ensures result == WithConcat(regex)
  {
    result := "";
    var i := 0;
    while i < |regex|
      invariant 0 <= i <= |regex|
      invariant result + WithConcat(regex[i..]) == WithConcat(regex)
    {
      var c1 := regex[i];
      AppendStep(result, regex, i, WithConcat(regex));
      ghost var before := result;
      result := result + [c1];
      if i + 1 < |regex| {
        var c2 := regex[i + 1];
        if NeedsConcat(c1, c2) {
          result := result + ".";
        }
      }
      assert result == before + [c1] + Dot(regex, i);
      i := i + 1;
    }
  }

  /** The `.` that `addConcat` writes after position `i`, if any. */
  function Dot(s: string, i: nat): string
    requires i < |s|
  {
    if i + 1 < |s| && NeedsConcat(s[i], s[i + 1]) then "." else ""
  }

  /** One character of `addConcat`: the character, then possibly a dot. */
  lemma ConcatStep(s: string, i: nat)
    requires i < |s|
    ensures WithConcat(s[i..]) == [s[i]] + Dot(s, i) + WithConcat(s[i + 1..])
  {
    assert s[i..][1..] == s[i + 1..];
    if i + 1 == |s| {
      assert s[i..] == [s[i]];
      assert s[i + 1..] == [];
    }
  }

  /** The loop's bookkeeping: appending one step's output. */
  lemma AppendStep(r: string, s: string, i: nat, full: string)
    requires i < |s| && r + WithConcat(s[i..]) == full
    ensures r + [s[i]] + Dot(s, i) + WithConcat(s[i + 1..]) == full
  {
    ConcatStep(s, i);
  }

  /** The output is the input plus one `.` per concatenating pair. */
  lemma {:induction false} WithConcatLength(s: string)
    ensures |WithConcat(s)| == |s| + ConcatPairs(s)
    decreases |s|
  {
    if |s| > 1 {
      WithConcatLength(s[1..]);
    }
  }

  lemma {:induction false} RemoveDotsAppend(a: string, b: string)
    ensures RemoveDots(a + b) == RemoveDots(a) + RemoveDots(b)
    decreases |a|
  {
    if a == [] {
      assert a + b == b;
    } else {
      assert (a + b)[1..] == a[1..] + b;
      RemoveDotsAppend(a[1..], b);
    }
  }

  /** Deleting the inserted dots gives back a dot-free input. */
  lemma {:induction false} RemoveInsertedDots(s: string)
    requires forall i :: 0 <= i < |s| ==> s[i] != '.'
    ensures RemoveDots(WithConcat(s)) == s
    decreases |s|
  {
    if |s| == 1 {
      assert RemoveDots(s) == [s[0]] + RemoveDots(s[1..]);
    } else if |s| > 1 {
      var dot := if NeedsConcat(s[0], s[1]) then "." else "";
      RemoveDotsAppend([s[0]] + dot, WithConcat(s[1..]));
      RemoveDotsAppend([s[0]], dot);
      assert RemoveDots([s[0]]) == [s[0]] by {
        assert RemoveDots([s[0]]) == [s[0]] + RemoveDots([]);
      }
      assert RemoveDots(dot) == [] by {
        if dot != "" {
          assert RemoveDots(dot) == [] + RemoveDots([]);
        }
      }
      RemoveInsertedDots(s[1..]);
      assert s == [s[0]] + s[1..];
    }
  }

  /** `addConcat` works locally: on a concatenation of two non-empty strings
      it treats each part separately and inserts a `.` at the seam exactly
      when the last character of the first part and the first character of
      the second concatenate. */
  lemma {:induction false} WithConcatSeam(x: string, y: string)
    requires x != [] && y != []
    ensures WithConcat(x + y) ==
            WithConcat(x) + (if NeedsConcat(x[|x| - 1], y[0]) then "." else "") + WithConcat(y)
    decreases |x|
  {
    if |x| == 1 {
      assert (x + y)[1..] == y;
    } else {
      assert (x + y)[1..] == x[1..] + y;
      WithConcatSeam(x[1..], y);
    }
  }

  // ---------------------------------------------------------------------
  // precedence and toPostfix
  // ---------------------------------------------------------------------

  /** Binding strength of an operator; `(` and every other character get 0. */
  function Precedence(op: char): int {
    match op
    case '*' => 3
    case '.' => 2
    case '|' => 1
    case _ => 0
  }

  /** The operator stack (top at the end) and the postfix produced so far. */
  datatype ShuntState = ShuntState(ops: seq<char>, postfix: string)

  /** `while (!ops.empty() && ops.top() != '(')`: moves the operators above the
      topmost `(` to the output. */
  function PopToParen(st: ShuntState): ShuntState
    decreases |st.ops|
  {
    if |st.ops| > 0 && st.ops[|st.ops| - 1] != '(' then
      PopToParen(ShuntState(st.ops[..|st.ops| - 1], st.postfix + [st.ops[|st.ops| - 1]]))
    else st
  }

  /** `while (!ops.empty() && precedence(ops.top()) >= p)`: moves the operators
      that bind at least as tightly as `p` to the output. */
  function PopWhile(st: ShuntState, p: int): ShuntState
    decreases |st.ops|
  {
    if |st.ops| > 0 && Precedence(st.ops[|st.ops| - 1]) >= p then
      PopWhile(ShuntState(st.ops[..|st.ops| - 1], st.postfix + [st.ops[|st.ops| - 1]]), p)
    else st
  }

  /** One token of the shunting-yard loop. A `)` that finds no `(` on the stack
      would pop an empty `std::stack` (undefined behaviour in C++): that is a
      failure here. */
  function Step(st: ShuntState, c: char): Option<ShuntState> {
    if IsAlnum(c) then Some(ShuntState(st.ops, st.postfix + [c]))
    else if c == '(' then Some(ShuntState(st.ops + ['('], st.postfix))
    else if c == ')' then
      var st' := PopToParen(st);
      if |st'.ops| == 0 then None
      else Some(ShuntState(st'.ops[..|st'.ops| - 1], st'.postfix))
    else
      var st' := PopWhile(st, Precedence(c));
      Some(ShuntState(st'.ops + [c], st'.postfix))
  }

  /** The shunting-yard loop over a whole token string. */
  function Run(tokens: string, st: ShuntState): Option<ShuntState>
    decreases |tokens|
  {
    if tokens == [] then Some(st)
    else
      match Step(st, tokens[0])
      case None => None
      case Some(st') => Run(tokens[1..], st')
  }

  /** A stack popped to the end, top first. */
  function Reversed(s: seq<char>): seq<char>
    decreases |s|
  {
    if s == [] then [] else [s[|s| - 1]] + Reversed(s[..|s| - 1])
  }

  /** The final `while (!ops.empty())` loop. */
  function Flush(st: ShuntState): string {
    st.postfix + Reversed(st.ops)
  }

  /** What `toPostfix` returns, or None where it would pop an empty stack. */
  function PostfixOf(regex: string): Option<string> {
    match Run(WithConcat(regex), ShuntState([], ""))
    case None => None
    case Some(st) => Some(Flush(st))
  }

  method ToPostfix(regex: string) returns (r: Option<string>)
    ensures r == PostfixOf(regex)
  {
    var tokens := AddConcat(regex);
    var postfix: string := "";
    var ops: seq<char> := [];
    var i := 0;
    while i < |tokens|
      invariant 0 <= i <= |tokens|
      invariant Run(tokens[i..], ShuntState(ops, postfix)) == Run(tokens, ShuntState([], ""))
    {
      var c := tokens[i];
      assert tokens[i..][1..] == tokens[i + 1..];
      ghost var st := ShuntState(ops, postfix);
      if IsAlnum(c) {
        postfix := postfix + [c];
      } else if c == '(' {
        ops := ops + [c];
      } else if c == ')' {
        while |ops| > 0 && ops[|ops| - 1] != '('
          invariant PopToParen(ShuntState(ops, postfix)) == PopToParen(st)
          decreases |ops|
        {
          postfix := postfix + [ops[|ops| - 1]];
          ops := ops[..|ops| - 1];
        }
        if |ops| == 0 {
          assert Step(st, c) == None;
          assert tokens[i..][0] == c;
          assert Run(tokens[i..], st) == None;
          return None;
        }
        ops := ops[..|ops| - 1];
      } else {
        while |ops| > 0 && Precedence(ops[|ops| - 1]) >= Precedence(c)
          invariant PopWhile(ShuntState(ops, postfix), Precedence(c)) == PopWhile(st, Precedence(c))
          decreases |ops|
        {
          postfix := postfix + [ops[|ops| - 1]];
          ops := ops[..|ops| - 1];
        }
        ops := ops + [c];
      }
      i := i + 1;
    }
    assert tokens[i..] == [];
    ghost var done := ShuntState(ops, postfix);
    assert Run(tokens, ShuntState([], "")) == Some(done);
    while |ops| > 0
      invariant postfix + Reversed(ops) == Flush(done)
      decreases |ops|
    {
      postfix := postfix + [ops[|ops| - 1]];
      ops := ops[..|ops| - 1];
    }
    assert ops == [] && postfix + Reversed(ops) == postfix;
    r := Some(postfix);
  }
}
