/** What `toPostfix` guarantees about its output: the operands keep their
    order, it fails exactly on an unmatched `)`, and on a balanced pattern
    it emits no parentheses. */
module PostfixFacts {
  import opened Common
  import opened Parser

  // ---------------------------------------------------------------------
  // Operands keep their order and multiplicity
  // ---------------------------------------------------------------------

  /** The alphanumeric characters of `s`, in order. */
  function Alnums(s: string): string
    decreases |s|
  {
    if s == [] then [] else (if IsAlnum(s[0]) then [s[0]] else []) + Alnums(s[1..])
  }

  predicate NoAlnum(s: seq<char>) {
    forall i :: 0 <= i < |s| ==> !IsAlnum(s[i])
  }

  lemma {:induction false} AlnumsAppend(a: string, b: string)
    ensures Alnums(a + b) == Alnums(a) + Alnums(b)
    decreases |a|
  {
    if a == [] {
      assert a + b == b;
    } else {
      var h := if IsAlnum(a[0]) then [a[0]] else [];
      assert (a + b)[0] == a[0];
      assert (a + b)[1..] == a[1..] + b;
      assert Alnums(a + b) == h + Alnums(a[1..] + b);
      AlnumsAppend(a[1..], b);
      assert Alnums(a) == h + Alnums(a[1..]);
      assert h + (Alnums(a[1..]) + Alnums(b)) == (h + Alnums(a[1..])) + Alnums(b);
    }
  }

  lemma AlnumsOne(c: char)
    ensures Alnums([c]) == if IsAlnum(c) then [c] else []
  {
    assert [c][1..] == [];
  }

  lemma {:induction false} PopToParenAlnums(st: ShuntState)
    requires NoAlnum(st.ops)
    ensures NoAlnum(PopToParen(st).ops)
    ensures Alnums(PopToParen(st).postfix) == Alnums(st.postfix)
    decreases |st.ops|
  {
    if |st.ops| > 0 && st.ops[|st.ops| - 1] != '(' {
      var top := st.ops[|st.ops| - 1];
      AlnumsAppend(st.postfix, [top]);
      AlnumsOne(top);
      PopToParenAlnums(ShuntState(st.ops[..|st.ops| - 1], st.postfix + [top]));
    }
  }

  lemma {:induction false} PopWhileAlnums(st: ShuntState, p: int)
    requires NoAlnum(st.ops)
    ensures NoAlnum(PopWhile(st, p).ops)
    ensures Alnums(PopWhile(st, p).postfix) == Alnums(st.postfix)
    decreases |st.ops|
  {
    if |st.ops| > 0 && Precedence(st.ops[|st.ops| - 1]) >= p {
      var top := st.ops[|st.ops| - 1];
      AlnumsAppend(st.postfix, [top]);
      AlnumsOne(top);
      PopWhileAlnums(ShuntState(st.ops[..|st.ops| - 1], st.postfix + [top]), p);
    }
  }

  /** One token moves its operand, if it is one, to the output; the stack
      keeps holding no operand. */
  lemma StepAlnums(st: ShuntState, c: char)
    requires NoAlnum(st.ops)
    requires Step(st, c).Some?
    ensures NoAlnum(Step(st, c).value.ops)
    ensures Alnums(Step(st, c).value.postfix) == Alnums(st.postfix) + Alnums([c])
  {
    AlnumsOne(c);
    if IsAlnum(c) {
      AlnumsAppend(st.postfix, [c]);
    } else if c == '(' {
    } else if c == ')' {
      PopToParenAlnums(st);
    } else {
      PopWhileAlnums(st, Precedence(c));
    }
  }

  /** Each token moves its operands to the output in order; the stack only
      ever holds operators and parentheses. */
  lemma {:induction false} RunAlnums(tokens: string, st: ShuntState)
    requires NoAlnum(st.ops)
    requires Run(tokens, st).Some?
    ensures NoAlnum(Run(tokens, st).value.ops)
    ensures Alnums(Run(tokens, st).value.postfix) == Alnums(st.postfix) + Alnums(tokens)
    decreases |tokens|
  {
    if tokens != [] {
      var c := tokens[0];
      assert tokens == [c] + tokens[1..];
      AlnumsAppend([c], tokens[1..]);
      StepAlnums(st, c);
      RunAlnums(tokens[1..], Step(st, c).value);
    }
  }

  lemma {:induction false} ReversedNoAlnum(s: seq<char>)
    requires NoAlnum(s)
    ensures Alnums(Reversed(s)) == []
    decreases |s|
  {
    if s != [] {
      AlnumsAppend([s[|s| - 1]], Reversed(s[..|s| - 1]));
      AlnumsOne(s[|s| - 1]);
      ReversedNoAlnum(s[..|s| - 1]);
    }
  }

  lemma {:induction false} WithConcatAlnums(s: string)
    ensures Alnums(WithConcat(s)) == Alnums(s)
    decreases |s|
  {
    if |s| > 1 {
      var dot := if NeedsConcat(s[0], s[1]) then "." else "";
      AlnumsAppend([s[0]] + dot, WithConcat(s[1..]));
      AlnumsAppend([s[0]], dot);
      AlnumsAppend([s[0]], s[1..]);
      assert s == [s[0]] + s[1..];
      if dot != "" {
        AlnumsOne('.');
      }
      WithConcatAlnums(s[1..]);
    }
  }

  /** `toPostfix` emits every alphanumeric operand of the pattern, in the
      pattern's order and with its multiplicity. */
  lemma PostfixKeepsOperands(regex: string)
    requires PostfixOf(regex).Some?
    ensures Alnums(PostfixOf(regex).value) == Alnums(regex)
  {
    var st := Run(WithConcat(regex), ShuntState([], "")).value;
    RunAlnums(WithConcat(regex), ShuntState([], ""));
    assert Alnums("") == [];
    WithConcatAlnums(regex);
    ReversedNoAlnum(st.ops);
    AlnumsAppend(st.postfix, Reversed(st.ops));
  }

  // ---------------------------------------------------------------------
  // Parentheses
  // ---------------------------------------------------------------------

  predicate IsOperator(c: char) {
    c == '*' || c == '.' || c == '|'
  }

  /** A pattern over the supported alphabet: operands, operators, grouping. */
  predicate Supported(s: string) {
    forall i :: 0 <= i < |s| ==> IsAlnum(s[i]) || IsOperator(s[i]) || s[i] == '(' || s[i] == ')'
  }

  /** What the operator stack can hold. */
  predicate OpsOk(ops: seq<char>) {
    forall i :: 0 <= i < |ops| ==> IsOperator(ops[i]) || ops[i] == '('
  }

  predicate NoParens(s: string) {
    forall i :: 0 <= i < |s| ==> s[i] != '(' && s[i] != ')'
  }

  /** The number of `(` on a stack, counted from the top. */
  function Opens(ops: seq<char>): nat
    decreases |ops|
  {
    if ops == [] then 0
    else Opens(ops[..|ops| - 1]) + (if ops[|ops| - 1] == '(' then 1 else 0)
  }

  /** Reading `s` from nesting depth `d`, no `)` closes a group that is not open. */
  predicate CloseOk(s: string, d: nat)
    decreases |s|
  {
    if s == [] then true
    else if s[0] == '(' then CloseOk(s[1..], d + 1)
    else if s[0] == ')' then d > 0 && CloseOk(s[1..], d - 1)
    else CloseOk(s[1..], d)
  }

  /** The nesting depth after reading `s` from depth `d`. */
  function DepthAfter(s: string, d: int): int
    decreases |s|
  {
    if s == [] then d
    else if s[0] == '(' then DepthAfter(s[1..], d + 1)
    else if s[0] == ')' then DepthAfter(s[1..], d - 1)
    else DepthAfter(s[1..], d)
  }

  /** Every `(` is closed and every `)` closes an open group. */
  predicate Balanced(s: string) {
    CloseOk(s, 0) && DepthAfter(s, 0) == 0
  }

  lemma {:induction false} PopToParenParens(st: ShuntState)
    requires OpsOk(st.ops) && NoParens(st.postfix)
    ensures OpsOk(PopToParen(st).ops) && NoParens(PopToParen(st).postfix)
    ensures Opens(PopToParen(st).ops) == Opens(st.ops)
    ensures |PopToParen(st).ops| > 0 ==> PopToParen(st).ops[|PopToParen(st).ops| - 1] == '('
    decreases |st.ops|
  {
    if |st.ops| > 0 && st.ops[|st.ops| - 1] != '(' {
      PopToParenParens(ShuntState(st.ops[..|st.ops| - 1], st.postfix + [st.ops[|st.ops| - 1]]));
    }
  }

  lemma {:induction false} PopWhileParens(st: ShuntState, p: int)
    requires p >= 1
    requires OpsOk(st.ops) && NoParens(st.postfix)
    ensures OpsOk(PopWhile(st, p).ops) && NoParens(PopWhile(st, p).postfix)
    ensures Opens(PopWhile(st, p).ops) == Opens(st.ops)
    decreases |st.ops|
  {
    if |st.ops| > 0 && Precedence(st.ops[|st.ops| - 1]) >= p {
      PopWhileParens(ShuntState(st.ops[..|st.ops| - 1], st.postfix + [st.ops[|st.ops| - 1]]), p);
    }
  }

  /** The nesting depth after one character read at depth `d`. */
  function DepthStep(c: char, d: int): int {
    if c == '(' then d + 1 else if c == ')' then d - 1 else d
  }

  /** One token: it fails exactly on a `)` with no `(` on the stack, and
      otherwise keeps the stack's `(` count equal to the nesting depth. */
  lemma StepParens(st: ShuntState, c: char)
    requires IsAlnum(c) || IsOperator(c) || c == '(' || c == ')'
    requires OpsOk(st.ops) && NoParens(st.postfix)
    ensures Step(st, c).Some? <==> (c != ')' || Opens(st.ops) > 0)
    ensures Step(st, c).Some? ==>
              OpsOk(Step(st, c).value.ops) && NoParens(Step(st, c).value.postfix) &&
              Opens(Step(st, c).value.ops) == DepthStep(c, Opens(st.ops))
  {
    if IsAlnum(c) {
    } else if c == '(' {
      assert (st.ops + ['('])[..|st.ops|] == st.ops;
    } else if c == ')' {
      PopToParenParens(st);
      var st' := PopToParen(st);
      if |st'.ops| == 0 {
        assert Opens(st'.ops) == 0;
      }
    } else {
      PopWhileParens(st, Precedence(c));
      var st' := PopWhile(st, Precedence(c));
      assert (st'.ops + [c])[..|st'.ops|] == st'.ops;
    }
  }

  /** Over the supported alphabet the operator stack holds exactly one `(`
      per open group, so the loop fails exactly at the first `)` that closes
      nothing, and no parenthesis reaches the output during the loop. */
  lemma {:induction false} RunParens(tokens: string, st: ShuntState)
    requires Supported(tokens) && OpsOk(st.ops) && NoParens(st.postfix)
    ensures Run(tokens, st).Some? <==> CloseOk(tokens, Opens(st.ops))
    ensures Run(tokens, st).Some? ==>
              OpsOk(Run(tokens, st).value.ops) && NoParens(Run(tokens, st).value.postfix) &&
              Opens(Run(tokens, st).value.ops) == DepthAfter(tokens, Opens(st.ops))
    decreases |tokens|
  {
    if tokens != [] {
      var c := tokens[0];
      assert Supported(tokens[1..]) by {
        forall i | 0 <= i < |tokens[1..]| ensures tokens[1..][i] == tokens[i + 1] { }
      }
      StepParens(st, c);
      if Step(st, c).Some? {
        RunParens(tokens[1..], Step(st, c).value);
      }
    }
  }

  lemma {:induction false} ReversedNoParens(ops: seq<char>)
    requires OpsOk(ops) && Opens(ops) == 0
    ensures NoParens(Reversed(ops))
    decreases |ops|
  {
    if ops != [] {
      ReversedNoParens(ops[..|ops| - 1]);
    }
  }

  /** One step of `WithConcat`: the first character, then possibly a dot,
      then the rest. */
  lemma WithConcatUnfold(s: string)
    requires |s| > 1
    ensures WithConcat(s)[0] == s[0]
    ensures NeedsConcat(s[0], s[1]) ==> WithConcat(s)[1..] == "." + WithConcat(s[1..])
    ensures NeedsConcat(s[0], s[1]) ==> WithConcat(s)[1..][1..] == WithConcat(s[1..])
    ensures !NeedsConcat(s[0], s[1]) ==> WithConcat(s)[1..] == WithConcat(s[1..])
  {
    var dot := if NeedsConcat(s[0], s[1]) then "." else "";
    var w := WithConcat(s[1..]);
    assert WithConcat(s) == [s[0]] + (dot + w);
    assert WithConcat(s)[1..] == dot + w;
    if dot != "" {
      assert (dot + w)[1..] == w;
    }
  }

  /** Every character `addConcat` emits is one of its input or a dot. */
  lemma {:induction false} WithConcatChars(s: string)
    ensures forall i :: 0 <= i < |WithConcat(s)| ==> WithConcat(s)[i] == '.' || WithConcat(s)[i] in s
    decreases |s|
  {
    if |s| > 1 {
      WithConcatChars(s[1..]);
      WithConcatUnfold(s);
      var w := WithConcat(s);
      forall i | 0 <= i < |w| ensures w[i] == '.' || w[i] in s {
        if i > 0 {
          assert w[i] == w[1..][i - 1];
          if NeedsConcat(s[0], s[1]) && i > 1 {
            assert w[i] == WithConcat(s[1..])[i - 2];
          }
        }
      }
    }
  }

  lemma WithConcatSupported(s: string)
    requires Supported(s)
    ensures Supported(WithConcat(s))
  {
    WithConcatChars(s);
    var w := WithConcat(s);
    forall i | 0 <= i < |w|
      ensures IsAlnum(w[i]) || IsOperator(w[i]) || w[i] == '(' || w[i] == ')'
    {
      if w[i] != '.' {
        var j :| 0 <= j < |s| && s[j] == w[i];
      }
    }
  }

  /** Inserted dots do not affect which `)` closes a group. */
  lemma {:induction false} WithConcatCloseOk(s: string, d: nat)
    ensures CloseOk(WithConcat(s), d) == CloseOk(s, d)
    decreases |s|
  {
    if |s| > 1 {
      WithConcatUnfold(s);
      var e: nat := if s[0] == '(' then d + 1 else if s[0] == ')' && d > 0 then d - 1 else d;
      WithConcatCloseOk(s[1..], e);
    }
  }

  /** Inserted dots do not change the final nesting depth. */
  lemma {:induction false} WithConcatDepth(s: string, d: int)
    ensures DepthAfter(WithConcat(s), d) == DepthAfter(s, d)
    decreases |s|
  {
    if |s| > 1 {
      WithConcatUnfold(s);
      var e := if s[0] == '(' then d + 1 else if s[0] == ')' then d - 1 else d;
      WithConcatDepth(s[1..], e);
    }
  }

  /** Over the supported alphabet `toPostfix` fails exactly when some `)`
      closes no open group; on a balanced pattern its output holds no
      parenthesis. */
  lemma PostfixParentheses(regex: string)
    requires Supported(regex)
    ensures PostfixOf(regex).Some? <==> CloseOk(regex, 0)
    ensures Balanced(regex) ==> NoParens(PostfixOf(regex).value)
  {
    var init := ShuntState([], "");
    var w := WithConcat(regex);
    assert Opens(init.ops) == 0;
    assert NoParens(init.postfix);
    WithConcatSupported(regex);
    WithConcatCloseOk(regex, 0);
    WithConcatDepth(regex, 0);
    RunParens(w, init);
    assert PostfixOf(regex).Some? <==> Run(w, init).Some?;
    if Balanced(regex) {
      var st := Run(w, init).value;
      assert Opens(st.ops) == 0;
      ReversedNoParens(st.ops);
      NoParensAppend(st.postfix, Reversed(st.ops));
      assert PostfixOf(regex).value == st.postfix + Reversed(st.ops);
    }
  }

  lemma NoParensAppend(a: string, b: string)
    requires NoParens(a) && NoParens(b)
    ensures NoParens(a + b)
  {
    forall i | 0 <= i < |a + b| ensures (a + b)[i] != '(' && (a + b)[i] != ')' {
      if i >= |a| {
        assert (a + b)[i] == b[i - |a|];
      }
    }
  }

  // ---------------------------------------------------------------------
  // Precedence
  // ---------------------------------------------------------------------

  /** Above each `(`, the operators on the stack bind strictly more tightly
      from the bottom up, so the tightest one is always on top. */
  predicate Ascending(ops: seq<char>) {
    forall k :: 0 < k < |ops| && ops[k] != '(' ==> Precedence(ops[k - 1]) < Precedence(ops[k])
  }

  /** `PopWhile(st, p)` moves to the output exactly the run of operators at
      the top of the stack that bind at least as tightly as `p`, top first,
      and leaves below it an operator that binds less tightly, or nothing. */
  lemma PopWhileDiscipline(st: ShuntState, p: int)
    ensures var r := PopWhile(st, p);
            var n := |r.ops|;
            n <= |st.ops| && r.ops == st.ops[..n] &&
            r.postfix == st.postfix + Reversed(st.ops[n..]) &&
            (forall k :: n <= k < |st.ops| ==> Precedence(st.ops[k]) >= p) &&
            (n > 0 ==> Precedence(st.ops[n - 1]) < p)
  {
    PopWhilePrefix(st, p);
    PopWhileOutput(st, p);
    PopWhilePopped(st, p);
  }

  /** `PopWhile` leaves a prefix of the stack. */
  lemma {:induction false} PopWhilePrefix(st: ShuntState, p: int)
    ensures |PopWhile(st, p).ops| <= |st.ops| && PopWhile(st, p).ops == st.ops[..|PopWhile(st, p).ops|]
    decreases |st.ops|
  {
    var m := |st.ops|;
    if m > 0 && Precedence(st.ops[m - 1]) >= p {
      PopWhilePrefix(ShuntState(st.ops[..m - 1], st.postfix + [st.ops[m - 1]]), p);
    }
  }

  /** What `PopWhile` removes reaches the output top first. */
  lemma {:induction false} PopWhileOutput(st: ShuntState, p: int)
    ensures |PopWhile(st, p).ops| <= |st.ops|
    ensures PopWhile(st, p).postfix == st.postfix + Reversed(st.ops[|PopWhile(st, p).ops|..])
    decreases |st.ops|
  {
    var m := |st.ops|;
    if m > 0 && Precedence(st.ops[m - 1]) >= p {
      var top := st.ops[m - 1];
      var st' := ShuntState(st.ops[..m - 1], st.postfix + [top]);
      PopWhileOutput(st', p);
      var n := |PopWhile(st', p).ops|;
      var tail := st.ops[n..];
      assert tail[|tail| - 1] == top;
      assert tail[..|tail| - 1] == st'.ops[n..];
      assert Reversed(tail) == [top] + Reversed(st'.ops[n..]);
    } else {
      assert st.ops[m..] == [];
    }
  }

  /** The operators `PopWhile` removes bind at least as tightly as `p`;
      the one it stops at binds less tightly. */
  lemma {:induction false} PopWhilePopped(st: ShuntState, p: int)
    ensures |PopWhile(st, p).ops| <= |st.ops|
    ensures forall k :: |PopWhile(st, p).ops| <= k < |st.ops| ==> Precedence(st.ops[k]) >= p
    ensures |PopWhile(st, p).ops| > 0 ==> Precedence(st.ops[|PopWhile(st, p).ops| - 1]) < p
    decreases |st.ops|
  {
    var m := |st.ops|;
    if m > 0 && Precedence(st.ops[m - 1]) >= p {
      var ops' := st.ops[..m - 1];
      PopWhilePopped(ShuntState(ops', st.postfix + [st.ops[m - 1]]), p);
      assert forall k :: 0 <= k < m - 1 ==> ops'[k] == st.ops[k];
    }
  }

  /** One token keeps the stack ascending. */
  lemma StepAscending(st: ShuntState, c: char)
    requires Ascending(st.ops) && Step(st, c).Some?
    ensures Ascending(Step(st, c).value.ops)
  {
    if IsAlnum(c) {
    } else if c == '(' {
    } else if c == ')' {
      ToParenPrefix(st);
    } else {
      PopWhilePrefix(st, Precedence(c));
      PopWhilePopped(st, Precedence(c));
    }
  }

  /** `PopToParen` leaves a prefix of the stack. */
  lemma {:induction false} ToParenPrefix(st: ShuntState)
    ensures |PopToParen(st).ops| <= |st.ops| && PopToParen(st).ops == st.ops[..|PopToParen(st).ops|]
    decreases |st.ops|
  {
    var m := |st.ops|;
    if m > 0 && st.ops[m - 1] != '(' {
      ToParenPrefix(ShuntState(st.ops[..m - 1], st.postfix + [st.ops[m - 1]]));
    }
  }

  /** Throughout `toPostfix`, whatever the input, the operator stack is
      ascending: together with `PopWhileDiscipline` this is why an operator
      reaches the output before every operator pushed earlier that binds
      less tightly (`*` before `.` before `|`). */
  lemma {:induction false} RunAscending(tokens: string, st: ShuntState)
    requires Ascending(st.ops) && Run(tokens, st).Some?
    ensures Ascending(Run(tokens, st).value.ops)
    decreases |tokens|
  {
    if tokens != [] {
      StepAscending(st, tokens[0]);
      RunAscending(tokens[1..], Step(st, tokens[0]).value);
    }
  }
}
