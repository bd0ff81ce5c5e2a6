/** Worked patterns for `toPostfix`: the postfix form it gives three small
    patterns, showing `*` binding tighter than `.` and `.` tighter than `|`,
    and parentheses overriding both; each result leaves exactly one
    fragment for `regexToNFA`. */
module PostfixExamples {
  import opened Common
  import opened Parser
  import opened Thompson
  import opened ThompsonFacts

  /** `addConcat` on a pattern that starts with `c`. */
  lemma ConcatOnto(c: char, s: string)
    requires s != []
    ensures WithConcat([c] + s) == [c] + (if NeedsConcat(c, s[0]) then "." else "") + WithConcat(s)
  {
    assert ([c] + s)[1..] == s;
  }

  /** The shunting-yard loop on a token string that starts with `c`. */
  lemma RunOnto(c: char, s: string, st: ShuntState, st': ShuntState)
    requires Step(st, c) == Some(st')
    ensures Run([c] + s, st) == Run(s, st')
  {
    assert ([c] + s)[1..] == s;
  }

  /** The depth count on a postfix string that starts with `c`. */
  lemma DepthOnto(c: char, s: string, d: nat)
    ensures IsAlnum(c) ==> FinalDepth([c] + s, d) == FinalDepth(s, d + 1)
    ensures c == '*' && d >= 1 ==> FinalDepth([c] + s, d) == FinalDepth(s, d)
    ensures (c == '.' || c == '|') && d >= 2 ==> FinalDepth([c] + s, d) == FinalDepth(s, d - 1)
  {
    assert ([c] + s)[1..] == s;
  }

  /** An operand goes straight to the output. */
  lemma OperandStep(st: ShuntState, c: char)
    requires IsAlnum(c)
    ensures Step(st, c) == Some(ShuntState(st.ops, st.postfix + [c]))
  {
  }

  /** An operator that binds more tightly than the top of the stack (or
      finds it empty) pops nothing and is pushed. */
  lemma PushStep(st: ShuntState, c: char)
    requires !IsAlnum(c) && c != '(' && c != ')'
    requires |st.ops| == 0 || Precedence(st.ops[|st.ops| - 1]) < Precedence(c)
    ensures Step(st, c) == Some(ShuntState(st.ops + [c], st.postfix))
  {
  }

  /** An operator that finds one operator binding at least as tightly on
      top, and below it one binding less tightly (or nothing), pops that one
      and is pushed. */
  lemma PopOneStep(st: ShuntState, below: seq<char>, top: char, c: char)
    requires !IsAlnum(c) && c != '(' && c != ')'
    requires st.ops == below + [top] && Precedence(top) >= Precedence(c)
    requires |below| == 0 || Precedence(below[|below| - 1]) < Precedence(c)
    ensures Step(st, c) == Some(ShuntState(below + [c], st.postfix + [top]))
  {
    assert st.ops[..|st.ops| - 1] == below;
    var popped := ShuntState(below, st.postfix + [top]);
    assert PopWhile(popped, Precedence(c)) == popped;
    assert PopWhile(st, Precedence(c)) == popped;
  }

  /** A `)` that finds one operator above its `(` emits it and drops the `(`. */
  lemma CloseOneStep(st: ShuntState, below: seq<char>, op: char)
    requires st.ops == below + ['(', op] && op != '('
    ensures Step(st, ')') == Some(ShuntState(below, st.postfix + [op]))
  {
    assert st.ops[..|st.ops| - 1] == below + ['('];
    var atParen := ShuntState(below + ['('], st.postfix + [op]);
    assert PopToParen(atParen) == atParen;
    assert PopToParen(st) == atParen;
    assert atParen.ops[..|atParen.ops| - 1] == below;
  }

  /** Popping a pushed stack emits the pushed element first. */
  lemma ReversedPush(s: seq<char>, x: char)
    ensures Reversed(s + [x]) == [x] + Reversed(s)
  {
    assert (s + [x])[..|s|] == s;
  }

  /** The postfix form from the dotted pattern, the state the loop ends in
      and the flush of that state. */
  lemma PostfixFrom(regex: string, tokens: string, st: ShuntState, out: string)
    requires WithConcat(regex) == tokens
    requires Run(tokens, ShuntState([], "")) == Some(st)
    requires st.postfix + Reversed(st.ops) == out
    ensures PostfixOf(regex) == Some(out)
  {
  }

  // ---------------------------------------------------------------------
  // a|bc*
  // ---------------------------------------------------------------------

  lemma DotsStarBindsTightest()
    ensures WithConcat("a|bc*") == "a|b.c*"
  {
    ConcatOnto('c', "*");
    ConcatOnto('b', "c*");
    ConcatOnto('|', "bc*");
    ConcatOnto('a', "|bc*");
  }

  lemma {:induction false} RunStarBindsTightest()
    ensures Run("a|b.c*", ShuntState([], "")) == Some(ShuntState("|.*", "abc"))
  {
    var st0 := ShuntState([], "");
    OperandStep(st0, 'a');
    var st1 := ShuntState(st0.ops, st0.postfix + ['a']);
    PushStep(st1, '|');
    var st2 := ShuntState(st1.ops + ['|'], st1.postfix);
    OperandStep(st2, 'b');
    var st3 := ShuntState(st2.ops, st2.postfix + ['b']);
    PushStep(st3, '.');
    var st4 := ShuntState(st3.ops + ['.'], st3.postfix);
    OperandStep(st4, 'c');
    var st5 := ShuntState(st4.ops, st4.postfix + ['c']);
    PushStep(st5, '*');
    var st6 := ShuntState(st5.ops + ['*'], st5.postfix);
    assert st6 == ShuntState("|.*", "abc");
    RunOnto('*', [], st5, st6);
    RunOnto('c', "*", st4, st5);
    RunOnto('.', "c*", st3, st4);
    RunOnto('b', ".c*", st2, st3);
    RunOnto('|', "b.c*", st1, st2);
    RunOnto('a', "|b.c*", st0, st1);
  }

  lemma {:induction false} DepthStarBindsTightest()
    ensures FinalDepth("abc*.|", 0) == Some(1)
  {
    DepthOnto('|', [], 2);
    DepthOnto('.', "|", 3);
    DepthOnto('*', ".|", 3);
    DepthOnto('c', "*.|", 2);
    DepthOnto('b', "c*.|", 1);
    DepthOnto('a', "bc*.|", 0);
  }

  lemma FlushStarBindsTightest()
    ensures "abc" + Reversed("|.*") == "abc*.|"
  {
    assert "|.*" == "|." + ['*'];
    assert "|." == "|" + ['.'];
    assert "|" == [] + ['|'];
    ReversedPush([], '|');
    ReversedPush("|", '.');
    ReversedPush("|.", '*');
  }

  /** `a|bc*` is `a|(b(c*))`: the star is emitted first, then the
      concatenation, then the alternation, and one fragment remains. */
  lemma StarBindsTightest()
    ensures PostfixOf("a|bc*") == Some("abc*.|")
    ensures FinalDepth("abc*.|", 0) == Some(1)
    ensures ThompsonOf("a|bc*").Some?
  {
    DotsStarBindsTightest();
    RunStarBindsTightest();
    FlushStarBindsTightest();
    PostfixFrom("a|bc*", "a|b.c*", ShuntState("|.*", "abc"), "abc*.|");
    DepthStarBindsTightest();
    RegexToNfaShape("a|bc*");
  }

  // ---------------------------------------------------------------------
  // ab*
  // ---------------------------------------------------------------------

  lemma DotsStarBeforeConcat()
    ensures WithConcat("ab*") == "a.b*"
  {
    ConcatOnto('b', "*");
    ConcatOnto('a', "b*");
  }

  lemma {:induction false} RunStarBeforeConcat()
    ensures Run("a.b*", ShuntState([], "")) == Some(ShuntState(".*", "ab"))
  {
    var st0 := ShuntState([], "");
    OperandStep(st0, 'a');
    var st1 := ShuntState(st0.ops, st0.postfix + ['a']);
    PushStep(st1, '.');
    var st2 := ShuntState(st1.ops + ['.'], st1.postfix);
    OperandStep(st2, 'b');
    var st3 := ShuntState(st2.ops, st2.postfix + ['b']);
    PushStep(st3, '*');
    var st4 := ShuntState(st3.ops + ['*'], st3.postfix);
    assert st4 == ShuntState(".*", "ab");
    RunOnto('*', [], st3, st4);
    RunOnto('b', "*", st2, st3);
    RunOnto('.', "b*", st1, st2);
    RunOnto('a', ".b*", st0, st1);
  }

  lemma FlushStarBeforeConcat()
    ensures "ab" + Reversed(".*") == "ab*."
  {
    assert ".*" == "." + ['*'];
    assert "." == [] + ['.'];
    ReversedPush([], '.');
    ReversedPush(".", '*');
  }

  lemma {:induction false} DepthStarBeforeConcat()
    ensures FinalDepth("ab*.", 0) == Some(1)
  {
    DepthOnto('.', [], 2);
    DepthOnto('*', ".", 2);
    DepthOnto('b', "*.", 1);
    DepthOnto('a', "b*.", 0);
  }

  /** `ab*` is `a(b*)`: the star applies to `b` alone. */
  lemma StarBeforeConcat()
    ensures PostfixOf("ab*") == Some("ab*.")
    ensures FinalDepth("ab*.", 0) == Some(1)
    ensures ThompsonOf("ab*").Some?
  {
    DotsStarBeforeConcat();
    RunStarBeforeConcat();
    FlushStarBeforeConcat();
    PostfixFrom("ab*", "a.b*", ShuntState(".*", "ab"), "ab*.");
    DepthStarBeforeConcat();
    RegexToNfaShape("ab*");
  }

  // ---------------------------------------------------------------------
  // ab|c
  // ---------------------------------------------------------------------

  lemma DotsConcatBeforeAlternation()
    ensures WithConcat("ab|c") == "a.b|c"
  {
    ConcatOnto('|', "c");
    ConcatOnto('b', "|c");
    ConcatOnto('a', "b|c");
  }

  lemma {:induction false} RunConcatBeforeAlternation()
    ensures Run("a.b|c", ShuntState([], "")) == Some(ShuntState("|", "ab.c"))
  {
    var st0 := ShuntState([], "");
    OperandStep(st0, 'a');
    var st1 := ShuntState(st0.ops, st0.postfix + ['a']);
    PushStep(st1, '.');
    var st2 := ShuntState(st1.ops + ['.'], st1.postfix);
    OperandStep(st2, 'b');
    var st3 := ShuntState(st2.ops, st2.postfix + ['b']);
    PopOneStep(st3, [], '.', '|');
    var st4 := ShuntState([] + ['|'], st3.postfix + ['.']);
    OperandStep(st4, 'c');
    var st5 := ShuntState(st4.ops, st4.postfix + ['c']);
    assert st5 == ShuntState("|", "ab.c");
    RunOnto('c', [], st4, st5);
    RunOnto('|', "c", st3, st4);
    RunOnto('b', "|c", st2, st3);
    RunOnto('.', "b|c", st1, st2);
    RunOnto('a', ".b|c", st0, st1);
  }

  lemma FlushConcatBeforeAlternation()
    ensures "ab.c" + Reversed("|") == "ab.c|"
  {
    assert "|" == [] + ['|'];
    ReversedPush([], '|');
  }

  lemma {:induction false} DepthConcatBeforeAlternation()
    ensures FinalDepth("ab.c|", 0) == Some(1)
  {
    DepthOnto('|', [], 2);
    DepthOnto('c', "|", 1);
    DepthOnto('.', "c|", 2);
    DepthOnto('b', ".c|", 1);
    DepthOnto('a', "b.c|", 0);
  }

  /** `ab|c` is `(ab)|c`: the `|` first pops the pending `.`, so the
      concatenation is emitted before the alternation. */
  lemma ConcatBeforeAlternation()
    ensures PostfixOf("ab|c") == Some("ab.c|")
    ensures FinalDepth("ab.c|", 0) == Some(1)
    ensures ThompsonOf("ab|c").Some?
  {
    DotsConcatBeforeAlternation();
    RunConcatBeforeAlternation();
    FlushConcatBeforeAlternation();
    PostfixFrom("ab|c", "a.b|c", ShuntState("|", "ab.c"), "ab.c|");
    DepthConcatBeforeAlternation();
    RegexToNfaShape("ab|c");
  }

  // ---------------------------------------------------------------------
  // (a|b)c
  // ---------------------------------------------------------------------

  lemma DotsGroupBeforeConcat()
    ensures WithConcat("(a|b)c") == "(a|b).c"
  {
    ConcatOnto(')', "c");
    ConcatOnto('b', ")c");
    ConcatOnto('|', "b)c");
    ConcatOnto('a', "|b)c");
    ConcatOnto('(', "a|b)c");
  }

  lemma {:induction false} RunGroupBeforeConcat()
    ensures Run("(a|b).c", ShuntState([], "")) == Some(ShuntState(".", "ab|c"))
  {
    var st0 := ShuntState([], "");
    var st1 := ShuntState(st0.ops + ['('], st0.postfix);
    OperandStep(st1, 'a');
    var st2 := ShuntState(st1.ops, st1.postfix + ['a']);
    PushStep(st2, '|');
    var st3 := ShuntState(st2.ops + ['|'], st2.postfix);
    OperandStep(st3, 'b');
    var st4 := ShuntState(st3.ops, st3.postfix + ['b']);
    CloseOneStep(st4, [], '|');
    var st5 := ShuntState([], st4.postfix + ['|']);
    PushStep(st5, '.');
    var st6 := ShuntState(st5.ops + ['.'], st5.postfix);
    OperandStep(st6, 'c');
    var st7 := ShuntState(st6.ops, st6.postfix + ['c']);
    assert st7 == ShuntState(".", "ab|c");
    RunOnto('c', [], st6, st7);
    RunOnto('.', "c", st5, st6);
    RunOnto(')', ".c", st4, st5);
    RunOnto('b', ").c", st3, st4);
    RunOnto('|', "b).c", st2, st3);
    RunOnto('a', "|b).c", st1, st2);
    RunOnto('(', "a|b).c", st0, st1);
  }

  lemma FlushGroupBeforeConcat()
    ensures "ab|c" + Reversed(".") == "ab|c."
  {
    assert "." == [] + ['.'];
    ReversedPush([], '.');
  }

  lemma {:induction false} DepthGroupBeforeConcat()
    ensures FinalDepth("ab|c.", 0) == Some(1)
  {
    DepthOnto('.', [], 2);
    DepthOnto('c', ".", 1);
    DepthOnto('|', "c.", 2);
    DepthOnto('b', "|c.", 1);
    DepthOnto('a', "b|c.", 0);
  }

  /** `(a|b)c` concatenates the whole group with `c`: the parentheses hold
      the alternation back from the concatenation. */
  lemma GroupBeforeConcat()
    ensures PostfixOf("(a|b)c") == Some("ab|c.")
    ensures FinalDepth("ab|c.", 0) == Some(1)
    ensures ThompsonOf("(a|b)c").Some?
  {
    DotsGroupBeforeConcat();
    RunGroupBeforeConcat();
    FlushGroupBeforeConcat();
    PostfixFrom("(a|b)c", "(a|b).c", ShuntState(".", "ab|c"), "ab|c.");
    DepthGroupBeforeConcat();
    RegexToNfaShape("(a|b)c");
  }
}
