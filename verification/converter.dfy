/** `infixToRPN`: the shunting-yard converter with unary-minus handling.
    Its state is the output so far, the operator stack (top last) and the
    two flags `nextIsNegative` (a unary minus waits for its operand) and
    `previousIsOperation` (an operand is expected next).  Each token is one
    `Step`; the stack is flushed into the output at the end. */
module Converter {
  import opened Outcomes
  import opened Seqs
  import opened Text
  import opened Tokenizer
  import opened Classify

  datatype State = State(
    output: seq<string>,
    stack: seq<string>,
    nextIsNegative: bool,
    previousIsOperation: bool)

  /** The state before the first token: an operand is expected. */
  const Start: State := State([], [], false, true)

  /** The unary-minus marker the converter emits after a negated operand. */
  const Negate: string := "~"

  /** The loop that runs before an operator is pushed: pop the stack into
      the output while its top has precedence over `op`.  The stack that
      is left is a prefix of the old one, and what was popped went to the
      output top first; `PopPrecedentStops` says where it stops. */
  function PopPrecedent(output: seq<string>, stack: seq<string>, op: string): (r: (seq<string>, seq<string>))
    ensures |r.1| <= |stack| && r.1 == stack[..|r.1|]
    ensures r.0 == output + Reverse(stack[|r.1|..])
    decreases |stack|
  {
    if |stack| > 0 && HasPrecedence(op, stack[|stack| - 1]) then
      var top := stack[|stack| - 1];
      var rest := stack[..|stack| - 1];
      var r := PopPrecedent(output + [top], rest, op);
      var k := |r.1|;
      assert stack[..k] == rest[..k];
      assert stack[k..] == rest[k..] + [top];
      assert r.0 == output + Reverse(stack[k..]) by {
        ReverseAppend(rest[k..], [top]);
        assert (output + [top]) + Reverse(rest[k..]) == output + ([top] + Reverse(rest[k..]));
      }
      r
    else (output, stack)
  }

  /** Every popped entry had precedence over `op`, and the new top, if
      any, has not. */
  lemma {:induction false} PopPrecedentStops(output: seq<string>, stack: seq<string>, op: string)
    ensures var k := |PopPrecedent(output, stack, op).1|;
      && (forall j :: k <= j < |stack| ==> HasPrecedence(op, stack[j]))
      && (k == 0 || !HasPrecedence(op, stack[k - 1]))
    decreases |stack|
  {
    if |stack| > 0 && HasPrecedence(op, stack[|stack| - 1]) {
      var rest := stack[..|stack| - 1];
      PopPrecedentStops(output + [stack[|stack| - 1]], rest, op);
      var k := |PopPrecedent(output, stack, op).1|;
      forall j | k <= j < |stack| - 1 ensures HasPrecedence(op, stack[j]) {
        assert stack[j] == rest[j];
      }
      if k > 0 {
        assert stack[k - 1] == rest[k - 1];
      }
    }
  }

  /** The loop a closing parenthesis runs: pop into the output until the
      top is `(` or the stack is empty.  The stack left is a prefix of the
      old one, what was popped went to the output top first and held no
      `(`, and the new top, if any, is `(`. */
  function PopUntilOpen(output: seq<string>, stack: seq<string>): (r: (seq<string>, seq<string>))
    ensures |r.1| <= |stack| && r.1 == stack[..|r.1|]
    ensures r.0 == output + Reverse(stack[|r.1|..])
    ensures "(" !in stack[|r.1|..]
    ensures |r.1| == 0 || stack[|r.1| - 1] == "("
    decreases |stack|
  {
    if |stack| > 0 && stack[|stack| - 1] != "(" then
      var top := stack[|stack| - 1];
      var rest := stack[..|stack| - 1];
      var r := PopUntilOpen(output + [top], rest);
      PopOneMore(output, stack, r);
      r
    else (output, stack)
  }

  /** Popping one more operator than the recursive call did keeps the
      shape `PopUntilOpen` promises. */
  lemma PopOneMore(output: seq<string>, stack: seq<string>, r: (seq<string>, seq<string>))
    requires |stack| > 0 && stack[|stack| - 1] != "("
    requires var rest := stack[..|stack| - 1];
      && |r.1| <= |rest| && r.1 == rest[..|r.1|]
      && r.0 == (output + [stack[|stack| - 1]]) + Reverse(rest[|r.1|..])
      && "(" !in rest[|r.1|..]
      && (|r.1| == 0 || rest[|r.1| - 1] == "(")
    ensures |r.1| <= |stack| && r.1 == stack[..|r.1|]
    ensures r.0 == output + Reverse(stack[|r.1|..])
    ensures "(" !in stack[|r.1|..]
    ensures |r.1| == 0 || stack[|r.1| - 1] == "("
  {
    var top, rest, k := stack[|stack| - 1], stack[..|stack| - 1], |r.1|;
    assert stack[..k] == rest[..k];
    assert stack[k..] == rest[k..] + [top];
    ReverseAppend(rest[k..], [top]);
    assert (output + [top]) + Reverse(rest[k..]) == output + ([top] + Reverse(rest[k..]));
  }

  /** A closing parenthesis: everything above the topmost `(` goes to the
      output, top first, and that `(` is discarded; with no `(` on the
      stack the whole stack is emptied into the output. */
  function CloseGroup(output: seq<string>, stack: seq<string>): (r: (seq<string>, seq<string>))
    ensures "(" !in stack ==> r == (output + Reverse(stack), [])
    ensures "(" in stack ==>
      && |r.1| < |stack| && stack[|r.1|] == "(" && r.1 == stack[..|r.1|]
      && "(" !in stack[|r.1| + 1..]
      && r.0 == output + Reverse(stack[|r.1| + 1..])
  {
    var (out, rest) := PopUntilOpen(output, stack);
    var k := |rest|;
    if k > 0 && rest[k - 1] == "(" then
      assert stack[k - 1] == "(" && stack[..k - 1] == rest[..k - 1];
      assert stack[k - 1..] == ["("] + stack[k..];
      (out, rest[..k - 1])
    else
      assert k == 0 && stack[k..] == stack;
      (out, rest)
  }

  /** The converter's reaction to one (trimmed) token.  Its only error is
      "Incorrect expression"; `StepOutcome` says when it happens. */
  function Step(s: State, t: string): (r: Result<State>)
    ensures r.Err? ==> r.error == IncorrectExpression
  {
    if IsOperand(t) then
      Ok(State(s.output + [t] + (if s.nextIsNegative then [Negate] else []), s.stack, false, false))
    else if s.nextIsNegative then
      Err(IncorrectExpression)
    else if IsOperator(t) then
      if !s.previousIsOperation then
        var (out, stack) := PopPrecedent(s.output, s.stack, t);
        Ok(State(out, stack + [t], s.nextIsNegative, true))
      else if t == "-" then
        Ok(s.(nextIsNegative := true, previousIsOperation := false))
      else
        Err(IncorrectExpression)
    else if t == "(" then
      Ok(s.(stack := s.stack + ["("]))
    else if t == ")" then
      var (out, stack) := CloseGroup(s.output, s.stack);
      Ok(s.(output := out, stack := stack))
    else
      Ok(s)
  }

  /** What one token does to the converter's state. */
  lemma {:induction false} StepOutcome(s: State, t: string)
    // the only error is "Incorrect expression", raised exactly for a
    // non-operand after a pending unary minus, or for an operator other
    // than `-` where an operand is expected
    ensures Step(s, t).Err? <==>
      !IsOperand(t) && (s.nextIsNegative || (IsOperator(t) && s.previousIsOperation && t != "-"))
    // an operand goes straight to the output, followed by `~` when a unary
    // minus was pending, and an operator is expected next
    ensures IsOperand(t) ==>
      Step(s, t) == Ok(State(s.output + [t] + (if s.nextIsNegative then [Negate] else []), s.stack, false, false))
    // a `-` where an operand is expected arms the unary minus only
    ensures !IsOperand(t) && !s.nextIsNegative && s.previousIsOperation && t == "-" ==>
      Step(s, t) == Ok(s.(nextIsNegative := true, previousIsOperation := false))
    // a token that is neither operand, operator nor parenthesis is dropped
    ensures !IsOperand(t) && !s.nextIsNegative && !IsOperator(t) && t != "(" && t != ")" ==>
      Step(s, t) == Ok(s)
    // a closing parenthesis with no `(` below it empties the stack into
    // the output and touches nothing else
    ensures !s.nextIsNegative && t == ")" && "(" !in s.stack ==>
      Step(s, t) == Ok(s.(output := s.output + Reverse(s.stack), stack := []))
  {
  }

  /** The main loop of `infixToRPN`: every token in turn, stopping at the
      first error. */
  function Run(s: State, toks: seq<string>): (r: Result<State>)
    ensures r.Err? ==> r.error == IncorrectExpression
    decreases |toks|
  {
    if |toks| == 0 then Ok(s)
    else
      var s' :- Step(s, toks[0]);
      Run(s', toks[1..])
  }

  /** The conversion of a token sequence: run the loop, then pop whatever
      is left on the stack into the output. */
  function ConvertTokens(toks: seq<string>): (r: Result<seq<string>>)
    ensures r.Err? ==> r.error == IncorrectExpression
  {
    var s :- Run(Start, toks);
    Ok(s.output + Reverse(s.stack))
  }

  /** `infixToRPN`: the output tokens, each followed by a space, trimmed.
      The text fails exactly when the conversion does, has no blank at
      either end, and splits at blanks back into the postfix tokens. */
  function InfixToRpn(expr: string): (r: Result<string>)
    ensures r.Err? <==> ConvertTokens(Tokenize(expr)).Err?
    ensures r.Err? ==> r.error == IncorrectExpression
    ensures r.Ok? ==> Trim(r.value) == r.value && Scan(r.value) == ConvertTokens(Tokenize(expr)).value
  {
    var rpn :- ConvertTokens(Tokenize(expr));
    ScanRpnText(Tokenize(expr));
    TrimFixpoint(Spaced(rpn));
    Ok(Trim(Spaced(rpn)))
  }

  lemma {:induction false} RunAppend(s: State, a: seq<string>, b: seq<string>)
    ensures Run(s, a + b) == (match Run(s, a) case Ok(s') => Run(s', b) case Err(e) => Err(e))
    decreases |a|
  {
    if |a| == 0 {
      assert a + b == b;
    } else {
      assert (a + b)[0] == a[0];
      assert (a + b)[1..] == a[1..] + b;
      match Step(s, a[0])
      case Ok(s') => RunAppend(s', a[1..], b);
      case Err(_) =>
    }
  }

  // ---------------------------------------------------------------------
  // Invariants of the conversion

  /** The operand tokens of a sequence, in order. */
  function Operands(toks: seq<string>): (r: seq<string>)
    ensures |r| <= |toks|
  {
    if |toks| == 0 then []
    else (if IsOperand(toks[0]) then [toks[0]] else []) + Operands(toks[1..])
  }

  lemma {:induction false} OperandsAppend(a: seq<string>, b: seq<string>)
    ensures Operands(a + b) == Operands(a) + Operands(b)
  {
    if |a| == 0 {
      assert a + b == b;
    } else {
      var x := a[0];
      var head := if IsOperand(x) then [x] else [];
      assert (a + b)[0] == x;
      assert (a + b)[1..] == a[1..] + b;
      assert Operands(a + b) == head + Operands(a[1..] + b);
      OperandsAppend(a[1..], b);
      assert head + (Operands(a[1..]) + Operands(b)) == (head + Operands(a[1..])) + Operands(b);
    }
  }

  lemma {:induction false} OperandsNone(toks: seq<string>)
    requires forall i :: 0 <= i < |toks| ==> !IsOperand(toks[i])
    ensures Operands(toks) == []
  {
    if |toks| > 0 {
      OperandsNone(toks[1..]);
    }
  }

  /** Tokens the stack may hold: operators and `(`. */
  predicate IsStackSymbol(t: string) {
    IsOperatorSymbol(t) || t == "("
  }

  /** Tokens the output may hold while the loop runs: never a parenthesis. */
  predicate IsOutputSymbol(t: string) {
    IsOperand(t) || IsOperatorSymbol(t) || t == Negate
  }

  predicate AllStackSymbols(toks: seq<string>) {
    forall i :: 0 <= i < |toks| ==> IsStackSymbol(toks[i])
  }

  predicate AllOutputSymbols(toks: seq<string>) {
    forall i :: 0 <= i < |toks| ==> IsOutputSymbol(toks[i])
  }

  /** Every `~` of the output comes right after an operand. */
  predicate MarkersFollowOperands(toks: seq<string>) {
    forall i :: 0 <= i < |toks| && toks[i] == Negate ==> i > 0 && IsOperand(toks[i - 1])
  }

  predicate Valid(s: State) {
    AllOutputSymbols(s.output) && MarkersFollowOperands(s.output) && AllStackSymbols(s.stack)
  }

  lemma {:induction false} SymbolNotOperand(t: string)
    requires IsStackSymbol(t) || t == Negate
    ensures !IsOperand(t) && IsPlainWord(t) && t != ")"
  {
    if IsOperand(t) {
      OperandShape(t);
    }
  }

  /** Popping part of a valid stack passes no operand, no `(` and no
      marker to the output. */
  lemma {:induction false} PoppedSuffix(stack: seq<string>, k: nat)
    requires AllStackSymbols(stack) && k <= |stack|
    requires forall j :: k <= j < |stack| ==> stack[j] != "("
    ensures var p := Reverse(stack[k..]);
      && Operands(p) == []
      && AllOutputSymbols(p)
      && (forall j :: 0 <= j < |p| ==> p[j] != Negate)
      && multiset(stack[..k])["("] == multiset(stack)["("]
  {
    var p := Reverse(stack[k..]);
    forall j | 0 <= j < |p| ensures !IsOperand(p[j]) && IsOperatorSymbol(p[j]) {
      assert p[j] == stack[|stack| - 1 - j];
      SymbolNotOperand(p[j]);
    }
    OperandsNone(p);
    assert stack == stack[..k] + stack[k..];
    assert "(" !in stack[k..];
  }

  lemma {:induction false} OutputExtend(out: seq<string>, extra: seq<string>)
    requires AllOutputSymbols(out) && MarkersFollowOperands(out)
    requires AllOutputSymbols(extra) && forall j :: 0 <= j < |extra| ==> extra[j] != Negate
    ensures AllOutputSymbols(out + extra) && MarkersFollowOperands(out + extra)
  {
  }

  lemma {:induction false} StepOperandInvariant(s: State, t: string)
    requires Valid(s) && IsOperand(t)
    ensures var s' := Step(s, t).value;
      && Valid(s')
      && Operands(s'.output) == Operands(s.output) + Operands([t])
      && s'.stack == s.stack
  {
    var s' := Step(s, t).value;
    OperandsAppend(s.output, [t]);
    SymbolNotOperand(Negate);
    if s.nextIsNegative {
      assert s'.output == (s.output + [t]) + [Negate];
      assert Operands([Negate]) == [];
      OperandsAppend(s.output + [t], [Negate]);
    } else {
      assert s'.output == s.output + [t];
    }
  }

  /** What an incoming operator pops: operators only, so no operand, no
      marker and no `(` reaches the output. */
  lemma {:induction false} PopPrecedentOutput(output: seq<string>, stack: seq<string>, op: string)
    requires AllOutputSymbols(output) && MarkersFollowOperands(output) && AllStackSymbols(stack)
    ensures var (out, rest) := PopPrecedent(output, stack, op);
      && AllOutputSymbols(out) && MarkersFollowOperands(out) && Operands(out) == Operands(output)
      && AllStackSymbols(rest) && multiset(rest)["("] == multiset(stack)["("]
  {
    var k := |PopPrecedent(output, stack, op).1|;
    var popped := Reverse(stack[k..]);
    assert forall j :: k <= j < |stack| ==> stack[j] != "(" by {
      PopPrecedentStops(output, stack, op);
    }
    PoppedSuffix(stack, k);
    OperandsAppend(output, popped);
    OutputExtend(output, popped);
  }

  lemma {:induction false} StepOperatorIs(s: State, t: string)
    requires IsOperatorSymbol(t) && !s.nextIsNegative && !s.previousIsOperation
    ensures var p := PopPrecedent(s.output, s.stack, t);
      Step(s, t) == Ok(State(p.0, p.1 + [t], false, true))
  {
    SymbolNotOperand(t);
    OperatorOfTrimmed(t);
  }

  lemma {:induction false} StepOperatorInvariant(s: State, t: string)
    requires Valid(s) && IsOperatorSymbol(t) && !s.nextIsNegative && !s.previousIsOperation
    ensures var s' := Step(s, t).value;
      && Valid(s')
      && Operands(s'.output) == Operands(s.output)
      && multiset(s'.stack)["("] == multiset(s.stack)["("]
  {
    StepOperatorIs(s, t);
    PopPrecedentOutput(s.output, s.stack, t);
    var stack := PopPrecedent(s.output, s.stack, t).1;
    assert multiset(stack + [t])["("] == multiset(stack)["("];
  }

  /** What a closing parenthesis pops: no operand and no marker reaches
      the output, and the stack loses at most one `(`. */
  lemma {:induction false} CloseGroupOutput(output: seq<string>, stack: seq<string>)
    requires AllOutputSymbols(output) && MarkersFollowOperands(output) && AllStackSymbols(stack)
    ensures var out := CloseGroup(output, stack).0;
      AllOutputSymbols(out) && MarkersFollowOperands(out) && Operands(out) == Operands(output)
  {
    var k := if "(" in stack then |CloseGroup(output, stack).1| + 1 else 0;
    assert stack[0..] == stack;
    PoppedSuffix(stack, k);
    OperandsAppend(output, Reverse(stack[k..]));
    OutputExtend(output, Reverse(stack[k..]));
  }

  lemma {:induction false} CloseGroupStack(output: seq<string>, stack: seq<string>)
    requires AllStackSymbols(stack)
    ensures var rest := CloseGroup(output, stack).1;
      AllStackSymbols(rest) && multiset(rest)["("] == DepthStep(multiset(stack)["("], ")")
  {
    var rest := CloseGroup(output, stack).1;
    if "(" in stack {
      var k := |rest| + 1;
      assert stack[..k] == rest + ["("];
      assert multiset(stack[..k])["("] == multiset(stack)["("] by {
        PoppedSuffix(stack, k);
      }
      assert AllStackSymbols(rest) by {
        assert forall j :: 0 <= j < |rest| ==> rest[j] == stack[j];
      }
    }
  }

  lemma {:induction false} StepCloseInvariant(s: State)
    requires Valid(s) && !s.nextIsNegative
    ensures var s' := Step(s, ")").value;
      && Valid(s')
      && Operands(s'.output) == Operands(s.output)
      && multiset(s'.stack)["("] == DepthStep(multiset(s.stack)["("], ")")
  {
    var (out, stack) := CloseGroup(s.output, s.stack);
    assert Step(s, ")") == Ok(s.(output := out, stack := stack)) by {
      SymbolNotOperand("(");
      assert !IsOperand(")") && !IsOperator(")");
    }
    CloseGroupOutput(s.output, s.stack);
    CloseGroupStack(s.output, s.stack);
  }

  /** How many `(` are open after the token `t` when `d` were open
      before: `(` opens one more, and `)` closes the innermost open one
      if there is one. */
  function DepthStep(d: nat, t: string): nat {
    if t == "(" then d + 1 else if t == ")" && d > 0 then d - 1 else d
  }

  function DepthAfter(d: nat, toks: seq<string>): nat
    decreases |toks|
  {
    if |toks| == 0 then d else DepthAfter(DepthStep(d, toks[0]), toks[1..])
  }

  /** The number of `(` in `toks` that no later `)` closes. */
  function OpenDepth(toks: seq<string>): nat {
    DepthAfter(0, toks)
  }

  lemma {:induction false} DepthAfterCons(d: nat, t: string, rest: seq<string>)
    ensures DepthAfter(d, [t] + rest) == DepthAfter(DepthStep(d, t), rest)
    ensures DepthAfter(d, [t]) == DepthStep(d, t)
  {
    assert ([t] + rest)[1..] == rest;
    assert [t][1..] == [];
  }

  /** The open count lies between the surplus of `(` over `)` and the
      number of `(`: a `)` with nothing open closes nothing. */
  lemma {:induction false} DepthBounds(d: nat, toks: seq<string>)
    ensures DepthAfter(d, toks) + multiset(toks)[")"] >= d + multiset(toks)["("]
    ensures DepthAfter(d, toks) <= d + multiset(toks)["("]
    decreases |toks|
  {
    if |toks| > 0 {
      var t, rest := toks[0], toks[1..];
      assert toks == [t] + rest;
      assert multiset(toks) == multiset([t]) + multiset(rest);
      DepthBounds(DepthStep(d, t), rest);
    }
  }

  /** From `s` to `s'` over `toks`: the state stays valid, the operands of
      `toks` were appended to the output in order, and the `(` on the
      stack are the ones open before plus those of `toks`, less every one
      a `)` of `toks` closed. */
  predicate Tracks(s: State, s': State, toks: seq<string>) {
    && Valid(s')
    && Operands(s'.output) == Operands(s.output) + Operands(toks)
    && multiset(s'.stack)["("] == DepthAfter(multiset(s.stack)["("], toks)
  }

  lemma {:induction false} TracksCompose(s: State, s1: State, s2: State, t: string, rest: seq<string>)
    requires Tracks(s, s1, [t]) && Tracks(s1, s2, rest)
    ensures Tracks(s, s2, [t] + rest)
  {
    var o, o1, o2 := Operands(s.output), Operands([t]), Operands(rest);
    assert Operands([t] + rest) == o1 + o2 by {
      OperandsAppend([t], rest);
    }
    AppendAssoc(o, o1, o2);
    DepthAfterCons(multiset(s.stack)["("], t, rest);
  }

  /** One step keeps the state valid, passes operands to the output in
      order, and opens or closes a `(` on the stack as the depth count
      says. */
  lemma {:induction false} StepInvariant(s: State, t: string)
    requires Valid(s) && Trim(t) == t
    requires Step(s, t).Ok?
    ensures Tracks(s, Step(s, t).value, [t])
  {
    OperatorOfTrimmed(t);
    DepthAfterCons(multiset(s.stack)["("], t, []);
    if IsOperand(t) {
      StepOperandInvariant(s, t);
      OperandShape(t);
    } else {
      assert Operands([t]) == [];
      if IsOperator(t) && !s.previousIsOperation {
        StepOperatorInvariant(s, t);
      } else if t == ")" {
        StepCloseInvariant(s);
      } else if t == "(" {
        assert Step(s, t).value.stack == s.stack + ["("];
      }
    }
  }

  /** The loop keeps the state valid, passes every operand to the output in
      the order it came, and every `(` that no `)` consumed stays on the
      stack. */
  lemma {:induction false} RunInvariant(s: State, toks: seq<string>)
    requires Valid(s)
    requires forall i :: 0 <= i < |toks| ==> Trim(toks[i]) == toks[i]
    requires Run(s, toks).Ok?
    ensures Tracks(s, Run(s, toks).value, toks)
    decreases |toks|
  {
    if |toks| == 0 {
      assert Operands(toks) == [];
    } else {
      var t := toks[0];
      StepInvariant(s, t);
      var s1 := Step(s, t).value;
      assert Run(s, toks) == Run(s1, toks[1..]);
      RunInvariant(s1, toks[1..]);
      TracksCompose(s, s1, Run(s, toks).value, t, toks[1..]);
      assert toks == [t] + toks[1..];
    }
  }

  lemma {:induction false} OutputSymbolShape(t: string)
    requires IsOutputSymbol(t)
    ensures IsPlainWord(t) && t != "(" && t != ")"
  {
    if IsOperand(t) {
      OperandShape(t);
    }
  }

  /** The stack, popped empty: no operand, no marker, no `)`, plain words
      only, and the same `(` entries. */
  lemma {:induction false} StackFlushed(stack: seq<string>)
    requires AllStackSymbols(stack)
    ensures var p := Reverse(stack);
      && Operands(p) == []
      && (forall i :: 0 <= i < |p| ==> p[i] != Negate && p[i] != ")" && IsPlainWord(p[i]))
      && multiset(p)["("] == multiset(stack)["("]
  {
    var p := Reverse(stack);
    ReverseMultiset(stack);
    forall i | 0 <= i < |p|
      ensures !IsOperand(p[i]) && p[i] != Negate && IsPlainWord(p[i]) && p[i] != ")"
    {
      assert p[i] == stack[|stack| - 1 - i];
      SymbolNotOperand(p[i]);
    }
    OperandsNone(p);
  }

  /** The output of the loop holds plain words and no parenthesis. */
  lemma {:induction false} OutputPlain(out: seq<string>)
    requires AllOutputSymbols(out)
    ensures forall i :: 0 <= i < |out| ==> IsPlainWord(out[i]) && out[i] != "(" && out[i] != ")"
    ensures multiset(out)["("] == 0
  {
    forall i | 0 <= i < |out| ensures IsPlainWord(out[i]) && out[i] != "(" && out[i] != ")" {
      OutputSymbolShape(out[i]);
    }
    assert "(" !in out;
  }

  /** Appending tokens other than `~` keeps every marker after an operand. */
  lemma {:induction false} MarkersAppend(a: seq<string>, b: seq<string>)
    requires MarkersFollowOperands(a)
    requires forall j :: 0 <= j < |b| ==> b[j] != Negate
    ensures MarkersFollowOperands(a + b)
  {
    forall i | 0 <= i < |a + b| && (a + b)[i] == Negate ensures i > 0 && IsOperand((a + b)[i - 1]) {
      if i < |a| {
        assert (a + b)[i] == a[i];
        assert (a + b)[i - 1] == a[i - 1];
      }
    }
  }

  /** The final flush of a valid state: the output gains the stack, top
      first, which adds no operand, no marker and no `)`, and every `(` in
      the result comes from the stack. */
  lemma {:induction false} FlushFacts(s: State)
    requires Valid(s)
    ensures var rpn := s.output + Reverse(s.stack);
      && Operands(rpn) == Operands(s.output)
      && MarkersFollowOperands(rpn)
      && ")" !in rpn
      && (forall i :: 0 <= i < |rpn| ==> IsPlainWord(rpn[i]))
      && multiset(rpn)["("] == multiset(s.stack)["("]
  {
    FlushOperands(s.output, s.stack);
    FlushShape(s.output, s.stack);
  }

  lemma {:induction false} FlushOperands(output: seq<string>, stack: seq<string>)
    requires MarkersFollowOperands(output) && AllStackSymbols(stack)
    ensures Operands(output + Reverse(stack)) == Operands(output)
    ensures MarkersFollowOperands(output + Reverse(stack))
  {
    var rest := Reverse(stack);
    StackFlushed(stack);
    OperandsAppend(output, rest);
    MarkersAppend(output, rest);
  }

  lemma {:induction false} FlushShape(output: seq<string>, stack: seq<string>)
    requires AllOutputSymbols(output) && AllStackSymbols(stack)
    ensures var rpn := output + Reverse(stack);
      && ")" !in rpn
      && (forall i :: 0 <= i < |rpn| ==> IsPlainWord(rpn[i]))
      && multiset(rpn)["("] == multiset(stack)["("]
  {
    var rest := Reverse(stack);
    var rpn := output + rest;
    StackFlushed(stack);
    OutputPlain(output);
    forall i | 0 <= i < |rpn| ensures IsPlainWord(rpn[i]) && rpn[i] != ")" {
      if i >= |output| {
        assert rpn[i] == rest[i - |output|];
      }
    }
    assert multiset(rpn) == multiset(output) + multiset(rest);
  }

  /** The headline facts about a successful conversion of tokenizer output:
      operands come out in their input order; every `~` comes right after
      an operand; no `)` is ever output; every token is a plain word (so the
      output text splits back into it); and the output holds one `(` for
      each `(` of the input that no `)` closed. */
  lemma {:induction false} ConvertTokensFacts(toks: seq<string>)
    requires forall i :: 0 <= i < |toks| ==> Trim(toks[i]) == toks[i]
    requires ConvertTokens(toks).Ok?
    ensures var rpn := ConvertTokens(toks).value;
      && Operands(rpn) == Operands(toks)
      && MarkersFollowOperands(rpn)
      && ")" !in rpn
      && (forall i :: 0 <= i < |rpn| ==> IsPlainWord(rpn[i]))
      && multiset(rpn)["("] == OpenDepth(toks)
  {
    RunInvariant(Start, toks);
    var s := Run(Start, toks).value;
    assert ConvertTokens(toks).value == s.output + Reverse(s.stack);
    FlushFacts(s);
  }

  /** The converter's text splits back into its token list at blanks, which
      is what `preprocessExpression` relies on. */
  lemma {:induction false} ScanRpnText(toks: seq<string>)
    requires forall i :: 0 <= i < |toks| ==> Trim(toks[i]) == toks[i]
    requires ConvertTokens(toks).Ok?
    ensures Scan(Trim(Spaced(ConvertTokens(toks).value))) == ConvertTokens(toks).value
  {
    ConvertTokensFacts(toks);
    ScanTrimSpaced(ConvertTokens(toks).value);
  }
}
