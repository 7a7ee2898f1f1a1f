/** The evaluation half of `ExpressionCalc`: `preprocessExpression`, which
    binds every variable of the postfix text to the next input value the
    first time it is met, `evaluate`, the value-stack machine, `applyOp`,
    and `evaluateExpression`, which runs conversion, binding and
    evaluation in that order. */
module Evaluator {
  import opened Outcomes
  import opened Seqs
  import opened Text
  import opened Tokenizer
  import opened Classify
  import opened Converter

  /** A token of the text `evaluate` scans: a word copied from the postfix
      text, or the value substituted for a variable. */
  datatype EvalToken = Lit(text: string) | Val(value: real)

  datatype BinOp = Add | Sub | Mul | Div

  /** The binary operator a token names, if it is one of `+ - * /`. */
  function BinOpOf(t: string): (r: Option<BinOp>)
    ensures r.Some? <==> IsOperatorSymbol(t)
  {
    if t == "+" then Some(Add)
    else if t == "-" then Some(Sub)
    else if t == "*" then Some(Mul)
    else if t == "/" then Some(Div)
    else None
  }

  /** `applyOp(op, b, a)`: `a op b`, where `b` is the value popped first.
      Division by zero is an error; otherwise the result is the one value
      that undoes the operation. */
  function ApplyOp(op: BinOp, b: real, a: real): (r: Result<real>)
    ensures r.Err? <==> op == Div && b == 0.0
    ensures r.Err? ==> r.error == DivisionByZero
    ensures r.Ok? && op == Add ==> r.value - b == a
    ensures r.Ok? && op == Sub ==> r.value + b == a
    ensures r.Ok? && op == Mul ==> (b != 0.0 ==> r.value / b == a) && (b == 0.0 ==> r.value == 0.0)
    ensures r.Ok? && op == Div ==> r.value * b == a
  {
    match op
    case Add => Ok(a + b)
    case Sub => Ok(a - b)
    case Mul =>
      if b != 0.0 then MulCancels(a, b); Ok(a * b)
      else Ok(a * b)
    case Div =>
      if b == 0.0 then Err(DivisionByZero)
      else
        DivCancels(a, b);
        Ok(a / b)
  }

  lemma {:induction false} MulCancels(a: real, b: real)
    requires b != 0.0
    ensures (a * b) / b == a
  {
  }

  lemma {:induction false} DivCancels(a: real, b: real)
    requires b != 0.0
    ensures (a / b) * b == a
  {
  }

  /** One round of the `evaluate` loop on the value stack (top last). */
  function ExecToken(stack: seq<real>, tok: EvalToken, vars: map<string, real>): (r: Result<seq<real>>)
    // a value is pushed
    ensures tok.Val? ==> r == Ok(stack + [tok.value])
    // a binary operator needs two values, pops `b` then `a`, pushes the
    // result and leaves the rest of the stack alone
    ensures tok.Lit? && IsOperatorSymbol(tok.text) ==>
      if |stack| < 2 then r == Err(IncorrectExpression)
      else
        var b, a := stack[|stack| - 1], stack[|stack| - 2];
        var v := ApplyOp(BinOpOf(tok.text).value, b, a);
        && (r.Err? <==> v.Err?)
        && (r.Err? ==> r.error == v.error)
        && (r.Ok? ==> |r.value| == |stack| - 1
                      && r.value[..|stack| - 2] == stack[..|stack| - 2]
                      && r.value[|stack| - 2] == v.value)
    // a number word pushes the value it denotes
    ensures tok.Lit? && IsUnsignedNumber(tok.text) ==> r == Ok(stack + [ParseNumber(tok.text)])
    // a variable word pushes its value, and is undefined when unbound
    ensures tok.Lit? && IsVariable(tok.text) ==>
      r == if tok.text in vars then Ok(stack + [vars[tok.text]]) else Err(UndefinedVariable(tok.text))
    // `~` needs one value and negates the top, leaving the rest alone
    ensures tok == Lit(Negate) ==>
      if |stack| == 0 then r == Err(EmptyStack)
      else
        && r.Ok? && |r.value| == |stack|
        && r.value[..|stack| - 1] == stack[..|stack| - 1]
        && r.value[|stack| - 1] == -stack[|stack| - 1]
    // a word that is neither number, variable, operator nor `~` is rejected
    ensures tok.Lit? && !IsUnsignedNumber(tok.text) && !IsVariable(tok.text)
            && !IsOperatorSymbol(tok.text) && tok.text != Negate ==>
      r == Err(InvalidToken(tok.text))
  {
    match tok
    case Val(v) => Ok(stack + [v])
    case Lit(t) =>
      assert IsVariable(t) ==> !IsUnsignedNumber(t) by {
        if IsVariable(t) {
          OperandShape(t);
        }
      }
      if IsUnsignedNumber(t) then Ok(stack + [ParseNumber(t)])
      else if IsVariable(t) then
        if t in vars then Ok(stack + [vars[t]]) else Err(UndefinedVariable(t))
      else if IsOperatorSymbol(t) then
        if |stack| < 2 then Err(IncorrectExpression)
        else
          var v :- ApplyOp(BinOpOf(t).value, stack[|stack| - 1], stack[|stack| - 2]);
          Ok(stack[..|stack| - 2] + [v])
      else if t == Negate then
        if |stack| == 0 then Err(EmptyStack)
        else Ok(stack[..|stack| - 1] + [-stack[|stack| - 1]])
      else Err(InvalidToken(t))
  }

  /** The `evaluate` loop over all tokens, stopping at the first error. */
  function Exec(stack: seq<real>, toks: seq<EvalToken>, vars: map<string, real>): Result<seq<real>>
    decreases |toks|
  {
    if |toks| == 0 then Ok(stack)
    else
      var stack' :- ExecToken(stack, toks[0], vars);
      Exec(stack', toks[1..], vars)
  }

  /** What a token that succeeds does to the height of the value stack:
      a value, a number or a variable adds one, a binary operator takes
      two and gives one back, and `~` keeps the height. */
  function Effect(tok: EvalToken): int {
    match tok
    case Val(_) => 1
    case Lit(t) =>
      if IsUnsignedNumber(t) || IsVariable(t) then 1
      else if IsOperatorSymbol(t) then -1
      else 0
  }

  function Effects(toks: seq<EvalToken>): int
    decreases |toks|
  {
    if |toks| == 0 then 0 else Effect(toks[0]) + Effects(toks[1..])
  }

  /** A run that succeeds ends with the stack height the tokens' effects
      add up to. */
  lemma {:induction false} ExecHeight(stack: seq<real>, toks: seq<EvalToken>, vars: map<string, real>)
    ensures Exec(stack, toks, vars).Ok? ==> |Exec(stack, toks, vars).value| == |stack| + Effects(toks)
    decreases |toks|
  {
    if |toks| > 0 {
      var r := ExecToken(stack, toks[0], vars);
      if r.Ok? {
        ExecHeight(r.value, toks[1..], vars);
      }
    }
  }

  /** A postfix sequence evaluates to a value only if its operands
      outnumber its binary operators by exactly one. */
  lemma {:induction false} EvaluateBalance(toks: seq<EvalToken>, vars: map<string, real>)
    ensures Evaluate(toks, vars).Ok? ==> Effects(toks) == 1
  {
    ExecHeight([], toks, vars);
  }

  /** `evaluate`: run the stack machine from an empty stack; the result is
      the single value left, and any other number of values is an invalid
      expression. */
  function Evaluate(toks: seq<EvalToken>, vars: map<string, real>): (r: Result<real>)
    ensures var e := Exec([], toks, vars);
      && (r.Ok? <==> e.Ok? && |e.value| == 1)
      && (r.Ok? ==> r.value == e.value[0])
      && (e.Ok? && |e.value| != 1 ==> r == Err(InvalidExpression))
      && (e.Err? ==> r == Err(e.error))
  {
    var values :- Exec([], toks, vars);
    if |values| != 1 then Err(InvalidExpression) else Ok(values[0])
  }

  lemma {:induction false} ExecAppend(stack: seq<real>, a: seq<EvalToken>, b: seq<EvalToken>, vars: map<string, real>)
    ensures Exec(stack, a + b, vars) ==
      (match Exec(stack, a, vars) case Ok(s) => Exec(s, b, vars) case Err(e) => Err(e))
    decreases |a|
  {
    if |a| == 0 {
      assert a + b == b;
    } else {
      assert (a + b)[0] == a[0];
      assert (a + b)[1..] == a[1..] + b;
      match ExecToken(stack, a[0], vars)
      case Ok(s) => ExecAppend(s, a[1..], b, vars);
      case Err(_) =>
    }
  }

  /** A word the machine does not know anywhere in the input makes the
      whole evaluation fail, whatever comes before it. */
  lemma {:induction false} UnknownTokenFails(stack: seq<real>, toks: seq<EvalToken>, vars: map<string, real>, i: nat)
    requires i < |toks| && toks[i].Lit?
    requires var t := toks[i].text;
      !IsUnsignedNumber(t) && !IsVariable(t) && !IsOperatorSymbol(t) && t != Negate
    ensures Exec(stack, toks, vars).Err?
    decreases i
  {
    if i > 0 {
      match ExecToken(stack, toks[0], vars)
      case Ok(s) => UnknownTokenFails(s, toks[1..], vars, i - 1);
      case Err(_) =>
    }
  }

  // ---------------------------------------------------------------------
  // Variable binding

  /** The variables of `words` not in `known`, each once, in the order of
      their first occurrence. */
  function NewVars(words: seq<string>, known: set<string>): (r: seq<string>)
    ensures forall i :: 0 <= i < |r| ==> r[i] !in known
    ensures forall i, j :: 0 <= i < j < |r| ==> r[i] != r[j]
    decreases |words|
  {
    if |words| == 0 then []
    else
      var w := words[0];
      if IsVariable(w) && w !in known then [w] + NewVars(words[1..], known + {w})
      else NewVars(words[1..], known)
  }

  /** The new variables are exactly the variables of `words` outside
      `known`. */
  lemma {:induction false} NewVarsFacts(words: seq<string>, known: set<string>)
    ensures var r := NewVars(words, known);
      forall w :: w in r <==> w in words && IsVariable(w) && w !in known
    decreases |words|
  {
    if |words| > 0 {
      var w := words[0];
      if IsVariable(w) && w !in known {
        NewVarsFacts(words[1..], known + {w});
      } else {
        NewVarsFacts(words[1..], known);
      }
      assert forall v :: v in words <==> v == w || v in words[1..];
    }
  }

  /** Only the operands of a word sequence matter for its variables. */
  lemma {:induction false} NewVarsOperands(words: seq<string>, known: set<string>)
    ensures NewVars(words, known) == NewVars(Operands(words), known)
    decreases |words|
  {
    if |words| > 0 {
      var w := words[0];
      var ops := Operands(words[1..]);
      if IsOperand(w) {
        assert Operands(words) == [w] + ops;
        assert ([w] + ops)[1..] == ops;
        NewVarsOperands(words[1..], if IsVariable(w) && w !in known then known + {w} else known);
      } else {
        assert Operands(words) == ops;
        NewVarsOperands(words[1..], known);
      }
    }
  }

  /** The map giving `names[i]` the value `values[i]`. */
  function Bindings(names: seq<string>, values: seq<real>): (m: map<string, real>)
    requires |values| >= |names|
    requires forall i, j :: 0 <= i < j < |names| ==> names[i] != names[j]
    ensures m.Keys == set i | 0 <= i < |names| :: names[i]
    ensures forall i :: 0 <= i < |names| ==> m[names[i]] == values[i]
  {
    if |names| == 0 then map[]
    else
      var m := Bindings(names[1..], values[1..])[names[0] := values[0]];
      assert forall i :: 1 <= i < |names| ==> names[i] == names[1..][i - 1];
      m
  }

  function SubstOne(w: string, vars: map<string, real>): EvalToken {
    if IsVariable(w) && w in vars then Val(vars[w]) else Lit(w)
  }

  /** Each word, with bound variables replaced by their values. */
  function Subst(words: seq<string>, vars: map<string, real>): (r: seq<EvalToken>)
    ensures |r| == |words|
    ensures forall i :: 0 <= i < |words| ==> r[i] == SubstOne(words[i], vars)
  {
    seq(|words|, i requires 0 <= i < |words| => SubstOne(words[i], vars))
  }

  lemma {:induction false} SubstAppend(a: seq<string>, b: seq<string>, vars: map<string, real>)
    ensures Subst(a + b, vars) == Subst(a, vars) + Subst(b, vars)
  {
  }

  lemma {:induction false} SubstCons(words: seq<string>, vars: map<string, real>)
    requires |words| > 0
    ensures Subst(words, vars) == [SubstOne(words[0], vars)] + Subst(words[1..], vars)
  {
    var r := [SubstOne(words[0], vars)] + Subst(words[1..], vars);
    assert forall i :: 0 <= i < |words| ==> r[i] == SubstOne(words[i], vars) by {
      forall i | 0 <= i < |words| ensures r[i] == SubstOne(words[i], vars) {
        if i > 0 {
          assert r[i] == Subst(words[1..], vars)[i - 1];
        }
      }
    }
  }

  lemma {:induction false} UpdateUnion(m: map<string, real>, k: string, v: real, n: map<string, real>)
    requires k !in n
    ensures m[k := v] + n == m + n[k := v]
  {
    var lhs := m[k := v] + n;
    var rhs := m + n[k := v];
    assert lhs.Keys == rhs.Keys;
    forall x | x in lhs.Keys ensures lhs[x] == rhs[x] {
    }
  }

  datatype Bound = Bound(tokens: seq<EvalToken>, vars: map<string, real>, rest: seq<real>)

  /** `preprocessExpression` over the scanned postfix words, with the
      values typed at the prompts given as `inputs`: a variable not yet
      bound takes the next input value, every occurrence of a variable is
      replaced by its value, and other words are copied.  The only error
      is running out of input. */
  function Preprocess(words: seq<string>, vars: map<string, real>, inputs: seq<real>): (r: Result<Bound>)
    ensures r.Err? ==> r.error == NoInputLine
    decreases |words|
  {
    if |words| == 0 then Ok(Bound([], vars, inputs))
    else
      var w := words[0];
      if IsVariable(w) then
        if w in vars then
          var b :- Preprocess(words[1..], vars, inputs);
          Ok(Bound([Val(vars[w])] + b.tokens, b.vars, b.rest))
        else if |inputs| == 0 then
          Err(NoInputLine)
        else
          var b :- Preprocess(words[1..], vars[w := inputs[0]], inputs[1..]);
          Ok(Bound([Val(inputs[0])] + b.tokens, b.vars, b.rest))
      else
        var b :- Preprocess(words[1..], vars, inputs);
        Ok(Bound([Lit(w)] + b.tokens, b.vars, b.rest))
  }

  /** What binding achieves: the distinct new variables consume one input
      value each, in first-occurrence order, and binding fails exactly when
      the input runs out first; on success every occurrence of a variable
      carries the one value bound to it, and the unused input is left. */
  predicate BindsInOrder(words: seq<string>, vars: map<string, real>, inputs: seq<real>) {
    var nv := NewVars(words, vars.Keys);
    var r := Preprocess(words, vars, inputs);
    && (r.Ok? <==> |inputs| >= |nv|)
    && (r.Ok? ==>
          && r.value.vars == vars + Bindings(nv, inputs)
          && r.value.tokens == Subst(words, r.value.vars)
          && r.value.rest == inputs[|nv|..])
  }

  lemma {:induction false} BindsNewVariable(words: seq<string>, vars: map<string, real>, inputs: seq<real>)
    requires |words| > 0 && IsVariable(words[0]) && words[0] !in vars && |inputs| > 0
    requires BindsInOrder(words[1..], vars[words[0] := inputs[0]], inputs[1..])
    ensures BindsInOrder(words, vars, inputs)
  {
    var w := words[0];
    var tail := words[1..];
    var vars' := vars[w := inputs[0]];
    assert vars'.Keys == vars.Keys + {w};
    var nv := NewVars(words, vars.Keys);
    var nv' := NewVars(tail, vars'.Keys);
    assert nv == [w] + nv';
    var r := Preprocess(tail, vars', inputs[1..]);
    assert Preprocess(words, vars, inputs).Ok? <==> r.Ok?;
    if r.Ok? {
      var b := r.value;
      var bind' := Bindings(nv', inputs[1..]);
      assert nv[1..] == nv';
      assert Bindings(nv, inputs) == bind'[w := inputs[0]];
      assert w !in bind';
      UpdateUnion(vars, w, inputs[0], bind');
      assert b.vars[w] == inputs[0];
      SubstCons(words, b.vars);
      assert inputs[|nv|..] == inputs[1..][|nv'|..];
    }
  }

  lemma {:induction false} BindsOtherWord(words: seq<string>, vars: map<string, real>, inputs: seq<real>)
    requires |words| > 0 && !(IsVariable(words[0]) && words[0] !in vars)
    requires BindsInOrder(words[1..], vars, inputs)
    ensures BindsInOrder(words, vars, inputs)
  {
    var w := words[0];
    var tail := words[1..];
    assert NewVars(words, vars.Keys) == NewVars(tail, vars.Keys);
    var r := Preprocess(tail, vars, inputs);
    if r.Ok? {
      var b := r.value;
      if IsVariable(w) {
        assert b.vars[w] == vars[w];
      }
      SubstCons(words, b.vars);
    }
  }

  lemma {:induction false} PreprocessBinds(words: seq<string>, vars: map<string, real>, inputs: seq<real>)
    ensures BindsInOrder(words, vars, inputs)
    decreases |words|
  {
    if |words| == 0 {
      assert inputs[0..] == inputs;
    } else {
      var w := words[0];
      if IsVariable(w) && w !in vars {
        if |inputs| > 0 {
          PreprocessBinds(words[1..], vars[w := inputs[0]], inputs[1..]);
          BindsNewVariable(words, vars, inputs);
        }
      } else {
        PreprocessBinds(words[1..], vars, inputs);
        BindsOtherWord(words, vars, inputs);
      }
    }
  }

  /** `evaluateExpression`: convert, bind the variables of the postfix
      text, then evaluate. */
  function EvaluateExpression(expr: string, inputs: seq<real>): Result<real>
  {
    var text :- InfixToRpn(expr);
    var bound :- Preprocess(Scan(text), map[], inputs);
    Evaluate(bound.tokens, bound.vars)
  }

  // ---------------------------------------------------------------------
  // The pipeline as a whole

  /** Binding stated by its outcome rather than by its loop: all distinct
      variables of `rpn` take the leading input values in first-occurrence
      order, or the input runs out; then the substituted sequence is
      evaluated. */
  function BindThenEvaluate(rpn: seq<string>, inputs: seq<real>): Result<real>
  {
    var nv := NewVars(rpn, {});
    if |inputs| < |nv| then Err(NoInputLine)
    else
      var vars := Bindings(nv, inputs);
      Evaluate(Subst(rpn, vars), vars)
  }

  /** `evaluateExpression` step by step: the conversion's error, if any;
      otherwise every distinct variable of the postfix sequence is bound
      to the next input value in first-occurrence order, and the input
      running out is reported before any arithmetic is done; otherwise the
      substituted postfix sequence is evaluated. */
  lemma {:induction false} PipelineSteps(expr: string, inputs: seq<real>)
    ensures var c := ConvertTokens(Tokenize(expr));
      EvaluateExpression(expr, inputs) ==
        if c.Err? then Err(c.error) else BindThenEvaluate(c.value, inputs)
  {
    var toks := Tokenize(expr);
    var c := ConvertTokens(toks);
    if c.Ok? {
      var rpn := c.value;
      var r := Preprocess(rpn, map[], inputs);
      assert EvaluateExpression(expr, inputs) ==
        if r.Err? then Err(r.error) else Evaluate(r.value.tokens, r.value.vars) by {
        ScanRpnText(toks);
        assert InfixToRpn(expr) == Ok(Trim(Spaced(rpn)));
      }
      assert BindThenEvaluate(rpn, inputs) ==
        if r.Err? then Err(r.error) else Evaluate(r.value.tokens, r.value.vars) by {
        var empty: map<string, real> := map[];
        assert empty.Keys == {};
        PreprocessBinds(rpn, empty, inputs);
        var nv := NewVars(rpn, {});
        if |inputs| >= |nv| {
          var vars := Bindings(nv, inputs);
          assert empty + vars == vars;
        }
      }
    }
  }

  /** A `(` left in the postfix sequence makes binding and evaluation
      fail. */
  lemma {:induction false} StrayParenthesisFails(rpn: seq<string>, inputs: seq<real>)
    requires "(" in rpn
    ensures BindThenEvaluate(rpn, inputs).Err?
  {
    var nv := NewVars(rpn, {});
    if |inputs| >= |nv| {
      var vars := Bindings(nv, inputs);
      var i :| 0 <= i < |rpn| && rpn[i] == "(";
      var sub := Subst(rpn, vars);
      assert sub[i] == Lit("(");
      UnknownTokenFails([], sub, vars, i);
    }
  }

  /** An expression with a `(` that no later `)` closes always fails: the
      open `(` reaches the postfix sequence, which the evaluator rejects,
      unless an earlier error stops it first.  This covers every expression
      with more `(` than `)`, and also ones like `a)+(b` where the counts
      agree. */
  lemma {:induction false} UnclosedParenthesisFails(expr: string, inputs: seq<real>)
    requires OpenDepth(Tokenize(expr)) > 0
    ensures EvaluateExpression(expr, inputs).Err?
  {
    var toks := Tokenize(expr);
    PipelineSteps(expr, inputs);
    if ConvertTokens(toks).Ok? {
      var rpn := ConvertTokens(toks).value;
      ConvertTokensFacts(toks);
      assert multiset(rpn)["("] > 0;
      StrayParenthesisFails(rpn, inputs);
    }
  }

  /** On a substituted word sequence in which every `~` follows an operand,
      the marker never meets an empty stack. */
  lemma {:induction false} ExecNeverUnderflows(stack: seq<real>, words: seq<string>, vars: map<string, real>)
    requires |words| > 0 && words[0] == Negate ==> |stack| > 0
    requires forall i :: 1 <= i < |words| && words[i] == Negate ==> IsOperand(words[i - 1])
    ensures Exec(stack, Subst(words, vars), vars) != Err(EmptyStack)
    decreases |words|
  {
    if |words| > 0 {
      var w := words[0];
      SubstCons(words, vars);
      var r := ExecToken(stack, SubstOne(w, vars), vars);
      if r.Ok? {
        assert IsOperand(w) ==> |r.value| > 0;
        ExecNeverUnderflows(r.value, words[1..], vars);
      }
    }
  }

  /** With every variable bound, no variable is left for `evaluate` to
      look up. */
  lemma {:induction false} ExecNeverUndefined(stack: seq<real>, words: seq<string>, vars: map<string, real>)
    requires forall i :: 0 <= i < |words| && IsVariable(words[i]) ==> words[i] in vars
    ensures !(Exec(stack, Subst(words, vars), vars).Err? && Exec(stack, Subst(words, vars), vars).error.UndefinedVariable?)
    decreases |words|
  {
    if |words| > 0 {
      SubstCons(words, vars);
      var r := ExecToken(stack, SubstOne(words[0], vars), vars);
      if r.Ok? {
        ExecNeverUndefined(r.value, words[1..], vars);
      }
    }
  }

  /** The two errors `evaluate` keeps for impossible situations never
      occur: the converter puts every `~` right after an operand, so the
      marker never meets an empty stack, and binding gives every variable
      a value. */
  lemma {:induction false} UnreachableErrors(expr: string, inputs: seq<real>)
    ensures EvaluateExpression(expr, inputs) != Err(EmptyStack)
    ensures !(EvaluateExpression(expr, inputs).Err? && EvaluateExpression(expr, inputs).error.UndefinedVariable?)
  {
    var toks := Tokenize(expr);
    PipelineSteps(expr, inputs);
    if ConvertTokens(toks).Ok? {
      var rpn := ConvertTokens(toks).value;
      ConvertTokensFacts(toks);
      BoundNeverUnderflows(rpn, inputs);
      BoundNeverUndefined(rpn, inputs);
    }
  }

  lemma {:induction false} BoundNeverUnderflows(rpn: seq<string>, inputs: seq<real>)
    requires MarkersFollowOperands(rpn)
    ensures BindThenEvaluate(rpn, inputs) != Err(EmptyStack)
  {
    var nv := NewVars(rpn, {});
    if |inputs| >= |nv| {
      var vars := Bindings(nv, inputs);
      assert |rpn| > 0 ==> rpn[0] != Negate;
      ExecNeverUnderflows([], rpn, vars);
    }
  }

  lemma {:induction false} BoundNeverUndefined(rpn: seq<string>, inputs: seq<real>)
    ensures !(BindThenEvaluate(rpn, inputs).Err? && BindThenEvaluate(rpn, inputs).error.UndefinedVariable?)
  {
    var nv := NewVars(rpn, {});
    if |inputs| >= |nv| {
      var vars := Bindings(nv, inputs);
      NewVarsFacts(rpn, {});
      forall i | 0 <= i < |rpn| && IsVariable(rpn[i]) ensures rpn[i] in vars {
        assert rpn[i] in nv;
      }
      ExecNeverUndefined([], rpn, vars);
    }
  }
}
