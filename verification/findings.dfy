/** What `preprocessExpression` does with a variable's value as written:
    it appends `Double.toString` of the value to the text it hands to
    `evaluate`, which reads the text back with the regular expression
    `\d+(\.\d+)?`.  The text of a negative value starts with `-`, matches
    no branch of `evaluate`, and the expression fails with
    "Invalid token: -1.0" where the value was meant.  The rest of the model
    substitutes the value itself (`Evaluator.Preprocess`), which keeps any
    sign; the two agree on every nonnegative whole value. */
module Findings {
  import opened Outcomes
  import opened Classify
  import opened Converter
  import opened Evaluator
  import opened Grammar

  /** `Double.toString` writes whole values of smaller magnitude than this
      as plain digits followed by `.0`. */
  const WholeLimit: int := 10000000

  predicate InRange(n: int) {
    -WholeLimit < n < WholeLimit
  }

  /** The decimal digits of a natural number, most significant first. */
  function NatText(n: nat): (s: string)
    ensures |s| > 0 && AllDigits(s)
  {
    var d := ['0' + (n % 10) as char];
    if n < 10 then d else NatText(n / 10) + d
  }

  lemma {:induction false} DigitsValueOfNatText(n: nat)
    ensures DigitsValue(NatText(n)) == n
  {
    var s := NatText(n);
    assert DigitValue(s[|s| - 1]) == n % 10;
    if n >= 10 {
      assert s[..|s| - 1] == NatText(n / 10);
      DigitsValueOfNatText(n / 10);
    }
  }

  /** `Double.toString` of a whole value within range: an optional minus
      sign, the decimal digits of the magnitude, and `.0`. */
  function WholeText(n: int): string
    requires InRange(n)
  {
    (if n < 0 then "-" else "") + NatText(if n < 0 then -n else n) + ".0"
  }

  /** The text of a nonnegative whole value is a number token, and the
      evaluator reads the value back from it. */
  lemma {:induction false} ParseWholeText(n: nat)
    requires n < WholeLimit
    ensures IsUnsignedNumber(WholeText(n))
    ensures ParseNumber(WholeText(n)) == n as real
  {
    var d := NatText(n);
    assert WholeText(n) == d + ".0";
    ParseDotZero(d);
    DigitsValueOfNatText(n);
  }

  /** Digits followed by `.0` read as the number the digits denote. */
  lemma {:induction false} ParseDotZero(d: string)
    requires |d| > 0 && AllDigits(d)
    ensures IsUnsignedNumber(d + ".0")
    ensures ParseNumber(d + ".0") == DigitsValue(d) as real
  {
    var s := d + ".0";
    LeadingDigitsOfDigits(d, ".0");
    assert s[..|d|] == d;
    assert s[|d| + 1..] == "0";
    assert s[|d|] == '.' && AllDigits("0") && DigitsValue("0") == 0;
  }

  /** The text of a negative value is none of the words `evaluate` knows. */
  lemma {:induction false} NegativeTextRejected(n: int)
    requires InRange(n) && n < 0
    ensures var t := WholeText(n);
      !IsUnsignedNumber(t) && !IsVariable(t) && !IsOperatorSymbol(t) && t != Negate
  {
    var t := WholeText(n);
    assert t[0] == '-' && |t| >= 4;
    assert LeadingDigits(t) == 0;
  }

  /** One evaluation step on the text of a value: it pushes the value
      exactly when the value is nonnegative, and otherwise rejects the
      text as an invalid token. */
  lemma {:induction false} TextTokenStep(stack: seq<real>, n: int, vars: map<string, real>)
    requires InRange(n)
    ensures ExecToken(stack, Lit(WholeText(n)), vars) ==
      if n >= 0 then ExecToken(stack, Val(n as real), vars) else Err(InvalidToken(WholeText(n)))
  {
    if n >= 0 {
      ParseWholeText(n);
    } else {
      NegativeTextRejected(n);
    }
  }

  predicate AllInRange(inputs: seq<int>) {
    forall i :: 0 <= i < |inputs| ==> InRange(inputs[i])
  }

  predicate MapInRange(vars: map<string, int>) {
    forall k :: k in vars ==> InRange(vars[k])
  }

  /** `preprocessExpression` as written, for whole input values: every
      variable is replaced by the text of its value, a variable not bound
      yet taking the next input value; running out of input is the only
      error.  The text has no blanks, so `evaluate`'s `Scanner` gives back
      exactly these words. */
  function SubstituteText(words: seq<string>, vars: map<string, int>, inputs: seq<int>)
    : (r: Result<(seq<string>, map<string, int>)>)
    requires MapInRange(vars) && AllInRange(inputs)
    ensures r.Err? ==> r.error == NoInputLine
    ensures r.Ok? ==> |r.value.0| == |words| && MapInRange(r.value.1)
    decreases |words|
  {
    if |words| == 0 then Ok(([], vars))
    else
      var w := words[0];
      if IsVariable(w) then
        if w in vars then
          var b :- SubstituteText(words[1..], vars, inputs);
          Ok(([WholeText(vars[w])] + b.0, b.1))
        else if |inputs| == 0 then
          Err(NoInputLine)
        else
          var b :- SubstituteText(words[1..], vars[w := inputs[0]], inputs[1..]);
          Ok(([WholeText(inputs[0])] + b.0, b.1))
      else
        var b :- SubstituteText(words[1..], vars, inputs);
        Ok(([w] + b.0, b.1))
  }

  function Lits(words: seq<string>): (r: seq<EvalToken>)
    ensures |r| == |words|
    ensures forall i :: 0 <= i < |words| ==> r[i] == Lit(words[i])
  {
    seq(|words|, i requires 0 <= i < |words| => Lit(words[i]))
  }

  function RealMap(vars: map<string, int>): (m: map<string, real>)
    ensures m.Keys == vars.Keys
    ensures forall k :: k in vars ==> m[k] == vars[k] as real
  {
    map k | k in vars :: vars[k] as real
  }

  function Reals(inputs: seq<int>): (r: seq<real>)
    ensures |r| == |inputs|
    ensures forall i :: 0 <= i < |inputs| ==> r[i] == inputs[i] as real
  {
    seq(|inputs|, i requires 0 <= i < |inputs| => inputs[i] as real)
  }

  /** The binding and evaluation stages of `evaluateExpression` as
      written, on the words of the postfix text. */
  function EvaluateAsWritten(rpn: seq<string>, inputs: seq<int>): Result<real>
    requires AllInRange(inputs)
  {
    var b :- SubstituteText(rpn, map[], inputs);
    Evaluate(Lits(b.0), RealMap(b.1))
  }

  /** The same stages with the values substituted, as the rest of the
      model does. */
  function EvaluateBound(rpn: seq<string>, inputs: seq<real>): Result<real>
  {
    var b :- Preprocess(rpn, map[], inputs);
    Evaluate(b.tokens, b.vars)
  }

  // ---------------------------------------------------------------------
  // Where the two agree

  /** `x` executes as `y` does: the same token, or number text that
      reads as the value `y` carries. */
  predicate Agrees(x: EvalToken, y: EvalToken) {
    x == y || (x.Lit? && y.Val? && IsUnsignedNumber(x.text) && ParseNumber(x.text) == y.value)
  }

  predicate AllAgree(xs: seq<EvalToken>, ys: seq<EvalToken>) {
    |xs| == |ys| && forall i :: 0 <= i < |xs| ==> Agrees(xs[i], ys[i])
  }

  lemma {:induction false} AllAgreeCons(x: EvalToken, y: EvalToken, xs: seq<EvalToken>, ys: seq<EvalToken>)
    requires Agrees(x, y) && AllAgree(xs, ys)
    ensures AllAgree([x] + xs, [y] + ys)
  {
    forall i | 0 <= i < |xs| + 1 ensures Agrees(([x] + xs)[i], ([y] + ys)[i]) {
      if i > 0 {
        assert ([x] + xs)[i] == xs[i - 1] && ([y] + ys)[i] == ys[i - 1];
      }
    }
  }

  /** Tokens that agree one by one evaluate alike. */
  lemma {:induction false} ExecAgrees(stack: seq<real>, xs: seq<EvalToken>, ys: seq<EvalToken>, vars: map<string, real>)
    requires AllAgree(xs, ys)
    ensures Exec(stack, xs, vars) == Exec(stack, ys, vars)
    decreases |xs|
  {
    if |xs| > 0 {
      assert ExecToken(stack, xs[0], vars) == ExecToken(stack, ys[0], vars) by {
        assert Agrees(xs[0], ys[0]);
      }
      assert AllAgree(xs[1..], ys[1..]) by {
        forall i | 0 <= i < |xs| - 1 ensures Agrees(xs[1..][i], ys[1..][i]) {
          assert xs[1..][i] == xs[i + 1] && ys[1..][i] == ys[i + 1];
        }
      }
      match ExecToken(stack, xs[0], vars)
      case Ok(s) => ExecAgrees(s, xs[1..], ys[1..], vars);
      case Err(_) =>
    }
  }

  predicate NonNegative(inputs: seq<int>) {
    forall i :: 0 <= i < |inputs| ==> inputs[i] >= 0
  }

  predicate MapNonNegative(vars: map<string, int>) {
    forall k :: k in vars ==> vars[k] >= 0
  }

  /** The text of a nonnegative whole value agrees with the value. */
  lemma {:induction false} WholeTextAgrees(n: int)
    requires InRange(n) && n >= 0
    ensures Agrees(Lit(WholeText(n)), Val(n as real))
  {
    ParseWholeText(n);
  }

  lemma {:induction false} LitsCons(w: string, ws: seq<string>)
    ensures Lits([w] + ws) == [Lit(w)] + Lits(ws)
  {
  }

  lemma {:induction false} RealsFacts(inputs: seq<int>)
    requires |inputs| > 0
    ensures Reals(inputs)[0] == inputs[0] as real
    ensures Reals(inputs)[1..] == Reals(inputs[1..])
  {
  }

  lemma {:induction false} RealMapUpdate(vars: map<string, int>, w: string, n: int)
    ensures RealMap(vars[w := n]) == RealMap(vars)[w := n as real]
  {
  }

  /** Binding by text and binding by value, on nonnegative whole values:
      both fail together, and on success they bind the same values and
      yield tokens that agree one by one. */
  lemma {:induction false} SubstituteAgrees(words: seq<string>, vars: map<string, int>, inputs: seq<int>)
    requires MapInRange(vars) && AllInRange(inputs)
    requires MapNonNegative(vars) && NonNegative(inputs)
    ensures var t, p := SubstituteText(words, vars, inputs), Preprocess(words, RealMap(vars), Reals(inputs));
      && (t.Ok? <==> p.Ok?)
      && (t.Ok? ==> AllAgree(Lits(t.value.0), p.value.tokens) && RealMap(t.value.1) == p.value.vars)
    decreases |words|
  {
    if |words| > 0 {
      var w, rest := words[0], words[1..];
      var rv := RealMap(vars);
      if IsVariable(w) && w in vars {
        SubstituteAgrees(rest, vars, inputs);
        WholeTextAgrees(vars[w]);
        var t := SubstituteText(rest, vars, inputs);
        if t.Ok? {
          var p := Preprocess(rest, rv, Reals(inputs));
          LitsCons(WholeText(vars[w]), t.value.0);
          AllAgreeCons(Lit(WholeText(vars[w])), Val(rv[w]), Lits(t.value.0), p.value.tokens);
        }
      } else if IsVariable(w) && |inputs| > 0 {
        var n := inputs[0];
        var vars' := vars[w := n];
        assert MapInRange(vars') && MapNonNegative(vars');
        SubstituteAgrees(rest, vars', inputs[1..]);
        WholeTextAgrees(n);
        RealsFacts(inputs);
        RealMapUpdate(vars, w, n);
        var t := SubstituteText(rest, vars', inputs[1..]);
        if t.Ok? {
          var p := Preprocess(rest, RealMap(vars'), Reals(inputs[1..]));
          LitsCons(WholeText(n), t.value.0);
          AllAgreeCons(Lit(WholeText(n)), Val(n as real), Lits(t.value.0), p.value.tokens);
        }
      } else if !IsVariable(w) {
        SubstituteAgrees(rest, vars, inputs);
        var t := SubstituteText(rest, vars, inputs);
        if t.Ok? {
          var p := Preprocess(rest, rv, Reals(inputs));
          LitsCons(w, t.value.0);
          AllAgreeCons(Lit(w), Lit(w), Lits(t.value.0), p.value.tokens);
        }
      }
    }
  }

  /** On nonnegative whole input values the code as written computes what
      the model computes. */
  lemma {:induction false} AsWrittenAgrees(rpn: seq<string>, inputs: seq<int>)
    requires AllInRange(inputs) && NonNegative(inputs)
    ensures EvaluateAsWritten(rpn, inputs) == EvaluateBound(rpn, Reals(inputs))
  {
    var empty: map<string, int> := map[];
    assert RealMap(empty) == map[];
    SubstituteAgrees(rpn, empty, inputs);
    var t := SubstituteText(rpn, empty, inputs);
    if t.Ok? {
      var p := Preprocess(rpn, map[], Reals(inputs));
      ExecAgrees([], Lits(t.value.0), p.value.tokens, p.value.vars);
    }
  }

  // ---------------------------------------------------------------------
  // Where they part

  /** One variable given a negative value: the code as written rejects the
      text of the value, while binding the value itself gives it back. */
  lemma {:induction false} NegativeValueRejected(w: string, n: int)
    requires IsVariable(w) && InRange(n) && n < 0
    ensures EvaluateAsWritten([w], [n]) == Err(InvalidToken(WholeText(n)))
    ensures EvaluateBound([w], [n as real]) == Ok(n as real)
  {
    var empty: map<string, int> := map[];
    var noWords: seq<string> := [];
    var noInputs: seq<int> := [];
    assert [w][0] == w && [w][1..] == noWords && [n][0] == n && [n][1..] == noInputs;
    assert SubstituteText(noWords, empty[w := n], noInputs) == Ok((noWords, empty[w := n]));
    assert SubstituteText([w], empty, [n]) == Ok(([WholeText(n)] + noWords, empty[w := n]));
    var toks := Lits([WholeText(n)] + noWords);
    assert toks == [Lit(WholeText(n))];
    NegativeTextRejected(n);
    assert Exec([], toks, RealMap(empty[w := n])) == Err(InvalidToken(WholeText(n)));
    var v := n as real;
    var noValues: seq<real> := [];
    assert [v][0] == v && [v][1..] == noValues;
    var bound := map[w := v];
    assert Preprocess(noWords, bound, noValues) == Ok(Bound([], bound, noValues));
    assert Preprocess([w], map[], [v]) == Ok(Bound([Val(v)] + [], bound, noValues));
    assert [Val(v)] + [] == [Val(v)];
    var noTokens: seq<EvalToken> := [];
    assert [Val(v)][0] == Val(v) && [Val(v)][1..] == noTokens;
    assert ExecToken(noValues, Val(v), bound) == Ok([v]) by {
      assert noValues + [v] == [v];
    }
    assert Exec([v], noTokens, bound) == Ok([v]);
    assert Exec([], [Val(v)], bound) == Ok([v]);
  }

  /** The smallest instance: the expression `a` with the input line `-1`
      fails with "Invalid token: -1.0". */
  lemma MinusOneRejected()
    ensures WholeText(-1) == "-1.0"
    ensures EvaluateAsWritten(["a"], [-1]) == Err(InvalidToken("-1.0"))
  {
    assert NatText(1) == "1";
    NegativeValueRejected("a", -1);
  }

  /** The model keeps the sign: an expression made of one variable
      evaluates to whatever value is typed for it. */
  lemma {:induction false} SignKept(w: string, v: real)
    requires IsVariable(w)
    ensures EvaluateExpression(w, [v]) == Ok(v)
  {
    var e := Trm(Fac(Atom(w)));
    assert Render(e, true) == w by {
      assert FactorText(Atom(w), " ") == w;
      assert TermText(Fac(Atom(w)), " ") == w;
    }
    assert ExprWF(e) by {
      OperandShape(w);
    }
    assert Variables(e) == [w] by {
      assert FactorTokens(Atom(w), []) == [w];
      assert TermTokens(Fac(Atom(w)), []) == [w];
      assert ExprTokens(e, []) == [w];
      var noWords: seq<string> := [];
      assert [w][0] == w && [w][1..] == noWords;
      assert NewVars(noWords, {w}) == [];
      assert NewVars([w], {}) == [w] + noWords;
    }
    var env := Bindings([w], [v]);
    assert env == map[w := v];
    assert ExprValue(e, env) == Ok(v) by {
      OperandShape(w);
      assert AtomValue(w, env) == Ok(v);
      assert TermValue(Fac(Atom(w)), env) == Ok(v);
    }
    EvaluateRendered(e, true, [v]);
  }
}
