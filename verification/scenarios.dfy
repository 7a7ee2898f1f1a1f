/** The cases of `ExpressionCalcTest`, each stated about the model: the
    expression as a tree, its text, its distinct variables and its value,
    put together by `EvaluateRendered`; the two malformed inputs are
    followed token by token through the converter and the evaluator. */
module Scenarios {
  import opened Outcomes
  import opened Seqs
  import opened Text
  import opened Classify
  import opened Tokenizer
  import opened Converter
  import opened Evaluator
  import opened Grammar

  const A: Factor := Atom("a")
  const B: Factor := Atom("b")
  const C: Factor := Atom("c")
  const D: Factor := Atom("d")
  const One: Factor := Atom("1")

  lemma {:induction false} NewVarsCons(w: string, rest: seq<string>, known: set<string>)
    ensures NewVars([w] + rest, known) ==
      if IsVariable(w) && w !in known then [w] + NewVars(rest, known + {w}) else NewVars(rest, known)
  {
    assert ([w] + rest)[1..] == rest;
  }

  lemma {:induction false} NewVarsNone(words: seq<string>, known: set<string>)
    requires forall i :: 0 <= i < |words| ==> !IsVariable(words[i])
    ensures NewVars(words, known) == []
    decreases |words|
  {
    if |words| > 0 {
      NewVarsNone(words[1..], known);
    }
  }

  lemma {:induction false} NewVarsKnown(words: seq<string>, known: set<string>)
    requires forall i :: 0 <= i < |words| ==> !IsVariable(words[i]) || words[i] in known
    ensures NewVars(words, known) == []
    decreases |words|
  {
    if |words| > 0 {
      NewVarsKnown(words[1..], known);
    }
  }

  /** Distinct new variables followed by words that bring no new one:
      the variables are the leading ones. */
  lemma {:induction false} NewVarsLeading(vs: seq<string>, rest: seq<string>, known: set<string>)
    requires forall i :: 0 <= i < |vs| ==> IsVariable(vs[i]) && vs[i] !in known
    requires forall i, j :: 0 <= i < j < |vs| ==> vs[i] != vs[j]
    requires forall i :: 0 <= i < |rest| ==> !IsVariable(rest[i]) || rest[i] in known || rest[i] in vs
    ensures NewVars(vs + rest, known) == vs
    decreases |vs|
  {
    if |vs| == 0 {
      assert vs + rest == rest;
      NewVarsKnown(rest, known);
    } else {
      var w, tail, known' := vs[0], vs[1..], known + {vs[0]};
      forall i | 0 <= i < |tail| ensures IsVariable(tail[i]) && tail[i] !in known' {
        assert tail[i] == vs[i + 1] && vs[0] != vs[i + 1];
      }
      forall i | 0 <= i < |rest| ensures !IsVariable(rest[i]) || rest[i] in known' || rest[i] in tail {
        if rest[i] in vs && rest[i] != w {
          var k :| 0 <= k < |vs| && vs[k] == rest[i];
          assert tail[k - 1] == rest[i];
        }
      }
      NewVarsCons(w, tail + rest, known);
      assert vs + rest == [w] + (tail + rest);
      NewVarsLeading(tail, rest, known');
    }
  }

  lemma OneIsOne()
    ensures IsUnsignedNumber("1") && ParseNumber("1") == 1.0
  {
    assert LeadingDigits("1") == 1;
  }

  // ---------------------------------------------------------------------
  // testNoVariables: "1 + 1 / (-1)" with no input is 0

  const NoVariables: Expr :=
    AddSub(Trm(Fac(One)), Plus, MulDiv(Fac(One), Over, Paren(Trm(Fac(NegAtom("1"))))))

  lemma NoVariablesText()
    ensures Render(NoVariables, true) == "1 + 1 / (-1)"
  {
    assert FactorText(Paren(Trm(Fac(NegAtom("1")))), " ") == "(-1)";
    assert TermText(MulDiv(Fac(One), Over, Paren(Trm(Fac(NegAtom("1"))))), " ") == "1 / (-1)";
  }

  lemma NoVariablesVars()
    ensures ExprWF(NoVariables) && Variables(NoVariables) == []
  {
    OneIsOne();
    var toks := ExprTokens(NoVariables, []);
    assert toks == ["1", "+", "1", "/", "(", "-", "1", ")"];
    NewVarsNone(toks, {});
  }

  lemma NoVariablesValue()
    ensures ExprValue(NoVariables, map[]) == Ok(0.0)
  {
    OneIsOne();
  }

  lemma TestNoVariables()
    ensures EvaluateExpression("1 + 1 / (-1)", []) == Ok(0.0)
  {
    NoVariablesText();
    NoVariablesVars();
    NoVariablesValue();
    EvaluateRendered(NoVariables, true, []);
    assert Bindings([], []) == map[];
  }

  // ---------------------------------------------------------------------
  // testAllOperations: "a + b * (c / d) - 1" with 5, 3, 10, 4 is 11.5

  const AllOperations: Expr :=
    AddSub(AddSub(Trm(Fac(A)), Plus, MulDiv(Fac(B), Times, Paren(Trm(MulDiv(Fac(C), Over, D))))), Minus, Fac(One))

  lemma AllOperationsText()
    ensures Render(AllOperations, true) == "a + b * (c / d) - 1"
  {
    var cd := Trm(MulDiv(Fac(C), Over, D));
    assert ExprText(cd, " ") == "c / d";
    var bcd := MulDiv(Fac(B), Times, Paren(cd));
    assert TermText(bcd, " ") == "b * (c / d)";
    var sum := AddSub(Trm(Fac(A)), Plus, bcd);
    assert ExprText(sum, " ") == "a + b * (c / d)";
    assert AllOperations == AddSub(sum, Minus, Fac(One));
  }

  lemma AllOperationsVars()
    ensures ExprWF(AllOperations) && Variables(AllOperations) == ["a", "b", "c", "d"]
  {
    OneIsOne();
    var post := ExprPostfix(AllOperations);
    assert post == ["a", "b", "c", "d"] + ["/", "*", "+", "1", "-"];
    NewVarsLeading(["a", "b", "c", "d"], ["/", "*", "+", "1", "-"], {});
    PostfixVariables(AllOperations);
  }

  lemma AllOperationsValue()
    ensures ExprValue(AllOperations, map["a" := 5.0, "b" := 3.0, "c" := 10.0, "d" := 4.0]) == Ok(11.5)
  {
    OneIsOne();
  }

  lemma TestAllOperations()
    ensures EvaluateExpression("a + b * (c / d) - 1", [5.0, 3.0, 10.0, 4.0]) == Ok(11.5)
  {
    AllOperationsText();
    AllOperationsVars();
    AllOperationsValue();
    AllOperationsBindings();
    EvaluateRendered(AllOperations, true, [5.0, 3.0, 10.0, 4.0]);
  }

  lemma AllOperationsBindings()
    ensures Bindings(["a", "b", "c", "d"], [5.0, 3.0, 10.0, 4.0]) == map["a" := 5.0, "b" := 3.0, "c" := 10.0, "d" := 4.0]
  {
  }

  // ---------------------------------------------------------------------
  // testSameVariables: "a + a * (a - a)" with 5 is 5

  const SameVariables: Expr :=
    AddSub(Trm(Fac(A)), Plus, MulDiv(Fac(A), Times, Paren(AddSub(Trm(Fac(A)), Minus, Fac(A)))))

  lemma SameVariablesText()
    ensures Render(SameVariables, true) == "a + a * (a - a)"
  {
    var diff := AddSub(Trm(Fac(A)), Minus, Fac(A));
    assert ExprText(diff, " ") == "a - a";
    assert TermText(MulDiv(Fac(A), Times, Paren(diff)), " ") == "a * (a - a)";
  }

  lemma SameVariablesVars()
    ensures ExprWF(SameVariables) && Variables(SameVariables) == ["a"]
  {
    var post := ExprPostfix(SameVariables);
    assert post == ["a"] + ["a", "a", "a", "-", "*", "+"];
    NewVarsLeading(["a"], ["a", "a", "a", "-", "*", "+"], {});
    PostfixVariables(SameVariables);
  }

  lemma SameVariablesValue()
    ensures ExprValue(SameVariables, map["a" := 5.0]) == Ok(5.0)
  {
  }

  lemma SameVariablesBindings()
    ensures Bindings(["a"], [5.0]) == map["a" := 5.0]
  {
  }

  lemma TestSameVariables()
    ensures EvaluateExpression("a + a * (a - a)", [5.0]) == Ok(5.0)
  {
    SameVariablesText();
    SameVariablesVars();
    SameVariablesValue();
    SameVariablesBindings();
    EvaluateRendered(SameVariables, true, [5.0]);
  }

  // ---------------------------------------------------------------------
  // testLongVariable: "a + b * c / d + theLastVariableWithValue5" with
  // 1, 2, 3, 4, 5 is 7.5

  /** The case holds for any last variable other than `a` to `d`. */
  function LongVariable(w: string): Expr {
    AddSub(AddSub(Trm(Fac(A)), Plus, MulDiv(MulDiv(Fac(B), Times, C), Over, D)), Plus, Fac(Atom(w)))
  }

  predicate IsLastName(w: string) {
    IsVariable(w) && w != "a" && w != "b" && w != "c" && w != "d"
  }

  lemma LongVariableText(w: string)
    ensures Render(LongVariable(w), true) == "a + b * c / d + " + w
  {
    var bcd := MulDiv(MulDiv(Fac(B), Times, C), Over, D);
    assert TermText(bcd, " ") == "b * c / d";
    var sum := AddSub(Trm(Fac(A)), Plus, bcd);
    assert ExprText(sum, " ") == "a + b * c / d";
    assert TermText(Fac(Atom(w)), " ") == w;
    assert LongVariable(w) == AddSub(sum, Plus, Fac(Atom(w)));
    assert Render(LongVariable(w), true) == ExprText(sum, " ") + " " + "+" + " " + w;
    assert "a + b * c / d" + " " + "+" + " " == "a + b * c / d + ";
  }

  /** After `d` is bound, only the last variable is new. */
  lemma LongVariableLast(w: string, known: set<string>)
    requires IsVariable(w) && w !in known
    ensures NewVars(["/"] + (["+"] + ([w] + ["+"])), known) == [w]
  {
    NewVarsLeading([w], ["+"], known);
    NewVarsCons("+", [w] + ["+"], known);
    NewVarsCons("/", ["+"] + ([w] + ["+"]), known);
  }

  lemma LongVariableTail(w: string)
    requires IsLastName(w)
    ensures NewVars(["d", "/", "+", w, "+"], {"a", "b", "c"}) == ["d", w]
  {
    var k3: set<string> := {"a", "b", "c"};
    var rest := ["/"] + (["+"] + ([w] + ["+"]));
    LongVariableLast(w, k3 + {"d"});
    NewVarsCons("d", rest, k3);
    assert ["d", "/", "+", w, "+"] == ["d"] + rest;
  }

  lemma LongVariablePostfix(w: string)
    ensures ExprPostfix(LongVariable(w)) == ["a", "b", "c", "*", "d", "/", "+", w, "+"]
  {
    var sum := AddSub(Trm(Fac(A)), Plus, MulDiv(MulDiv(Fac(B), Times, C), Over, D));
    assert LongVariable(w) == AddSub(sum, Plus, Fac(Atom(w)));
    assert TermPostfix(Fac(Atom(w))) == [w];
    assert ExprPostfix(sum) == ["a", "b", "c", "*", "d", "/", "+"];
  }

  lemma LongVariableWF(w: string)
    requires IsLastName(w)
    ensures ExprWF(LongVariable(w))
  {
    var sum := AddSub(Trm(Fac(A)), Plus, MulDiv(MulDiv(Fac(B), Times, C), Over, D));
    assert ExprWF(sum);
    assert FactorWF(Atom(w));
    assert LongVariable(w) == AddSub(sum, Plus, Fac(Atom(w)));
  }

  lemma LongVariableHead(rest: seq<string>)
    ensures NewVars(["a", "b", "c"] + rest, {}) == ["a", "b", "c"] + NewVars(rest, {"a", "b", "c"})
  {
    var k0: set<string> := {};
    var k1 := k0 + {"a"};
    var k2 := k1 + {"b"};
    var k3 := k2 + {"c"};
    assert k3 == {"a", "b", "c"};
    assert NewVars(["c"] + rest, k2) == ["c"] + NewVars(rest, k3) by {
      NewVarsCons("c", rest, k2);
    }
    assert NewVars(["b"] + (["c"] + rest), k1) == ["b"] + (["c"] + NewVars(rest, k3)) by {
      NewVarsCons("b", ["c"] + rest, k1);
    }
    assert NewVars(["a"] + (["b"] + (["c"] + rest)), k0) == ["a"] + (["b"] + (["c"] + NewVars(rest, k3))) by {
      NewVarsCons("a", ["b"] + (["c"] + rest), k0);
    }
    assert ["a", "b", "c"] + rest == ["a"] + (["b"] + (["c"] + rest));
  }

  lemma LongVariableNewVars(w: string, words: seq<string>)
    requires IsLastName(w)
    requires words == ["a", "b", "c", "*", "d", "/", "+", w, "+"]
    ensures NewVars(words, {}) == ["a", "b", "c", "d", w]
  {
    var tail := ["d", "/", "+", w, "+"];
    var k3: set<string> := {"a", "b", "c"};
    assert NewVars(["*"] + tail, k3) == ["d", w] by {
      LongVariableTail(w);
      NewVarsCons("*", tail, k3);
    }
    assert words == ["a", "b", "c"] + (["*"] + tail);
    LongVariableHead(["*"] + tail);
  }

  lemma LongVariableVars(w: string)
    requires IsLastName(w)
    ensures ExprWF(LongVariable(w)) && Variables(LongVariable(w)) == ["a", "b", "c", "d", w]
  {
    LongVariableWF(w);
    LongVariablePostfix(w);
    LongVariableNewVars(w, ExprPostfix(LongVariable(w)));
    PostfixVariables(LongVariable(w));
  }

  lemma LongVariableEnv(w: string)
    requires IsLastName(w)
    ensures var env := Bindings(["a", "b", "c", "d", w], [1.0, 2.0, 3.0, 4.0, 5.0]);
      && "a" in env && "b" in env && "c" in env && "d" in env && w in env
      && env["a"] == 1.0 && env["b"] == 2.0 && env["c"] == 3.0 && env["d"] == 4.0 && env[w] == 5.0
  {
    var names := ["a", "b", "c", "d", w];
    assert names[0] == "a" && names[1] == "b" && names[2] == "c" && names[3] == "d" && names[4] == w;
  }

  lemma LongVariableValue(w: string, env: map<string, real>)
    requires IsLastName(w)
    requires "a" in env && "b" in env && "c" in env && "d" in env && w in env
    requires env["a"] == 1.0 && env["b"] == 2.0 && env["c"] == 3.0 && env["d"] == 4.0 && env[w] == 5.0
    ensures ExprValue(LongVariable(w), env) == Ok(7.5)
  {
    assert !IsUnsignedNumber("a") && !IsUnsignedNumber("b") && !IsUnsignedNumber("c") && !IsUnsignedNumber("d");
    assert FactorValue(A, env) == Ok(1.0) && FactorValue(B, env) == Ok(2.0);
    assert FactorValue(C, env) == Ok(3.0) && FactorValue(D, env) == Ok(4.0);
    assert TermValue(Fac(A), env) == Ok(1.0);
    assert ExprValue(Trm(Fac(A)), env) == Ok(1.0);
    var bc := MulDiv(Fac(B), Times, C);
    assert TermValue(bc, env) == Ok(6.0);
    var bcd := MulDiv(bc, Over, D);
    assert TermValue(bcd, env) == Ok(1.5);
    var sum := AddSub(Trm(Fac(A)), Plus, bcd);
    assert ExprValue(sum, env) == Ok(2.5);
    assert !IsUnsignedNumber(w);
    assert TermValue(Fac(Atom(w)), env) == Ok(5.0);
    assert LongVariable(w) == AddSub(sum, Plus, Fac(Atom(w)));
  }

  lemma LongVariableCase(w: string)
    requires IsLastName(w)
    ensures EvaluateExpression("a + b * c / d + " + w, [1.0, 2.0, 3.0, 4.0, 5.0]) == Ok(7.5)
  {
    LongVariableText(w);
    LongVariableVars(w);
    LongVariableEnv(w);
    LongVariableValue(w, Bindings(["a", "b", "c", "d", w], [1.0, 2.0, 3.0, 4.0, 5.0]));
    EvaluateRendered(LongVariable(w), true, [1.0, 2.0, 3.0, 4.0, 5.0]);
  }

  /** The test's text is "a + b * c / d + theLastVariableWithValue5". */
  lemma TestLongVariable()
    ensures EvaluateExpression("a + b * c / d + " + "theLastVariableWithValue5", [1.0, 2.0, 3.0, 4.0, 5.0]) == Ok(7.5)
  {
    assert IsLastName("theLastVariableWithValue5");
    LongVariableCase("theLastVariableWithValue5");
  }

  // ---------------------------------------------------------------------
  // testUnaryMinus: "-a + (-5)" with 1 is -6

  const UnaryMinus: Expr :=
    AddSub(Trm(Fac(NegAtom("a"))), Plus, Fac(Paren(Trm(Fac(NegAtom("5"))))))

  lemma FiveIsFive()
    ensures IsUnsignedNumber("5") && ParseNumber("5") == 5.0
  {
    assert LeadingDigits("5") == 1;
    assert "5"[..1] == "5" && DigitsValue("5") == 5;
  }

  lemma UnaryMinusText()
    ensures Render(UnaryMinus, true) == "-a + (-5)"
  {
    assert FactorText(NegAtom("a"), " ") == "-a";
    assert FactorText(Paren(Trm(Fac(NegAtom("5")))), " ") == "(-5)";
  }

  lemma UnaryMinusVars()
    ensures ExprWF(UnaryMinus) && Variables(UnaryMinus) == ["a"]
  {
    FiveIsFive();
    var post := ExprPostfix(UnaryMinus);
    assert post == ["a"] + [Negate, "5", Negate, "+"];
    NewVarsLeading(["a"], [Negate, "5", Negate, "+"], {});
    PostfixVariables(UnaryMinus);
  }

  lemma UnaryMinusValue()
    ensures ExprValue(UnaryMinus, map["a" := 1.0]) == Ok(-6.0)
  {
    FiveIsFive();
  }

  lemma TestUnaryMinus()
    ensures EvaluateExpression("-a + (-5)", [1.0]) == Ok(-6.0)
  {
    UnaryMinusText();
    UnaryMinusVars();
    UnaryMinusValue();
    assert Bindings(["a"], [1.0]) == map["a" := 1.0];
    EvaluateRendered(UnaryMinus, true, [1.0]);
  }

  // ---------------------------------------------------------------------
  // testDivZero: "a + a * (a / a)" with 0 fails with "Division by zero"

  const DivZero: Expr :=
    AddSub(Trm(Fac(A)), Plus, MulDiv(Fac(A), Times, Paren(Trm(MulDiv(Fac(A), Over, A)))))

  lemma DivZeroText()
    ensures Render(DivZero, true) == "a + a * (a / a)"
  {
    var q := Trm(MulDiv(Fac(A), Over, A));
    assert ExprText(q, " ") == "a / a";
    assert TermText(MulDiv(Fac(A), Times, Paren(q)), " ") == "a * (a / a)";
  }

  lemma DivZeroVars()
    ensures ExprWF(DivZero) && Variables(DivZero) == ["a"]
  {
    var post := ExprPostfix(DivZero);
    assert post == ["a"] + ["a", "a", "a", "/", "*", "+"];
    NewVarsLeading(["a"], ["a", "a", "a", "/", "*", "+"], {});
    PostfixVariables(DivZero);
  }

  lemma DivZeroValue()
    ensures ExprValue(DivZero, map["a" := 0.0]) == Err(DivisionByZero)
  {
  }

  lemma TestDivZero()
    ensures EvaluateExpression("a + a * (a / a)", [0.0]) == Err(DivisionByZero)
  {
    DivZeroText();
    DivZeroVars();
    DivZeroValue();
    assert Bindings(["a"], [0.0]) == map["a" := 0.0];
    EvaluateRendered(DivZero, true, [0.0]);
  }

  // ---------------------------------------------------------------------
  // Single converter steps on known tokens

  /** A single character above U+0020 survives `trim()`. */
  lemma TrimOne(c: char)
    requires !IsTrimmed(c)
    ensures Trim([c]) == [c]
  {
    assert LeadingTrimmed([c]) == 0;
    assert KeptEnd([c], 0, 1) == 1;
  }

  lemma SymbolsTrimmed()
    ensures Trim(" ") == "" && Trim("a") == "a"
    ensures Trim("+") == "+" && Trim("*") == "*" && Trim("/") == "/" && Trim("(") == "("
  {
    assert LeadingTrimmed(" ") == 1;
    TrimOne('a');
    TrimOne('+');
    TrimOne('*');
    TrimOne('/');
    TrimOne('(');
  }

  lemma Cons6<T>(a: T, b: T, c: T, d: T, e: T, f: T, rest: seq<T>)
    ensures [a, b, c, d, e, f] + rest == [a] + ([b] + ([c] + ([d] + ([e] + ([f] + rest)))))
  {
  }

  lemma Cons9<T>(a: T, b: T, c: T, d: T, e: T, f: T, g: T, h: T, i: T, rest: seq<T>)
    ensures [a, b, c, d, e, f, g, h, i] + rest ==
      [a] + ([b] + ([c] + ([d] + ([e] + ([f] + ([g] + ([h] + ([i] + rest))))))))
  {
  }

  lemma RunCons(s: State, t: string, rest: seq<string>, s': State)
    requires Step(s, t) == Ok(s')
    ensures Run(s, [t] + rest) == Run(s', rest)
  {
    assert ([t] + rest)[0] == t && ([t] + rest)[1..] == rest;
  }

  lemma RunConsFails(s: State, t: string, rest: seq<string>)
    requires Step(s, t).Err?
    ensures Run(s, [t] + rest) == Err(Step(s, t).error)
  {
    assert ([t] + rest)[0] == t;
  }

  lemma OperandStep(s: State, w: string)
    requires IsOperand(w) && !s.nextIsNegative
    ensures Step(s, w) == Ok(AfterOperand(s.output + [w], s.stack))
  {
    assert s.output + [w] + [] == s.output + [w];
  }

  lemma EmptyTokenDropped(s: State)
    requires !s.nextIsNegative
    ensures Step(s, "") == Ok(s)
  {
    assert Trim("") == "";
    assert !IsNumber("") && !IsVariable("");
  }

  lemma OpenStep(s: State)
    requires !s.nextIsNegative
    ensures Step(s, "(") == Ok(s.(stack := s.stack + ["("]))
  {
    SymbolNotOperand("(");
    SymbolsTrimmed();
  }

  lemma PushStep(s: State, op: string)
    requires op in ["+", "*"] && !s.nextIsNegative && !s.previousIsOperation
    requires |s.stack| == 0 || !HasPrecedence(op, s.stack[|s.stack| - 1])
    ensures Step(s, op) == Ok(State(s.output, s.stack + [op], false, true))
  {
    assert s.stack[|s.stack|..] == [];
    StepBinary(s, op, s.output, s.stack);
  }

  // ---------------------------------------------------------------------
  // testIncorrectExpression: "a + + a * (a / a)" with 5 fails with
  // "Incorrect expression"

  lemma DoublePlusSplit()
    ensures WellSplit(["a", " ", "+", " ", "+", " "])
  {
    assert IsRun("a");
    assert IsDelimiterToken(" ") && IsDelimiterToken("+");
    assert !IsRun(" ") && !IsRun("+");
  }

  lemma DoublePlusConcat(ss: seq<string>)
    requires ss == ["a", " ", "+", " ", "+", " "]
    ensures Concat(ss) == "a + + "
  {
    ConcatSingletons(ss);
  }

  lemma DoublePlusTrim(toks: seq<string>)
    requires toks == ["a", " ", "+", " ", "+", " "]
    ensures TrimAll(toks) == ["a", "", "+", "", "+", ""]
  {
    var r := TrimAll(toks);
    assert r[0] == Trim("a") && r[1] == Trim(" ") && r[2] == Trim("+");
    assert r[3] == Trim(" ") && r[4] == Trim("+") && r[5] == Trim(" ");
    SymbolsTrimmed();
  }

  lemma DoublePlusTokens(x: string)
    requires x == "a + + "
    ensures Tokenize(x) == ["a", "", "+", "", "+", ""]
  {
    var toks := ["a", " ", "+", " ", "+", " "];
    DoublePlusSplit();
    DoublePlusConcat(toks);
    DoublePlusTrim(toks);
    TokenizeSplit(toks);
  }

  /** The second `+` arrives where an operand is expected. */
  lemma DoublePlusRun(rest: seq<string>)
    ensures Run(Start, ["a"] + ([""] + (["+"] + ([""] + (["+"] + rest))))) == Err(IncorrectExpression)
  {
    var s1 := AfterOperand(["a"], []);
    var s2 := State(["a"], ["+"], false, true);
    assert Step(Start, "a") == Ok(s1) by {
      assert IsVariable("a");
      OperandStep(Start, "a");
      assert Start.output + ["a"] == ["a"];
    }
    EmptyTokenDropped(s1);
    assert Step(s1, "+") == Ok(s2) by {
      PushStep(s1, "+");
      assert s1.stack + ["+"] == ["+"];
    }
    EmptyTokenDropped(s2);
    assert Step(s2, "+") == Err(IncorrectExpression) by {
      SymbolNotOperand("+");
      SymbolsTrimmed();
      OperatorOfTrimmed("+");
    }
    var r4 := ["+"] + rest;
    var r3 := [""] + r4;
    var r2 := ["+"] + r3;
    var r1 := [""] + r2;
    RunConsFails(s2, "+", rest);
    RunCons(s2, "", r4, s2);
    RunCons(s1, "+", r3, s2);
    RunCons(s1, "", r2, s1);
    RunCons(Start, "a", r1, s1);
  }

  /** Whatever follows `a + + `, the text is rejected. */
  lemma DoublePlus(y: string, inputs: seq<real>)
    ensures EvaluateExpression("a + + " + y, inputs) == Err(IncorrectExpression)
  {
    var x := "a + + ";
    TokenizeAppend(x, y);
    DoublePlusTokens(x);
    var rest := [""] + Tokenize(y);
    Cons6("a", "", "+", "", "+", "", Tokenize(y));
    DoublePlusRun(rest);
    PipelineSteps(x + y, inputs);
  }

  /** The test's text is "a + + a * (a / a)". */
  lemma TestIncorrectExpression()
    ensures EvaluateExpression("a + + " + "a * (a / a)", [5.0]) == Err(IncorrectExpression)
  {
    DoublePlus("a * (a / a)", [5.0]);
  }

  // ---------------------------------------------------------------------
  // testNotClosed: "a + a * (a / a" with 5 fails with "Invalid token: ("

  const Quotient: Expr := Trm(MulDiv(Fac(A), Over, A))

  lemma QuotientText()
    ensures ExprWF(Quotient) && Render(Quotient, true) == "a / a"
  {
    assert TermText(MulDiv(Fac(A), Over, A), " ") == "a / a";
  }

  lemma OpenPrefixSplit()
    ensures WellSplit(["a", " ", "+", " ", "a", " ", "*", " ", "("])
  {
    assert IsRun("a");
    assert IsDelimiterToken(" ") && IsDelimiterToken("+") && IsDelimiterToken("*") && IsDelimiterToken("(");
    assert !IsRun(" ") && !IsRun("+") && !IsRun("*") && !IsRun("(");
  }

  lemma OpenPrefixConcat(ss: seq<string>)
    requires ss == ["a", " ", "+", " ", "a", " ", "*", " ", "("]
    ensures Concat(ss) == "a + a * ("
  {
    ConcatSingletons(ss);
  }

  lemma OpenPrefixTrim(toks: seq<string>)
    requires toks == ["a", " ", "+", " ", "a", " ", "*", " ", "("]
    ensures TrimAll(toks) == ["a", "", "+", "", "a", "", "*", "", "("]
  {
    var r := TrimAll(toks);
    assert r[0] == Trim("a") && r[1] == Trim(" ") && r[2] == Trim("+");
    assert r[3] == Trim(" ") && r[4] == Trim("a") && r[5] == Trim(" ");
    assert r[6] == Trim("*") && r[7] == Trim(" ") && r[8] == Trim("(");
    SymbolsTrimmed();
  }

  lemma OpenPrefixTokens(x: string)
    requires x == "a + a * ("
    ensures Tokenize(x) == ["a", "", "+", "", "a", "", "*", "", "("]
  {
    var toks := ["a", " ", "+", " ", "a", " ", "*", " ", "("];
    OpenPrefixSplit();
    OpenPrefixConcat(toks);
    OpenPrefixTrim(toks);
    TokenizeSplit(toks);
  }

  /** The state once the `(` of "a + a * (" is read: `a` is out, `+` and
      `*` wait, and the `(` is open. */
  const Opened: State := State(["a", "a"], ["+", "*", "("], false, true)

  lemma OpenPrefixFirst(rest: seq<string>)
    ensures Run(Start, ["a"] + ([""] + (["+"] + ([""] + rest)))) == Run(State(["a"], ["+"], false, true), rest)
  {
    var s1 := AfterOperand(["a"], []);
    var s2 := State(["a"], ["+"], false, true);
    assert Step(Start, "a") == Ok(s1) by {
      assert IsVariable("a");
      OperandStep(Start, "a");
      assert Start.output + ["a"] == ["a"];
    }
    EmptyTokenDropped(s1);
    assert Step(s1, "+") == Ok(s2) by {
      PushStep(s1, "+");
      assert s1.stack + ["+"] == ["+"];
    }
    EmptyTokenDropped(s2);
    var r3 := [""] + rest;
    var r2 := ["+"] + r3;
    var r1 := [""] + r2;
    RunCons(s2, "", rest, s2);
    RunCons(s1, "+", r3, s2);
    RunCons(s1, "", r2, s1);
    RunCons(Start, "a", r1, s1);
  }

  lemma OpenPrefixSecond(rest: seq<string>)
    ensures Run(State(["a"], ["+"], false, true), ["a"] + ([""] + (["*"] + ([""] + (["("] + rest))))) == Run(Opened, rest)
  {
    var s2 := State(["a"], ["+"], false, true);
    var s3 := AfterOperand(["a", "a"], ["+"]);
    var s4 := State(["a", "a"], ["+", "*"], false, true);
    assert Step(s2, "a") == Ok(s3) by {
      assert IsVariable("a");
      OperandStep(s2, "a");
      assert s2.output + ["a"] == ["a", "a"];
    }
    EmptyTokenDropped(s3);
    assert Step(s3, "*") == Ok(s4) by {
      assert !HasPrecedence("*", "+");
      PushStep(s3, "*");
      assert s3.stack + ["*"] == ["+", "*"];
    }
    EmptyTokenDropped(s4);
    assert Step(s4, "(") == Ok(Opened) by {
      OpenStep(s4);
      assert s4.stack + ["("] == ["+", "*", "("];
    }
    var r4 := ["("] + rest;
    var r3 := [""] + r4;
    var r2 := ["*"] + r3;
    var r1 := [""] + r2;
    RunCons(s4, "(", rest, Opened);
    RunCons(s4, "", r4, s4);
    RunCons(s3, "*", r3, s4);
    RunCons(s3, "", r2, s3);
    RunCons(s2, "a", r1, s3);
  }

  /** Reading the quotient inside the open group leaves its operator
      waiting above the `(`. */
  lemma QuotientRun()
    ensures Run(Opened, ExprTokens(Quotient, [""])) == Ok(AfterOperand(["a", "a", "a", "a"], ["+", "*", "(", "/"]))
  {
    QuotientText();
    ExprRun(Opened, Quotient, [""]);
    assert ExprEmitted(Quotient) == ["a", "a"] && ExprPending(Quotient) == ["/"];
    assert Opened.output + ["a", "a"] == ["a", "a", "a", "a"];
    assert Opened.stack + ["/"] == ["+", "*", "(", "/"];
  }

  lemma NotClosedFlush()
    ensures ["a", "a", "a", "a"] + Reverse(["+", "*", "(", "/"]) == ["a", "a", "a", "a", "/", "(", "*", "+"]
  {
    var st := ["+", "*", "(", "/"];
    var r := Reverse(st);
    assert |r| == 4 && r[0] == "/" && r[1] == "(" && r[2] == "*" && r[3] == "+";
  }

  /** The `(` is never closed, so the end of input flushes it to the
      output. */
  lemma NotClosedConverts()
    ensures ConvertTokens(Tokenize("a + a * (" + Render(Quotient, true)))
      == Ok(["a", "a", "a", "a", "/", "(", "*", "+"])
  {
    var x := "a + a * (";
    var y := ExprTokens(Quotient, [""]);
    QuotientText();
    TokenizeRender(Quotient, true);
    TokenizeAppend(x, Render(Quotient, true));
    OpenPrefixTokens(x);
    Cons9("a", "", "+", "", "a", "", "*", "", "(", y);
    var r5 := ["a"] + ([""] + (["*"] + ([""] + (["("] + y))));
    OpenPrefixFirst(r5);
    OpenPrefixSecond(y);
    QuotientRun();
    NotClosedFlush();
  }

  lemma ExecCons(stack: seq<real>, x: EvalToken, rest: seq<EvalToken>, env: map<string, real>, stack': seq<real>)
    requires ExecToken(stack, x, env) == Ok(stack')
    ensures Exec(stack, [x] + rest, env) == Exec(stack', rest, env)
  {
    assert ([x] + rest)[0] == x && ([x] + rest)[1..] == rest;
  }

  lemma NotClosedExec(env: map<string, real>)
    requires "a" in env && env["a"] == 5.0
    ensures Evaluate(Subst(["a", "a", "a", "a", "/", "(", "*", "+"], env), env) == Err(InvalidToken("("))
  {
    var five := Val(5.0);
    var tail := [Lit("("), Lit("*"), Lit("+")];
    assert Subst(["a", "a", "a", "a", "/", "(", "*", "+"], env) ==
      [five] + ([five] + ([five] + ([five] + ([Lit("/")] + tail)))) by {
      assert IsVariable("a") && !IsVariable("/") && !IsVariable("(") && !IsVariable("*") && !IsVariable("+");
    }
    var st1 := [] + [5.0];
    var st2 := st1 + [5.0];
    var st3 := st2 + [5.0];
    var st4 := st3 + [5.0];
    var st5 := st4[..2] + [1.0];
    assert ExecToken(st4, Lit("/"), env) == Ok(st5) by {
      assert st4[3] == 5.0 && st4[2] == 5.0;
      assert ApplyOp(Div, 5.0, 5.0) == Ok(1.0);
      assert BinOpOf("/") == Some(Div);
    }
    assert Exec(st5, tail, env) == Err(InvalidToken("(")) by {
      assert !IsUnsignedNumber("(") && !IsVariable("(");
      assert ExecToken(st5, Lit("("), env) == Err(InvalidToken("("));
    }
    ExecCons(st4, Lit("/"), tail, env, st5);
    ExecCons(st3, five, [Lit("/")] + tail, env, st4);
    ExecCons(st2, five, [five] + ([Lit("/")] + tail), env, st3);
    ExecCons(st1, five, [five] + ([five] + ([Lit("/")] + tail)), env, st2);
    ExecCons([], five, [five] + ([five] + ([five] + ([Lit("/")] + tail))), env, st1);
  }

  /** The `(` reaches the evaluator, after `a / a` has been computed. */
  lemma NotClosedEvaluates()
    ensures BindThenEvaluate(["a", "a", "a", "a", "/", "(", "*", "+"], [5.0]) == Err(InvalidToken("("))
  {
    var rest := ["a", "a", "a", "/", "(", "*", "+"];
    NewVarsLeading(["a"], rest, {});
    assert ["a"] + rest == ["a", "a", "a", "a", "/", "(", "*", "+"];
    NotClosedExec(Bindings(["a"], [5.0]));
  }

  lemma NotClosed()
    ensures EvaluateExpression("a + a * (" + Render(Quotient, true), [5.0]) == Err(InvalidToken("("))
  {
    NotClosedConverts();
    NotClosedEvaluates();
    PipelineSteps("a + a * (" + Render(Quotient, true), [5.0]);
  }

  /** The test's text is "a + a * (a / a". */
  lemma TestNotClosed()
    ensures EvaluateExpression("a + a * (" + "a / a", [5.0]) == Err(InvalidToken("("))
  {
    NotClosed();
    QuotientText();
  }

  // ---------------------------------------------------------------------
  // Texts outside the grammar

  lemma MinusBlankSplit(raw: seq<string>)
    requires raw == ["-", " ", "a"]
    ensures WellSplit(raw)
  {
    assert IsDelimiterToken("-") && IsDelimiterToken(" ") && IsRun("a");
    assert !IsRun("-") && !IsRun(" ");
  }

  lemma MinusBlankConcat(raw: seq<string>)
    requires raw == ["-", " ", "a"]
    ensures Concat(raw) == "- a"
  {
    ConcatSingletons(raw);
  }

  lemma MinusBlankTrim(raw: seq<string>)
    requires raw == ["-", " ", "a"]
    ensures TrimAll(raw) == ["-", "", "a"]
  {
    var r := TrimAll(raw);
    assert r[0] == Trim("-") && r[1] == Trim(" ") && r[2] == Trim("a");
    SymbolsTrimmed();
    TrimOne('-');
  }

  lemma MinusBlankTokens(x: string)
    requires x == "- a"
    ensures Tokenize(x) == ["-", "", "a"]
  {
    var raw := ["-", " ", "a"];
    MinusBlankSplit(raw);
    MinusBlankConcat(raw);
    MinusBlankTrim(raw);
    TokenizeSplit(raw);
  }

  /** The empty token arrives while the minus waits for its operand. */
  lemma MinusBlankRun(rest: seq<string>)
    ensures Run(Start, ["-"] + ([""] + rest)) == Err(IncorrectExpression)
  {
    var armed := Start.(nextIsNegative := true, previousIsOperation := false);
    assert Step(Start, "-") == Ok(armed) by {
      SymbolNotOperand("-");
      TrimOne('-');
      OperatorOfTrimmed("-");
    }
    assert Step(armed, "") == Err(IncorrectExpression) by {
      assert !IsNumber("") && !IsVariable("");
    }
    RunConsFails(armed, "", rest);
    RunCons(Start, "-", [""] + rest, armed);
  }

  /** `- a`: the blank after the unary minus is an empty token, so the
      text is rejected.  `EvaluateRendered` covers only the two layouts
      `Render` writes, which put no blank after a unary minus. */
  lemma BlankAfterUnaryMinus(inputs: seq<real>)
    ensures EvaluateExpression("- a", inputs) == Err(IncorrectExpression)
  {
    MinusBlankTokens("- a");
    MinusBlankRun(["a"]);
    assert ["-", "", "a"] == ["-"] + ([""] + ["a"]);
    PipelineSteps("- a", inputs);
  }

  /** The `)` of `a ) + ( b` finds no `(` and an empty stack, so it
      changes nothing. */
  lemma ClosedFirstRun(rest: seq<string>)
    ensures Run(Start, ["a"] + ([")"] + rest)) == Run(AfterOperand(["a"], []), rest)
  {
    var s1 := AfterOperand(["a"], []);
    assert Step(Start, "a") == Ok(s1) by {
      assert IsVariable("a");
      OperandStep(Start, "a");
      assert Start.output + ["a"] == ["a"];
    }
    assert Step(s1, ")") == Ok(s1) by {
      StepOutcome(s1, ")");
      assert !IsOperand(")");
      assert Reverse<string>([]) == [];
    }
    RunCons(s1, ")", rest, s1);
    RunCons(Start, "a", [")"] + rest, s1);
  }

  /** The `(` after `+` stays on the stack to the end of the loop. */
  lemma OpenedSecondRun(rest: seq<string>)
    ensures Run(AfterOperand(["a"], []), ["+"] + (["("] + (["b"] + rest)))
         == Run(AfterOperand(["a", "b"], ["+", "("]), rest)
  {
    var s1 := AfterOperand(["a"], []);
    var s2 := State(["a"], ["+"], false, true);
    var s3 := State(["a"], ["+", "("], false, true);
    var s4 := AfterOperand(["a", "b"], ["+", "("]);
    assert Step(s1, "+") == Ok(s2) by {
      PushStep(s1, "+");
      assert s1.stack + ["+"] == ["+"];
    }
    assert Step(s2, "(") == Ok(s3) by {
      OpenStep(s2);
      assert s2.stack + ["("] == ["+", "("];
    }
    assert Step(s3, "b") == Ok(s4) by {
      assert IsVariable("b");
      OperandStep(s3, "b");
      assert s3.output + ["b"] == ["a", "b"];
    }
    RunCons(s3, "b", rest, s4);
    RunCons(s2, "(", ["b"] + rest, s3);
    RunCons(s1, "+", ["("] + (["b"] + rest), s2);
  }

  lemma ClosedBeforeOpenedRun(toks: seq<string>)
    requires toks == ["a", ")", "+", "(", "b"]
    ensures Run(Start, toks) == Ok(AfterOperand(["a", "b"], ["+", "("]))
  {
    var tail: seq<string> := [];
    assert toks == ["a"] + ([")"] + (["+"] + (["("] + (["b"] + tail))));
    ClosedFirstRun(["+"] + (["("] + (["b"] + tail)));
    OpenedSecondRun(tail);
  }

  lemma ClosedBeforeOpenedSplit(toks: seq<string>)
    requires toks == ["a", ")", "+", "(", "b"]
    ensures WellSplit(toks)
  {
    assert IsRun("a") && IsRun("b");
    assert IsDelimiterToken(")") && IsDelimiterToken("+") && IsDelimiterToken("(");
    assert !IsRun(")") && !IsRun("+") && !IsRun("(");
  }

  lemma ClosedBeforeOpenedTrim(toks: seq<string>)
    requires toks == ["a", ")", "+", "(", "b"]
    ensures TrimAll(toks) == toks
  {
    var r := TrimAll(toks);
    assert r[0] == Trim("a") && r[1] == Trim(")") && r[2] == Trim("+");
    assert r[3] == Trim("(") && r[4] == Trim("b");
    SymbolsTrimmed();
    TrimOne(')');
    TrimOne('b');
  }

  /** `a)+(b` has one `(` and one `)`, but the `)` comes first and closes
      nothing, so the `(` stays open and reaches the postfix sequence. */
  lemma ClosedBeforeOpenedConvert(toks: seq<string>)
    requires toks == ["a", ")", "+", "(", "b"]
    ensures ConvertTokens(toks) == Ok(["a", "b", "(", "+"])
  {
    ClosedBeforeOpenedRun(toks);
    assert Reverse(["+", "("]) == ["(", "+"] by {
      ReverseOne("(");
      ReverseOne("+");
      ReverseAppend(["+"], ["("]);
      assert ["+", "("] == ["+"] + ["("];
    }
    assert ["a", "b"] + ["(", "+"] == ["a", "b", "(", "+"];
  }

  lemma ClosedBeforeOpened(toks: seq<string>)
    requires toks == ["a", ")", "+", "(", "b"]
    ensures multiset(toks)["("] == multiset(toks)[")"] == 1
    ensures OpenDepth(toks) == 1
    ensures ConvertTokens(toks) == Ok(["a", "b", "(", "+"])
  {
    ClosedBeforeOpenedConvert(toks);
    ClosedBeforeOpenedTrim(toks);
    assert forall i :: 0 <= i < |toks| ==> Trim(toks[i]) == TrimAll(toks)[i];
    ConvertTokensFacts(toks);
    assert multiset(["a", "b", "(", "+"])["("] == 1;
  }

  lemma ClosedBeforeOpenedConcat(toks: seq<string>)
    requires toks == ["a", ")", "+", "(", "b"]
    ensures Concat(toks) == "a)+(b"
  {
    ConcatSingletons(toks);
  }

  /** So `a)+(b` fails whatever the input, although its parentheses are
      equal in number. */
  lemma ClosedBeforeOpenedFails(inputs: seq<real>)
    ensures EvaluateExpression("a)+(b", inputs).Err?
  {
    var toks := ["a", ")", "+", "(", "b"];
    ClosedBeforeOpenedSplit(toks);
    ClosedBeforeOpenedTrim(toks);
    ClosedBeforeOpenedConcat(toks);
    TokenizeSplit(toks);
    ClosedBeforeOpened(toks);
    UnclosedParenthesisFails("a)+(b", inputs);
  }
}
