/** The calculator judged against ordinary arithmetic.  An expression of
    the grammar

      expr   ::= term | expr ("+" | "-") term
      term   ::= factor | term ("*" | "/") factor
      factor ::= atom | "-" atom | "(" expr ")"

    is written out with no blanks, or with one blank on each side of every
    binary operator and none elsewhere; the converter turns it into its postfix
    form, and the whole pipeline computes its value with every variable
    bound to the next input value in order of first appearance.  The
    grammar encodes the precedence and left associativity the converter
    implements: multiplication and division bind tighter than addition and
    subtraction, and operators of one level group from the left. */
module Grammar {
  import opened Outcomes
  import opened Seqs
  import opened Text
  import opened Tokenizer
  import opened Classify
  import opened Converter
  import opened Evaluator

  datatype AddOp = Plus | Minus
  datatype MulOp = Times | Over

  datatype Factor = Atom(word: string) | NegAtom(word: string) | Paren(inner: Expr)
  datatype Term = Fac(factor: Factor) | MulDiv(left: Term, mop: MulOp, right: Factor)
  datatype Expr = Trm(term: Term) | AddSub(left: Expr, aop: AddOp, right: Term)

  function AddSymbol(op: AddOp): string {
    if op == Plus then "+" else "-"
  }

  function MulSymbol(op: MulOp): string {
    if op == Times then "*" else "/"
  }

  function AddBin(op: AddOp): BinOp {
    if op == Plus then Add else Sub
  }

  function MulBin(op: MulOp): BinOp {
    if op == Times then Mul else Div
  }

  /** The operands the grammar admits: a variable or an unsigned number
      (a signed number is written with a unary minus). */
  predicate IsAtomWord(w: string) {
    IsVariable(w) || IsUnsignedNumber(w)
  }

  predicate FactorWF(f: Factor) {
    match f
    case Atom(w) => IsAtomWord(w)
    case NegAtom(w) => IsAtomWord(w)
    case Paren(e) => ExprWF(e)
  }

  predicate TermWF(t: Term) {
    match t
    case Fac(f) => FactorWF(f)
    case MulDiv(l, _, f) => TermWF(l) && FactorWF(f)
  }

  predicate ExprWF(e: Expr) {
    match e
    case Trm(t) => TermWF(t)
    case AddSub(l, _, t) => ExprWF(l) && TermWF(t)
  }

  // ---------------------------------------------------------------------
  // Infix tokens, text and postfix form

  /** The tokens of an expression as written, with `gap` on both sides of
      every binary operator: nothing, a blank, or (once trimmed) the empty
      token a blank becomes. */
  function FactorTokens(f: Factor, gap: seq<string>): seq<string> {
    match f
    case Atom(w) => [w]
    case NegAtom(w) => ["-", w]
    case Paren(e) => ["("] + ExprTokens(e, gap) + [")"]
  }

  function TermTokens(t: Term, gap: seq<string>): seq<string> {
    match t
    case Fac(f) => FactorTokens(f, gap)
    case MulDiv(l, op, f) => TermTokens(l, gap) + gap + [MulSymbol(op)] + gap + FactorTokens(f, gap)
  }

  function ExprTokens(e: Expr, gap: seq<string>): seq<string> {
    match e
    case Trm(t) => TermTokens(t, gap)
    case AddSub(l, op, t) => ExprTokens(l, gap) + gap + [AddSymbol(op)] + gap + TermTokens(t, gap)
  }

  /** The expression written out with `g` on both sides of every binary
      operator. */
  function FactorText(f: Factor, g: string): string {
    match f
    case Atom(w) => w
    case NegAtom(w) => "-" + w
    case Paren(e) => "(" + ExprText(e, g) + ")"
  }

  function TermText(t: Term, g: string): string {
    match t
    case Fac(f) => FactorText(f, g)
    case MulDiv(l, op, f) => TermText(l, g) + g + MulSymbol(op) + g + FactorText(f, g)
  }

  function ExprText(e: Expr, g: string): string {
    match e
    case Trm(t) => TermText(t, g)
    case AddSub(l, op, t) => ExprText(l, g) + g + AddSymbol(op) + g + TermText(t, g)
  }

  /** The expression written out: no blanks at all, or one blank on each
      side of every binary operator, as in `a + b * (c / d) - 1`. */
  function Render(e: Expr, spaced: bool): string {
    ExprText(e, if spaced then " " else "")
  }

  /** The raw tokens of the written expression: a blank on each side of a
      binary operator is a token of its own. */
  function Gap(spaced: bool): seq<string> {
    if spaced then [" "] else []
  }

  /** The postfix form: operands first, the operator after them, and the
      converter's `~` after a negated atom. */
  function FactorPostfix(f: Factor): seq<string> {
    match f
    case Atom(w) => [w]
    case NegAtom(w) => [w, Negate]
    case Paren(e) => ExprPostfix(e)
  }

  function TermPostfix(t: Term): seq<string> {
    match t
    case Fac(f) => FactorPostfix(f)
    case MulDiv(l, op, f) => TermPostfix(l) + FactorPostfix(f) + [MulSymbol(op)]
  }

  function ExprPostfix(e: Expr): seq<string> {
    match e
    case Trm(t) => TermPostfix(t)
    case AddSub(l, op, t) => ExprPostfix(l) + TermPostfix(t) + [AddSymbol(op)]
  }

  /** The distinct variables of the expression in order of first
      appearance, reading the text from left to right. */
  function Variables(e: Expr): seq<string> {
    NewVars(ExprTokens(e, []), {})
  }

  // ---------------------------------------------------------------------
  // Value

  /** An atom's value: a number reads as itself, a variable as its value in
      `env`. */
  function AtomValue(w: string, env: map<string, real>): Result<real> {
    if IsUnsignedNumber(w) then Ok(ParseNumber(w))
    else if IsVariable(w) then
      if w in env then Ok(env[w]) else Err(UndefinedVariable(w))
    else Err(InvalidToken(w))
  }

  /** A binary operation on two operand values, the left one first. */
  function Combine(op: BinOp, left: Result<real>, right: Result<real>): Result<real> {
    var a :- left;
    var b :- right;
    ApplyOp(op, b, a)
  }

  /** The value of an expression in ordinary arithmetic, left operand
      before right. */
  function FactorValue(f: Factor, env: map<string, real>): Result<real> {
    match f
    case Atom(w) => AtomValue(w, env)
    case NegAtom(w) =>
      var v :- AtomValue(w, env);
      Ok(-v)
    case Paren(e) => ExprValue(e, env)
  }

  function TermValue(t: Term, env: map<string, real>): Result<real> {
    match t
    case Fac(f) => FactorValue(f, env)
    case MulDiv(l, op, f) => Combine(MulBin(op), TermValue(l, env), FactorValue(f, env))
  }

  function ExprValue(e: Expr, env: map<string, real>): Result<real> {
    match e
    case Trm(t) => TermValue(t, env)
    case AddSub(l, op, t) => Combine(AddBin(op), ExprValue(l, env), TermValue(t, env))
  }

  // ---------------------------------------------------------------------
  // Tokenizing the text gives the tokens back

  predicate IsGap(gap: seq<string>) {
    gap == [] || gap == [" "]
  }

  /** The delimiter tokens of the written expression: one character,
      never a run, and left alone by `trim()` except for the blank. */
  lemma {:induction false} DelimiterShape(d: string)
    requires d in [" ", "+", "-", "*", "/", "(", ")"]
    ensures WellSplit([d]) && !IsRun(d)
    ensures Trim(d) == if d == " " then "" else d
  {
    TrimFixpoint(d);
    if d == " " {
      assert LeadingTrimmed(d) == 1;
    }
  }

  lemma {:induction false} AtomShape(w: string)
    requires IsAtomWord(w)
    ensures WellSplit([w]) && IsRun(w) && Trim(w) == w
  {
    OperandShape(w);
    TrimFixpoint(w);
  }

  lemma {:induction false} GapShape(gap: seq<string>)
    requires IsGap(gap)
    ensures WellSplit(gap) && (|gap| == 0 || !IsRun(gap[0]))
  {
    if gap == [" "] {
      DelimiterShape(" ");
    }
  }

  /** Two well-split pieces joined by an operator with gaps around it. */
  lemma {:induction false} AroundSymbolSplit(a: seq<string>, gap: seq<string>, d: string, b: seq<string>)
    requires WellSplit(a) && WellSplit(b) && IsGap(gap)
    requires d in ["+", "-", "*", "/"]
    ensures WellSplit(a + gap + [d] + gap + b)
  {
    DelimiterShape(d);
    GapShape(gap);
    WellSplitAppend(a, gap);
    WellSplitAppend(a + gap, [d]);
    WellSplitAppend(a + gap + [d], gap);
    WellSplitAppend(a + gap + [d] + gap, b);
  }

  /** Trimming goes through the pieces; the operator itself is trimmed. */
  lemma {:induction false} AroundSymbolTrim(a: seq<string>, gap: seq<string>, d: string, b: seq<string>)
    requires d in ["+", "-", "*", "/"]
    ensures TrimAll(a + gap + [d] + gap + b) == TrimAll(a) + TrimAll(gap) + [d] + TrimAll(gap) + TrimAll(b)
  {
    assert TrimAll([d]) == [d] by {
      DelimiterShape(d);
      TrimAllOne(d);
    }
    TrimAllAppend(a + gap + [d] + gap, b);
    TrimAllAppend(a + gap + [d], gap);
    TrimAllAppend(a + gap, [d]);
    TrimAllAppend(a, gap);
  }

  lemma {:induction false} FactorSplit(f: Factor, gap: seq<string>)
    requires FactorWF(f) && IsGap(gap)
    ensures WellSplit(FactorTokens(f, gap))
    ensures TrimAll(FactorTokens(f, gap)) == FactorTokens(f, TrimAll(gap))
    decreases f
  {
    match f
    case Atom(w) =>
      AtomShape(w);
    case NegAtom(w) =>
      AtomShape(w);
      DelimiterShape("-");
      WellSplitAppend(["-"], [w]);
    case Paren(e) =>
      ExprSplit(e, gap);
      ParenthesizedSplit(ExprTokens(e, gap));
  }

  lemma {:induction false} ParenthesizedSplit(inner: seq<string>)
    requires WellSplit(inner)
    ensures WellSplit(["("] + inner + [")"])
    ensures TrimAll(["("] + inner + [")"]) == ["("] + TrimAll(inner) + [")"]
  {
    DelimiterShape("(");
    DelimiterShape(")");
    WellSplitAppend(["("], inner);
    WellSplitAppend(["("] + inner, [")"]);
    ParenthesizedTrim(inner);
  }

  lemma {:induction false} ParenthesizedTrim(inner: seq<string>)
    ensures TrimAll(["("] + inner + [")"]) == ["("] + TrimAll(inner) + [")"]
  {
    assert TrimAll(["("]) == ["("] && TrimAll([")"]) == [")"] by {
      DelimiterShape("(");
      DelimiterShape(")");
      TrimAllOne("(");
      TrimAllOne(")");
    }
    TrimAllAppend(["("] + inner, [")"]);
    TrimAllAppend(["("], inner);
  }

  lemma {:induction false} TermSplit(t: Term, gap: seq<string>)
    requires TermWF(t) && IsGap(gap)
    ensures WellSplit(TermTokens(t, gap))
    ensures TrimAll(TermTokens(t, gap)) == TermTokens(t, TrimAll(gap))
    decreases t
  {
    match t
    case Fac(f) => FactorSplit(f, gap);
    case MulDiv(l, op, f) =>
      TermSplit(l, gap);
      FactorSplit(f, gap);
      AroundSymbolSplit(TermTokens(l, gap), gap, MulSymbol(op), FactorTokens(f, gap));
      AroundSymbolTrim(TermTokens(l, gap), gap, MulSymbol(op), FactorTokens(f, gap));
  }

  lemma {:induction false} ExprSplit(e: Expr, gap: seq<string>)
    requires ExprWF(e) && IsGap(gap)
    ensures WellSplit(ExprTokens(e, gap))
    ensures TrimAll(ExprTokens(e, gap)) == ExprTokens(e, TrimAll(gap))
    decreases e
  {
    match e
    case Trm(t) => TermSplit(t, gap);
    case AddSub(l, op, t) =>
      ExprSplit(l, gap);
      TermSplit(t, gap);
      AroundSymbolSplit(ExprTokens(l, gap), gap, AddSymbol(op), TermTokens(t, gap));
      AroundSymbolTrim(ExprTokens(l, gap), gap, AddSymbol(op), TermTokens(t, gap));
  }

  /** Joining the pieces of an operator application. */
  lemma {:induction false} ConcatAround(a: seq<string>, gap: seq<string>, d: string, b: seq<string>)
    ensures Concat(a + gap + [d] + gap + b) == Concat(a) + Concat(gap) + d + Concat(gap) + Concat(b)
  {
    ConcatAppend(a + gap + [d] + gap, b);
    ConcatAppend(a + gap + [d], gap);
    ConcatAppend(a + gap, [d]);
    ConcatAppend(a, gap);
  }

  lemma {:induction false} ConcatParenthesized(inner: seq<string>)
    ensures Concat(["("] + inner + [")"]) == "(" + Concat(inner) + ")"
  {
    ConcatAppend(["("] + inner, [")"]);
    ConcatAppend(["("], inner);
  }

  /** The tokens of an expression spell out its text. */
  lemma {:induction false} FactorConcat(f: Factor, gap: seq<string>)
    requires |gap| <= 1
    ensures Concat(FactorTokens(f, gap)) == FactorText(f, Concat(gap))
    decreases f
  {
    match f
    case Atom(w) =>
    case NegAtom(w) =>
      ConcatAppend(["-"], [w]);
    case Paren(e) =>
      ExprConcat(e, gap);
      ConcatParenthesized(ExprTokens(e, gap));
  }

  lemma {:induction false} TermConcat(t: Term, gap: seq<string>)
    requires |gap| <= 1
    ensures Concat(TermTokens(t, gap)) == TermText(t, Concat(gap))
    decreases t
  {
    match t
    case Fac(f) => FactorConcat(f, gap);
    case MulDiv(l, op, f) =>
      TermConcat(l, gap);
      FactorConcat(f, gap);
      ConcatAround(TermTokens(l, gap), gap, MulSymbol(op), FactorTokens(f, gap));
  }

  lemma {:induction false} ExprConcat(e: Expr, gap: seq<string>)
    requires |gap| <= 1
    ensures Concat(ExprTokens(e, gap)) == ExprText(e, Concat(gap))
    decreases e
  {
    match e
    case Trm(t) => TermConcat(t, gap);
    case AddSub(l, op, t) =>
      ExprConcat(l, gap);
      TermConcat(t, gap);
      ConcatAround(ExprTokens(l, gap), gap, AddSymbol(op), TermTokens(t, gap));
  }

  /** The empty token a blank leaves, or nothing. */
  function Blanks(spaced: bool): seq<string> {
    if spaced then [""] else []
  }

  /** Tokenizing the written-out expression gives its tokens back, each
      blank turned into the empty token. */
  lemma {:induction false} TokenizeRender(e: Expr, spaced: bool)
    requires ExprWF(e)
    ensures Tokenize(Render(e, spaced)) == ExprTokens(e, Blanks(spaced))
  {
    var gap := Gap(spaced);
    ExprConcat(e, gap);
    ExprSplit(e, gap);
    TokenizeSplit(ExprTokens(e, gap));
    DelimiterShape(" ");
    assert TrimAll(gap) == Blanks(spaced);
  }

  /** Without blanks every token is already trimmed. */
  lemma {:induction false} TokensTrimmed(e: Expr)
    requires ExprWF(e)
    ensures forall i :: 0 <= i < |ExprTokens(e, [])| ==> Trim(ExprTokens(e, [])[i]) == ExprTokens(e, [])[i]
  {
    ExprSplit(e, []);
    assert TrimAll([]) == [];
  }

  // ---------------------------------------------------------------------
  // The converter produces the postfix form

  /** An operand is expected and no unary minus is pending. */
  predicate Expecting(s: State) {
    s.previousIsOperation && !s.nextIsNegative
  }

  /** The state after an operand: an operator is expected. */
  function AfterOperand(output: seq<string>, stack: seq<string>): State {
    State(output, stack, false, false)
  }

  /** A stack the operators of a whole expression cannot pop past: empty,
      or a `(` on top. */
  predicate IsBarrier(stack: seq<string>) {
    |stack| == 0 || stack[|stack| - 1] == "("
  }

  /** A stack the operators of a term cannot pop past: a barrier, or an
      additive operator on top. */
  predicate OpensTerm(stack: seq<string>) {
    |stack| == 0 || stack[|stack| - 1] in ["(", "+", "-"]
  }

  /** What has reached the output once the last token of a term or
      expression is read, and the operators still waiting on the stack. */
  function TermEmitted(t: Term): seq<string> {
    match t
    case Fac(f) => FactorPostfix(f)
    case MulDiv(l, _, f) => TermPostfix(l) + FactorPostfix(f)
  }

  function TermPending(t: Term): seq<string> {
    match t
    case Fac(_) => []
    case MulDiv(_, op, _) => [MulSymbol(op)]
  }

  function ExprEmitted(e: Expr): seq<string> {
    match e
    case Trm(t) => TermEmitted(t)
    case AddSub(l, _, t) => ExprPostfix(l) + TermEmitted(t)
  }

  function ExprPending(e: Expr): seq<string> {
    match e
    case Trm(t) => TermPending(t)
    case AddSub(_, op, t) => [AddSymbol(op)] + TermPending(t)
  }

  /** The waiting operators are operator symbols, and flushing them after
      what was emitted completes the postfix form. */
  lemma {:induction false} PendingCompletes(e: Expr)
    ensures forall k :: 0 <= k < |ExprPending(e)| ==> IsOperatorSymbol(ExprPending(e)[k])
    ensures ExprEmitted(e) + Reverse(ExprPending(e)) == ExprPostfix(e)
  {
    match e
    case Trm(t) =>
      TermPendingCompletes(t);
      TermPendingReversed(t);
    case AddSub(l, op, t) =>
      AddSubPendingCompletes(l, op, t);
  }

  lemma {:induction false} TermPendingReversed(t: Term)
    ensures Reverse(TermPending(t)) == TermPending(t)
  {
    if t.MulDiv? {
      ReverseOne(MulSymbol(t.mop));
    }
  }

  lemma {:induction false} AddSubPendingCompletes(l: Expr, op: AddOp, t: Term)
    ensures ExprEmitted(AddSub(l, op, t)) + Reverse(ExprPending(AddSub(l, op, t))) == ExprPostfix(AddSub(l, op, t))
  {
    var a := AddSymbol(op);
    ReverseAppend([a], TermPending(t));
    ReverseOne(a);
    TermPendingReversed(t);
    TermPendingCompletes(t);
    assert (ExprPostfix(l) + TermEmitted(t)) + (TermPending(t) + [a])
      == ExprPostfix(l) + (TermEmitted(t) + TermPending(t)) + [a];
  }

  /** Popping operators that all give way to `op` off a stack whose lower
      part does not. */
  lemma {:induction false} PopPrecedentSplit(output: seq<string>, stk: seq<string>, pend: seq<string>, op: string)
    requires forall k :: 0 <= k < |pend| ==> HasPrecedence(op, pend[k])
    requires |stk| == 0 || !HasPrecedence(op, stk[|stk| - 1])
    ensures PopPrecedent(output, stk + pend, op) == (output + Reverse(pend), stk)
    decreases |pend|
  {
    if |pend| == 0 {
      assert stk + pend == stk;
    } else {
      var top := pend[|pend| - 1];
      var front := pend[..|pend| - 1];
      var whole := stk + pend;
      assert whole[|whole| - 1] == top && whole[..|whole| - 1] == stk + front;
      PopPrecedentStep(output, whole, op);
      forall k | 0 <= k < |front| ensures HasPrecedence(op, front[k]) {
        assert front[k] == pend[k];
      }
      PopPrecedentSplit(output + [top], stk, front, op);
      ReverseLast(pend);
      AppendAssoc(output, [top], Reverse(front));
    }
  }

  lemma {:induction false} PopPrecedentStep(output: seq<string>, stack: seq<string>, op: string)
    requires |stack| > 0 && HasPrecedence(op, stack[|stack| - 1])
    ensures PopPrecedent(output, stack, op) ==
      PopPrecedent(output + [stack[|stack| - 1]], stack[..|stack| - 1], op)
  {
  }

  /** Popping for `)` down to the `(` on top of `stk`. */
  lemma {:induction false} PopUntilOpenSplit(output: seq<string>, stk: seq<string>, pend: seq<string>)
    requires forall k :: 0 <= k < |pend| ==> pend[k] != "("
    requires |stk| == 0 || stk[|stk| - 1] == "("
    ensures PopUntilOpen(output, stk + pend) == (output + Reverse(pend), stk)
    decreases |pend|
  {
    if |pend| == 0 {
      assert stk + pend == stk;
    } else {
      var top := pend[|pend| - 1];
      var front := pend[..|pend| - 1];
      assert (stk + pend)[..|stk + pend| - 1] == stk + front;
      PopUntilOpenSplit(output + [top], stk, front);
      assert Reverse(pend) == [top] + Reverse(front);
    }
  }

  /** The empty token left by a blank, or nothing. */
  predicate IsBlankGap(gap: seq<string>) {
    gap == [] || gap == [""]
  }

  /** The converter passes over the empty token a blank leaves, as long as
      no unary minus waits for its operand. */
  lemma {:induction false} RunBlank(s: State, gap: seq<string>)
    requires IsBlankGap(gap) && !s.nextIsNegative
    ensures Run(s, gap) == Ok(s)
  {
    if gap == [""] {
      assert LeadingDigits("") == 0;
      assert Trim("") == "";
      RunOne(s, "");
    }
  }

  /** Three runs in a row, the middle one a single token with gaps on
      both sides. */
  lemma {:induction false} RunAround(s: State, a: seq<string>, s1: State, gap: seq<string>, t: string, s2: State,
                  b: seq<string>, s3: State)
    requires IsBlankGap(gap) && !s1.nextIsNegative && !s2.nextIsNegative
    requires Run(s, a) == Ok(s1) && Step(s1, t) == Ok(s2) && Run(s2, b) == Ok(s3)
    ensures Run(s, a + gap + [t] + gap + b) == Ok(s3)
  {
    RunAppend(s, a + gap + [t] + gap, b);
    RunAppend(s, a + gap + [t], gap);
    RunAppend(s, a + gap, [t]);
    RunAppend(s, a, gap);
    RunBlank(s1, gap);
    RunOne(s1, t);
    RunBlank(s2, gap);
  }

  /** A single token, a run, and a single token. */
  lemma {:induction false} RunSurround(s: State, x: string, s1: State, mid: seq<string>, s2: State, y: string, s3: State)
    requires Step(s, x) == Ok(s1) && Run(s1, mid) == Ok(s2) && Step(s2, y) == Ok(s3)
    ensures Run(s, [x] + mid + [y]) == Ok(s3)
  {
    RunAppend(s, [x] + mid, [y]);
    RunAppend(s, [x], mid);
    RunOne(s, x);
    RunOne(s2, y);
  }

  lemma {:induction false} RunOne(s: State, t: string)
    ensures Run(s, [t]) == Step(s, t)
  {
    assert [t][1..] == [];
  }

  lemma {:induction false} SymbolsNotOperands()
    ensures !IsOperand("-") && !IsOperand("(") && !IsOperand(")")
    ensures !IsOperator("(") && !IsOperator(")")
  {
    assert LeadingDigits("-") == 0 && LeadingDigits("(") == 0 && LeadingDigits(")") == 0;
    assert Trim("(") == "(" && Trim(")") == ")" by {
      TrimFixpoint("(");
      TrimFixpoint(")");
    }
  }

  /** The converter's steps the grammar exercises, one at a time. */
  lemma {:induction false} StepOpen(s: State)
    requires !s.nextIsNegative
    ensures Step(s, "(") == Ok(s.(stack := s.stack + ["("]))
  {
    SymbolsNotOperands();
  }

  lemma {:induction false} StepClose(s: State, out: seq<string>, stk: seq<string>)
    requires !s.nextIsNegative && PopUntilOpen(s.output, s.stack) == (out, stk + ["("])
    ensures Step(s, ")") == Ok(s.(output := out, stack := stk))
  {
    SymbolsNotOperands();
    assert (stk + ["("])[..|stk|] == stk;
    assert CloseGroup(s.output, s.stack) == (out, stk);
  }

  lemma {:induction false} StepBinary(s: State, op: string, out: seq<string>, stk: seq<string>)
    requires IsOperatorSymbol(op) && !s.nextIsNegative && !s.previousIsOperation
    requires PopPrecedent(s.output, s.stack, op) == (out, stk)
    ensures Step(s, op) == Ok(State(out, stk + [op], false, true))
  {
    TrimFixpoint(op);
    OperatorOfTrimmed(op);
    SymbolNotOperand(op);
  }

  lemma {:induction false} StepUnary(s: State)
    requires Expecting(s)
    ensures Step(s, "-") == Ok(s.(nextIsNegative := true, previousIsOperation := false))
  {
    SymbolsNotOperands();
  }

  lemma {:induction false} StepAtom(s: State, w: string)
    requires IsAtomWord(w)
    ensures Step(s, w) == Ok(AfterOperand(s.output + [w] + (if s.nextIsNegative then [Negate] else []), s.stack))
  {
  }

  /** A factor read where an operand is expected: its postfix form goes to
      the output, the stack is as before, and an operator is expected. */
  lemma {:induction false} FactorRun(s: State, f: Factor, gap: seq<string>)
    requires FactorWF(f) && Expecting(s) && IsBlankGap(gap)
    ensures Run(s, FactorTokens(f, gap)) == Ok(AfterOperand(s.output + FactorPostfix(f), s.stack))
    decreases f, 1
  {
    match f
    case Atom(w) =>
      StepAtom(s, w);
      RunOne(s, w);
      assert s.output + [w] + [] == s.output + [w];
    case NegAtom(w) =>
      RunAppend(s, ["-"], [w]);
      RunOne(s, "-");
      StepUnary(s);
      var s1 := s.(nextIsNegative := true, previousIsOperation := false);
      RunOne(s1, w);
      StepAtom(s1, w);
      assert s.output + [w] + [Negate] == s.output + [w, Negate];
    case Paren(e) =>
      ParenRun(s, f, gap);
  }

  lemma {:induction false} ParenRun(s: State, f: Factor, gap: seq<string>)
    requires f.Paren? && FactorWF(f) && Expecting(s) && IsBlankGap(gap)
    ensures Run(s, FactorTokens(f, gap)) == Ok(AfterOperand(s.output + FactorPostfix(f), s.stack))
    decreases f, 0
  {
    var e := f.inner;
    var toks := ExprTokens(e, gap);
    assert FactorTokens(f, gap) == ["("] + toks + [")"];
    StepOpen(s);
    var s1 := s.(stack := s.stack + ["("]);
    ExprRun(s1, e, gap);
    var s2 := AfterOperand(s.output + ExprEmitted(e), s.stack + ["("] + ExprPending(e));
    CloseAfterExpr(s.output, s.stack, e);
    RunSurround(s, "(", s1, toks, s2, ")", AfterOperand(s.output + ExprPostfix(e), s.stack));
  }

  /** The `)` after an expression pops its waiting operators, completing
      its postfix form, and then the matching `(`. */
  lemma {:induction false} CloseAfterExpr(output: seq<string>, stack: seq<string>, e: Expr)
    ensures Step(AfterOperand(output + ExprEmitted(e), stack + ["("] + ExprPending(e)), ")")
         == Ok(AfterOperand(output + ExprPostfix(e), stack))
  {
    PendingNoOpen(e);
    CloseOver(output + ExprEmitted(e), stack, ExprPending(e));
    assert (output + ExprEmitted(e)) + Reverse(ExprPending(e)) == output + ExprPostfix(e) by {
      PendingCompletes(e);
    }
  }

  /** A `)` pops everything above the `(` it closes. */
  lemma {:induction false} CloseOver(output: seq<string>, stack: seq<string>, pend: seq<string>)
    requires forall k :: 0 <= k < |pend| ==> pend[k] != "("
    ensures Step(AfterOperand(output, stack + ["("] + pend), ")") == Ok(AfterOperand(output + Reverse(pend), stack))
  {
    PopUntilOpenSplit(output, stack + ["("], pend);
    StepClose(AfterOperand(output, stack + ["("] + pend), output + Reverse(pend), stack);
  }

  lemma {:induction false} PendingNoOpen(e: Expr)
    ensures forall k :: 0 <= k < |ExprPending(e)| ==> ExprPending(e)[k] != "("
  {
    PendingCompletes(e);
  }

  /** A term read where an operand is expected, above a stack that its
      operators cannot pop past: the output gains what the term emits and
      its waiting operator, if any, sits on the stack. */
  lemma {:induction false} TermRun(s: State, t: Term, gap: seq<string>)
    requires TermWF(t) && Expecting(s) && OpensTerm(s.stack) && IsBlankGap(gap)
    ensures Run(s, TermTokens(t, gap)) == Ok(AfterOperand(s.output + TermEmitted(t), s.stack + TermPending(t)))
    decreases t, 1
  {
    match t
    case Fac(f) =>
      FactorRun(s, f, gap);
      assert s.stack + [] == s.stack;
    case MulDiv(l, op, f) =>
      MulDivRun(s, t, gap);
  }

  /** A multiplicative operator pops the waiting operator of a term and
      stops at a stack that opens a term. */
  lemma {:induction false} Regroup<T>(a: seq<T>, b: seq<T>, c: seq<T>, d: seq<T>)
    ensures a + b + c + d == a + ((b + c) + d)
  {
  }

  lemma {:induction false} TermPendingCompletes(t: Term)
    ensures TermEmitted(t) + TermPending(t) == TermPostfix(t)
  {
  }

  lemma {:induction false} MulPops(stack: seq<string>, pend: seq<string>, m: string, l: Term)
    requires OpensTerm(stack) && m in ["*", "/"] && pend == TermPending(l)
    ensures forall k :: 0 <= k < |pend| ==> HasPrecedence(m, pend[k])
    ensures |stack| == 0 || !HasPrecedence(m, stack[|stack| - 1])
    ensures Reverse(pend) == pend
  {
  }

  lemma {:induction false} MulDivRun(s: State, t: Term, gap: seq<string>)
    requires t.MulDiv? && TermWF(t) && Expecting(s) && OpensTerm(s.stack) && IsBlankGap(gap)
    ensures Run(s, TermTokens(t, gap)) == Ok(AfterOperand(s.output + TermEmitted(t), s.stack + TermPending(t)))
    decreases t, 0
  {
    var l, f := t.left, t.right;
    var m := MulSymbol(t.mop);
    TermRun(s, l, gap);
    var out1 := s.output + TermEmitted(l);
    var s1 := AfterOperand(out1, s.stack + TermPending(l));
    var s2 := State(out1 + TermPending(l), s.stack + [m], false, true);
    assert Step(s1, m) == Ok(s2) by {
      MulPops(s.stack, TermPending(l), m, l);
      PopPrecedentSplit(out1, s.stack, TermPending(l), m);
      StepBinary(s1, m, s2.output, s.stack);
    }
    FactorRun(s2, f, gap);
    var s3 := AfterOperand(s2.output + FactorPostfix(f), s2.stack);
    RunAround(s, TermTokens(l, gap), s1, gap, m, s2, FactorTokens(f, gap), s3);
    assert TermTokens(t, gap) == TermTokens(l, gap) + gap + [m] + gap + FactorTokens(f, gap);
    assert s3 == AfterOperand(s.output + TermEmitted(t), s.stack + TermPending(t)) by {
      TermPendingCompletes(l);
      Regroup(s.output, TermEmitted(l), TermPending(l), FactorPostfix(f));
    }
  }

  /** An expression read where an operand is expected, above a barrier:
      the output gains what the expression emits, and its waiting
      operators sit on the stack. */
  lemma {:induction false} ExprRun(s: State, e: Expr, gap: seq<string>)
    requires ExprWF(e) && Expecting(s) && IsBarrier(s.stack) && IsBlankGap(gap)
    ensures Run(s, ExprTokens(e, gap)) == Ok(AfterOperand(s.output + ExprEmitted(e), s.stack + ExprPending(e)))
    decreases e, 1
  {
    match e
    case Trm(t) =>
      TermRun(s, t, gap);
    case AddSub(l, op, t) =>
      AddSubRun(s, e, gap);
  }

  lemma {:induction false} AddSubRun(s: State, e: Expr, gap: seq<string>)
    requires e.AddSub? && ExprWF(e) && Expecting(s) && IsBarrier(s.stack) && IsBlankGap(gap)
    ensures Run(s, ExprTokens(e, gap)) == Ok(AfterOperand(s.output + ExprEmitted(e), s.stack + ExprPending(e)))
    decreases e, 0
  {
    var l, t := e.left, e.right;
    var a := AddSymbol(e.aop);
    ExprRun(s, l, gap);
    var out1 := s.output + ExprEmitted(l);
    var s1 := AfterOperand(out1, s.stack + ExprPending(l));
    var s2 := State(s.output + ExprPostfix(l), s.stack + [a], false, true);
    assert Step(s1, a) == Ok(s2) by {
      PendingCompletes(l);
      PopPrecedentSplit(out1, s.stack, ExprPending(l), a);
      AppendAssoc(s.output, ExprEmitted(l), Reverse(ExprPending(l)));
      StepBinary(s1, a, s2.output, s.stack);
    }
    TermRun(s2, t, gap);
    var s3 := AfterOperand(s2.output + TermEmitted(t), s2.stack + TermPending(t));
    RunAround(s, ExprTokens(l, gap), s1, gap, a, s2, TermTokens(t, gap), s3);
    assert ExprTokens(e, gap) == ExprTokens(l, gap) + gap + [a] + gap + TermTokens(t, gap);
    assert s3 == AfterOperand(s.output + ExprEmitted(e), s.stack + ExprPending(e)) by {
      assert ExprEmitted(e) == ExprPostfix(l) + TermEmitted(t);
      assert ExprPending(e) == [a] + TermPending(t);
      AppendAssoc(s.stack, [a], TermPending(t));
      AppendAssoc(s.output, ExprPostfix(l), TermEmitted(t));
    }
  }

  /** The converter turns the tokens of an expression into its postfix
      form, and never fails on them. */
  lemma {:induction false} ConvertExpr(e: Expr, gap: seq<string>)
    requires ExprWF(e) && IsBlankGap(gap)
    ensures ConvertTokens(ExprTokens(e, gap)) == Ok(ExprPostfix(e))
  {
    ExprRun(Start, e, gap);
    PendingCompletes(e);
    assert Start.output + ExprEmitted(e) == ExprEmitted(e);
    assert Start.stack + ExprPending(e) == ExprPending(e);
  }

  // ---------------------------------------------------------------------
  // The evaluator computes the value of the postfix form

  /** A value pushed on the stack, or the error that prevented it. */
  function Pushed(stack: seq<real>, v: Result<real>): Result<seq<real>> {
    if v.Ok? then Ok(stack + [v.value]) else Err(v.error)
  }

  lemma {:induction false} ExecOne(stack: seq<real>, x: EvalToken, vars: map<string, real>)
    ensures Exec(stack, [x], vars) == ExecToken(stack, x, vars)
  {
    assert [x][1..] == [];
  }

  lemma {:induction false} AtomExec(stack: seq<real>, w: string, env: map<string, real>)
    requires IsAtomWord(w)
    ensures Exec(stack, Subst([w], env), env) == Pushed(stack, AtomValue(w, env))
  {
    OperandShape(w);
    assert Subst([w], env) == [SubstOne(w, env)];
    ExecOne(stack, SubstOne(w, env), env);
  }

  lemma {:induction false} NegateExec(stack: seq<real>, v: real, env: map<string, real>)
    ensures Exec(stack + [v], Subst([Negate], env), env) == Ok(stack + [-v])
  {
    assert LeadingDigits(Negate) == 0;
    assert Subst([Negate], env) == [Lit(Negate)];
    ExecOne(stack + [v], Lit(Negate), env);
    assert (stack + [v])[..|stack|] == stack;
  }

  /** The postfix pieces of two operands followed by the operator compute
      the operation on their values. */
  lemma {:induction false} CombineExec(stack: seq<real>, a: seq<string>, b: seq<string>, sym: string, op: BinOp,
                    left: Result<real>, right: Result<real>, env: map<string, real>)
    requires BinOpOf(sym) == Some(op)
    requires Exec(stack, Subst(a, env), env) == Pushed(stack, left)
    requires left.Ok? ==> Exec(stack + [left.value], Subst(b, env), env) == Pushed(stack + [left.value], right)
    ensures Exec(stack, Subst(a + b + [sym], env), env) == Pushed(stack, Combine(op, left, right))
  {
    var ta, tb := Subst(a, env), Subst(b, env);
    assert Subst(a + b + [sym], env) == ta + tb + [Lit(sym)] by {
      assert !IsVariable(sym);
      assert Subst([sym], env) == [Lit(sym)];
      SubstAppend(a + b, [sym], env);
      SubstAppend(a, b, env);
    }
    ExecAppend(stack, ta + tb, [Lit(sym)], env);
    ExecAppend(stack, ta, tb, env);
    if left.Ok? && right.Ok? {
      CombineTop(stack, left.value, right.value, sym, op, env);
    }
  }

  lemma {:induction false} CombineTop(stack: seq<real>, x: real, y: real, sym: string, op: BinOp, env: map<string, real>)
    requires BinOpOf(sym) == Some(op)
    ensures Exec(stack + [x] + [y], [Lit(sym)], env) == Pushed(stack, Combine(op, Ok(x), Ok(y)))
  {
    var st := stack + [x] + [y];
    ExecOne(st, Lit(sym), env);
    assert st[..|st| - 2] == stack;
  }

  lemma {:induction false} FactorExec(stack: seq<real>, f: Factor, env: map<string, real>)
    requires FactorWF(f)
    ensures Exec(stack, Subst(FactorPostfix(f), env), env) == Pushed(stack, FactorValue(f, env))
    decreases f
  {
    match f
    case Atom(w) => AtomExec(stack, w, env);
    case NegAtom(w) =>
      AtomExec(stack, w, env);
      assert FactorPostfix(f) == [w] + [Negate];
      SubstAppend([w], [Negate], env);
      ExecAppend(stack, Subst([w], env), Subst([Negate], env), env);
      if AtomValue(w, env).Ok? {
        NegateExec(stack, AtomValue(w, env).value, env);
      }
    case Paren(e) => ExprExec(stack, e, env);
  }

  lemma {:induction false} TermExec(stack: seq<real>, t: Term, env: map<string, real>)
    requires TermWF(t)
    ensures Exec(stack, Subst(TermPostfix(t), env), env) == Pushed(stack, TermValue(t, env))
    decreases t
  {
    match t
    case Fac(f) => FactorExec(stack, f, env);
    case MulDiv(l, op, f) =>
      TermExec(stack, l, env);
      var left := TermValue(l, env);
      if left.Ok? {
        FactorExec(stack + [left.value], f, env);
      }
      CombineExec(stack, TermPostfix(l), FactorPostfix(f), MulSymbol(op), MulBin(op),
        left, FactorValue(f, env), env);
  }

  lemma {:induction false} ExprExec(stack: seq<real>, e: Expr, env: map<string, real>)
    requires ExprWF(e)
    ensures Exec(stack, Subst(ExprPostfix(e), env), env) == Pushed(stack, ExprValue(e, env))
    decreases e
  {
    match e
    case Trm(t) => TermExec(stack, t, env);
    case AddSub(l, op, t) =>
      ExprExec(stack, l, env);
      var left := ExprValue(l, env);
      if left.Ok? {
        TermExec(stack + [left.value], t, env);
      }
      CombineExec(stack, ExprPostfix(l), TermPostfix(t), AddSymbol(op), AddBin(op),
        left, TermValue(t, env), env);
  }

  /** Evaluating the substituted postfix form gives the expression's
      value, or the error computing it meets. */
  lemma {:induction false} EvaluatePostfix(e: Expr, env: map<string, real>)
    requires ExprWF(e)
    ensures Evaluate(Subst(ExprPostfix(e), env), env) == ExprValue(e, env)
  {
    ExprExec([], e, env);
    var v := ExprValue(e, env);
    if v.Ok? {
      assert [] + [v.value] == [v.value];
    }
  }

  // ---------------------------------------------------------------------
  // The whole calculator

  /** With every variable of the expression given a value, the only error
      left is a division by zero. */
  lemma {:induction false} FactorValueErrors(f: Factor, env: map<string, real>)
    requires FactorWF(f)
    requires forall w :: w in FactorTokens(f, []) && IsVariable(w) ==> w in env
    ensures FactorValue(f, env).Err? ==> FactorValue(f, env).error == DivisionByZero
    decreases f
  {
    match f
    case Atom(w) =>
    case NegAtom(w) =>
    case Paren(e) => ExprValueErrors(e, env);
  }

  lemma {:induction false} TermValueErrors(t: Term, env: map<string, real>)
    requires TermWF(t)
    requires forall w :: w in TermTokens(t, []) && IsVariable(w) ==> w in env
    ensures TermValue(t, env).Err? ==> TermValue(t, env).error == DivisionByZero
    decreases t
  {
    match t
    case Fac(f) => FactorValueErrors(f, env);
    case MulDiv(l, op, f) =>
      TermValueErrors(l, env);
      FactorValueErrors(f, env);
  }

  lemma {:induction false} ExprValueErrors(e: Expr, env: map<string, real>)
    requires ExprWF(e)
    requires forall w :: w in ExprTokens(e, []) && IsVariable(w) ==> w in env
    ensures ExprValue(e, env).Err? ==> ExprValue(e, env).error == DivisionByZero
    decreases e
  {
    match e
    case Trm(t) => TermValueErrors(t, env);
    case AddSub(l, op, t) =>
      ExprValueErrors(l, env);
      TermValueErrors(t, env);
  }

  /** The variables the converter's output binds are those of the
      expression, in the same order. */
  lemma {:induction false} PostfixVariables(e: Expr)
    requires ExprWF(e)
    ensures NewVars(ExprPostfix(e), {}) == Variables(e)
  {
    TokensTrimmed(e);
    ConvertExpr(e, []);
    ConvertTokensFacts(ExprTokens(e, []));
    NewVarsOperands(ExprPostfix(e), {});
    NewVarsOperands(ExprTokens(e, []), {});
  }

  /** Binding the expression's variables to the input gives every one of
      them a value. */
  lemma {:induction false} BindingsCover(e: Expr, inputs: seq<real>)
    requires |inputs| >= |Variables(e)|
    ensures forall w :: w in ExprTokens(e, []) && IsVariable(w) ==> w in Bindings(Variables(e), inputs)
  {
    var toks := ExprTokens(e, []);
    var vs := Variables(e);
    NewVarsFacts(toks, {});
    forall w | w in toks && IsVariable(w) ensures w in Bindings(vs, inputs) {
      var i :| 0 <= i < |toks| && toks[i] == w;
      assert w in vs;
    }
  }

  /** `evaluateExpression` computes ordinary arithmetic: on the text of a
      well-formed expression, written with no blanks or with exactly one
      blank on each side of every binary operator and none elsewhere, it
      asks for one input value per distinct variable,
      in order of first appearance, fails if the input runs out, and
      otherwise returns the value of the expression under those bindings,
      whose only possible failure is a division by zero. */
  lemma {:induction false} EvaluateRendered(e: Expr, spaced: bool, inputs: seq<real>)
    requires ExprWF(e)
    ensures var vs := Variables(e);
      EvaluateExpression(Render(e, spaced), inputs) ==
        if |inputs| < |vs| then Err(NoInputLine) else ExprValue(e, Bindings(vs, inputs))
    ensures var r := EvaluateExpression(Render(e, spaced), inputs);
      r.Err? ==> r.error == NoInputLine || r.error == DivisionByZero
  {
    TokenizeRender(e, spaced);
    ConvertExpr(e, Blanks(spaced));
    PipelineSteps(Render(e, spaced), inputs);
    PostfixVariables(e);
    var vs := Variables(e);
    if |inputs| >= |vs| {
      var env := Bindings(vs, inputs);
      EvaluatePostfix(e, env);
      BindingsCover(e, inputs);
      ExprValueErrors(e, env);
    }
  }
}
