/** The token classifiers of `ExpressionCalc` (`isNumber`, `isVariable`,
    `isOperator`, `hasPrecedence`), written as character predicates in
    place of the Java regular expressions, and the decimal reading of a
    number token that `Double.parseDouble` performs, over exact reals. */
module Classify {
  import opened Seqs
  import opened Text
  import opened Tokenizer

  predicate IsDigit(c: char) {
    '0' <= c <= '9'
  }

  predicate IsLetter(c: char) {
    ('a' <= c <= 'z') || ('A' <= c <= 'Z')
  }

  predicate AllDigits(s: string) {
    forall k :: 0 <= k < |s| ==> IsDigit(s[k])
  }

  /** Length of the leading run of digits. */
  function LeadingDigits(s: string): (n: nat)
    ensures n <= |s|
    ensures AllDigits(s[..n])
    ensures n == |s| || !IsDigit(s[n])
  {
    if |s| == 0 || !IsDigit(s[0]) then 0
    else
      var n := 1 + LeadingDigits(s[1..]);
      assert s[..n] == [s[0]] + s[1..][..n - 1];
      n
  }

  /** The regular expression `\d+(\.\d+)?`: digits, optionally followed by
      a dot and more digits.  This is the shape the evaluator accepts. */
  predicate IsUnsignedNumber(s: string) {
    var n := LeadingDigits(s);
    n > 0 && (n == |s| || (s[n] == '.' && n + 1 < |s| && AllDigits(s[n + 1..])))
  }

  lemma {:induction false} LeadingDigitsOfDigits(d: string, rest: string)
    requires AllDigits(d)
    requires |rest| == 0 || !IsDigit(rest[0])
    ensures LeadingDigits(d + rest) == |d|
  {
    if |d| == 0 {
      assert d + rest == rest;
    } else {
      assert (d + rest)[0] == d[0];
      assert (d + rest)[1..] == d[1..] + rest;
      LeadingDigitsOfDigits(d[1..], rest);
    }
  }

  /** The two shapes `\d+(\.\d+)?` accepts, spelled out: digits `d`
      alone, or digits `d`, a dot and the digits `f`. */
  lemma {:induction false} UnsignedNumberForms(s: string)
    ensures IsUnsignedNumber(s) <==>
      exists d, f :: |d| > 0 && AllDigits(d) && AllDigits(f) && s == NumberText(d, f)
  {
    if IsUnsignedNumber(s) {
      var n := LeadingDigits(s);
      if n == |s| {
        assert s == NumberText(s[..n], "");
      } else {
        assert s == NumberText(s[..n], s[n + 1..]);
      }
    }
    if exists d, f :: |d| > 0 && AllDigits(d) && AllDigits(f) && s == NumberText(d, f) {
      var d, f :| |d| > 0 && AllDigits(d) && AllDigits(f) && s == NumberText(d, f);
      ParseNumberParts(d, f);
    }
  }

  /** The text of a number with integer digits `d` and fraction digits
      `f`, the dot left out when there are none. */
  function NumberText(d: string, f: string): string {
    if |f| == 0 then d else d + "." + f
  }

  /** `isNumber`: the regular expression `-?\d+(\.\d+)?`. */
  predicate IsNumber(s: string) {
    IsUnsignedNumber(s) || (|s| > 0 && s[0] == '-' && IsUnsignedNumber(s[1..]))
  }

  /** `isVariable`: the regular expression `[a-zA-Z_][a-zA-Z0-9_]*`. */
  predicate IsVariable(s: string) {
    && |s| > 0
    && (IsLetter(s[0]) || s[0] == '_')
    && forall k :: 1 <= k < |s| ==> IsLetter(s[k]) || IsDigit(s[k]) || s[k] == '_'
  }

  /** The tokens the converter copies to its output as they come. */
  predicate IsOperand(s: string) {
    IsNumber(s) || IsVariable(s)
  }

  /** `isOperator`: after trimming, exactly one of `+ - * /`. */
  predicate IsOperator(c: string) {
    var t := Trim(c);
    |t| == 1 && t[0] in "+-*/"
  }

  /** The four binary operator tokens. */
  predicate IsOperatorSymbol(t: string) {
    t == "+" || t == "-" || t == "*" || t == "/"
  }

  /** Binding strength of a binary operator in ordinary arithmetic. */
  function Level(op: string): nat {
    if op == "*" || op == "/" then 2 else if op == "+" || op == "-" then 1 else 0
  }

  /** `hasPrecedence(op1, op2)`: whether the operator `op2` on top of the
      stack is popped before the incoming `op1` is pushed.  A parenthesis
      is never popped; between operators the top is popped exactly when it
      binds at least as tightly, so operators of equal strength pop each
      other and associate to the left. */
  function HasPrecedence(op1: string, op2: string): (r: bool)
    ensures op2 == "(" || op2 == ")" ==> !r
    ensures IsOperatorSymbol(op1) && IsOperatorSymbol(op2) ==> (r <==> Level(op2) >= Level(op1))
  {
    if op2 == "(" || op2 == ")" then false
    else (op1 != "*" && op1 != "/") || (op2 != "+" && op2 != "-")
  }

  /** Since tokens reach `isOperator` already trimmed, it accepts exactly
      the four operator tokens. */
  lemma {:induction false} OperatorOfTrimmed(t: string)
    requires Trim(t) == t
    ensures IsOperator(t) <==> IsOperatorSymbol(t)
  {
    if IsOperator(t) {
      assert t == [t[0]];
    }
  }

  /** Operands are never operators, parentheses, the unary marker or the
      empty token, and contain no character `trim()` or the `Scanner`
      would split at.  Numbers and variables do not overlap, and apart from
      the optional leading sign of a number an operand contains no
      delimiter of the tokenizer. */
  lemma {:induction false} OperandShape(t: string)
    requires IsOperand(t)
    ensures !(IsNumber(t) && IsVariable(t))
    ensures !IsOperatorSymbol(t) && t != "(" && t != ")" && t != "~"
    ensures IsPlainWord(t)
    ensures IsVariable(t) || IsUnsignedNumber(t) ==> IsRun(t)
  {
    var n := LeadingDigits(t);
    assert IsUnsignedNumber(t) ==> forall k :: 0 <= k < |t| ==> IsDigit(t[k]) || t[k] == '.' by {
      if IsUnsignedNumber(t) {
        forall k | 0 <= k < |t| ensures IsDigit(t[k]) || t[k] == '.' {
          if k < n {
            assert t[k] == t[..n][k];
          } else if k > n {
            assert t[k] == t[n + 1..][k - n - 1];
          }
        }
      }
    }
    if IsNumber(t) && !IsUnsignedNumber(t) {
      var u := t[1..];
      var m := LeadingDigits(u);
      forall k | 1 <= k < |t| ensures IsDigit(t[k]) || t[k] == '.' {
        assert t[k] == u[k - 1];
        if k - 1 < m {
          assert u[k - 1] == u[..m][k - 1];
        } else if k - 1 > m {
          assert u[k - 1] == u[m + 1..][k - 1 - m - 1];
        }
      }
    }
  }

  function DigitValue(c: char): nat
    requires IsDigit(c)
  {
    (c as int - '0' as int) as nat
  }

  /** The natural number a string of decimal digits denotes. */
  function DigitsValue(s: string): nat
    requires AllDigits(s)
  {
    if |s| == 0 then 0 else 10 * DigitsValue(s[..|s| - 1]) + DigitValue(s[|s| - 1])
  }

  function Pow10(k: nat): (r: nat)
    ensures r > 0
  {
    if k == 0 then 1 else 10 * Pow10(k - 1)
  }

  /** The number a token denotes: its integer digits, plus its fraction
      digits over the power of ten they span. */
  lemma {:induction false} ParseNumberParts(d: string, f: string)
    requires |d| > 0 && AllDigits(d) && AllDigits(f)
    ensures |f| == 0 ==> IsUnsignedNumber(d) && ParseNumber(d) == DigitsValue(d) as real
    ensures |f| > 0 ==>
      && IsUnsignedNumber(d + "." + f)
      && ParseNumber(d + "." + f) == DigitsValue(d) as real + DigitsValue(f) as real / Pow10(|f|) as real
  {
    if |f| == 0 {
      LeadingDigitsOfDigits(d, "");
      assert d + "" == d;
      assert d[..|d|] == d;
    } else {
      var s := d + "." + f;
      assert s == d + ("." + f);
      LeadingDigitsOfDigits(d, "." + f);
      assert s[..|d|] == d;
      assert s[|d| + 1..] == f;
    }
  }

  /** The tokenizer splits at every `-`, so the optional sign `isNumber`
      allows never occurs: every number token the converter sees is
      unsigned. */
  lemma {:induction false} NumberTokensUnsigned(s: string)
    ensures forall i :: 0 <= i < |Tokenize(s)| && IsNumber(Tokenize(s)[i]) ==> IsUnsignedNumber(Tokenize(s)[i])
  {
    var r := Tokenize(s);
    forall i | 0 <= i < |r| && IsNumber(r[i]) ensures IsUnsignedNumber(r[i]) {
      var t := r[i];
      if |t| > 1 {
        assert IsRun(t);
        assert t[0] != '-';
      }
    }
  }

  /** A number or a variable written alone is one token: the tokenizer
      gives it back whole. */
  lemma {:induction false} OperandToken(t: string)
    requires IsVariable(t) || IsUnsignedNumber(t)
    ensures Tokenize(t) == [t]
  {
    OperandShape(t);
    TrimFixpoint(t);
    assert Concat([t]) == t by {
      assert Concat([t]) == t + Concat([t][1..]);
      assert [t][1..] == [];
    }
    TokenizeConcat([t]);
  }

  /** The value `Double.parseDouble` reads from a number token, taken
      exactly: the integer part plus the fraction digits over the matching
      power of ten. */
  function ParseNumber(s: string): real
    requires IsUnsignedNumber(s)
  {
    var n := LeadingDigits(s);
    var whole := DigitsValue(s[..n]) as real;
    if n == |s| then whole
    else whole + DigitsValue(s[n + 1..]) as real / Pow10(|s| - n - 1) as real
  }
}
