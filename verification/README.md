# ExpressionCalc in Dafny

A model of the arithmetic expression calculator `ExpressionCalc`, with
proofs about it. The calculator takes an infix expression over numbers,
variables, `+ - * /`, parentheses and unary minus. It then:

1. splits the text with a `StringTokenizer` over the delimiters
   ` +-*/()`, returning the delimiters as tokens, and trims every token;
2. converts the tokens to reverse Polish notation with a shunting-yard
   loop. The loop tracks two flags: `nextIsNegative` (a unary minus waits
   for its operand) and `previousIsOperation` (an operand is expected).
   Each negated operand is followed by the marker `~`;
3. asks for the value of every variable the first time it appears in the
   postfix text, reading one input line per variable, and substitutes
   the values (`preprocessExpression`);
4. evaluates the postfix text on a value stack (`evaluate`, `applyOp`).

Each exception the calculator throws is an `Outcomes.Error`
constructor. Every stage returns an `Outcomes.Result`.

Modules, in pipeline order:

| file | module | what it holds |
|---|---|---|
| outcomes.dfy | `Outcomes` | errors, `Result`, the exception messages |
| seqs.dfy | `Seqs` | `Reverse` and `Concat` on sequences, with their algebra |
| text.dfy | `Text` | `String.trim`, the `Scanner` split on whitespace, joining words with spaces |
| tokenizer.dfy | `Tokenizer` | the `StringTokenizer` split followed by `trim()` |
| classify.dfy | `Classify` | `isNumber`, `isVariable`, `isOperator`, `hasPrecedence`, number literals |
| converter.dfy | `Converter` | `infixToRPN` as a state machine, one `Step` per token |
| evaluator.dfy | `Evaluator` | `preprocessExpression`, `evaluate`, `applyOp`, `evaluateExpression` |
| grammar.dfy | `Grammar` | well-formed expressions compared with ordinary arithmetic |
| scenarios.dfy | `Scenarios` | the cases of `ExpressionCalcTest` as lemmas |
| findings.dfy | `Findings` | the value text `preprocessExpression` writes, and where it breaks |

The headline result is `Grammar.EvaluateRendered`. It covers every
expression of the grammar

    expr ::= term | expr ("+"|"-") term
    term ::= factor | term ("*"|"/") factor
    factor ::= atom | "-" atom | "(" expr ")"

written with no blanks, or with one blank on each side of every binary
operator and none elsewhere. For all such expressions,
`evaluateExpression` does one of two things:

- it binds the distinct variables to the input values in order of first
  appearance and returns the arithmetic value, with `*` and `/` binding
  tighter and operators grouping from the left;
- or it fails, and the only possible failures are a missing input line
  and division by zero.

Other layouts are not covered. A blank after a unary minus, as in `- a`,
becomes an empty token where an operand is expected, and the text fails
with "Incorrect expression" (`Scenarios.BlankAfterUnaryMinus`).

The calculator's `double` is modelled as an exact `real`. Input values
are given as a sequence of reals, one per line the prompt would read.

## Model

| member | source | states |
|---|---|---|
| Text.Trim | src/ExpressionCalc.java:12 | The trimmed token neither starts nor ends with a character at or below U+0020. |
| Text.TrimSlice | src/ExpressionCalc.java:12 | The trimmed token is the slice of the input left after cutting, from either end, only characters at or below U+0020, and as many of them as there are. |
| Text.TrimFixpoint | src/ExpressionCalc.java:53 | Trimming leaves a string unchanged exactly when it has no blank at either end, and trimming twice is trimming once. |
| Text.Scan | src/ExpressionCalc.java:92-93 | The words the `Scanner` yields are nonempty and contain no whitespace. |
| Text.ScanBlank | src/ExpressionCalc.java:92-93 | A text made only of whitespace yields no words. |
| Text.ScanWord | src/ExpressionCalc.java:92-93 | After leading whitespace, the next word is the whole run of non-whitespace characters up to the next whitespace, and scanning goes on from there. |
| Text.ScanJoin | src/ExpressionCalc.java:89-93 | Scanning words joined by single spaces gives back exactly those words. |
| Tokenizer.RawTokens | src/ExpressionCalc.java:8-12 | The tokens spell out the input exactly. Each is a single delimiter or a maximal run of non-delimiters, and no two runs are adjacent. |
| Tokenizer.RawTokensOfConcat | src/ExpressionCalc.java:8-12 | The split is unique: any sequence of that shape is what splitting its concatenation returns. |
| Tokenizer.RawTokensAppend | src/ExpressionCalc.java:8-12 | Where a delimiter meets the seam, splitting a concatenation is concatenating the splits. |
| Tokenizer.TokenizeAppend | src/ExpressionCalc.java:8-12 | The same holds after every token is trimmed. |
| Tokenizer.Tokenize | src/ExpressionCalc.java:11-12 | Every token the converter sees is already trimmed. It is empty, a single non-blank delimiter, or a run without delimiters. |
| Tokenizer.TokenizeConcat | src/ExpressionCalc.java:8-12 | Trimmed, well-split tokens come back unchanged from tokenizing their concatenation. |
| Classify.HasPrecedence | src/ExpressionCalc.java:70-76 | A parenthesis on top never has precedence. Between operators, the top has precedence over the incoming operator exactly when its level is at least as high. |
| Classify.OperatorOfTrimmed | src/ExpressionCalc.java:60-63 | On a trimmed token, `isOperator` holds exactly for the four one-character operator symbols. |
| Classify.UnsignedNumberForms | src/ExpressionCalc.java:118 | A word matches `\d+(\.\d+)?` exactly when it is a nonempty digit string, optionally followed by `.` and a nonempty digit string. |
| Classify.ParseNumberParts | src/ExpressionCalc.java:119 | `parseDouble` of such a word is the whole part plus the fraction digits' value over 10 to the number of fraction digits. |
| Classify.NumberTokensUnsigned | src/ExpressionCalc.java:8-14 | `-` is a delimiter, so every token of the input that `isNumber` accepts (pattern `-?\d+(\.\d+)?`, line 57) is unsigned. |
| Classify.OperandToken | src/ExpressionCalc.java:56-68 | A word that `isVariable` or the unsigned number pattern accepts tokenizes to itself alone. |
| Classify.OperandShape | src/ExpressionCalc.java:56-68 | An operand is not both a number and a variable. It is never an operator, a parenthesis or `~`, and it contains no whitespace. |
| Converter.PopPrecedent | src/ExpressionCalc.java:25-27 | The stack left behind is a prefix of the old one, and the popped suffix reaches the output top first. |
| Converter.PopPrecedentStops | src/ExpressionCalc.java:25-27 | Every popped operator had precedence over the incoming one. The operator left on top, if any, does not. |
| Converter.PopUntilOpen | src/ExpressionCalc.java:39-41 | Popping stops at the topmost `(` or at the bottom of the stack. No `(` is popped, and the popped operators reach the output top first. |
| Converter.CloseGroup | src/ExpressionCalc.java:38-44 | With a `(` on the stack, the operators above the topmost `(` go to the output and that `(` is dropped. Without one, the whole stack goes to the output. |
| Converter.Step | src/ExpressionCalc.java:14-45 | The only error a token can raise is "Incorrect expression". |
| Converter.StepOutcome | src/ExpressionCalc.java:14-45 | It fails exactly for a non-operand after a pending unary minus, or for an operator other than `-` where an operand is expected. An operand goes to the output, followed by `~` when negated. A `-` where an operand is expected arms the unary minus. Other tokens are dropped. A `)` with no `(` empties the stack into the output. |
| Converter.Run | src/ExpressionCalc.java:11-47 | Running the loop over any tokens can only fail with "Incorrect expression". |
| Converter.ConvertTokens | src/ExpressionCalc.java:5-54 | The conversion, including the final flush of the stack, can only fail with "Incorrect expression". |
| Converter.RunInvariant | src/ExpressionCalc.java:11-47 | Through the loop, operands reach the output in input order and each `~` follows an operand. The number of `(` on the stack moves as the open depth does: up by one at `(`, down by one at a `)` that has a `(` to close, and unchanged otherwise. |
| Converter.DepthBounds | src/ExpressionCalc.java:36-44 | The open depth is at most the number of `(` and at least the number of `(` minus the number of `)`. |
| Converter.ConvertTokensFacts | src/ExpressionCalc.java:5-54 | The postfix output has the input's operands in the same order. Every `~` follows an operand, no `)` appears, and every word is plain. The output holds exactly as many `(` as the input's open depth: the `(` that no later `)` closes. |
| Converter.InfixToRpn | src/ExpressionCalc.java:5-54 | `infixToRPN` fails exactly when the conversion of the tokens fails, and then with "Incorrect expression". Its text is already trimmed and scans back into exactly the converted tokens. |
| Converter.ScanRpnText | src/ExpressionCalc.java:53 | Writing the postfix tokens space-separated, trimming, and scanning the text back gives the same tokens. |
| Evaluator.ApplyOp | src/ExpressionCalc.java:145-159 | It fails exactly for `/` with a zero right operand, and then with "Division by zero". Otherwise each result inverts its operation: `r - b == a`, `r + b == a`, `r / b == a` and `r * b == a`. |
| Evaluator.ExecToken | src/ExpressionCalc.java:116-134 | A value is pushed. A number word pushes the value it denotes. A variable pushes its bound value, or fails with "Undefined variable" when unbound. An operator needs two values, fails with "Incorrect expression" on fewer, and replaces the top two with `applyOp`'s result, leaving the rest of the stack alone. `~` fails with `EmptyStackException` on an empty stack and otherwise negates the top value only. An unknown word fails with "Invalid token". |
| Evaluator.Evaluate | src/ExpressionCalc.java:113-142 | It succeeds exactly when the run leaves one value, and returns that value. Any other count is "Invalid expression", and a failing run passes its error on. |
| Evaluator.ExecHeight | src/ExpressionCalc.java:116-135 | A successful run changes the stack height by the tokens' effects: plus one per value, number or variable, minus one per operator, none for `~`. |
| Evaluator.EvaluateBalance | src/ExpressionCalc.java:113-142 | `evaluate` returns a value only when the tokens' effects add up to exactly one. |
| Evaluator.ExecAppend | src/ExpressionCalc.java:116-135 | Running two token sequences in a row is running their concatenation. |
| Evaluator.UnknownTokenFails | src/ExpressionCalc.java:132-134 | A word that is not a number, variable, operator or `~` makes the whole run fail, wherever it sits. |
| Evaluator.NewVars | src/ExpressionCalc.java:94-99 | The variables prompted for are new and pairwise distinct. |
| Evaluator.NewVarsFacts | src/ExpressionCalc.java:94-99 | A word is prompted for exactly when it is a variable of the text that is not yet bound. |
| Evaluator.Bindings | src/ExpressionCalc.java:95-99 | The bindings cover exactly the prompted variables, and the i-th one takes the i-th input value. |
| Evaluator.Preprocess | src/ExpressionCalc.java:88-107 | The only error while substituting is running out of input lines. |
| Evaluator.PreprocessBinds | src/ExpressionCalc.java:88-107 | Substitution succeeds exactly when there are enough inputs for the distinct new variables. It then binds them to the leading inputs in first-occurrence order, replaces every occurrence by its value (`Subst`, line 100), and leaves the remaining inputs unread. |
| Evaluator.PipelineSteps | src/ExpressionCalc.java:79-86 | `EvaluateExpression`, the model of `evaluateExpression`, gives the conversion's error if there is one. Otherwise it binds the variables, reporting missing input before any arithmetic, and evaluates the substituted postfix sequence. |
| Evaluator.StrayParenthesisFails | src/ExpressionCalc.java:132-134 | A postfix text that contains `(` never evaluates to a value. |
| Evaluator.UnclosedParenthesisFails | src/ExpressionCalc.java:36-51 | An expression with a `(` that no later `)` closes always fails, whatever the inputs. |
| Evaluator.UnreachableErrors | src/ExpressionCalc.java:120-131 | `~` never meets an empty stack, and no variable is ever undefined when evaluating. |
| Evaluator.BoundNeverUnderflows | src/ExpressionCalc.java:130-131 | When each `~` follows an operand, negation never pops an empty stack. |
| Evaluator.BoundNeverUndefined | src/ExpressionCalc.java:121-123 | After binding, every variable of the postfix text has a value. |
| Grammar.TokenizeRender | src/ExpressionCalc.java:8-12 | An expression's text, written with no blanks or with one blank on each side of every binary operator, tokenizes to its atoms and symbols in order, with an empty token for each blank. |
| Grammar.ConvertExpr | src/ExpressionCalc.java:5-54 | Every well-formed expression converts to its postfix form: operands in order, operators after their operands, and `*` and `/` over `+` and `-`, left-associative. |
| Grammar.EvaluatePostfix | src/ExpressionCalc.java:113-159 | Evaluating an expression's postfix form gives its arithmetic value. |
| Grammar.ExprValueErrors | src/ExpressionCalc.java:145-159 | With every variable bound, the only possible arithmetic error is division by zero. |
| Grammar.PostfixVariables | src/ExpressionCalc.java:94-99 | The variables prompted for are the expression's distinct variables in order of first appearance. |
| Grammar.BindingsCover | src/ExpressionCalc.java:95-100 | Given enough inputs, every variable of the expression gets a value. |
| Grammar.EvaluateRendered | src/ExpressionCalc.java:79-159 | For every well-formed expression in either of those two layouts, `evaluateExpression` returns the expression's value under the in-order bindings, or fails for lack of input. The only errors are a missing input line and division by zero. |
| Outcomes.TestedMessages | Tests/ExpressionCalcTest.java:61-79 | The messages of the errors the tests expect are "Division by zero", "Incorrect expression" and "Invalid token: (". |
| Scenarios.TestNoVariables | Tests/ExpressionCalcTest.java:14-20 | `1 + 1 / (-1)` with no input evaluates to 0. |
| Scenarios.TestAllOperations | Tests/ExpressionCalcTest.java:23-29 | `a + b * (c / d) - 1` with inputs 5, 3, 10, 4 evaluates to 11.5. |
| Scenarios.TestSameVariables | Tests/ExpressionCalcTest.java:32-38 | `a + a * (a - a)` prompts once and, with input 5, evaluates to 5. |
| Scenarios.TestLongVariable | Tests/ExpressionCalcTest.java:41-47 | `a + b * c / d + theLastVariableWithValue5` with inputs 1 to 5 evaluates to 7.5. |
| Scenarios.TestUnaryMinus | Tests/ExpressionCalcTest.java:49-55 | `-a + (-5)` with input 1 evaluates to -6. |
| Scenarios.TestDivZero | Tests/ExpressionCalcTest.java:58-64 | `a + a * (a / a)` with input 0 fails with division by zero. |
| Scenarios.TestIncorrectExpression | Tests/ExpressionCalcTest.java:67-73 | `a + + a * (a / a)` fails with "Incorrect expression". |
| Scenarios.TestNotClosed | Tests/ExpressionCalcTest.java:76-82 | `a + a * (a / a` fails with "Invalid token: (": the stray `(` reaches the evaluator. |
| Scenarios.BlankAfterUnaryMinus | src/ExpressionCalc.java:11-22 | `- a` fails with "Incorrect expression": the blank after the minus is an empty token where an operand is expected. |
| Scenarios.ClosedBeforeOpened | src/ExpressionCalc.java:36-51 | `a ) + ( b` has one `(` and one `)`, but its open depth is one, and it converts to `a b ( +`. |
| Scenarios.ClosedBeforeOpenedFails | src/ExpressionCalc.java:79-134 | `a)+(b` fails whatever the inputs, although its parentheses are equal in number. |
| Findings.NegativeTextRejected | src/ExpressionCalc.java:118-134 | The text `Double.toString` gives a negative whole value is not a number, variable, operator or `~` to `evaluate`. |
| Findings.TextTokenStep | src/ExpressionCalc.java:100-119 | A nonnegative value's text is read back as that value. A negative value's text is an invalid token. |
| Findings.SubstituteText | src/ExpressionCalc.java:88-107 | Writing the value text keeps one word per postfix word, and the only error is running out of input lines. |
| Findings.AsWrittenAgrees | src/ExpressionCalc.java:88-134 | For nonnegative whole inputs, the calculator as written, which substitutes text, gives the same result as substituting the values. |
| Findings.NegativeValueRejected | src/ExpressionCalc.java:100-134 | As written, a single variable bound to a negative value fails with "Invalid token: <text>". Substituting the value instead returns that value. |
| Findings.MinusOneRejected | src/ExpressionCalc.java:97-100 | As written, the expression `a` with input -1 fails with "Invalid token: -1.0". |
| Findings.SignKept | src/ExpressionCalc.java:79-86 | In the corrected model, the expression made of one variable evaluates to its input value, whatever its sign. |

## Left out

- Console I/O: `Main.java`'s prompt and printing, and the "Enter value for variable" prompt. The input lines are a parameter, one real per line. Running out of lines is the `NoInputLine` error, which carries `Scanner.nextLine`'s message.
- Parsing of the input line: `Double.parseDouble` of a line is taken to have produced the given real. A line that is not a number (`NumberFormatException`) is not modelled.
- Floating point: `double` arithmetic is exact `real` arithmetic, so rounding, infinities and NaN are not modelled.
- `Double.toString` text: the main model substitutes the value itself. The written text is modelled in `Findings` only for whole values of magnitude below 10^7, where it is digits followed by `.0`. `Double.toString` writes a value with magnitude at least 10^7, or between 0 and 10^-3, in exponent notation (such as `1.0E7`), which `evaluate` rejects with "Invalid token: 1.0E7"; the main model returns the value instead.
- Findings.SubstituteText: defined only for whole inputs of magnitude below 10^7, because `Double.toString` of other values (exponent notation, fractions) is not modelled.
- The `applyOp` default branch (`Invalid operator`): unreachable. Operators reach `applyOp` only through the four-symbol check, and are a `BinOp` datatype in the model.
- Regular expressions: `matches` is modelled as character predicates equivalent to each pattern. The regex engine is not modelled.
- `StringTokenizer` and `Scanner` internals: modelled by what they return. The tokenizer is `Tokenizer.RawTokens`; the `Scanner` is `Text.Scan`, splitting on Java whitespace.
- `~` on an empty stack throws `EmptyStackException`, which has no message (src/ExpressionCalc.java:131; `Outcomes.EmptyStack`). `Evaluator.UnreachableErrors` shows it never happens.
- A `)` with no `(` below it pops the whole operator stack into the output (src/ExpressionCalc.java:39-44; `Converter.StepOutcome`).

## Findings

| source | as written | input that shows it | evidently intended | confidence | as-written member | corrected member |
|---|---|---|---|---|---|---|
| src/ExpressionCalc.java:100-118 | `preprocessExpression` appends the variable's value as `Double.toString` text. `evaluate` accepts only the unsigned pattern `\d+(\.\d+)?`, so a negative value's text `-1.0` matches no branch. | expression `a`, input line `-1` | the result -1.0, the value bound to `a` | not executed | Findings.NegativeValueRejected | Findings.SignKept |
