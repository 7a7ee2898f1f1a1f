/** The error taxonomy of the calculator and the failure-compatible
    result type every stage of the pipeline returns.  Each Java
    `RuntimeException` the calculator throws becomes one `Error`
    constructor; `Message` gives back the text the exception carried. */
module Outcomes {

  datatype Option<+T> = None | Some(value: T)

  /** One constructor per exception the core can raise. */
  datatype Error =
    | IncorrectExpression          // misplaced operator or unary minus, too few operands
    | DivisionByZero               // `/` with a zero right operand
    | InvalidToken(token: string)  // the evaluator met a token it does not know, e.g. `(`
    | InvalidExpression            // the value stack does not end with exactly one value
    | UndefinedVariable(name: string)
    | EmptyStack                   // `~` popped an empty value stack (java.util.EmptyStackException)
    | NoInputLine                  // the variable prompt found no further input line

  datatype Result<+T> = Ok(value: T) | Err(error: Error) {

    predicate IsFailure() {
      Err?
    }

    function PropagateFailure<U>(): Result<U>
      requires Err?
    {
      Err(error)
    }

    function Extract(): T
      requires Ok?
    {
      value
    }
  }

  /** The message the corresponding Java exception carries; `None` where
      the exception is created without one. */
  function Message(e: Error): Option<string>
  {
    match e
    case IncorrectExpression => Some("Incorrect expression")
    case DivisionByZero => Some("Division by zero")
    case InvalidToken(t) => Some("Invalid token: " + t)
    case InvalidExpression => Some("Invalid expression")
    case UndefinedVariable(n) => Some("Undefined variable: " + n)
    case EmptyStack => None
    case NoInputLine => Some("No line found")
  }

  /** The messages the calculator's tests expect to see. */
  lemma TestedMessages()
    ensures Message(DivisionByZero) == Some("Division by zero")
    ensures Message(IncorrectExpression) == Some("Incorrect expression")
    ensures Message(InvalidToken("(")) == Some("Invalid token: (")
  {
    assert "Invalid token: " + "(" == "Invalid token: (";
  }
}
