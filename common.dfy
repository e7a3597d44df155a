// Character classes, operator precedence and the error kinds shared by both
// translators (translator/include/translator.h and translator/include/Queue.h
// define the same helpers twice; here they are defined once).

module Common {

  /** The exceptions the evaluators throw, one constructor per distinct cause.
      InsufficientOperands and MalformedExpression both carry the message
      "Invalid expression" in the source. */
  datatype Error =
    | UnmatchedParentheses   // "Unmatched parentheses in expression"
    | InvalidCharacter       // "Invalid character in expression"
    | InsufficientOperands   // an operator met fewer than two values
    | DivisionByZero         // "Division by zero"
    | MalformedExpression    // the value stack does not end with exactly one value
    | BadLiteral             // std::stod found no number to convert

  /** Success or failure; the source throws where this returns Err. */
  datatype Result<+T, +E> = Ok(value: T) | Err(error: E)

  datatype Option<+T> = None | Some(value: T)

  /** A postfix token: what std::istringstream >> yields, never empty. */
  type Token = s: string | |s| > 0 witness "0"

  /** ASCII digits (the "C" locale's isdigit). */
  predicate IsDigit(c: char) {
    '0' <= c <= '9'
  }

  /** ASCII white space (the "C" locale's isspace): space, and tab, line
      feed, vertical tab, form feed and carriage return (codes 9 to 13). */
  predicate IsSpace(c: char) {
    c == ' ' || '\t' <= c <= '\r'
  }

  /** The four binary operators; none of them is a digit, white space, a
      dot or a parenthesis, so the branches that test for those never see
      an operator. */
  predicate IsOperator(c: char): (b: bool)
    ensures b ==> !IsDigit(c) && !IsSpace(c) && c != '.' && c != '(' && c != ')'
  {
    c == '+' || c == '-' || c == '*' || c == '/'
  }

  /** Binding strength; anything that is not an operator (in practice '(')
      gets 0, which is what stops the popping loops at a parenthesis. */
  function Precedence(c: char): (p: int)
    ensures 0 <= p <= 2
    ensures p > 0 <==> IsOperator(c)
    ensures p == 2 <==> (c == '*' || c == '/')
  {
    if c == '+' || c == '-' then 1
    else if c == '*' || c == '/' then 2
    else 0
  }
}
