// A reference semantics for the arithmetic the calculator computes: expression
// trees, their value, their postfix spelling and their fully parenthesised
// infix spelling. The theorems about both translators are stated against it.

module Expressions {
  import opened Common
  import opened Literal
  import opened Operators

  datatype BinOp = Add | Sub | Mul | Div

  /** A literal, written as its integer part and its fraction digits, or a
      binary operation. */
  datatype Expr = Num(whole: nat, fraction: Digits) | Bin(op: BinOp, left: Expr, right: Expr)

  function Symbol(op: BinOp): (c: char)
    ensures IsOperator(c)
  {
    match op
    case Add => '+'
    case Sub => '-'
    case Mul => '*'
    case Div => '/'
  }

  /** One arithmetic step of the evaluators: `a op b`, except that a zero right
      operand of '/' is an error instead of an infinity. */
  function Apply(op: char, a: real, b: real): (r: Result<real, Error>)
    requires IsOperator(op)
    ensures r.Err? <==> op == '/' && b == 0.0
    ensures r.Err? ==> r.error == DivisionByZero
  {
    if op == '+' then Ok(a + b)
    else if op == '-' then Ok(a - b)
    else if op == '*' then Ok(a * b)
    else if b == 0.0 then Err(DivisionByZero)
    else Ok(a / b)
  }

  /** The value of a tree: left operand first, then right, then the operator. */
  function Eval(e: Expr): Result<real, Error> {
    match e
    case Num(w, f) => Ok(FixedValue(w, f))
    case Bin(op, l, r) =>
      match Eval(l)
      case Err(x) => Err(x)
      case Ok(a) =>
        match Eval(r)
        case Err(x) => Err(x)
        case Ok(b) => Apply(Symbol(op), a, b)
  }

  /** The postfix token sequence of a tree. */
  function PostfixOf(e: Expr): seq<Token> {
    match e
    case Num(w, f) => [Spelling(w, f)]
    case Bin(op, l, r) => PostfixOf(l) + PostfixOf(r) + [[Symbol(op)]]
  }

  /** The infix text of a tree with every binary operation in parentheses and
      no white space. */
  function Parenthesised(e: Expr): string {
    match e
    case Num(w, f) => Spelling(w, f)
    case Bin(op, l, r) => "(" + Parenthesised(l) + [Symbol(op)] + Parenthesised(r) + ")"
  }

  /** The spelling of a binary operation, regrouped from the front. */
  lemma {:induction false} BinShape(L: string, c: char, R: string)
    ensures "(" + L + [c] + R + ")" == "(" + (L + ([c] + (R + ")")))
  {
  }

  /** How x op1 y op2 z is grouped: op2 takes y when it binds strictly more
      tightly than op1, otherwise op1 does. */
  function Grouped(x: Expr, op1: BinOp, y: Expr, op2: BinOp, z: Expr): Expr {
    if Precedence(Symbol(op2)) > Precedence(Symbol(op1)) then Bin(op1, x, Bin(op2, y, z))
    else Bin(op2, Bin(op1, x, y), z)
  }

  /** The postfix form of the grouping Grouped picks, as both translators
      leave it: output, then the pending operators from the top down. */
  lemma {:induction false} GroupedPostfix(x: Expr, op1: BinOp, y: Expr, op2: BinOp, z: Expr)
    ensures var c1, c2 := Symbol(op1), Symbol(op2);
            var px, py, pz := PostfixOf(x), PostfixOf(y), PostfixOf(z);
            PostfixOf(Grouped(x, op1, y, op2, z)) ==
              if Precedence(c2) > Precedence(c1) then px + py + pz + Emitted([c1, c2])
              else px + py + [[c1]] + pz + Emitted([c2])
  {
    var c1, c2 := Symbol(op1), Symbol(op2);
    var px, py, pz := PostfixOf(x), PostfixOf(y), PostfixOf(z);
    if Precedence(c2) > Precedence(c1) {
      assert Emitted([c1, c2]) == [[c2], [c1]];
      var inner := PostfixOf(Bin(op2, y, z));
      assert inner == py + pz + [[c2]];
      assert PostfixOf(Grouped(x, op1, y, op2, z)) == px + inner + [[c1]];
      assert px + inner + [[c1]] == px + py + pz + [[c2], [c1]];
    } else {
      assert Emitted([c2]) == [[c2]];
      var inner := PostfixOf(Bin(op1, x, y));
      assert inner == px + py + [[c1]];
      assert PostfixOf(Grouped(x, op1, y, op2, z)) == inner + pz + [[c2]];
    }
  }
}
