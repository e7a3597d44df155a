// The postfix evaluator of both translators (translator/include/translator.h
// evaluatePostfix, translator/include/Queue.h evaluatePostfix). The two
// differ in one place only: Queue.h also reads a token that starts with '.'
// as a number; `leadingDot` selects that rule.

module Postfix {
  import opened Common
  import opened Literal
  import opened Expressions

  /** The tokens handed to std::stod. */
  predicate IsNumberToken(t: Token, leadingDot: bool) {
    IsDigit(t[0]) || (t[0] == '-' && |t| > 1) || (leadingDot && t[0] == '.' && |t| > 1)
  }

  /** The tokens that pop two values; a token that is neither a number nor an
      operator is skipped without a word. */
  predicate IsOperatorToken(t: Token, leadingDot: bool) {
    !IsNumberToken(t, leadingDot) && IsOperator(t[0])
  }

  /** One turn of the evaluation loop: a number is pushed, an operator pops its
      right operand b and then its left operand a and pushes a op b, anything
      else leaves the stack alone. Values below the operands are untouched. */
  function Step(values: seq<real>, t: Token, leadingDot: bool): (r: Result<seq<real>, Error>)
    ensures IsNumberToken(t, leadingDot) ==>
              (r.Ok? <==> LiteralValue(t).Some?) && (r.Err? ==> r.error == BadLiteral) &&
              (r.Ok? ==> r.value == values + [LiteralValue(t).value])
    ensures IsOperatorToken(t, leadingDot) && r.Ok? ==>
              |values| >= 2 && |r.value| == |values| - 1 && r.value[..|values| - 2] == values[..|values| - 2]
    ensures IsOperatorToken(t, leadingDot) && |values| < 2 ==> r == Err(InsufficientOperands)
    ensures !IsNumberToken(t, leadingDot) && !IsOperator(t[0]) ==> r == Ok(values)
  {
    if IsNumberToken(t, leadingDot) then
      match LiteralValue(t)
      case None => Err(BadLiteral)
      case Some(v) => Ok(values + [v])
    else if IsOperator(t[0]) then
      if |values| < 2 then Err(InsufficientOperands)
      else
        var n := |values|;
        match Apply(t[0], values[n - 2], values[n - 1])
        case Err(x) => Err(x)
        case Ok(v) => Ok(values[..n - 2] + [v])
    else Ok(values)
  }

  /** The stack after all tokens, or the first error. */
  function Run(tokens: seq<Token>, values: seq<real>, leadingDot: bool): Result<seq<real>, Error>
    decreases |tokens|
  {
    if tokens == [] then Ok(values)
    else
      match Step(values, tokens[0], leadingDot)
      case Err(x) => Err(x)
      case Ok(vs) => Run(tokens[1..], vs, leadingDot)
  }

  /** The result of the evaluation: the one value left on the stack. */
  function Value(tokens: seq<Token>, leadingDot: bool): Result<real, Error> {
    match Run(tokens, [], leadingDot)
    case Err(x) => Err(x)
    case Ok(vs) => if |vs| != 1 then Err(MalformedExpression) else Ok(vs[0])
  }

  /** evaluatePostfix, over the tokens that whitespace splitting yields. */
  method EvaluatePostfix(tokens: seq<Token>, leadingDot: bool) returns (r: Result<real, Error>)
    ensures r == Value(tokens, leadingDot)
  {
    var values: seq<real> := [];
    var i := 0;
    while i < |tokens|
      invariant 0 <= i <= |tokens|
      invariant Run(tokens, [], leadingDot) == Run(tokens[i..], values, leadingDot)
    {
      var token := tokens[i];
      assert tokens[i..][1..] == tokens[i + 1..];
      ghost var before := values;
      if IsDigit(token[0]) || (token[0] == '-' && |token| > 1) || (leadingDot && token[0] == '.' && |token| > 1) {
        var v := LiteralValue(token);
        if v.None? {
          return Err(BadLiteral);
        }
        values := values + [v.value];
      } else if IsOperator(token[0]) {
        if |values| < 2 {
          return Err(InsufficientOperands);
        }
        var b := values[|values| - 1];
        values := values[..|values| - 1];
        var a := values[|values| - 1];
        values := values[..|values| - 1];
        assert values == before[..|before| - 2] && a == before[|before| - 2];
        if token[0] == '+' {
          assert Apply(token[0], a, b) == Ok(a + b);
          values := values + [a + b];
        } else if token[0] == '-' {
          assert Apply(token[0], a, b) == Ok(a - b);
          values := values + [a - b];
        } else if token[0] == '*' {
          ghost var product := Apply(token[0], a, b);
          assert product.Ok? && product.value == a * b;
          values := values + [a * b];
        } else {
          if b == 0.0 {
            return Err(DivisionByZero);
          }
          assert Apply(token[0], a, b) == Ok(a / b);
          values := values + [a / b];
        }
      }
      assert Step(before, token, leadingDot) == Ok(values);
      i := i + 1;
    }
    if |values| != 1 {
      return Err(MalformedExpression);
    }
    r := Ok(values[|values| - 1]);
  }

  lemma {:induction false} RunAppend(a: seq<Token>, b: seq<Token>, values: seq<real>, leadingDot: bool)
    ensures Run(a + b, values, leadingDot) ==
              if Run(a, values, leadingDot).Err? then Run(a, values, leadingDot)
              else Run(b, Run(a, values, leadingDot).value, leadingDot)
    decreases |a|
  {
    if a == [] {
      assert a + b == b;
    } else {
      assert (a + b)[1..] == a[1..] + b;
      match Step(values, a[0], leadingDot)
      case Err(_) =>
      case Ok(vs) => RunAppend(a[1..], b, vs, leadingDot);
    }
  }

  /** Evaluating the postfix form of a tree pushes the tree's value, or stops
      with the error the tree's evaluation meets first. */
  lemma {:induction false} RunPostfixOf(e: Expr, rest: seq<Token>, values: seq<real>, leadingDot: bool)
    ensures Run(PostfixOf(e) + rest, values, leadingDot) ==
              if Eval(e).Err? then Err(Eval(e).error)
              else Run(rest, values + [Eval(e).value], leadingDot)
    decreases e
  {
    match e
    case Num(w, f) =>
      SpellingRoundTrip(w, f);
      assert ([Spelling(w, f)] + rest)[1..] == rest;
    case Bin(op, l, r) =>
      var opTail := [[Symbol(op)]] + rest;
      var tail := PostfixOf(r) + opTail;
      assert PostfixOf(e) + rest == PostfixOf(l) + tail;
      RunPostfixOf(l, tail, values, leadingDot);
      if Eval(l).Ok? {
        var a := Eval(l).value;
        RunPostfixOf(r, opTail, values + [a], leadingDot);
        if Eval(r).Ok? {
          ApplyStep(values, a, Eval(r).value, op, rest, leadingDot);
        }
      }
  }

  lemma {:induction false} ApplyStep(values: seq<real>, a: real, b: real, op: BinOp, rest: seq<Token>, leadingDot: bool)
    ensures Run([[Symbol(op)]] + rest, values + [a] + [b], leadingDot) ==
              if Apply(Symbol(op), a, b).Err? then Err(Apply(Symbol(op), a, b).error)
              else Run(rest, values + [Apply(Symbol(op), a, b).value], leadingDot)
  {
    var vs := values + [a] + [b];
    assert vs[..|vs| - 2] == values;
    assert ([[Symbol(op)]] + rest)[1..] == rest;
  }

  /** The evaluator computes the value of every tree from its postfix form,
      under either rule for leading dots. */
  lemma {:induction false} PostfixRoundTrip(e: Expr, leadingDot: bool)
    ensures Value(PostfixOf(e), leadingDot) == Eval(e)
  {
    RunPostfixOf(e, [], [], leadingDot);
    assert PostfixOf(e) + [] == PostfixOf(e);
  }

  /** Two complete operands with no operator between them leave two values:
      "Invalid expression" at the end. */
  lemma {:induction false} LeftoverOperand(e1: Expr, e2: Expr, leadingDot: bool)
    requires Eval(e1).Ok? && Eval(e2).Ok?
    ensures Value(PostfixOf(e1) + PostfixOf(e2), leadingDot) == Err(MalformedExpression)
  {
    var v1 := Eval(e1).value;
    RunPostfixOf(e1, PostfixOf(e2), [], leadingDot);
    assert [] + [v1] == [v1];
    assert PostfixOf(e2) + [] == PostfixOf(e2);
    RunPostfixOf(e2, [], [v1], leadingDot);
  }

  /** Net effect of a token on the stack height. */
  function Arity(t: Token, leadingDot: bool): int {
    if IsNumberToken(t, leadingDot) then 1 else if IsOperator(t[0]) then -1 else 0
  }

  function TotalArity(tokens: seq<Token>, leadingDot: bool): int
    decreases |tokens|
  {
    if tokens == [] then 0 else Arity(tokens[0], leadingDot) + TotalArity(tokens[1..], leadingDot)
  }

  /** A run that succeeds changes the stack height by the number of numbers
      minus the number of operators. */
  lemma {:induction false} RunHeight(tokens: seq<Token>, values: seq<real>, leadingDot: bool)
    requires Run(tokens, values, leadingDot).Ok?
    ensures |Run(tokens, values, leadingDot).value| == |values| + TotalArity(tokens, leadingDot)
    decreases |tokens|
  {
    if tokens != [] {
      var vs := Step(values, tokens[0], leadingDot).value;
      RunHeight(tokens[1..], vs, leadingDot);
    }
  }

  /** So a successful evaluation has exactly one more number than operators. */
  lemma {:induction false} ValueArity(tokens: seq<Token>, leadingDot: bool)
    requires Value(tokens, leadingDot).Ok?
    ensures TotalArity(tokens, leadingDot) == 1
  {
    RunHeight(tokens, [], leadingDot);
  }

  /** The two rules agree on every token sequence in which no token starts
      with '.'. */
  lemma {:induction false} LeadingDotRulesAgree(tokens: seq<Token>, values: seq<real>)
    requires forall i | 0 <= i < |tokens| :: tokens[i][0] != '.'
    ensures Run(tokens, values, false) == Run(tokens, values, true)
    decreases |tokens|
  {
    if tokens != [] {
      assert Step(values, tokens[0], false) == Step(values, tokens[0], true);
      match Step(values, tokens[0], false)
      case Err(_) =>
      case Ok(vs) => LeadingDotRulesAgree(tokens[1..], vs);
    }
  }
}
