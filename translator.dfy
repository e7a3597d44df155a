// translator/include/translator.h: evaluate = removeSpaces, then the
// parenthesis check, then the finite-state infix-to-postfix translation,
// then the postfix evaluation. Each step is a method with a loop, proved
// equal to a function that specifies it; the lemmas below state what the
// functions guarantee.

module Translator {
  import opened Common
  import opened Literal
  import opened Operators
  import Postfix

  // ---------------------------------------------------------------------
  // removeSpaces

  /** The input without its white space, the other characters in order. */
  function Stripped(s: string): (r: string)
    ensures |r| <= |s|
    ensures forall i | 0 <= i < |r| :: !IsSpace(r[i])
    decreases |s|
  {
    if s == [] then []
    else Stripped(s[..|s| - 1]) + (if IsSpace(s[|s| - 1]) then [] else [s[|s| - 1]])
  }

  /** Stripping works piece by piece: it keeps the order of what it keeps. */
  lemma {:induction false} StrippedAppend(a: string, b: string)
    ensures Stripped(a + b) == Stripped(a) + Stripped(b)
    decreases |b|
  {
    if b == [] {
      assert a + b == a;
    } else {
      var b' := b[..|b| - 1];
      assert (a + b)[..|a + b| - 1] == a + b';
      StrippedAppend(a, b');
    }
  }

  /** A text without white space is left as it is. */
  lemma {:induction false} StrippedIdentity(s: string)
    requires forall i | 0 <= i < |s| :: !IsSpace(s[i])
    ensures Stripped(s) == s
    decreases |s|
  {
    if s != [] {
      StrippedIdentity(s[..|s| - 1]);
    }
  }

  /** Stripping twice is stripping once. */
  lemma {:induction false} StrippedIdempotent(s: string)
    ensures Stripped(Stripped(s)) == Stripped(s)
  {
    StrippedIdentity(Stripped(s));
  }

  method RemoveSpaces(str: string) returns (result: string)
    ensures result == Stripped(str)
  {
    result := [];
    for i := 0 to |str|
      invariant result == Stripped(str[..i])
    {
      assert str[..i + 1][..i] == str[..i];
      if !IsSpace(str[i]) {
        result := result + [str[i]];
      }
    }
    assert str[..|str|] == str;
  }

  // ---------------------------------------------------------------------
  // areParenthesesBalanced

  function Count(s: string, c: char): nat
    decreases |s|
  {
    if s == [] then 0 else Count(s[..|s| - 1], c) + (if s[|s| - 1] == c then 1 else 0)
  }

  lemma {:induction false} CountNext(s: string, k: nat, c: char)
    requires k < |s|
    ensures Count(s[..k + 1], c) == Count(s[..k], c) + (if s[k] == c then 1 else 0)
  {
    assert s[..k + 1][..k] == s[..k];
  }

  /** No prefix closes more parentheses than it opens, and the whole text
      closes as many as it opens. */
  predicate Balanced(s: string) {
    && (forall k | 0 <= k <= |s| :: Count(s[..k], ')') <= Count(s[..k], '('))
    && Count(s, '(') == Count(s, ')')
  }

  method AreParenthesesBalanced(expression: string) returns (ok: bool)
    ensures ok <==> Balanced(expression)
  {
    var stack: seq<char> := [];
    for i := 0 to |expression|
      invariant |stack| == Count(expression[..i], '(') - Count(expression[..i], ')')
      invariant forall k | 0 <= k <= i :: Count(expression[..k], ')') <= Count(expression[..k], '(')
    {
      CountNext(expression, i, '(');
      CountNext(expression, i, ')');
      var c := expression[i];
      if c == '(' {
        stack := stack + [c];
      } else if c == ')' {
        if stack == [] {
          return false;
        }
        stack := stack[..|stack| - 1];
      }
    }
    assert expression[..|expression|] == expression;
    ok := stack == [];
  }

  /** The same check read from the front with a depth counter. */
  predicate NestsFrom(s: string, depth: nat)
    decreases |s|
  {
    if s == [] then depth == 0
    else if s[0] == '(' then NestsFrom(s[1..], depth + 1)
    else if s[0] == ')' then depth > 0 && NestsFrom(s[1..], depth - 1)
    else NestsFrom(s[1..], depth)
  }

  lemma {:induction false} NestsSuffix(s: string, k: nat)
    requires k <= |s|
    requires forall j | 0 <= j <= k :: Count(s[..j], ')') <= Count(s[..j], '(')
    ensures NestsFrom(s[k..], Count(s[..k], '(') - Count(s[..k], ')')) <==> Balanced(s)
    decreases |s| - k
  {
    assert s[..|s|] == s;
    if k < |s| {
      CountNext(s, k, '(');
      CountNext(s, k, ')');
      assert s[k..][1..] == s[k + 1..];
      if s[k] == ')' && Count(s[..k], '(') == Count(s[..k], ')') {
        assert Count(s[..k + 1], ')') > Count(s[..k + 1], '(');
      } else {
        NestsSuffix(s, k + 1);
      }
    }
  }

  /** The counting definition agrees with the depth counter. */
  lemma {:induction false} BalancedNests(s: string)
    ensures Balanced(s) <==> NestsFrom(s, 0)
  {
    assert s[..0] == [];
    NestsSuffix(s, 0);
  }

  // ---------------------------------------------------------------------
  // infixToPostfix: the state machine

  datatype State = Start | Number | Operator | LParen | RParen

  /** The translator's working storage: the state, lastWasOperatorOrLParen,
      the operator stack and the output written so far. */
  datatype Machine = Machine(state: State, unary: bool, ops: seq<char>, out: seq<Token>)

  const Initial := Machine(Start, true, [], [])

  /** A literal begins with a digit, or with a '.' that a digit follows; the
      character after the last one is the terminator, never a digit. */
  predicate StartsLiteral(c: char, nextIsDigit: bool) {
    IsDigit(c) || (c == '.' && nextIsDigit)
  }

  /** Appends a character to the literal being read: the last output token. */
  function Extend(out: seq<Token>, c: char): (r: seq<Token>)
    ensures |r| == if out == [] then 1 else |out|
  {
    if out == [] then [[c]] else out[..|out| - 1] + [out[|out| - 1] + [c]]
  }

  /** What the token written for a '-' met where an operand is expected
      becomes: a literal 0 first, so that "-x" reads as "0 - x". */
  function UnaryZero(c: char, unary: bool): (r: seq<Token>)
    ensures r != [] <==> c == '-' && unary
    ensures r != [] ==> r == ["0"] && LiteralValue(r[0]) == Some(0.0)
  {
    if c == '-' && unary then ["0"] else []
  }

  /** The characters each state accepts: a literal start, an operator, or a
      parenthesis, as the state's branches list them. */
  predicate Accepts(st: State, c: char, nextIsDigit: bool): (b: bool)
    ensures b ==> IsDigit(c) || c == '.' || IsOperator(c) || c == '(' || c == ')'
    ensures b && st == Operator ==> !IsOperator(c)
    ensures b && (st == Number || st == RParen) ==> c != '('
  {
    match st
    case Start => StartsLiteral(c, nextIsDigit) || IsOperator(c) || c == '('
    case Number => IsDigit(c) || c == '.' || IsOperator(c) || c == ')'
    case Operator => StartsLiteral(c, nextIsDigit) || c == '('
    case LParen => StartsLiteral(c, nextIsDigit) || IsOperator(c) || c == '('
    case RParen => IsOperator(c) || c == ')'
  }

  /** The state an accepted character leads to; it depends on the character
      alone. */
  function After(c: char): (s: State)
    ensures s == Number <==> IsDigit(c) || c == '.'
    ensures s == Operator <==> IsOperator(c)
    ensures s == LParen <==> c == '('
  {
    if IsDigit(c) || c == '.' then Number
    else if IsOperator(c) then Operator
    else if c == '(' then LParen
    else RParen
  }

  /** One character read in one state. It is accepted exactly when the table
      says so, then leads to the state of its kind; anything else is an
      invalid character. */
  function Step(m: Machine, c: char, nextIsDigit: bool): (r: Result<Machine, Error>)
    ensures r.Ok? <==> Accepts(m.state, c, nextIsDigit)
    ensures r.Ok? ==> r.value.state == After(c)
    ensures r.Err? ==> r.error == InvalidCharacter
  {
    match m.state
    case Start =>
      if StartsLiteral(c, nextIsDigit) then Ok(Machine(Number, false, m.ops, m.out + [[c]]))
      else if IsOperator(c) then Ok(Machine(Operator, true, m.ops + [c], m.out + UnaryZero(c, m.unary)))
      else if c == '(' then Ok(Machine(LParen, true, m.ops + [c], m.out))
      else Err(InvalidCharacter)
    case Number =>
      if IsDigit(c) || c == '.' then Ok(m.(out := Extend(m.out, c)))
      else if IsOperator(c) then
        var (ops, out) := AfterPopAtLeast(m.ops, m.out, Precedence(c));
        Ok(Machine(Operator, true, ops + [c], out))
      else if c == ')' then
        var (ops, out) := AfterPopToParen(m.ops, m.out);
        Ok(Machine(RParen, false, ops, out))
      else Err(InvalidCharacter)
    case Operator =>
      if StartsLiteral(c, nextIsDigit) then Ok(Machine(Number, false, m.ops, m.out + [[c]]))
      else if c == '(' then Ok(Machine(LParen, true, m.ops + [c], m.out))
      else Err(InvalidCharacter)
    case LParen =>
      if StartsLiteral(c, nextIsDigit) then Ok(Machine(Number, false, m.ops, m.out + [[c]]))
      else if IsOperator(c) then Ok(Machine(Operator, true, m.ops + [c], m.out + UnaryZero(c, m.unary)))
      else if c == '(' then Ok(Machine(LParen, true, m.ops + [c], m.out))
      else Err(InvalidCharacter)
    case RParen =>
      if IsOperator(c) then
        var (ops, out) := AfterPopAtLeast(m.ops, m.out, Precedence(c));
        Ok(Machine(Operator, true, ops + [c], out))
      else if c == ')' then
        var (ops, out) := AfterPopToParen(m.ops, m.out);
        Ok(Machine(RParen, false, ops, out))
      else Err(InvalidCharacter)
  }

  /** The machine after reading all of s; `follow` says whether a digit comes
      after s (false at the end of the input). */
  function Scan(s: string, m: Machine, follow: bool): Result<Machine, Error>
    decreases |s|
  {
    if s == [] then Ok(m)
    else
      match Step(m, s[0], if |s| > 1 then IsDigit(s[1]) else follow)
      case Err(x) => Err(x)
      case Ok(m') => Scan(s[1..], m', follow)
  }

  /** The postfix tokens of infixToPostfix: the output, then whatever is left
      on the operator stack, top first. */
  function Translation(infix: string): Result<seq<Token>, Error> {
    match Scan(infix, Initial, false)
    case Err(x) => Err(x)
    case Ok(m) => Ok(m.out + Emitted(m.ops))
  }

  method InfixToPostfix(infix: string) returns (r: Result<seq<Token>, Error>)
    ensures r == Translation(infix)
  {
    var operators: seq<char> := [];
    var postfix: seq<Token> := [];
    var state := Start;
    var lastWasOperatorOrLParen := true;
    for i := 0 to |infix|
      invariant Scan(infix, Initial, false) ==
                Scan(infix[i..], Machine(state, lastWasOperatorOrLParen, operators, postfix), false)
    {
      var token := infix[i];
      var nextIsDigit := i + 1 < |infix| && IsDigit(infix[i + 1]);
      assert infix[i..][1..] == infix[i + 1..];
      assert (if |infix[i..]| > 1 then IsDigit(infix[i..][1]) else false) == nextIsDigit;
      ghost var before := Machine(state, lastWasOperatorOrLParen, operators, postfix);
      assert postfix + [] == postfix;
      match state {
      case Start =>
        if IsDigit(token) || (token == '.' && nextIsDigit) {
          postfix := postfix + [[token]];
          state, lastWasOperatorOrLParen := Number, false;
        } else if IsOperator(token) {
          if token == '-' && lastWasOperatorOrLParen {
            postfix := postfix + ["0"];
          }
          operators := operators + [token];
          state, lastWasOperatorOrLParen := Operator, true;
        } else if token == '(' {
          operators := operators + [token];
          state, lastWasOperatorOrLParen := LParen, true;
        } else {
          return Err(InvalidCharacter);
        }
      case Number =>
        if IsDigit(token) || token == '.' {
          postfix := Extend(postfix, token);
        } else if IsOperator(token) {
          operators, postfix := PopAtLeast(operators, postfix, Precedence(token));
          operators := operators + [token];
          state, lastWasOperatorOrLParen := Operator, true;
        } else if token == ')' {
          operators, postfix := PopToParen(operators, postfix);
          state, lastWasOperatorOrLParen := RParen, false;
        } else {
          return Err(InvalidCharacter);
        }
      case Operator =>
        if IsDigit(token) || (token == '.' && nextIsDigit) {
          postfix := postfix + [[token]];
          state, lastWasOperatorOrLParen := Number, false;
        } else if token == '(' {
          operators := operators + [token];
          state, lastWasOperatorOrLParen := LParen, true;
        } else {
          return Err(InvalidCharacter);
        }
      case LParen =>
        if IsDigit(token) || (token == '.' && nextIsDigit) {
          postfix := postfix + [[token]];
          state, lastWasOperatorOrLParen := Number, false;
        } else if IsOperator(token) {
          if token == '-' && lastWasOperatorOrLParen {
            postfix := postfix + ["0"];
          }
          operators := operators + [token];
          state, lastWasOperatorOrLParen := Operator, true;
        } else if token == '(' {
          operators := operators + [token];
          lastWasOperatorOrLParen := true;
        } else {
          return Err(InvalidCharacter);
        }
      case RParen =>
        if IsOperator(token) {
          operators, postfix := PopAtLeast(operators, postfix, Precedence(token));
          operators := operators + [token];
          state, lastWasOperatorOrLParen := Operator, true;
        } else if token == ')' {
          operators, postfix := PopToParen(operators, postfix);
          lastWasOperatorOrLParen := false;
        } else {
          return Err(InvalidCharacter);
        }
      }
      assert Step(before, token, nextIsDigit) == Ok(Machine(state, lastWasOperatorOrLParen, operators, postfix));
      assert Scan(infix[i..], before, false) ==
             Scan(infix[i + 1..], Machine(state, lastWasOperatorOrLParen, operators, postfix), false);
    }
    postfix := Drain(operators, postfix);
    r := Ok(postfix);
  }

  // ---------------------------------------------------------------------
  // evaluate

  /** What evaluate returns or throws for an input line. */
  function ValueOf(expression: string): Result<real, Error> {
    var clean := Stripped(expression);
    if !Balanced(clean) then Err(UnmatchedParentheses)
    else
      match Translation(clean)
      case Err(x) => Err(x)
      case Ok(tokens) => Postfix.Value(tokens, false)
  }

  method Evaluate(expression: string) returns (r: Result<real, Error>)
    ensures r == ValueOf(expression)
  {
    var cleanExpression := RemoveSpaces(expression);
    var balanced := AreParenthesesBalanced(cleanExpression);
    if !balanced {
      return Err(UnmatchedParentheses);
    }
    var postfix := InfixToPostfix(cleanExpression);
    match postfix
    case Err(x) =>
      r := Err(x);
    case Ok(tokens) =>
      r := Postfix.EvaluatePostfix(tokens, false);
  }
}
