// translator/include/Queue.h: the older Translator. It skips white space
// as it reads, collects literals in a buffer, reads a '-' at the start or
// right after an operator or '(' as the sign of a literal, has no
// parenthesis check, and evaluates with the leading-dot rule switched on.

module Buffered {
  import opened Common
  import opened Literal
  import opened Operators
  import opened Expressions
  import Postfix

  /** The working storage of infixToPostfix: the operator stack, the output
      written so far and numberBuffer. */
  datatype Config = Config(ops: seq<char>, out: seq<Token>, buffer: string)

  const Initial := Config([], [], [])

  /** The characters infixToPostfix knows what to do with. */
  predicate Known(c: char) {
    IsSpace(c) || IsDigit(c) || c == '.' || IsOperator(c) || c == '(' || c == ')'
  }

  /** The output after writing out a non-empty number buffer. */
  function Flush(out: seq<Token>, buffer: string): (r: seq<Token>)
    ensures |r| == if buffer == [] then |out| else |out| + 1
    ensures r[..|out|] == out
    ensures buffer != [] ==> r[|out|] == buffer
  {
    if buffer == [] then out else out + [buffer]
  }

  /** Where a '-' is the sign of a literal: at index 0, or when the raw
      previous character (white space counts) is an operator or '('. */
  predicate UnaryContext(prev: Option<char>): (b: bool)
    ensures prev.Some? && (IsDigit(prev.value) || prev.value == '.' || prev.value == ')' || IsSpace(prev.value)) ==> !b
  {
    prev.None? || IsOperator(prev.value) || prev.value == '('
  }

  /** One character, `prev` being the raw character before it. Only an
      unknown character is an error. White space changes nothing; digits
      and dots touch only the buffer; every other character first writes
      the buffer out and never takes back what was written. A sign goes to
      the buffer; any other operator ends on top of the stack; `(` is
      pushed; `)` only shrinks the stack. */
  function Step(g: Config, c: char, prev: Option<char>): (r: Result<Config, Error>)
    ensures r.Err? <==> !Known(c)
    ensures r.Err? ==> r.error == InvalidCharacter
    ensures IsSpace(c) ==> r == Ok(g)
    ensures IsDigit(c) || c == '.' ==> r == Ok(g.(buffer := g.buffer + [c]))
    ensures r.Ok? && !IsSpace(c) && !IsDigit(c) && c != '.' ==>
              |Flush(g.out, g.buffer)| <= |r.value.out| &&
              r.value.out[..|Flush(g.out, g.buffer)|] == Flush(g.out, g.buffer)
    ensures c == '-' && UnaryContext(prev) ==> r == Ok(Config(g.ops, Flush(g.out, g.buffer), "-"))
    ensures IsOperator(c) && !(c == '-' && UnaryContext(prev)) ==>
              r.Ok? && r.value.buffer == [] && |r.value.ops| > 0 && r.value.ops[|r.value.ops| - 1] == c
    ensures c == '(' ==> r == Ok(Config(g.ops + ['('], Flush(g.out, g.buffer), []))
    ensures c == ')' ==> r.Ok? && r.value.buffer == [] && |r.value.ops| <= |g.ops|
  {
    if IsSpace(c) then Ok(g)
    else if IsDigit(c) || c == '.' then Ok(g.(buffer := g.buffer + [c]))
    else
      var out := Flush(g.out, g.buffer);
      if IsOperator(c) then
        if c == '-' && UnaryContext(prev) then Ok(Config(g.ops, out, "-"))
        else
          var (ops, out') := AfterPopAtLeast(g.ops, out, Precedence(c));
          Ok(Config(ops + [c], out', []))
      else if c == '(' then Ok(Config(g.ops + [c], out, []))
      else if c == ')' then
        var (ops, out') := AfterPopToParen(g.ops, out);
        Ok(Config(ops, out', []))
      else Err(InvalidCharacter)
  }

  /** The storage after reading all of s. */
  function Scan(s: string, g: Config, prev: Option<char>): Result<Config, Error>
    decreases |s|
  {
    if s == [] then Ok(g)
    else
      match Step(g, s[0], prev)
      case Err(x) => Err(x)
      case Ok(g') => Scan(s[1..], g', Some(s[0]))
  }

  /** The postfix tokens of infixToPostfix: the output, the buffer if it is
      not empty, then the operator stack, top first. */
  function Translation(infix: string): Result<seq<Token>, Error> {
    match Scan(infix, Initial, None)
    case Err(x) => Err(x)
    case Ok(g) => Ok(Flush(g.out, g.buffer) + Emitted(g.ops))
  }

  method InfixToPostfix(infix: string) returns (r: Result<seq<Token>, Error>)
    ensures r == Translation(infix)
  {
    var operators: seq<char> := [];
    var postfix: seq<Token> := [];
    var numberBuffer: string := [];
    for i := 0 to |infix|
      invariant Scan(infix, Initial, None) ==
                Scan(infix[i..], Config(operators, postfix, numberBuffer), if i == 0 then None else Some(infix[i - 1]))
    {
      var c := infix[i];
      assert infix[i..][1..] == infix[i + 1..];
      ghost var before := Config(operators, postfix, numberBuffer);
      ghost var prev := if i == 0 then None else Some(infix[i - 1]);
      if IsSpace(c) {
        continue;
      }
      if IsDigit(c) || c == '.' {
        numberBuffer := numberBuffer + [c];
      } else {
        if numberBuffer != [] {
          postfix := postfix + [numberBuffer];
          numberBuffer := [];
        }
        if IsOperator(c) {
          if c == '-' && (i == 0 || IsOperator(infix[i - 1]) || infix[i - 1] == '(') {
            assert numberBuffer + ['-'] == "-";
            numberBuffer := numberBuffer + ['-'];
          } else {
            operators, postfix := PopAtLeast(operators, postfix, Precedence(c));
            operators := operators + [c];
          }
        } else if c == '(' {
          operators := operators + [c];
        } else if c == ')' {
          operators, postfix := PopToParen(operators, postfix);
        } else {
          return Err(InvalidCharacter);
        }
      }
      assert Step(before, c, prev) == Ok(Config(operators, postfix, numberBuffer));
    }
    if numberBuffer != [] {
      postfix := postfix + [numberBuffer];
    }
    postfix := Drain(operators, postfix);
    r := Ok(postfix);
  }

  /** What evaluate returns or throws for an input line. */
  function ValueOf(expression: string): Result<real, Error> {
    match Translation(expression)
    case Err(x) => Err(x)
    case Ok(tokens) => Postfix.Value(tokens, true)
  }

  method Evaluate(expression: string) returns (r: Result<real, Error>)
    ensures r == ValueOf(expression)
  {
    var postfix := InfixToPostfix(expression);
    match postfix
    case Err(x) =>
      r := Err(x);
    case Ok(tokens) =>
      r := Postfix.EvaluatePostfix(tokens, true);
  }

  // ---------------------------------------------------------------------
  // Properties

  /** The raw character before b, after reading a starting after prev. */
  function PrevAfter(a: string, prev: Option<char>): Option<char> {
    if a == [] then prev else Some(a[|a| - 1])
  }

  /** Reading a + b is reading a and then, from where that stopped, b. */
  lemma {:induction false} ScanAppend(a: string, b: string, g: Config, prev: Option<char>)
    ensures Scan(a + b, g, prev) ==
              if Scan(a, g, prev).Err? then Scan(a, g, prev)
              else Scan(b, Scan(a, g, prev).value, PrevAfter(a, prev))
    decreases |a|
  {
    if a == [] {
      assert a + b == b;
    } else {
      assert (a + b)[1..] == a[1..] + b;
      match Step(g, a[0], prev)
      case Err(_) =>
      case Ok(g') =>
        ScanAppend(a[1..], b, g', Some(a[0]));
        if |a| > 1 {
          assert a[1..][|a[1..]| - 1] == a[|a| - 1];
        }
    }
  }

  lemma {:induction false} ScanRejects(s: string, g: Config, prev: Option<char>)
    ensures Scan(s, g, prev).Err? <==> exists i | 0 <= i < |s| :: !Known(s[i])
    ensures Scan(s, g, prev).Err? ==> Scan(s, g, prev).error == InvalidCharacter
    decreases |s|
  {
    if s != [] {
      match Step(g, s[0], prev)
      case Err(_) =>
      case Ok(g') =>
        ScanRejects(s[1..], g', Some(s[0]));
        if exists i | 0 <= i < |s| :: !Known(s[i]) {
          var i :| 0 <= i < |s| && !Known(s[i]);
          assert s[1..][i - 1] == s[i];
        }
        if exists i | 0 <= i < |s[1..]| :: !Known(s[1..][i]) {
          var i :| 0 <= i < |s[1..]| && !Known(s[1..][i]);
          assert s[i + 1] == s[1..][i];
        }
    }
  }

  /** infixToPostfix throws exactly when some character is not white space,
      a digit, '.', an operator or a parenthesis, and then always "Invalid
      character in expression". */
  lemma {:induction false} TranslationRejects(infix: string)
    ensures Translation(infix).Err? <==> exists i | 0 <= i < |infix| :: !Known(infix[i])
    ensures Translation(infix).Err? ==> Translation(infix).error == InvalidCharacter
  {
    ScanRejects(infix, Initial, None);
  }

  /** Digits and dots, however many, go into the buffer and nowhere else. */
  lemma {:induction false} LiteralAccumulates(ds: string, g: Config, prev: Option<char>)
    requires forall i | 0 <= i < |ds| :: IsDigit(ds[i]) || ds[i] == '.'
    ensures Scan(ds, g, prev) == Ok(g.(buffer := g.buffer + ds))
    decreases |ds|
  {
    if ds == [] {
      assert g.buffer + ds == g.buffer;
    } else {
      LiteralAccumulates(ds[1..], g.(buffer := g.buffer + [ds[0]]), Some(ds[0]));
      assert g.buffer + [ds[0]] + ds[1..] == g.buffer + ds;
    }
  }

  /** A literal as the buffer collects it: an optional leading '-', then
      digits and dots. */
  predicate BufferText(t: string) {
    forall i | 0 <= i < |t| :: IsDigit(t[i]) || t[i] == '.' || (i == 0 && t[i] == '-')
  }

  /** An output token: one operator or '(', or a buffered literal. */
  predicate WellFormedToken(t: Token) {
    (|t| == 1 && (IsOperator(t[0]) || t[0] == '(')) || BufferText(t)
  }

  ghost predicate Wellformed(g: Config) {
    && StackSymbols(g.ops)
    && BufferText(g.buffer)
    && forall i | 0 <= i < |g.out| :: WellFormedToken(g.out[i])
  }

  lemma {:induction false} EmitSymbols(out: seq<Token>, popped: seq<char>)
    requires forall i | 0 <= i < |out| :: WellFormedToken(out[i])
    requires StackSymbols(popped)
    ensures var r := out + Emitted(popped); forall i | 0 <= i < |r| :: WellFormedToken(r[i])
  {
    var e := Emitted(popped);
    forall i | 0 <= i < |e| ensures WellFormedToken(e[i]) {
      assert e[i] == [popped[|popped| - 1 - i]];
    }
  }

  lemma {:induction false} StepWellformed(g: Config, c: char, prev: Option<char>)
    requires Wellformed(g) && Step(g, c, prev).Ok?
    ensures Wellformed(Step(g, c, prev).value)
  {
    if IsSpace(c) || IsDigit(c) || c == '.' {
    } else {
      var out := Flush(g.out, g.buffer);
      FlushWellformed(g);
      if IsOperator(c) && !(c == '-' && UnaryContext(prev)) {
        PopAtLeastWellformed(g.ops, out, c);
      } else if c == ')' {
        PopToParenWellformed(g.ops, out);
      }
    }
  }

  lemma {:induction false} FlushWellformed(g: Config)
    requires Wellformed(g)
    ensures var out := Flush(g.out, g.buffer); forall i | 0 <= i < |out| :: WellFormedToken(out[i])
  {
  }

  /** A binary operator writes only stack symbols and pushes an operator. */
  lemma {:induction false} PopAtLeastWellformed(ops: seq<char>, out: seq<Token>, c: char)
    requires StackSymbols(ops) && IsOperator(c)
    requires forall i | 0 <= i < |out| :: WellFormedToken(out[i])
    ensures var (ops', out') := AfterPopAtLeast(ops, out, Precedence(c));
            StackSymbols(ops' + [c]) && forall i | 0 <= i < |out'| :: WellFormedToken(out'[i])
  {
    var k := HeightAfterPops(ops, Precedence(c));
    assert StackSymbols(ops[k..]);
    EmitSymbols(out, ops[k..]);
  }

  /** ')' writes only stack symbols and leaves a part of the stack. */
  lemma {:induction false} PopToParenWellformed(ops: seq<char>, out: seq<Token>)
    requires StackSymbols(ops)
    requires forall i | 0 <= i < |out| :: WellFormedToken(out[i])
    ensures var (ops', out') := AfterPopToParen(ops, out);
            StackSymbols(ops') && forall i | 0 <= i < |out'| :: WellFormedToken(out'[i])
  {
    var j := NearestParen(ops);
    if j < 0 {
      EmitSymbols(out, ops);
    } else {
      assert StackSymbols(ops[j + 1..]);
      EmitSymbols(out, ops[j + 1..]);
    }
  }

  lemma {:induction false} ScanWellformed(s: string, g: Config, prev: Option<char>)
    requires Wellformed(g) && Scan(s, g, prev).Ok?
    ensures Wellformed(Scan(s, g, prev).value)
    decreases |s|
  {
    if s != [] {
      StepWellformed(g, s[0], prev);
      ScanWellformed(s[1..], Step(g, s[0], prev).value, Some(s[0]));
    }
  }

  /** White space never becomes part of a token: every token is one
      operator or '(', or a literal of an optional '-' and digits and dots. */
  lemma {:induction false} TranslationTokens(infix: string)
    requires Translation(infix).Ok?
    ensures forall i | 0 <= i < |Translation(infix).value| :: WellFormedToken(Translation(infix).value[i])
  {
    ScanWellformed(infix, Initial, None);
    var g := Scan(infix, Initial, None).value;
    EmitSymbols(Flush(g.out, g.buffer), g.ops);
  }

  // ---------------------------------------------------------------------
  // Fully parenthesised input

  lemma {:induction false} LastOfParenthesised(e: Expr)
    ensures var s := Parenthesised(e); |s| > 0 && (IsDigit(s[|s| - 1]) || s[|s| - 1] == ')')
  {
  }

  /** When reading a stops without error in ga, reading a + b goes on
      from ga. */
  lemma {:induction false} ScanThen(a: string, b: string, g: Config, prev: Option<char>, ga: Config)
    requires Scan(a, g, prev) == Ok(ga)
    ensures Scan(a + b, g, prev) == Scan(b, ga, PrevAfter(a, prev))
  {
    ScanAppend(a, b, g, prev);
  }

  lemma {:induction false} ScanOne(c: char, g: Config, prev: Option<char>)
    ensures Scan([c], g, prev) == Step(g, c, prev)
  {
    assert [c][1..] == [];
  }

  /** A binary operator read after an operand, with '(' on top of the
      stack, pops nothing. */
  lemma {:induction false} OperatorOverParen(g: Config, c: char, prev: Option<char>)
    requires IsOperator(c) && !UnaryContext(prev)
    requires g.ops != [] && g.ops[|g.ops| - 1] == '('
    ensures Scan([c], g, prev) == Ok(Config(g.ops + [c], Flush(g.out, g.buffer), []))
  {
    ScanOne(c, g, prev);
    var out := Flush(g.out, g.buffer);
    var k := HeightAfterPops(g.ops, Precedence(c));
    assert k == |g.ops|;
    assert g.ops[..k] == g.ops && g.ops[k..] == [];
    assert out + Emitted([]) == out;
  }

  /** A ')' read with an operator on a '(' on top of the stack emits the
      operator and discards the '('. */
  lemma {:induction false} CloseOverOperator(g: Config, ops: seq<char>, c: char, prev: Option<char>)
    requires IsOperator(c) && g.ops == ops + ['(', c]
    ensures Scan(")", g, prev) == Ok(Config(ops, Flush(g.out, g.buffer) + [[c]], []))
  {
    ScanOne(')', g, prev);
    PopToParenOverOperator(ops, c, Flush(g.out, g.buffer));
  }

  /** Reading "(" L c R ")" with an empty buffer, given what reading L and
      R does. */
  lemma {:induction false} ScanBin(g: Config, L: string, c: char, R: string, prev: Option<char>, gL: Config, gR: Config)
    requires g.buffer == [] && IsOperator(c)
    requires L != [] && (IsDigit(L[|L| - 1]) || L[|L| - 1] == ')')
    requires Scan(L, Config(g.ops + ['('], g.out, []), Some('(')) == Ok(gL) && gL.ops == g.ops + ['(']
    requires Scan(R, Config(g.ops + ['(', c], Flush(gL.out, gL.buffer), []), Some(c)) == Ok(gR)
    requires gR.ops == g.ops + ['(', c]
    ensures Scan("(" + L + [c] + R + ")", g, prev) == Ok(Config(g.ops, Flush(gR.out, gR.buffer) + [[c]], []))
  {
    var g3 := Config(g.ops + ['(', c], Flush(gL.out, gL.buffer), []);
    var s3 := R + ")";
    BinShape(L, c, R);
    ScanBinLeft(g, L, c, s3, prev, gL);
    ScanThen(R, ")", g3, Some(c), gR);
    CloseOverOperator(gR, g.ops, c, PrevAfter(R, Some(c)));
  }

  /** The first half of ScanBin: "(" L c, up to the right operand. */
  lemma {:induction false} ScanBinLeft(g: Config, L: string, c: char, s3: string, prev: Option<char>, gL: Config)
    requires g.buffer == [] && IsOperator(c)
    requires L != [] && (IsDigit(L[|L| - 1]) || L[|L| - 1] == ')')
    requires Scan(L, Config(g.ops + ['('], g.out, []), Some('(')) == Ok(gL) && gL.ops == g.ops + ['(']
    ensures Scan("(" + (L + ([c] + s3)), g, prev) == Scan(s3, Config(g.ops + ['(', c], Flush(gL.out, gL.buffer), []), Some(c))
  {
    var g1 := Config(g.ops + ['('], g.out, []);
    var s2 := [c] + s3;
    var s1 := L + s2;
    ScanOne('(', g, prev);
    assert Flush(g.out, g.buffer) == g.out;
    ScanThen("(", s1, g, prev, g1);
    ScanThen(L, s2, g1, Some('('), gL);
    OperatorOverParen(gL, c, Some(L[|L| - 1]));
    assert gL.ops + [c] == g.ops + ['(', c];
    ScanThen([c], s3, gL, Some(L[|L| - 1]), Config(g.ops + ['(', c], Flush(gL.out, gL.buffer), []));
  }

  lemma {:induction false} ScanSpelling(w: nat, f: Digits, g: Config, prev: Option<char>)
    requires g.buffer == []
    ensures Scan(Spelling(w, f), g, prev) == Ok(g.(buffer := Spelling(w, f)))
  {
    LiteralAccumulates(Spelling(w, f), g, prev);
    assert [] + Spelling(w, f) == Spelling(w, f);
  }

  /** Where a sign is expected (at the start, or when the raw character
      before is an operator or '('), '-' and a spelling become one negative
      literal in the buffer; a literal buffered before the '-' is written
      out, and the stack is untouched. */
  lemma {:induction false} SignedLiteral(g: Config, prev: Option<char>, w: nat, f: Digits)
    requires UnaryContext(prev)
    ensures Scan("-" + Spelling(w, f), g, prev) == Ok(Config(g.ops, Flush(g.out, g.buffer), "-" + Spelling(w, f)))
  {
    var g' := Config(g.ops, Flush(g.out, g.buffer), "-");
    ScanOne('-', g, prev);
    assert Step(g, '-', prev) == Ok(g');
    ScanThen("-", Spelling(w, f), g, prev, g');
    LiteralAccumulates(Spelling(w, f), g', Some('-'));
  }

  /** The '(' case of the sign rule: "(-" and a spelling push the '(' and
      buffer the negative literal. */
  lemma {:induction false} SignAfterOpen(g: Config, prev: Option<char>, w: nat, f: Digits)
    ensures Scan("(" + ("-" + Spelling(w, f)), g, prev) ==
              Ok(Config(g.ops + ['('], Flush(g.out, g.buffer), "-" + Spelling(w, f)))
  {
    var g' := Config(g.ops + ['('], Flush(g.out, g.buffer), []);
    ScanOne('(', g, prev);
    assert Step(g, '(', prev) == Ok(g');
    ScanThen("(", "-" + Spelling(w, f), g, prev, g');
    SignedLiteral(g', Some('('), w, f);
  }

  /** Where reading an operand leaves the storage: a number stays in the
      buffer, a compound tree's postfix form is written out. */
  function AfterOperand(e: Expr, g: Config): Config {
    if e.Num? then g.(buffer := Spelling(e.whole, e.fraction)) else g.(out := g.out + PostfixOf(e))
  }

  lemma {:induction false} FlushOperand(e: Expr, g: Config)
    requires g.buffer == []
    ensures AfterOperand(e, g).ops == g.ops
    ensures Flush(AfterOperand(e, g).out, AfterOperand(e, g).buffer) == g.out + PostfixOf(e)
  {
  }

  /** Reading a tree's parenthesised spelling with an empty buffer leaves the
      stack as it was and the tree's postfix form written or buffered. */
  lemma {:induction false} ScanParenthesised(e: Expr, g: Config, prev: Option<char>)
    requires g.buffer == []
    ensures Scan(Parenthesised(e), g, prev) == Ok(AfterOperand(e, g))
    decreases e
  {
    match e
    case Num(w, f) =>
      ScanSpelling(w, f, g, prev);
    case Bin(op, l, r) =>
      var c := Symbol(op);
      var g1 := Config(g.ops + ['('], g.out, []);
      var g3 := Config(g.ops + ['(', c], g.out + PostfixOf(l), []);
      ScanParenthesised(l, g1, Some('('));
      ScanParenthesised(r, g3, Some(c));
      ScanParenthesisedBin(op, l, r, g, prev);
  }

  /** The step of ScanParenthesised for a binary operation, given what
      reading each operand does. */
  lemma {:induction false} ScanParenthesisedBin(op: BinOp, l: Expr, r: Expr, g: Config, prev: Option<char>)
    requires g.buffer == []
    requires var g1 := Config(g.ops + ['('], g.out, []);
             Scan(Parenthesised(l), g1, Some('(')) == Ok(AfterOperand(l, g1))
    requires var g3 := Config(g.ops + ['(', Symbol(op)], g.out + PostfixOf(l), []);
             Scan(Parenthesised(r), g3, Some(Symbol(op))) == Ok(AfterOperand(r, g3))
    ensures Scan(Parenthesised(Bin(op, l, r)), g, prev) == Ok(AfterOperand(Bin(op, l, r), g))
  {
    var c := Symbol(op);
    var L, R := Parenthesised(l), Parenthesised(r);
    var gL, gR := BinOperands(op, l, r, g);
    ScanBin(g, L, c, R, prev, gL, gR);
    assert Parenthesised(Bin(op, l, r)) == "(" + L + [c] + R + ")";
    BinAfterOperand(op, l, r, g, Flush(gR.out, gR.buffer));
  }

  /** What reading the two operands leaves, in the terms ScanBin takes. */
  lemma {:induction false} BinOperands(op: BinOp, l: Expr, r: Expr, g: Config) returns (gL: Config, gR: Config)
    requires g.buffer == []
    requires var g1 := Config(g.ops + ['('], g.out, []);
             Scan(Parenthesised(l), g1, Some('(')) == Ok(AfterOperand(l, g1))
    requires var g3 := Config(g.ops + ['(', Symbol(op)], g.out + PostfixOf(l), []);
             Scan(Parenthesised(r), g3, Some(Symbol(op))) == Ok(AfterOperand(r, g3))
    ensures var L := Parenthesised(l);
            L != [] && (IsDigit(L[|L| - 1]) || L[|L| - 1] == ')')
    ensures Scan(Parenthesised(l), Config(g.ops + ['('], g.out, []), Some('(')) == Ok(gL) && gL.ops == g.ops + ['(']
    ensures Scan(Parenthesised(r), Config(g.ops + ['(', Symbol(op)], Flush(gL.out, gL.buffer), []), Some(Symbol(op))) == Ok(gR)
    ensures gR.ops == g.ops + ['(', Symbol(op)]
    ensures Flush(gR.out, gR.buffer) == g.out + PostfixOf(l) + PostfixOf(r)
  {
    var g1 := Config(g.ops + ['('], g.out, []);
    var g3 := Config(g.ops + ['(', Symbol(op)], g.out + PostfixOf(l), []);
    gL, gR := AfterOperand(l, g1), AfterOperand(r, g3);
    LastOfParenthesised(l);
    FlushOperand(l, g1);
    FlushOperand(r, g3);
  }

  lemma {:induction false} BinAfterOperand(op: BinOp, l: Expr, r: Expr, g: Config, out: seq<Token>)
    requires g.buffer == [] && out == g.out + PostfixOf(l) + PostfixOf(r)
    ensures AfterOperand(Bin(op, l, r), g) == Config(g.ops, out + [[Symbol(op)]], [])
  {
    var e := Bin(op, l, r);
    assert AfterOperand(e, g) == Config(g.ops, g.out + PostfixOf(e), []);
    AppendFour(g.out, PostfixOf(l), PostfixOf(r), [[Symbol(op)]]);
  }

  lemma {:induction false} AppendFour(a: seq<Token>, b: seq<Token>, c: seq<Token>, d: seq<Token>)
    ensures a + (b + c + d) == a + b + c + d
  {
  }

  // ---------------------------------------------------------------------
  // Two operators: the stack decides the grouping

  /** A binary operator on an empty stack writes out the buffer and is
      pushed. */
  lemma {:induction false} BinaryOnEmpty(g: Config, c: char, prev: Option<char>)
    requires IsOperator(c) && g.ops == [] && !UnaryContext(prev)
    ensures Step(g, c, prev) == Ok(Config([c], Flush(g.out, g.buffer), []))
  {
    PopNothing(Flush(g.out, g.buffer), Precedence(c));
    assert [] + [c] == [c];
  }

  /** A binary operator c2 with one operator c1 pending: c1 is written first
      exactly when it binds at least as tightly. */
  lemma {:induction false} BinaryOverOne(g: Config, c1: char, c2: char, prev: Option<char>)
    requires IsOperator(c1) && IsOperator(c2) && g.ops == [c1] && !UnaryContext(prev)
    ensures Scan([c2], g, prev) ==
              if Precedence(c1) >= Precedence(c2) then Ok(Config([c2], Flush(g.out, g.buffer) + [[c1]], []))
              else Ok(Config([c1, c2], Flush(g.out, g.buffer), []))
  {
    ScanOne(c2, g, prev);
    PopOverOne(c1, Flush(g.out, g.buffer), Precedence(c2));
    assert [] + [c2] == [c2] && [c1] + [c2] == [c1, c2];
  }

  /** A tree's spelling, then anything: the tree's postfix form is written
      or buffered, the stack is as it was, and a '-' right after it is
      binary. */
  lemma {:induction false} OperandThen(x: Expr, rest: string, g: Config, prev: Option<char>)
    requires g.buffer == []
    ensures Scan(Parenthesised(x) + rest, g, prev) == Scan(rest, AfterOperand(x, g), PrevAfter(Parenthesised(x), prev))
    ensures !UnaryContext(PrevAfter(Parenthesised(x), prev))
    ensures AfterOperand(x, g).ops == g.ops
    ensures Flush(AfterOperand(x, g).out, AfterOperand(x, g).buffer) == g.out + PostfixOf(x)
  {
    ScanParenthesised(x, g, prev);
    ScanThen(Parenthesised(x), rest, g, prev, AfterOperand(x, g));
    LastOfParenthesised(x);
    FlushOperand(x, g);
  }

  /** The storage after x op1 y op2 z: op1 is written when op2 arrives
      unless op2 binds strictly more tightly. */
  lemma {:induction false} ScanTwo(x: Expr, c1: char, y: Expr, c2: char, z: Expr)
    requires IsOperator(c1) && IsOperator(c2)
    ensures var tighter := Precedence(c2) > Precedence(c1);
            var px, py := PostfixOf(x), PostfixOf(y);
            Scan(Parenthesised(x) + ([c1] + (Parenthesised(y) + ([c2] + Parenthesised(z)))), Initial, None) ==
              Ok(AfterOperand(z, Config(if tighter then [c1, c2] else [c2],
                                        if tighter then px + py else px + py + [[c1]], [])))
  {
    var Y, Z := Parenthesised(y), Parenthesised(z);
    var s3 := [c2] + Z;
    var s2 := Y + s3;
    var s1 := [c1] + s2;
    var px, py := PostfixOf(x), PostfixOf(y);
    var tighter := Precedence(c2) > Precedence(c1);
    var gx := AfterOperand(x, Initial);
    var g1 := Config([c1], px, []);
    var gy := AfterOperand(y, g1);
    var g2 := Config(if tighter then [c1, c2] else [c2], if tighter then px + py else px + py + [[c1]], []);
    var px' := PrevAfter(Parenthesised(x), None);
    var py' := PrevAfter(Y, Some(c1));
    assert Scan(Parenthesised(x) + s1, Initial, None) == Scan(s1, gx, px') by {
      OperandThen(x, s1, Initial, None);
    }
    assert Scan(s1, gx, px') == Scan(s2, g1, Some(c1)) by {
      OperandThen(x, s1, Initial, None);
      assert Flush(gx.out, gx.buffer) == px;
      BinaryOnEmpty(gx, c1, px');
      ScanOne(c1, gx, px');
      ScanThen([c1], s2, gx, px', g1);
    }
    assert Scan(s2, g1, Some(c1)) == Scan(s3, gy, py') by {
      OperandThen(y, s3, g1, Some(c1));
    }
    assert Scan(s3, gy, py') == Scan(Z, g2, Some(c2)) by {
      OperandThen(y, s3, g1, Some(c1));
      BinaryOverOne(gy, c1, c2, py');
      ScanThen([c2], Z, gy, py', g2);
    }
    ScanParenthesised(z, g2, Some(c2));
  }

  /** Two operators between three operands: Queue.h's stack groups them by
      precedence, left to right among equals, as translator.h's does. */
  lemma {:induction false} TranslationOfTwo(x: Expr, op1: BinOp, y: Expr, op2: BinOp, z: Expr)
    ensures Translation(Parenthesised(x) + [Symbol(op1)] + Parenthesised(y) + [Symbol(op2)] + Parenthesised(z)) ==
              Ok(PostfixOf(Grouped(x, op1, y, op2, z)))
  {
    var c1, c2 := Symbol(op1), Symbol(op2);
    var X, Y, Z := Parenthesised(x), Parenthesised(y), Parenthesised(z);
    var px, py, pz := PostfixOf(x), PostfixOf(y), PostfixOf(z);
    var tighter := Precedence(c2) > Precedence(c1);
    var g2 := Config(if tighter then [c1, c2] else [c2], if tighter then px + py else px + py + [[c1]], []);
    assert X + [c1] + Y + [c2] + Z == X + ([c1] + (Y + ([c2] + Z)));
    ScanTwo(x, c1, y, c2, z);
    FlushOperand(z, g2);
    GroupedPostfix(x, op1, y, op2, z);
  }

  /** Queue.h's evaluate on x op1 y op2 z gives the value of the grouping
      precedence picks. */
  lemma {:induction false} PrecedenceDecidesGrouping(x: Expr, op1: BinOp, y: Expr, op2: BinOp, z: Expr)
    ensures ValueOf(Parenthesised(x) + [Symbol(op1)] + Parenthesised(y) + [Symbol(op2)] + Parenthesised(z)) ==
              Eval(Grouped(x, op1, y, op2, z))
  {
    TranslationOfTwo(x, op1, y, op2, z);
    Postfix.PostfixRoundTrip(Grouped(x, op1, y, op2, z), true);
  }

  /** Queue.h's evaluate also computes the value of every tree from its
      fully parenthesised spelling. */
  lemma {:induction false} ParenthesisedRoundTrip(e: Expr)
    ensures ValueOf(Parenthesised(e)) == Eval(e)
  {
    var t := PostfixOf(e);
    assert Translation(Parenthesised(e)) == Ok(t) by {
      ScanParenthesised(e, Initial, None);
      FlushOperand(e, Initial);
      var g := AfterOperand(e, Initial);
      assert g.ops == [] && Emitted(g.ops) == [];
      assert Flush(g.out, g.buffer) == Initial.out + t == t;
      assert Scan(Parenthesised(e), Initial, None) == Ok(g);
      assert Flush(g.out, g.buffer) + Emitted(g.ops) == t;
    }
    Postfix.PostfixRoundTrip(e, true);
  }
}
