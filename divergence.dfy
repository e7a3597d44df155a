// Where the two translators part ways: translator/include/translator.h
// (module Translator) and the older translator/include/Queue.h (module
// Buffered) give different answers on the same line. Each lemma states both
// answers for every tree x.

module Divergence {
  import opened Common
  import opened Literal
  import opened Operators
  import opened Expressions
  import Postfix
  import Translator
  import TranslatorFacts
  import Buffered

  // ---------------------------------------------------------------------
  // Queue.h: reading a tree and then an operator

  /** Queue.h after a tree's spelling and an operator c: the tree's postfix
      form is written out and c waits alone on the stack, whatever c is
      (the tree's last character is a digit or ')', so even a '-' is
      binary here). */
  lemma {:induction false} BufferedOperandThenOperator(x: Expr, c: char, rest: string)
    requires IsOperator(c)
    ensures Buffered.Scan(Parenthesised(x) + [c] + rest, Buffered.Initial, None) ==
              Buffered.Scan(rest, Buffered.Config([c], PostfixOf(x), []), Some(c))
  {
    var X := Parenthesised(x);
    var g := Buffered.AfterOperand(x, Buffered.Initial);
    var prev := Buffered.PrevAfter(X, None);
    BufferedOperandThen(x, [c] + rest);
    BinaryAfterOperand(x);
    BufferedOperator(g, c, rest, prev, PostfixOf(x));
    assert X + [c] + rest == X + ([c] + rest);
  }

  lemma {:induction false} BufferedOperandThen(x: Expr, tail: string)
    ensures var g := Buffered.AfterOperand(x, Buffered.Initial);
            && Buffered.Scan(Parenthesised(x) + tail, Buffered.Initial, None) ==
                 Buffered.Scan(tail, g, Buffered.PrevAfter(Parenthesised(x), None))
            && g.ops == [] && Buffered.Flush(g.out, g.buffer) == PostfixOf(x)
  {
    BufferedOperand(x);
    Buffered.ScanThen(Parenthesised(x), tail, Buffered.Initial, None, Buffered.AfterOperand(x, Buffered.Initial));
  }

  /** Queue.h on a tree's spelling from the start: nothing on the stack,
      the postfix form written or buffered. */
  lemma {:induction false} BufferedOperand(x: Expr)
    ensures var g := Buffered.AfterOperand(x, Buffered.Initial);
            && Buffered.Scan(Parenthesised(x), Buffered.Initial, None) == Ok(g)
            && g.ops == [] && Buffered.Flush(g.out, g.buffer) == PostfixOf(x)
  {
    Buffered.ScanParenthesised(x, Buffered.Initial, None);
    Buffered.FlushOperand(x, Buffered.Initial);
    assert Buffered.Initial.out + PostfixOf(x) == PostfixOf(x);
  }

  /** A '-' right after a tree's spelling is binary for Queue.h. */
  lemma {:induction false} BinaryAfterOperand(x: Expr)
    ensures !Buffered.UnaryContext(Buffered.PrevAfter(Parenthesised(x), None))
  {
    Buffered.LastOfParenthesised(x);
  }

  lemma {:induction false} BufferedOperator(g: Buffered.Config, c: char, rest: string, prev: Option<char>, out: seq<Token>)
    requires IsOperator(c) && g.ops == [] && !Buffered.UnaryContext(prev)
    requires Buffered.Flush(g.out, g.buffer) == out
    ensures Buffered.Scan([c] + rest, g, prev) == Buffered.Scan(rest, Buffered.Config([c], out, []), Some(c))
  {
    Buffered.ScanOne(c, g, prev);
    Buffered.BinaryOnEmpty(g, c, prev);
    Buffered.ScanThen([c], rest, g, prev, Buffered.Config([c], out, []));
  }

  /** Queue.h reads "-" and a spelling right after an operator as one
      negative literal. */
  lemma {:induction false} BufferedSignedLiteral(c: char, out: seq<Token>, w: nat, f: Digits)
    requires IsOperator(c)
    ensures Buffered.Scan("-" + Spelling(w, f), Buffered.Config([c], out, []), Some(c)) ==
              Ok(Buffered.Config([c], out, "-" + Spelling(w, f)))
  {
    Buffered.SignedLiteral(Buffered.Config([c], out, []), Some(c), w, f);
  }

  /** The evaluator reads "-" and a spelling as the negated value. */
  lemma {:induction false} NegatedSpelling(w: nat, f: Digits)
    ensures LiteralValue("-" + Spelling(w, f)) == Some(-FixedValue(w, f))
  {
    SpellingRoundTrip(w, f);
    assert ("-" + Spelling(w, f))[1..] == Spelling(w, f);
  }

  // ---------------------------------------------------------------------
  // translator.h on text with no white space

  /** Text without white space that nests properly gets to the state
      machine unchanged: evaluate then reports what translation reports,
      or evaluates the postfix form. */
  lemma {:induction false} TranslatorClean(s: string)
    requires forall i | 0 <= i < |s| :: !IsSpace(s[i])
    requires Translator.NestsFrom(s, 0)
    ensures Translator.ValueOf(s) ==
              match Translator.Translation(s)
              case Err(x) => Err(x)
              case Ok(tokens) => Postfix.Value(tokens, false)
  {
    Translator.StrippedIdentity(s);
    Translator.BalancedNests(s);
  }

  /** Text that does not nest never gets past the parenthesis check. */
  lemma {:induction false} TranslatorUnmatched(s: string)
    requires forall i | 0 <= i < |s| :: !IsSpace(s[i])
    requires !Translator.NestsFrom(s, 0)
    ensures Translator.ValueOf(s) == Err(UnmatchedParentheses)
  {
    Translator.StrippedIdentity(s);
    Translator.BalancedNests(s);
  }

  // ---------------------------------------------------------------------
  // A '-' right after an operator

  /** "x c -n": Queue.h reads "-n" as a negative literal and computes
      x c (0 - n); translator.h's OPERATOR state takes no second operator
      and throws "Invalid character". */
  lemma {:induction false} SignAfterOperator(x: Expr, op: BinOp, w: nat, f: Digits)
    ensures var s := Parenthesised(x) + [Symbol(op)] + "-" + Spelling(w, f);
            && Buffered.ValueOf(s) == Eval(Bin(op, x, Bin(Sub, Num(0, []), Num(w, f))))
            && Translator.ValueOf(s) == Err(InvalidCharacter)
  {
    var c := Symbol(op);
    var sp := Spelling(w, f);
    var s := Parenthesised(x) + [c] + "-" + sp;
    assert s == Parenthesised(x) + [c] + ("-" + sp);
    SignAfterOperatorBuffered(x, op, w, f);
    SignAfterOperatorTranslator(x, c, "-" + sp);
  }

  lemma {:induction false} SignAfterOperatorBuffered(x: Expr, op: BinOp, w: nat, f: Digits)
    ensures Buffered.ValueOf(Parenthesised(x) + [Symbol(op)] + ("-" + Spelling(w, f))) ==
              Eval(Bin(op, x, Bin(Sub, Num(0, []), Num(w, f))))
  {
    var c := Symbol(op);
    var t := "-" + Spelling(w, f);
    SignedTranslation(x, c, w, f);
    SignedValue(x, op, w, f);
  }

  /** Queue.h's postfix form of "x c -n": x, then the literal "-n", then c. */
  lemma {:induction false} SignedTranslation(x: Expr, c: char, w: nat, f: Digits)
    requires IsOperator(c)
    ensures Buffered.Translation(Parenthesised(x) + [c] + ("-" + Spelling(w, f))) ==
              Ok(PostfixOf(x) + (["-" + Spelling(w, f)] + [[c]]))
  {
    var t := "-" + Spelling(w, f);
    var px := PostfixOf(x);
    BufferedOperandThenOperator(x, c, t);
    BufferedSignedLiteral(c, px, w, f);
    assert Emitted([c]) == [[c]];
    assert px + [t] + [[c]] == px + ([t] + [[c]]);
  }

  /** Those tokens evaluate to x c (0 - n). */
  lemma {:induction false} SignedValue(x: Expr, op: BinOp, w: nat, f: Digits)
    ensures Postfix.Value(PostfixOf(x) + (["-" + Spelling(w, f)] + [[Symbol(op)]]), true) ==
              Eval(Bin(op, x, Bin(Sub, Num(0, []), Num(w, f))))
  {
    var t := "-" + Spelling(w, f);
    assert |t| > 1 && t[0] == '-';
    NegatedSpelling(w, f);
    NegatedLiteral(w, f);
    SignedValueAt(x, op, t, Bin(Sub, Num(0, []), Num(w, f)), -FixedValue(w, f));
  }

  /** The same for any negative literal t and any tree y of its value. */
  lemma {:induction false} SignedValueAt(x: Expr, op: BinOp, t: Token, y: Expr, n: real)
    requires |t| > 1 && t[0] == '-' && LiteralValue(t) == Some(n) && Eval(y) == Ok(n)
    ensures Postfix.Value(PostfixOf(x) + ([t] + [[Symbol(op)]]), true) == Eval(Bin(op, x, y))
  {
    Postfix.RunPostfixOf(x, [t] + [[Symbol(op)]], [], true);
    if Eval(x).Ok? {
      var a := Eval(x).value;
      assert [] + [a] == [a];
      SignedStep(a, t, n, op);
    }
  }

  /** 0 - n is the negated literal. */
  lemma {:induction false} NegatedLiteral(w: nat, f: Digits)
    ensures Eval(Bin(Sub, Num(0, []), Num(w, f))) == Ok(-FixedValue(w, f))
  {
    WholeZero();
  }

  /** Reading a negative literal and then an operator on top of one value. */
  lemma {:induction false} SignedStep(a: real, t: Token, n: real, op: BinOp)
    requires t[0] == '-' && |t| > 1 && LiteralValue(t) == Some(n)
    ensures Postfix.Run([t] + [[Symbol(op)]], [a], true) ==
              if Apply(Symbol(op), a, n).Err? then Err(Apply(Symbol(op), a, n).error)
              else Ok([Apply(Symbol(op), a, n).value])
  {
    var c := Symbol(op);
    assert [a] + [n] == [a, n];
    assert Postfix.Step([a], t, true) == Ok([a, n]);
    assert ([t] + [[c]])[1..] == [[c]];
    assert [a, n] == [] + [a] + [n];
    assert [[c]] + [] == [[c]];
    Postfix.ApplyStep([], a, n, op, [], true);
  }

  // ---------------------------------------------------------------------
  // A leading sign

  /** "-n c y" at the start of the line: Queue.h reads "-n" as one negative
      literal, so c is applied to -n and y, whatever c is. */
  lemma {:induction false} LeadingSign(op: BinOp, w: nat, f: Digits, y: Expr)
    ensures Buffered.ValueOf("-" + Spelling(w, f) + [Symbol(op)] + Parenthesised(y)) ==
              Eval(Bin(op, Bin(Sub, Num(0, []), Num(w, f)), y))
  {
    LeadingSignTranslation(Symbol(op), w, f, y);
    NegatedSpelling(w, f);
    NegatedLiteral(w, f);
    LeadingValueAt("-" + Spelling(w, f), -FixedValue(w, f), Bin(Sub, Num(0, []), Num(w, f)), op, y);
  }

  /** Queue.h's postfix form of "-n c y": the literal "-n", y, then c. */
  lemma {:induction false} LeadingSignTranslation(c: char, w: nat, f: Digits, y: Expr)
    requires IsOperator(c)
    ensures Buffered.Translation("-" + Spelling(w, f) + [c] + Parenthesised(y)) ==
              Ok(["-" + Spelling(w, f)] + (PostfixOf(y) + [[c]]))
  {
    var t := "-" + Spelling(w, f);
    var g2 := Buffered.Config([c], [t], []);
    LeadingSignScan(c, w, f, y);
    Buffered.FlushOperand(y, g2);
    assert Emitted([c]) == [[c]];
    assert [t] + PostfixOf(y) + [[c]] == [t] + (PostfixOf(y) + [[c]]);
  }

  /** Reading "-n c y": "-n" is buffered, c flushes it and waits on the
      stack, and y is read after it. */
  lemma {:induction false} LeadingSignScan(c: char, w: nat, f: Digits, y: Expr)
    requires IsOperator(c)
    ensures Buffered.Scan("-" + Spelling(w, f) + [c] + Parenthesised(y), Buffered.Initial, None) ==
              Ok(Buffered.AfterOperand(y, Buffered.Config([c], ["-" + Spelling(w, f)], [])))
  {
    var sp := Spelling(w, f);
    var t := "-" + sp;
    var g1 := Buffered.Config([], [], t);
    Buffered.SignedLiteral(Buffered.Initial, None, w, f);
    assert t + [c] + Parenthesised(y) == t + ([c] + Parenthesised(y));
    Buffered.ScanThen(t, [c] + Parenthesised(y), Buffered.Initial, None, g1);
    assert Buffered.PrevAfter(t, None) == Some(sp[|sp| - 1]);
    BufferedOperator(g1, c, Parenthesised(y), Buffered.PrevAfter(t, None), [t]);
    Buffered.ScanParenthesised(y, Buffered.Config([c], [t], []), Some(c));
  }

  /** A negative literal t of value n, then y, then op: the value of
      z op y for any tree z of value n. */
  lemma {:induction false} LeadingValueAt(t: Token, n: real, z: Expr, op: BinOp, y: Expr)
    requires |t| > 1 && t[0] == '-' && LiteralValue(t) == Some(n) && Eval(z) == Ok(n)
    ensures Postfix.Value([t] + (PostfixOf(y) + [[Symbol(op)]]), true) == Eval(Bin(op, z, y))
  {
    var c := Symbol(op);
    var rest := PostfixOf(y) + [[c]];
    assert Postfix.IsNumberToken(t, true);
    assert [] + [n] == [n];
    assert Postfix.Step([], t, true) == Ok([n]);
    assert ([t] + rest)[1..] == rest;
    Postfix.RunPostfixOf(y, [[c]], [n], true);
    if Eval(y).Ok? {
      var b := Eval(y).value;
      assert [n] + [b] == [] + [n] + [b];
      assert [[c]] + [] == [[c]];
      Postfix.ApplyStep([], n, b, op, [], true);
    }
  }

  // ---------------------------------------------------------------------
  // A sign before a parenthesis, and a parenthesis after an operand

  /** Queue.h writes out the buffer before a '(' (lines 42-45), so what
      follows a '(' does not depend on whether a literal was still in the
      buffer or already written. */
  lemma {:induction false} OpenFlushes(g: Buffered.Config, rest: string, prev: Option<char>)
    ensures Buffered.Scan("(" + rest, g, prev) ==
              Buffered.Scan("(" + rest, Buffered.Config(g.ops, Buffered.Flush(g.out, g.buffer), []), prev)
  {
    var g0 := Buffered.Config(g.ops, Buffered.Flush(g.out, g.buffer), []);
    var g1 := Buffered.Config(g.ops + ['('], Buffered.Flush(g.out, g.buffer), []);
    Buffered.ScanOne('(', g, prev);
    Buffered.ScanOne('(', g0, prev);
    assert Buffered.Step(g, '(', prev) == Ok(g1) == Buffered.Step(g0, '(', prev);
    Buffered.ScanThen("(", rest, g, prev, g1);
    Buffered.ScanThen("(", rest, g0, prev, g1);
  }

  /** "-(y)": translator.h writes 0 and reads 0 - (y); Queue.h buffers the
      '-', and the '(' writes it out as a token of its own, an operator
      that finds no values, so evaluate throws "Invalid expression". */
  lemma {:induction false} SignBeforeParen(y: Expr)
    requires y.Bin?
    ensures Buffered.ValueOf("-" + Parenthesised(y)) == Err(InsufficientOperands)
    ensures Translator.ValueOf("-" + Parenthesised(y)) == Eval(Bin(Sub, Num(0, []), y))
  {
    var tokens := ["-"] + PostfixOf(y);
    SignBeforeParenTranslation(y);
    assert tokens[0] == "-" && !Postfix.IsNumberToken("-", true);
    assert Postfix.Step([], "-", true) == Err(InsufficientOperands);
    SignBeforeParenTranslator(y);
  }

  /** Queue.h's postfix form of "-(y)": a lone "-", then y's. */
  lemma {:induction false} SignBeforeParenTranslation(y: Expr)
    requires y.Bin?
    ensures Buffered.Translation("-" + Parenthesised(y)) == Ok(["-"] + PostfixOf(y))
  {
    var Y := Parenthesised(y);
    var g0 := Buffered.Config([], ["-"], []);
    var gf := Buffered.AfterOperand(y, g0);
    assert Buffered.Scan("-" + Y, Buffered.Initial, None) == Buffered.Scan(Y, g0, Some('-')) by {
      SignThenOpen(Y);
    }
    assert Buffered.Scan(Y, g0, Some('-')) == Ok(gf) by {
      Buffered.ScanParenthesised(y, g0, Some('-'));
    }
    Buffered.FlushOperand(y, g0);
    assert gf.ops == [] && Emitted(gf.ops) == [];
    assert Buffered.Flush(gf.out, gf.buffer) == ["-"] + PostfixOf(y);
    assert Buffered.Scan("-" + Y, Buffered.Initial, None) == Ok(gf);
    assert Buffered.Flush(gf.out, gf.buffer) + Emitted(gf.ops) == ["-"] + PostfixOf(y);
  }

  /** A leading '-' and then a '(': the '-' ends up written as a token of
      its own. */
  lemma {:induction false} SignThenOpen(Y: string)
    requires |Y| > 0 && Y[0] == '('
    ensures Buffered.Scan("-" + Y, Buffered.Initial, None) == Buffered.Scan(Y, Buffered.Config([], ["-"], []), Some('-'))
  {
    var g1 := Buffered.Config([], [], "-");
    Buffered.ScanOne('-', Buffered.Initial, None);
    assert Buffered.Step(Buffered.Initial, '-', None) == Ok(g1);
    Buffered.ScanThen("-", Y, Buffered.Initial, None, g1);
    assert Y == "(" + Y[1..];
    OpenFlushes(g1, Y[1..], Some('-'));
    assert Buffered.Flush(g1.out, g1.buffer) == ["-"];
  }

  /** translator.h reads "-(y)" as "0-(y)". */
  lemma {:induction false} SignBeforeParenTranslator(y: Expr)
    ensures Translator.ValueOf("-" + Parenthesised(y)) == Eval(Bin(Sub, Num(0, []), y))
  {
    var s := "-" + Parenthesised(y);
    NegatedTextTranslation(y);
    NegatedTextClean(y);
    TranslatorFacts.ValueOfClean(s, s, Bin(Sub, Num(0, []), y));
  }

  lemma {:induction false} NegatedTextTranslation(y: Expr)
    ensures Translator.Translation("-" + Parenthesised(y)) == Ok(PostfixOf(Bin(Sub, Num(0, []), y)))
  {
    var Y := Parenthesised(y);
    var zero := Num(0, []);
    assert Parenthesised(zero) == "0";
    TranslatorFacts.LeadingMinus(Y);
    assert "0-" + Y == Parenthesised(zero) + [Symbol(Sub)] + Y;
    TranslatorFacts.TranslationOfOne(zero, Sub, y);
  }

  lemma {:induction false} NegatedTextClean(y: Expr)
    ensures Translator.Stripped("-" + Parenthesised(y)) == "-" + Parenthesised(y)
    ensures Translator.NestsFrom("-" + Parenthesised(y), 0)
  {
    NegatedTextUnspaced(y);
    NegatedTextNests(y);
  }

  lemma {:induction false} NegatedTextUnspaced(y: Expr)
    ensures Translator.Stripped("-" + Parenthesised(y)) == "-" + Parenthesised(y)
  {
    assert TranslatorFacts.InAlphabet("-");
    TranslatorFacts.ParenthesisedAlphabet(y);
    TranslatorFacts.AlphabetAppend("-", Parenthesised(y));
    Translator.StrippedIdentity("-" + Parenthesised(y));
  }

  lemma {:induction false} NegatedTextNests(y: Expr)
    ensures Translator.NestsFrom("-" + Parenthesised(y), 0)
  {
    var Y := Parenthesised(y);
    assert ("-" + Y)[0] == '-' && ("-" + Y)[1..] == Y + [];
    TranslatorFacts.NestsParenthesised(y, [], 0);
  }

  /** "x(y)", an implied product: translator.h takes no '(' after an
      operand and throws "Invalid character"; Queue.h writes both postfix
      forms with nothing between them, so evaluate is left with two values
      and throws "Invalid expression", unless one of them already failed. */
  lemma {:induction false} ImpliedProduct(x: Expr, y: Expr)
    requires y.Bin?
    ensures Buffered.ValueOf(Parenthesised(x) + Parenthesised(y)) ==
              if Eval(x).Err? then Err(Eval(x).error)
              else if Eval(y).Err? then Err(Eval(y).error)
              else Err(MalformedExpression)
    ensures Translator.ValueOf(Parenthesised(x) + Parenthesised(y)) == Err(InvalidCharacter)
  {
    ImpliedProductTranslation(x, y);
    var px, py := PostfixOf(x), PostfixOf(y);
    if Eval(x).Ok? && Eval(y).Ok? {
      Postfix.LeftoverOperand(x, y, true);
    } else {
      Postfix.RunPostfixOf(x, py, [], true);
      if Eval(x).Ok? {
        assert py + [] == py;
        Postfix.RunPostfixOf(y, [], [] + [Eval(x).value], true);
      }
    }
    ImpliedProductTranslator(x, y);
  }

  /** Queue.h's postfix form of "x(y)": x's, then y's. */
  lemma {:induction false} ImpliedProductTranslation(x: Expr, y: Expr)
    requires y.Bin?
    ensures Buffered.Translation(Parenthesised(x) + Parenthesised(y)) == Ok(PostfixOf(x) + PostfixOf(y))
  {
    var Y := Parenthesised(y);
    var gx := Buffered.AfterOperand(x, Buffered.Initial);
    var g0 := Buffered.Config([], PostfixOf(x), []);
    var gf := Buffered.AfterOperand(y, g0);
    var prev := Buffered.PrevAfter(Parenthesised(x), None);
    assert Buffered.Scan(Parenthesised(x) + Y, Buffered.Initial, None) == Buffered.Scan(Y, gx, prev) by {
      Buffered.OperandThen(x, Y, Buffered.Initial, None);
    }
    assert Buffered.Scan(Y, gx, prev) == Buffered.Scan(Y, g0, prev) by {
      Buffered.OperandThen(x, Y, Buffered.Initial, None);
      assert Buffered.Initial.out + PostfixOf(x) == PostfixOf(x);
      assert Y == "(" + Y[1..];
      OpenFlushes(gx, Y[1..], prev);
    }
    assert Buffered.Scan(Y, g0, prev) == Ok(gf) by {
      Buffered.ScanParenthesised(y, g0, prev);
    }
    Buffered.FlushOperand(y, g0);
    assert gf.ops == [] && Emitted(gf.ops) == [];
    assert Buffered.Flush(gf.out, gf.buffer) == PostfixOf(x) + PostfixOf(y);
    assert Buffered.Scan(Parenthesised(x) + Y, Buffered.Initial, None) == Ok(gf);
    assert Buffered.Flush(gf.out, gf.buffer) + Emitted(gf.ops) == PostfixOf(x) + PostfixOf(y);
  }

  /** translator.h on "x(y)": the '(' after x's last character is refused. */
  lemma {:induction false} ImpliedProductTranslator(x: Expr, y: Expr)
    requires y.Bin?
    ensures Translator.ValueOf(Parenthesised(x) + Parenthesised(y)) == Err(InvalidCharacter)
  {
    var X, Y := Parenthesised(x), Parenthesised(y);
    var s := X + Y;
    var i := |X| - 1;
    Buffered.LastOfParenthesised(x);
    assert s[i] == X[i] && s[i + 1] == '(';
    if IsDigit(X[i]) {
      TranslatorFacts.OpenAfterLiteralRejected(s, i);
    } else {
      TranslatorFacts.AfterCloseRejected(s, i);
    }
    TranslatorFacts.ParenthesisedAlphabet(x);
    TranslatorFacts.ParenthesisedAlphabet(y);
    TranslatorFacts.AlphabetAppend(X, Y);
    Translator.StrippedIdentity(s);
    TranslatorFacts.NestsParenthesised(y, [], 0);
    assert Y + [] == Y;
    TranslatorFacts.NestsParenthesised(x, Y, 0);
    Translator.BalancedNests(s);
  }

  lemma {:induction false} WholeZero()
    ensures FixedValue(0, []) == 0.0
  {
    assert DigitsValue([]) == 0;
  }

  /** translator.h throws "Invalid character" on a tree followed by two
      operators, whatever comes next. */
  lemma {:induction false} SignAfterOperatorTranslator(x: Expr, c: char, t: string)
    requires IsOperator(c) && |t| > 0 && t[0] == '-'
    requires forall i | 0 <= i < |t| :: t[i] != '(' && t[i] != ')' && !IsSpace(t[i])
    ensures Translator.ValueOf(Parenthesised(x) + [c] + t) == Err(InvalidCharacter)
  {
    var X := Parenthesised(x);
    var s := X + [c] + t;
    assert s[|X|] == c && s[|X| + 1] == '-';
    TranslatorFacts.AdjacentOperatorsRejected(s, |X|);
    OperatorTextNests(x, c, t);
    OperatorTextUnspaced(x, c, t);
    TranslatorClean(s);
  }

  lemma {:induction false} OperatorTextNests(x: Expr, c: char, t: string)
    requires IsOperator(c)
    requires forall i | 0 <= i < |t| :: t[i] != '(' && t[i] != ')'
    ensures Translator.NestsFrom(Parenthesised(x) + [c] + t, 0)
  {
    var X := Parenthesised(x);
    var u := [c] + t;
    forall i | 0 <= i < |u| ensures u[i] != '(' && u[i] != ')' {
      if i > 0 {
        assert u[i] == t[i - 1];
      }
    }
    TranslatorFacts.NestsNoParens(u, [], 0);
    assert u + [] == u;
    TranslatorFacts.NestsParenthesised(x, u, 0);
    assert X + [c] + t == X + u;
  }

  lemma {:induction false} OperatorTextUnspaced(x: Expr, c: char, t: string)
    requires IsOperator(c)
    requires forall i | 0 <= i < |t| :: !IsSpace(t[i])
    ensures forall i | 0 <= i < |Parenthesised(x) + [c] + t| :: !IsSpace((Parenthesised(x) + [c] + t)[i])
  {
    var X := Parenthesised(x);
    var s := X + [c] + t;
    TranslatorFacts.ParenthesisedAlphabet(x);
    forall i | 0 <= i < |s| ensures !IsSpace(s[i]) {
      if i < |X| {
        assert s[i] == X[i];
      } else if i > |X| {
        assert s[i] == t[i - |X| - 1];
      }
    }
  }

  // ---------------------------------------------------------------------
  // A space before that '-'

  /** Queue.h after an operator c, a space, "-" and a spelling: the space is
      the raw character before '-', so '-' is binary; it pops c. */
  lemma {:induction false} BufferedSpacedMinus(c: char, out: seq<Token>, sp: string)
    requires IsOperator(c)
    requires forall i | 0 <= i < |sp| :: IsDigit(sp[i]) || sp[i] == '.'
    ensures Buffered.Scan(" -" + sp, Buffered.Config([c], out, []), Some(c)) ==
              Ok(Buffered.Config(['-'], out + [[c]], sp))
  {
    var g := Buffered.Config([c], out, []);
    var g2 := Buffered.Config(['-'], out + [[c]], []);
    SpaceMinusShape(sp);
    BufferedSpace(g, c);
    Buffered.ScanThen(" ", "-" + sp, g, Some(c), g);
    BufferedBinaryMinus(c, out);
    Buffered.ScanThen("-", sp, g, Some(' '), g2);
    Buffered.LiteralAccumulates(sp, g2, Some('-'));
    assert [] + sp == sp;
  }

  lemma {:induction false} SpaceMinusShape(sp: string)
    ensures " -" + sp == " " + ("-" + sp)
  {
  }

  /** A space read by Queue.h changes nothing but the raw previous
      character. */
  lemma {:induction false} BufferedSpace(g: Buffered.Config, c: char)
    ensures Buffered.Scan(" ", g, Some(c)) == Ok(g)
    ensures Buffered.PrevAfter(" ", Some(c)) == Some(' ')
  {
    assert " " == [' '];
    Buffered.ScanOne(' ', g, Some(c));
  }

  /** A '-' after a space is binary for Queue.h: it pops the operator c
      below it. */
  lemma {:induction false} BufferedBinaryMinus(c: char, out: seq<Token>)
    requires IsOperator(c)
    ensures Buffered.Scan("-", Buffered.Config([c], out, []), Some(' ')) ==
              Ok(Buffered.Config(['-'], out + [[c]], []))
    ensures Buffered.PrevAfter("-", Some(' ')) == Some('-')
  {
    var g := Buffered.Config([c], out, []);
    assert "-" == ['-'];
    Buffered.ScanOne('-', g, Some(' '));
    PopOverOne(c, out, Precedence('-'));
    assert [] + ['-'] == ['-'];
    assert Buffered.Flush(out, []) == out;
  }

  /** "x c -n" with a space before the '-': Queue.h pops c before anything
      follows it and fails with "Invalid expression"; translator.h removes
      the space and throws "Invalid character" as without it. */
  lemma {:induction false} SpaceBeforeSign(x: Expr, op: BinOp, w: nat, f: Digits)
    ensures var s := Parenthesised(x) + [Symbol(op)] + " -" + Spelling(w, f);
            && Buffered.ValueOf(s) == (if Eval(x).Err? then Eval(x) else Err(InsufficientOperands))
            && Translator.ValueOf(s) == Err(InvalidCharacter)
  {
    var c := Symbol(op);
    var sp := Spelling(w, f);
    var X := Parenthesised(x);
    assert X + [c] + " -" + sp == X + [c] + (" -" + sp);
    SpacedTranslation(x, c, sp);
    SpacedValue(x, c, sp);
    SpaceBeforeSignTranslator(x, c, sp);
  }

  /** translator.h removes the space first. */
  lemma {:induction false} SpaceBeforeSignTranslator(x: Expr, c: char, sp: string)
    requires IsOperator(c)
    requires forall i | 0 <= i < |sp| :: IsDigit(sp[i]) || sp[i] == '.'
    ensures Translator.ValueOf(Parenthesised(x) + [c] + (" -" + sp)) == Err(InvalidCharacter)
  {
    var s := Parenthesised(x) + [c] + (" -" + sp);
    SpacedStripped(x, c, sp);
    TranslatorFacts.SpacesIgnored(s);
    SignedText(sp);
    SignAfterOperatorTranslator(x, c, "-" + sp);
  }

  lemma {:induction false} SignedText(sp: string)
    requires forall i | 0 <= i < |sp| :: IsDigit(sp[i]) || sp[i] == '.'
    ensures var t := "-" + sp;
            forall i | 0 <= i < |t| :: t[i] != '(' && t[i] != ')' && !IsSpace(t[i])
  {
    var t := "-" + sp;
    forall i | 0 <= i < |t| ensures t[i] != '(' && t[i] != ')' && !IsSpace(t[i]) {
      if i > 0 {
        assert t[i] == sp[i - 1];
      }
    }
  }

  /** Queue.h's postfix form of "x c -n" with the space: x, c, n, '-'. */
  lemma {:induction false} SpacedTranslation(x: Expr, c: char, sp: string)
    requires IsOperator(c) && sp != []
    requires forall i | 0 <= i < |sp| :: IsDigit(sp[i]) || sp[i] == '.'
    ensures Buffered.Translation(Parenthesised(x) + [c] + (" -" + sp)) ==
              Ok(PostfixOf(x) + ([[c]] + [sp] + ["-"]))
  {
    var px := PostfixOf(x);
    var g := Buffered.Config(['-'], px + [[c]], sp);
    BufferedOperandThenOperator(x, c, " -" + sp);
    BufferedSpacedMinus(c, px, sp);
    SpacedOutput(px, c, sp);
  }

  lemma {:induction false} SpacedOutput(px: seq<Token>, c: char, sp: string)
    requires sp != []
    ensures Buffered.Flush(px + [[c]], sp) + Emitted(['-']) == px + ([[c]] + [sp] + ["-"])
  {
    assert Emitted(['-']) == ["-"];
    assert Buffered.Flush(px + [[c]], sp) == px + [[c]] + [sp];
  }

  /** Those tokens fail at c, which finds one value. */
  lemma {:induction false} SpacedValue(x: Expr, c: char, sp: Token)
    requires IsOperator(c)
    ensures Postfix.Value(PostfixOf(x) + ([[c]] + [sp] + ["-"]), true) ==
              if Eval(x).Err? then Eval(x) else Err(InsufficientOperands)
  {
    var rest := [[c]] + [sp] + ["-"];
    Postfix.RunPostfixOf(x, rest, [], true);
    if Eval(x).Ok? {
      var a := Eval(x).value;
      assert [] + [a] == [a];
      assert rest[0] == [c];
      assert Postfix.Step([a], [c], true) == Err(InsufficientOperands);
    }
  }

  /** Removing the space. */
  lemma {:induction false} SpacedStripped(x: Expr, c: char, sp: string)
    requires IsOperator(c)
    requires forall i | 0 <= i < |sp| :: IsDigit(sp[i]) || sp[i] == '.'
    ensures Translator.Stripped(Parenthesised(x) + [c] + (" -" + sp)) == Parenthesised(x) + [c] + ("-" + sp)
  {
    var X := Parenthesised(x);
    OperandOperatorStripped(x, c);
    SpacedSignStripped(sp);
    Translator.StrippedAppend(X + [c], " -" + sp);
  }

  lemma {:induction false} OperandOperatorStripped(x: Expr, c: char)
    requires IsOperator(c)
    ensures Translator.Stripped(Parenthesised(x) + [c]) == Parenthesised(x) + [c]
  {
    var X := Parenthesised(x);
    TranslatorFacts.ParenthesisedAlphabet(x);
    TranslatorFacts.AlphabetAppend(X, [c]);
    Translator.StrippedIdentity(X + [c]);
  }

  lemma {:induction false} SpacedSignStripped(sp: string)
    requires forall i | 0 <= i < |sp| :: IsDigit(sp[i]) || sp[i] == '.'
    ensures Translator.Stripped(" -" + sp) == "-" + sp
  {
    SpaceMinusShape(sp);
    SignedText(sp);
    SpaceDropped("-" + sp);
  }

  /** A leading space is removed and nothing else. */
  lemma {:induction false} SpaceDropped(t: string)
    requires forall i | 0 <= i < |t| :: !IsSpace(t[i])
    ensures Translator.Stripped(" " + t) == t
  {
    SpaceOnly();
    Translator.StrippedAppend(" ", t);
    Translator.StrippedIdentity(t);
  }

  lemma {:induction false} SpaceOnly()
    ensures Translator.Stripped(" ") == []
  {
    assert " "[..0] == [];
  }

  // ---------------------------------------------------------------------
  // Parentheses that do not match

  /** A stray ')' after a tree: Queue.h, which has no parenthesis check,
      pops nothing for it and computes the tree's value; translator.h throws
      "Unmatched parentheses". */
  lemma {:induction false} StrayClose(x: Expr)
    ensures Buffered.ValueOf(Parenthesised(x) + ")") == Eval(x)
    ensures Translator.ValueOf(Parenthesised(x) + ")") == Err(UnmatchedParentheses)
  {
    StrayCloseBuffered(x);
    StrayCloseTranslator(x);
  }

  lemma {:induction false} StrayCloseBuffered(x: Expr)
    ensures Buffered.ValueOf(Parenthesised(x) + ")") == Eval(x)
  {
    assert Buffered.Translation(Parenthesised(x) + ")") == Ok(PostfixOf(x)) by {
      StrayCloseScan(x);
      assert PostfixOf(x) + Emitted([]) == PostfixOf(x);
    }
    Postfix.PostfixRoundTrip(x, true);
  }

  lemma {:induction false} StrayCloseTranslator(x: Expr)
    ensures Translator.ValueOf(Parenthesised(x) + ")") == Err(UnmatchedParentheses)
  {
    var X := Parenthesised(x);
    TranslatorFacts.ParenthesisedAlphabet(x);
    TranslatorFacts.AlphabetAppend(X, ")");
    TranslatorFacts.NestsParenthesised(x, ")", 0);
    TranslatorUnmatched(X + ")");
  }

  lemma {:induction false} StrayCloseScan(x: Expr)
    ensures Buffered.Scan(Parenthesised(x) + ")", Buffered.Initial, None) ==
              Ok(Buffered.Config([], PostfixOf(x), []))
  {
    var X := Parenthesised(x);
    var g := Buffered.AfterOperand(x, Buffered.Initial);
    var prev := Buffered.PrevAfter(X, None);
    assert Buffered.Scan(X, Buffered.Initial, None) == Ok(g) && g.ops == [] &&
           Buffered.Flush(g.out, g.buffer) == PostfixOf(x) by {
      Buffered.ScanParenthesised(x, Buffered.Initial, None);
      Buffered.FlushOperand(x, Buffered.Initial);
      assert Buffered.Initial.out + PostfixOf(x) == PostfixOf(x);
    }
    Buffered.ScanAppend(X, ")", Buffered.Initial, None);
    Buffered.ScanOne(')', g, prev);
    assert AfterPopToParen([], PostfixOf(x)) == ([], PostfixOf(x)) by {
      assert NearestParen([]) == -1;
      assert PostfixOf(x) + Emitted([]) == PostfixOf(x);
    }
  }

  /** A '(' that is never closed, before a tree: Queue.h leaves it on the
      stack, writes it out last, and its evaluator skips the "(" token;
      translator.h throws "Unmatched parentheses". */
  lemma {:induction false} UnclosedOpen(x: Expr)
    ensures Buffered.ValueOf("(" + Parenthesised(x)) == Eval(x)
    ensures Translator.ValueOf("(" + Parenthesised(x)) == Err(UnmatchedParentheses)
  {
    UnclosedOpenBuffered(x);
    UnclosedOpenTranslator(x);
  }

  lemma {:induction false} UnclosedOpenBuffered(x: Expr)
    ensures Buffered.ValueOf("(" + Parenthesised(x)) == Eval(x)
  {
    UnclosedOpenScan(x);
    Postfix.RunPostfixOf(x, ["("], [], true);
    if Eval(x).Ok? {
      var a := Eval(x).value;
      assert [] + [a] == [a];
      assert Postfix.Step([a], "(", true) == Ok([a]);
      assert ["("][1..] == [];
    }
  }

  lemma {:induction false} UnclosedOpenTranslator(x: Expr)
    ensures Translator.ValueOf("(" + Parenthesised(x)) == Err(UnmatchedParentheses)
  {
    var X := Parenthesised(x);
    var s := "(" + X;
    TranslatorFacts.ParenthesisedAlphabet(x);
    TranslatorFacts.AlphabetAppend("(", X);
    TranslatorFacts.NestsParenthesised(x, [], 1);
    assert X + [] == X;
    assert s[1..] == X;
    TranslatorUnmatched(s);
  }

  lemma {:induction false} UnclosedOpenScan(x: Expr)
    ensures Buffered.Translation("(" + Parenthesised(x)) == Ok(PostfixOf(x) + ["("])
  {
    var g1 := Buffered.Config(['('], [], []);
    var g2 := Buffered.AfterOperand(x, g1);
    BufferedOpen();
    Buffered.ScanThen("(", Parenthesised(x), Buffered.Initial, None, g1);
    Buffered.ScanParenthesised(x, g1, Some('('));
    Buffered.FlushOperand(x, g1);
    assert [] + PostfixOf(x) == PostfixOf(x);
    assert Emitted(['(']) == ["("];
  }

  /** Queue.h pushes a '(' read first. */
  lemma {:induction false} BufferedOpen()
    ensures Buffered.Scan("(", Buffered.Initial, None) == Ok(Buffered.Config(['('], [], []))
    ensures Buffered.PrevAfter("(", None) == Some('(')
  {
    assert "(" == ['('];
    assert Buffered.Initial.ops == [] && Buffered.Flush([], []) == [];
    assert [] + ['('] == ['('];
    assert Buffered.Step(Buffered.Initial, '(', None) == Ok(Buffered.Config(['('], [], []));
    Buffered.ScanOne('(', Buffered.Initial, None);
  }

  // ---------------------------------------------------------------------
  // A literal that starts with '.'

  /** stod reads "." and fraction digits as a number below one. */
  lemma {:induction false} DotLiteral(ds: Digits)
    requires ds != []
    ensures LiteralValue("." + ds) == Some(FixedValue(0, ds))
  {
    var t := "." + ds;
    assert LeadingDigits(t) == 0;
    assert t[..0] == [] && t[1..] == ds;
    AllDigitsLeading(ds);
    assert ds[..|ds|] == ds;
  }

  /** ".ds + y": both translators write the same postfix form, but
      translator.h's evaluator skips the token ".ds" and then finds one value
      for '+' ("Invalid expression"), while Queue.h's evaluator reads it as
      0.ds and adds y. */
  lemma {:induction false} LeadingDot(ds: Digits, y: Expr)
    requires ds != []
    ensures var s := "." + ds + "+" + Parenthesised(y);
            && Buffered.ValueOf(s) == Eval(Bin(Add, Num(0, ds), y))
            && Translator.ValueOf(s) == (if Eval(y).Err? then Eval(y) else Err(InsufficientOperands))
  {
    var s := "." + ds + "+" + Parenthesised(y);
    var tokens := ["." + ds] + (PostfixOf(y) + ["+"]);
    DotTranslations(ds, y);
    DotValues(ds, y);
    DotClean(ds, y);
    TranslatorClean(s);
  }

  /** The postfix form both translators give ".ds + y". */
  lemma {:induction false} DotTranslations(ds: Digits, y: Expr)
    requires ds != []
    ensures Buffered.Translation("." + ds + "+" + Parenthesised(y)) == Ok(["." + ds] + (PostfixOf(y) + ["+"]))
    ensures Translator.Translation("." + ds + "+" + Parenthesised(y)) == Ok(["." + ds] + (PostfixOf(y) + ["+"]))
  {
    DotBuffered(ds, y);
    DotTranslator(ds, y);
  }

  lemma {:induction false} DotBuffered(ds: Digits, y: Expr)
    requires ds != []
    ensures Buffered.Translation("." + ds + "+" + Parenthesised(y)) == Ok(["." + ds] + (PostfixOf(y) + ["+"]))
  {
    var a := "." + ds;
    var Y := Parenthesised(y);
    var g2 := Buffered.Config(['+'], [a], []);
    var g3 := Buffered.AfterOperand(y, g2);
    assert a + "+" + Y == a + ("+" + Y);
    assert Buffered.Scan(a + ("+" + Y), Buffered.Initial, None) == Buffered.Scan(Y, g2, Some('+')) by {
      DotBufferedHead(ds, Y);
    }
    assert Buffered.Scan(Y, g2, Some('+')) == Ok(g3) && g3.ops == ['+'] &&
           Buffered.Flush(g3.out, g3.buffer) == [a] + PostfixOf(y) by {
      Buffered.ScanParenthesised(y, g2, Some('+'));
      Buffered.FlushOperand(y, g2);
    }
    assert Emitted(['+']) == ["+"];
    assert [a] + PostfixOf(y) + ["+"] == [a] + (PostfixOf(y) + ["+"]);
  }

  /** Queue.h on ".ds+": the literal is buffered, then written out when '+'
      arrives. */
  lemma {:induction false} DotBufferedHead(ds: Digits, rest: string)
    requires ds != []
    ensures Buffered.Scan("." + ds + ("+" + rest), Buffered.Initial, None) ==
              Buffered.Scan(rest, Buffered.Config(['+'], ["." + ds], []), Some('+'))
  {
    var a := "." + ds;
    var g := Buffered.Config([], [], a);
    Buffered.ScanAppend(a, "+" + rest, Buffered.Initial, None);
    assert Buffered.Scan(a, Buffered.Initial, None) == Ok(g) by {
      Buffered.LiteralAccumulates(a, Buffered.Initial, None);
      assert [] + a == a;
    }
    var prev := Buffered.PrevAfter(a, None);
    assert a[|a| - 1] == ds[|ds| - 1];
    assert IsDigit(ds[|ds| - 1]);
    assert !Buffered.UnaryContext(prev);
    Buffered.ScanAppend("+", rest, g, prev);
    assert "+" == ['+'];
    assert Buffered.PrevAfter("+", prev) == Some('+');
    Buffered.ScanOne('+', g, prev);
    Buffered.BinaryOnEmpty(g, '+', prev);
    assert Buffered.Flush([], a) == [a];
  }

  lemma {:induction false} DotTranslator(ds: Digits, y: Expr)
    requires ds != []
    ensures Translator.Translation("." + ds + "+" + Parenthesised(y)) == Ok(["." + ds] + (PostfixOf(y) + ["+"]))
  {
    var a := "." + ds;
    var Y := Parenthesised(y);
    var m3 := Translator.Machine(Translator.Operator, true, ['+'], [a]);
    assert a + "+" + Y == a + ("+" + Y);
    DotTranslatorHead(ds, Y);
    TranslatorFacts.ScanParenthesised(y, m3, false);
    assert Emitted(['+']) == ["+"];
    assert [a] + PostfixOf(y) + ["+"] == [a] + (PostfixOf(y) + ["+"]);
  }

  /** translator.h on ".ds+": one literal, then '+' on the empty stack. */
  lemma {:induction false} DotTranslatorHead(ds: Digits, rest: string)
    requires ds != []
    ensures Translator.Scan("." + ds + ("+" + rest), Translator.Initial, false) ==
              Translator.Scan(rest, Translator.Machine(Translator.Operator, true, ['+'], ["." + ds]), false)
  {
    var a := "." + ds;
    var m2 := Translator.Machine(Translator.Number, false, [], [a]);
    var m3 := Translator.Machine(Translator.Operator, true, ['+'], [a]);
    assert "+" == ['+'];
    assert ("+" + rest)[0] == '+';
    DotScan(ds, false);
    TranslatorFacts.ScanThen(a, "+" + rest, Translator.Initial, false, m2);
    TranslatorFacts.OperatorOnEmpty(m2, '+', TranslatorFacts.Lookahead(rest, false));
    TranslatorFacts.ScanThen("+", rest, m2, false, m3);
  }

  /** translator.h reads '.' and the digits after it as one literal: a
      '.' that a digit follows starts a number. */
  lemma {:induction false} DotScan(ds: Digits, follow: bool)
    requires ds != []
    ensures Translator.Scan("." + ds, Translator.Initial, follow) ==
              Ok(Translator.Machine(Translator.Number, false, [], ["." + ds]))
  {
    var m1 := Translator.Machine(Translator.Number, false, [], [['.']]);
    TranslatorFacts.ScanAppend(".", ds, Translator.Initial, follow);
    TranslatorFacts.ScanOne('.', Translator.Initial, true);
    assert [] + [['.']] == [['.']];
    TranslatorFacts.ScanLiteralTail(ds, m1, follow);
    assert [['.']][..0] + [['.'] + ds] == ["." + ds];
  }

  /** What the two evaluators make of that postfix form. */
  lemma {:induction false} DotValues(ds: Digits, y: Expr)
    requires ds != []
    ensures Postfix.Value(["." + ds] + (PostfixOf(y) + ["+"]), true) == Eval(Bin(Add, Num(0, ds), y))
    ensures Postfix.Value(["." + ds] + (PostfixOf(y) + ["+"]), false) ==
              if Eval(y).Err? then Eval(y) else Err(InsufficientOperands)
  {
    var t := "." + ds;
    var v := FixedValue(0, ds);
    DotLiteral(ds);
    assert t[0] == '.' && |t| > 1;
    assert [] + [v] == [v];
    assert Postfix.Step([], t, true) == Ok([v]);
    assert Postfix.Step([], t, false) == Ok([]);
    assert ([t] + (PostfixOf(y) + ["+"]))[1..] == PostfixOf(y) + ["+"];
    Postfix.RunPostfixOf(y, ["+"], [v], true);
    Postfix.RunPostfixOf(y, ["+"], [], false);
    if Eval(y).Ok? {
      var b := Eval(y).value;
      assert [v] + [b] == [] + [v] + [b];
      assert Symbol(Add) == '+';
      assert ["+"] == [[Symbol(Add)]] + [];
      Postfix.ApplyStep([], v, b, Add, [], true);
      assert [] + [b] == [b];
      assert Postfix.Step([b], "+", false) == Err(InsufficientOperands);
    }
  }

  /** ".ds + y" has no white space and nests. */
  lemma {:induction false} DotClean(ds: Digits, y: Expr)
    requires ds != []
    ensures var s := "." + ds + "+" + Parenthesised(y);
            (forall i | 0 <= i < |s| :: !IsSpace(s[i])) && Translator.NestsFrom(s, 0)
  {
    var a := "." + ds + "+";
    var Y := Parenthesised(y);
    TranslatorFacts.ParenthesisedAlphabet(y);
    assert TranslatorFacts.InAlphabet(a);
    TranslatorFacts.AlphabetAppend(a, Y);
    TranslatorFacts.NestsNoParens(a, Y, 0);
    TranslatorFacts.NestsParenthesised(y, [], 0);
    assert Y + [] == Y;
  }
}
