// The translator cases of translator/test/test_stack.cpp, each derived from
// the general lemmas of TranslatorFacts: white space is dropped, the text
// that remains is the spelling of a small tree, and evaluate returns the
// tree's value. Each case is stated for every line that strips to the
// test's text; the test's own line, spaces included, is one of them, as
// SpacedLine shows for the first.

module Scenarios {
  import opened Common
  import opened Literal
  import opened Operators
  import opened Expressions
  import opened Translator
  import opened TranslatorFacts
  import Postfix
  import Buffered
  import Divergence

  /** Stripped, read from the front. */
  function StripFront(s: string): string {
    if s == [] then [] else (if IsSpace(s[0]) then [] else [s[0]]) + StripFront(s[1..])
  }

  lemma {:induction false} StripFrontAgrees(s: string)
    ensures Stripped(s) == StripFront(s)
  {
    if s != [] {
      StrippedAppend([s[0]], s[1..]);
      assert [s[0]] + s[1..] == s;
      assert [s[0]][..0] == [];
      StripFrontAgrees(s[1..]);
    }
  }

  lemma {:induction false} WholeValue(w: nat)
    ensures FixedValue(w, []) == w as real
  {
    assert DigitsValue([]) == 0 && Pow10(0) == 1;
  }

  lemma {:induction false} TenthsValue(w: nat, d: char)
    requires IsDigit(d)
    ensures FixedValue(w, [d]) == w as real + (DigitValue(d) as real) / 10.0
  {
    assert [d][..0] == [];
    assert Pow10(1) == 10 * Pow10(0) == 10;
    assert DigitsValue([d]) == DigitValue(d);
  }

  /** A line that strips to x op y evaluates to x op y. */
  lemma {:induction false} OneOperator(expression: string, x: Expr, op: BinOp, y: Expr)
    requires Stripped(expression) == Parenthesised(x) + [Symbol(op)] + Parenthesised(y)
    ensures ValueOf(expression) == Eval(Bin(op, x, y))
  {
    SpacesIgnored(expression);
    OneOperatorValue(x, op, y);
  }

  /** A line that strips to x op1 y op2 z evaluates by precedence. */
  lemma {:induction false} TwoOperators(expression: string, x: Expr, op1: BinOp, y: Expr, op2: BinOp, z: Expr)
    requires Stripped(expression) ==
               Parenthesised(x) + [Symbol(op1)] + Parenthesised(y) + [Symbol(op2)] + Parenthesised(z)
    ensures ValueOf(expression) == Eval(Grouped(x, op1, y, op2, z))
  {
    SpacesIgnored(expression);
    PrecedenceDecidesGrouping(x, op1, y, op2, z);
  }

  /** A line that strips to "-" + t, where "0-" + t spells 0 - y op z,
      evaluates as 0 - y op z. */
  lemma {:induction false} LeadingMinusTwo(expression: string, t: string, y: Expr, op: BinOp, z: Expr)
    requires Stripped(expression) == "-" + t
    requires "0-" + t == Parenthesised(Num(0, [])) + "-" + Parenthesised(y) + [Symbol(op)] + Parenthesised(z)
    ensures ValueOf(expression) == Eval(Grouped(Num(0, []), Sub, y, op, z))
  {
    var x := Num(0, []);
    StrippedIdempotent(expression);
    LeadingMinus(t);
    TranslationOfTwo(x, Sub, y, op, z);
    FlatNests(x, '-', y, Symbol(op), z);
    assert ("0-" + t)[1..][1..] == t && ("-" + t)[1..] == t;
    ValueOfClean(expression, "-" + t, Grouped(x, Sub, y, op, z));
  }

  /** A line whose stripped text does not nest is refused. */
  lemma {:induction false} Unmatched(expression: string, clean: string)
    requires Stripped(expression) == clean && !NestsFrom(clean, 0)
    ensures ValueOf(expression) == Err(UnmatchedParentheses)
  {
    BalancedNests(clean);
  }

  /** canCalculateWithIntegers: "10 + 30". */
  lemma {:induction false} IntegerSum(expression: string)
    requires Stripped(expression) == "10+30"
    ensures ValueOf(expression) == Ok(40.0)
  {
    var x, y := IntegerSumTree();
    OneOperator(expression, x, Add, y);
  }

  /** The operands of IntegerSum: the value of the tree and its spelling. */
  lemma {:induction false} IntegerSumTree() returns (x: Expr, y: Expr)
    ensures Eval(Bin(Add, x, y)) == Ok(40.0)
    ensures Parenthesised(x) + [Symbol(Add)] + Parenthesised(y) == "10+30"
  {
    x, y := Num(10, []), Num(30, []);
    WholeValue(10);
    WholeValue(30);
  }

  /** canCalculateWithUnaryMinus: "- 5 + 30". */
  lemma {:induction false} UnaryMinus(expression: string)
    requires Stripped(expression) == "-5+30"
    ensures ValueOf(expression) == Ok(25.0)
  {
    var t, y, z := UnaryMinusTree();
    LeadingMinusTwo(expression, t, y, Add, z);
  }

  /** The operands of UnaryMinus, with the leading '-' read as "0-". */
  lemma {:induction false} UnaryMinusTree() returns (t: string, y: Expr, z: Expr)
    ensures Eval(Grouped(Num(0, []), Sub, y, Add, z)) == Ok(25.0)
    ensures "-5+30" == "-" + t
    ensures "0-" + t == Parenthesised(Num(0, [])) + "-" + Parenthesised(y) + [Symbol(Add)] + Parenthesised(z)
  {
    t, y, z := "5+30", Num(5, []), Num(30, []);
    WholeValue(0);
    WholeValue(5);
    WholeValue(30);
  }

  /** canCalculateWithNegativeNumbers: "-10 - 20". */
  lemma {:induction false} NegativeIntegers(expression: string)
    requires Stripped(expression) == "-10-20"
    ensures ValueOf(expression) == Ok(-30.0)
  {
    var t, y, z := NegativeIntegersTree();
    LeadingMinusTwo(expression, t, y, Sub, z);
  }

  /** The operands of NegativeIntegers, with the leading '-' read as "0-". */
  lemma {:induction false} NegativeIntegersTree() returns (t: string, y: Expr, z: Expr)
    ensures Eval(Grouped(Num(0, []), Sub, y, Sub, z)) == Ok(-30.0)
    ensures "-10-20" == "-" + t
    ensures "0-" + t == Parenthesised(Num(0, [])) + "-" + Parenthesised(y) + [Symbol(Sub)] + Parenthesised(z)
  {
    t, y, z := "10-20", Num(10, []), Num(20, []);
    WholeValue(0);
    WholeValue(10);
    WholeValue(20);
  }

  /** canCalculateWithNegativeNumbers: "-2.5 - 20.5". */
  lemma {:induction false} NegativeDecimals(expression: string)
    requires Stripped(expression) == "-2.5-20.5"
    ensures ValueOf(expression) == Ok(-23.0)
  {
    var t, y, z := NegativeDecimalsTree();
    LeadingMinusTwo(expression, t, y, Sub, z);
  }

  /** The operands of NegativeDecimals, with the leading '-' read as "0-". */
  lemma {:induction false} NegativeDecimalsTree() returns (t: string, y: Expr, z: Expr)
    ensures Eval(Grouped(Num(0, []), Sub, y, Sub, z)) == Ok(-23.0)
    ensures "-2.5-20.5" == "-" + t
    ensures "0-" + t == Parenthesised(Num(0, [])) + "-" + Parenthesised(y) + [Symbol(Sub)] + Parenthesised(z)
  {
    t, y, z := "2.5-20.5", Num(2, "5"), Num(20, "5");
    WholeValue(0);
    TenthsValue(2, '5');
    TenthsValue(20, '5');
    assert Decimal(2) == "2";
    assert Decimal(20) == "20";
  }

  /** canMultiply: "4 * 25". */
  lemma {:induction false} IntegerProduct(expression: string)
    requires Stripped(expression) == "4*25"
    ensures ValueOf(expression) == Ok(100.0)
  {
    var x, y := IntegerProductTree();
    OneOperator(expression, x, Mul, y);
  }

  /** The operands of IntegerProduct: the value of the tree and its spelling. */
  lemma {:induction false} IntegerProductTree() returns (x: Expr, y: Expr)
    ensures Eval(Bin(Mul, x, y)) == Ok(100.0)
    ensures Parenthesised(x) + [Symbol(Mul)] + Parenthesised(y) == "4*25"
  {
    x, y := Num(4, []), Num(25, []);
    WholeValue(4);
    WholeValue(25);
  }

  /** canMultiply: "2.0 * 3.0". */
  lemma {:induction false} DecimalProduct(expression: string)
    requires Stripped(expression) == "2.0*3.0"
    ensures ValueOf(expression) == Ok(6.0)
  {
    var x, y := DecimalProductTree();
    OneOperator(expression, x, Mul, y);
  }

  /** The operands of DecimalProduct: the value of the tree and its spelling. */
  lemma {:induction false} DecimalProductTree() returns (x: Expr, y: Expr)
    ensures Eval(Bin(Mul, x, y)) == Ok(6.0)
    ensures Parenthesised(x) + [Symbol(Mul)] + Parenthesised(y) == "2.0*3.0"
  {
    x, y := Num(2, "0"), Num(3, "0");
    TenthsValue(2, '0');
    TenthsValue(3, '0');
    assert Decimal(2) == "2";
    assert Decimal(3) == "3";
  }

  /** canMultiplyByZero: "5 * 0". */
  lemma {:induction false} IntegerZeroFactor(expression: string)
    requires Stripped(expression) == "5*0"
    ensures ValueOf(expression) == Ok(0.0)
  {
    var x, y := IntegerZeroFactorTree();
    OneOperator(expression, x, Mul, y);
  }

  /** The operands of IntegerZeroFactor: the value of the tree and its spelling. */
  lemma {:induction false} IntegerZeroFactorTree() returns (x: Expr, y: Expr)
    ensures Eval(Bin(Mul, x, y)) == Ok(0.0)
    ensures Parenthesised(x) + [Symbol(Mul)] + Parenthesised(y) == "5*0"
  {
    x, y := Num(5, []), Num(0, []);
    WholeValue(5);
    WholeValue(0);
  }

  /** canMultiplyByZero: "7.5 * 0". */
  lemma {:induction false} DecimalZeroFactor(expression: string)
    requires Stripped(expression) == "7.5*0"
    ensures ValueOf(expression) == Ok(0.0)
  {
    var x, y := DecimalZeroFactorTree();
    OneOperator(expression, x, Mul, y);
  }

  /** The operands of DecimalZeroFactor: the value of the tree and its spelling. */
  lemma {:induction false} DecimalZeroFactorTree() returns (x: Expr, y: Expr)
    ensures Eval(Bin(Mul, x, y)) == Ok(0.0)
    ensures Parenthesised(x) + [Symbol(Mul)] + Parenthesised(y) == "7.5*0"
  {
    x, y := Num(7, "5"), Num(0, []);
    TenthsValue(7, '5');
    WholeValue(0);
    assert Decimal(7) == "7";
  }

  /** canDivide: "36 / 6". */
  lemma {:induction false} IntegerQuotient(expression: string)
    requires Stripped(expression) == "36/6"
    ensures ValueOf(expression) == Ok(6.0)
  {
    var x, y := IntegerQuotientTree();
    OneOperator(expression, x, Div, y);
  }

  /** The operands of IntegerQuotient: the value of the tree and its spelling. */
  lemma {:induction false} IntegerQuotientTree() returns (x: Expr, y: Expr)
    ensures Eval(Bin(Div, x, y)) == Ok(6.0)
    ensures Parenthesised(x) + [Symbol(Div)] + Parenthesised(y) == "36/6"
  {
    x, y := Num(36, []), Num(6, []);
    WholeValue(36);
    WholeValue(6);
  }

  /** canDivide, exactly 3.1 over the reals: "15.5 / 5". */
  lemma {:induction false} DecimalQuotient(expression: string)
    requires Stripped(expression) == "15.5/5"
    ensures ValueOf(expression) == Ok(3.1)
  {
    var x, y := DecimalQuotientTree();
    OneOperator(expression, x, Div, y);
  }

  /** The operands of DecimalQuotient: the value of the tree and its spelling. */
  lemma {:induction false} DecimalQuotientTree() returns (x: Expr, y: Expr)
    ensures Eval(Bin(Div, x, y)) == Ok(3.1)
    ensures Parenthesised(x) + [Symbol(Div)] + Parenthesised(y) == "15.5/5"
  {
    x, y := Num(15, "5"), Num(5, []);
    TenthsValue(15, '5');
    WholeValue(5);
    assert Decimal(15) == "15";
  }

  /** cannotDivideByZero: "15 / 0". */
  lemma {:induction false} IntegerZeroDivisor(expression: string)
    requires Stripped(expression) == "15/0"
    ensures ValueOf(expression) == Err(DivisionByZero)
  {
    var x, y := IntegerZeroDivisorTree();
    OneOperator(expression, x, Div, y);
  }

  /** The operands of IntegerZeroDivisor: the value of the tree and its spelling. */
  lemma {:induction false} IntegerZeroDivisorTree() returns (x: Expr, y: Expr)
    ensures Eval(Bin(Div, x, y)) == Err(DivisionByZero)
    ensures Parenthesised(x) + [Symbol(Div)] + Parenthesised(y) == "15/0"
  {
    x, y := Num(15, []), Num(0, []);
    WholeValue(15);
    WholeValue(0);
  }

  /** cannotDivideByZero: "15.5 / 0". */
  lemma {:induction false} DecimalZeroDivisor(expression: string)
    requires Stripped(expression) == "15.5/0"
    ensures ValueOf(expression) == Err(DivisionByZero)
  {
    var x, y := DecimalZeroDivisorTree();
    OneOperator(expression, x, Div, y);
  }

  /** The operands of DecimalZeroDivisor: the value of the tree and its spelling. */
  lemma {:induction false} DecimalZeroDivisorTree() returns (x: Expr, y: Expr)
    ensures Eval(Bin(Div, x, y)) == Err(DivisionByZero)
    ensures Parenthesised(x) + [Symbol(Div)] + Parenthesised(y) == "15.5/0"
  {
    x, y := Num(15, "5"), Num(0, []);
    TenthsValue(15, '5');
    WholeValue(0);
    assert Decimal(15) == "15";
  }

  /** canDeterminePriorityPlusAndMultiply: "3 + 3 * 3". */
  lemma {:induction false} PlusThenTimes(expression: string)
    requires Stripped(expression) == "3+3*3"
    ensures ValueOf(expression) == Ok(12.0)
  {
    var x, y, z := PlusThenTimesTree();
    TwoOperators(expression, x, Add, y, Mul, z);
  }

  /** The operands of PlusThenTimes: the value of the grouped tree and its spelling. */
  lemma {:induction false} PlusThenTimesTree() returns (x: Expr, y: Expr, z: Expr)
    ensures Eval(Grouped(x, Add, y, Mul, z)) == Ok(12.0)
    ensures Parenthesised(x) + [Symbol(Add)] + Parenthesised(y) + [Symbol(Mul)] + Parenthesised(z) == "3+3*3"
  {
    x, y, z := Num(3, []), Num(3, []), Num(3, []);
    WholeValue(3);
  }

  /** canDeterminePriorityMinusAndMultiply: "4 - 2 * 3". */
  lemma {:induction false} MinusThenTimes(expression: string)
    requires Stripped(expression) == "4-2*3"
    ensures ValueOf(expression) == Ok(-2.0)
  {
    var x, y, z := MinusThenTimesTree();
    TwoOperators(expression, x, Sub, y, Mul, z);
  }

  /** The operands of MinusThenTimes: the value of the grouped tree and its spelling. */
  lemma {:induction false} MinusThenTimesTree() returns (x: Expr, y: Expr, z: Expr)
    ensures Eval(Grouped(x, Sub, y, Mul, z)) == Ok(-2.0)
    ensures Parenthesised(x) + [Symbol(Sub)] + Parenthesised(y) + [Symbol(Mul)] + Parenthesised(z) == "4-2*3"
  {
    x, y, z := Num(4, []), Num(2, []), Num(3, []);
    WholeValue(4);
    WholeValue(2);
    WholeValue(3);
  }

  /** canDeterminePriorityPlusAndDivide: "6 + 6 / 2". */
  lemma {:induction false} PlusThenDivide(expression: string)
    requires Stripped(expression) == "6+6/2"
    ensures ValueOf(expression) == Ok(9.0)
  {
    var x, y, z := PlusThenDivideTree();
    TwoOperators(expression, x, Add, y, Div, z);
  }

  /** The operands of PlusThenDivide: the value of the grouped tree and its spelling. */
  lemma {:induction false} PlusThenDivideTree() returns (x: Expr, y: Expr, z: Expr)
    ensures Eval(Grouped(x, Add, y, Div, z)) == Ok(9.0)
    ensures Parenthesised(x) + [Symbol(Add)] + Parenthesised(y) + [Symbol(Div)] + Parenthesised(z) == "6+6/2"
  {
    x, y, z := Num(6, []), Num(6, []), Num(2, []);
    WholeValue(6);
    WholeValue(2);
  }

  /** canDeterminePriorityMinusAndDivide: "8 - 4 / 2". */
  lemma {:induction false} MinusThenDivide(expression: string)
    requires Stripped(expression) == "8-4/2"
    ensures ValueOf(expression) == Ok(6.0)
  {
    var x, y, z := MinusThenDivideTree();
    TwoOperators(expression, x, Sub, y, Div, z);
  }

  /** The operands of MinusThenDivide: the value of the grouped tree and its spelling. */
  lemma {:induction false} MinusThenDivideTree() returns (x: Expr, y: Expr, z: Expr)
    ensures Eval(Grouped(x, Sub, y, Div, z)) == Ok(6.0)
    ensures Parenthesised(x) + [Symbol(Sub)] + Parenthesised(y) + [Symbol(Div)] + Parenthesised(z) == "8-4/2"
  {
    x, y, z := Num(8, []), Num(4, []), Num(2, []);
    WholeValue(8);
    WholeValue(4);
    WholeValue(2);
  }

  /** canDeterminePriorityWithParentheses: "3 * ( 2 + 5 )". */
  lemma {:induction false} ParenthesisedSum(expression: string)
    requires Stripped(expression) == "3*(2+5)"
    ensures ValueOf(expression) == Ok(21.0)
  {
    var x, y := ParenthesisedSumTree();
    OneOperator(expression, x, Mul, y);
  }

  /** The operands of ParenthesisedSum: the value of the tree and its spelling. */
  lemma {:induction false} ParenthesisedSumTree() returns (x: Expr, y: Expr)
    ensures Eval(Bin(Mul, x, y)) == Ok(21.0)
    ensures Parenthesised(x) + [Symbol(Mul)] + Parenthesised(y) == "3*(2+5)"
  {
    x, y := Num(3, []), Bin(Add, Num(2, []), Num(5, []));
    WholeValue(3);
    WholeValue(2);
    WholeValue(5);
  }

  /** canDeterminePriorityWithParentheses: "45 / ( 5 + 5 )". */
  lemma {:induction false} ParenthesisedDivisor(expression: string)
    requires Stripped(expression) == "45/(5+5)"
    ensures ValueOf(expression) == Ok(4.5)
  {
    var x, y := ParenthesisedDivisorTree();
    OneOperator(expression, x, Div, y);
  }

  /** The operands of ParenthesisedDivisor: the value of the tree and its spelling. */
  lemma {:induction false} ParenthesisedDivisorTree() returns (x: Expr, y: Expr)
    ensures Eval(Bin(Div, x, y)) == Ok(4.5)
    ensures Parenthesised(x) + [Symbol(Div)] + Parenthesised(y) == "45/(5+5)"
  {
    x, y := Num(45, []), Bin(Add, Num(5, []), Num(5, []));
    WholeValue(45);
    WholeValue(5);
  }

  /** canCalculateMixedIntegersAndDoubles: "2.5 + 40". */
  lemma {:induction false} MixedOperands(expression: string)
    requires Stripped(expression) == "2.5+40"
    ensures ValueOf(expression) == Ok(42.5)
  {
    var x, y := MixedOperandsTree();
    OneOperator(expression, x, Add, y);
  }

  /** The operands of MixedOperands: the value of the tree and its spelling. */
  lemma {:induction false} MixedOperandsTree() returns (x: Expr, y: Expr)
    ensures Eval(Bin(Add, x, y)) == Ok(42.5)
    ensures Parenthesised(x) + [Symbol(Add)] + Parenthesised(y) == "2.5+40"
  {
    x, y := Num(2, "5"), Num(40, []);
    TenthsValue(2, '5');
    WholeValue(40);
    assert Decimal(2) == "2";
  }

  /** canMultiply: "4 * ( - 25)"; the '-' after '(' reads as "0-". */
  lemma {:induction false} NegatedFactor(expression: string)
    requires Stripped(expression) == "4*(-25)"
    ensures ValueOf(expression) == Ok(-100.0)
  {
    var x, y := NegatedFactorTree();
    NegatedFactorText();
    MinusAfterOpenParen("4*", "25)");
    TranslationOfOne(x, Mul, y);
    ValueOfClean(expression, "4*(-25)", Bin(Mul, x, y));
  }

  /** The operands of NegatedFactor: the value of the tree and its spelling
      with "0-" in place of the '-'. */
  lemma {:induction false} NegatedFactorTree() returns (x: Expr, y: Expr)
    ensures Eval(Bin(Mul, x, y)) == Ok(-100.0)
    ensures "4*" + "(0-" + "25)" == Parenthesised(x) + [Symbol(Mul)] + Parenthesised(y)
  {
    x, y := Num(4, []), Bin(Sub, Num(0, []), Num(25, []));
    WholeValue(0);
    WholeValue(4);
    WholeValue(25);
  }

  /** The text of NegatedFactor nests properly. */
  lemma {:induction false} NegatedFactorText()
    ensures "4*" + "(-" + "25)" == "4*(-25)"
    ensures NestsFrom("4*(-25)", 0)
  {
  }

  /** cannotCalculateUnmatchedParentheses: "3 + ( ( 12 / 4". */
  lemma {:induction false} UnclosedTwice(expression: string)
    requires Stripped(expression) == "3+((12/4"
    ensures ValueOf(expression) == Err(UnmatchedParentheses)
  {
    UnclosedTwiceText();
    Unmatched(expression, "3+((12/4");
  }

  /** The text of UnclosedTwice does not nest properly. */
  lemma {:induction false} UnclosedTwiceText()
    ensures !NestsFrom("3+((12/4", 0)
  {
    assert "3+((12/4"[1..] == "+((12/4";
  }

  /** cannotCalculateUnmatchedParentheses: "3 + ( ( 12 / 4 )". */
  lemma {:induction false} UnclosedOnce(expression: string)
    requires Stripped(expression) == "3+((12/4)"
    ensures ValueOf(expression) == Err(UnmatchedParentheses)
  {
    UnclosedOnceText();
    Unmatched(expression, "3+((12/4)");
  }

  /** The text of UnclosedOnce does not nest properly. */
  lemma {:induction false} UnclosedOnceText()
    ensures !NestsFrom("3+((12/4)", 0)
  {
    assert "3+((12/4)"[1..] == "+((12/4)";
  }

  /** cannotCalculateUnmatchedParentheses: "3 + 12 / 4 ) )". */
  lemma {:induction false} UnopenedTwice(expression: string)
    requires Stripped(expression) == "3+12/4))"
    ensures ValueOf(expression) == Err(UnmatchedParentheses)
  {
    UnopenedTwiceText();
    Unmatched(expression, "3+12/4))");
  }

  /** The text of UnopenedTwice does not nest properly. */
  lemma {:induction false} UnopenedTwiceText()
    ensures !NestsFrom("3+12/4))", 0)
  {
    assert "3+12/4))"[1..] == "+12/4))";
  }

  /** cannotCalculateUnmatchedParentheses: "3 + ( 12 / 4 ) )". */
  lemma {:induction false} UnopenedOnce(expression: string)
    requires Stripped(expression) == "3+(12/4))"
    ensures ValueOf(expression) == Err(UnmatchedParentheses)
  {
    UnopenedOnceText();
    Unmatched(expression, "3+(12/4))");
  }

  /** The text of UnopenedOnce does not nest properly. */
  lemma {:induction false} UnopenedOnceText()
    ensures !NestsFrom("3+(12/4))", 0)
  {
    assert "3+(12/4))"[1..] == "+(12/4))";
  }

  /** cannotCalculateDotBeforeNumberWithoutZero: ".75 + 2000". The
      translator accepts ".75" but the evaluator skips it, so '+' finds one
      value; Queue.h would read the same text as 2000.75. */
  lemma {:induction false} DotBeforeNumber(expression: string)
    requires Stripped(expression) == ".75+2000"
    ensures ValueOf(expression) == Err(InsufficientOperands)
    ensures Buffered.ValueOf(".75+2000") == Ok(2000.75)
  {
    var ds, y := DotBeforeNumberTree();
    SpacesIgnored(expression);
    Divergence.LeadingDot(ds, y);
  }

  /** The pieces of DotBeforeNumber: the fraction digits and the tree after
      '+'. */
  lemma {:induction false} DotBeforeNumberTree() returns (ds: Digits, y: Expr)
    ensures ds != [] && Eval(y).Ok?
    ensures Eval(Bin(Add, Num(0, ds), y)) == Ok(2000.75)
    ensures "." + ds + "+" + Parenthesised(y) == ".75+2000"
  {
    ds, y := "75", Num(2000, []);
    WholeValue(2000);
    assert "75"[..1] == "7" && "7"[..0] == [];
    assert DigitsValue("75") == 75 && Pow10(2) == 100;
    assert Decimal(2000) == "2000";
  }

  /** The first case on the test's own line, spaces included. */
  lemma {:induction false} SpacedLine()
    ensures ValueOf("10 + 30") == Ok(40.0)
  {
    StripFrontAgrees("10 + 30");
    IntegerSum("10 + 30");
  }
}
