// What the state machine of translator/include/translator.h guarantees:
// which characters each state accepts, the shape of the machine's storage
// between steps, the unary-minus rewrite, and that the fully parenthesised
// spelling of every expression tree evaluates to the tree's value.

module TranslatorFacts {
  import opened Common
  import opened Literal
  import opened Operators
  import opened Expressions
  import Postfix
  import opened Translator

  /** Whether a digit is read right after `b`'s first character is looked
      at: b's first character, or what follows b when b is empty. */
  function Lookahead(b: string, follow: bool): bool {
    if b == [] then follow else IsDigit(b[0])
  }

  lemma {:induction false} ScanOne(c: char, m: Machine, follow: bool)
    ensures Scan([c], m, follow) == Step(m, c, follow)
  {
    assert [c][1..] == [];
  }

  /** Reading a + b is reading a and then, from where that stopped, b. */
  lemma {:induction false} ScanAppend(a: string, b: string, m: Machine, follow: bool)
    ensures Scan(a + b, m, follow) ==
              if Scan(a, m, Lookahead(b, follow)).Err? then Scan(a, m, Lookahead(b, follow))
              else Scan(b, Scan(a, m, Lookahead(b, follow)).value, follow)
    decreases |a|
  {
    if a == [] {
      assert a + b == b;
    } else {
      assert (a + b)[1..] == a[1..] + b;
      var la := if |a| > 1 then IsDigit(a[1]) else Lookahead(b, follow);
      assert (if |a + b| > 1 then IsDigit((a + b)[1]) else follow) == la;
      match Step(m, a[0], la)
      case Err(_) =>
      case Ok(m') => ScanAppend(a[1..], b, m', follow);
    }
  }

  /** When reading a stops without error in ma, reading a + b goes on
      from ma. */
  lemma {:induction false} ScanThen(a: string, b: string, m: Machine, follow: bool, ma: Machine)
    requires Scan(a, m, Lookahead(b, follow)) == Ok(ma)
    ensures Scan(a + b, m, follow) == Scan(b, ma, follow)
  {
    ScanAppend(a, b, m, follow);
  }

  /** What follows the input matters only when its last character is '.'. */
  lemma {:induction false} FollowOnlyAfterDot(s: string, m: Machine, f1: bool, f2: bool)
    requires s == [] || s[|s| - 1] != '.'
    ensures Scan(s, m, f1) == Scan(s, m, f2)
    decreases |s|
  {
    if s != [] {
      var l1 := if |s| > 1 then IsDigit(s[1]) else f1;
      var l2 := if |s| > 1 then IsDigit(s[1]) else f2;
      assert Step(m, s[0], l1) == Step(m, s[0], l2);
      match Step(m, s[0], l1)
      case Err(_) =>
      case Ok(m') => FollowOnlyAfterDot(s[1..], m', f1, f2);
    }
  }

  // ---------------------------------------------------------------------
  // The acceptance table

  /** The state in which s[i] is read when reading s starts in state st. */
  function StateAt(st: State, s: string, i: nat): State
    requires i < |s|
  {
    if i == 0 then st else After(s[i - 1])
  }

  /** Every character of s is one its state accepts. */
  predicate Legal(st: State, s: string, follow: bool) {
    forall i | 0 <= i < |s| :: Accepts(StateAt(st, s, i), s[i], Lookahead(s[i + 1..], follow))
  }

  lemma {:induction false} LegalCons(st: State, s: string, follow: bool)
    requires s != []
    ensures Legal(st, s, follow) <==>
              Accepts(st, s[0], Lookahead(s[1..], follow)) && Legal(After(s[0]), s[1..], follow)
  {
    var t := s[1..];
    if Legal(st, s, follow) {
      assert Accepts(StateAt(st, s, 0), s[0], Lookahead(s[1..], follow));
      forall i | 0 <= i < |t|
        ensures Accepts(StateAt(After(s[0]), t, i), t[i], Lookahead(t[i + 1..], follow))
      {
        assert t[i + 1..] == s[i + 2..];
        assert Accepts(StateAt(st, s, i + 1), s[i + 1], Lookahead(s[i + 2..], follow));
      }
    }
    if Accepts(st, s[0], Lookahead(s[1..], follow)) && Legal(After(s[0]), t, follow) {
      forall i | 0 <= i < |s|
        ensures Accepts(StateAt(st, s, i), s[i], Lookahead(s[i + 1..], follow))
      {
        if i > 0 {
          assert t[i..] == s[i + 1..];
          assert Accepts(StateAt(After(s[0]), t, i - 1), t[i - 1], Lookahead(t[i..], follow));
        }
      }
    }
  }

  /** Reading s succeeds exactly when every character is accepted in its
      state; a failure is always an invalid character, and success ends in
      the state of the last character's kind. */
  lemma {:induction false} ScanTable(s: string, m: Machine, follow: bool)
    ensures Scan(s, m, follow).Ok? <==> Legal(m.state, s, follow)
    ensures Scan(s, m, follow).Err? ==> Scan(s, m, follow).error == InvalidCharacter
    ensures Scan(s, m, follow).Ok? && s != [] ==> Scan(s, m, follow).value.state == After(s[|s| - 1])
    decreases |s|
  {
    if s != [] {
      LegalCons(m.state, s, follow);
      var la := if |s| > 1 then IsDigit(s[1]) else follow;
      assert la == Lookahead(s[1..], follow);
      match Step(m, s[0], la)
      case Err(_) =>
      case Ok(m') =>
        ScanTable(s[1..], m', follow);
        if |s| > 1 {
          assert s[1..][|s[1..]| - 1] == s[|s| - 1];
        }
    }
  }

  /** infixToPostfix throws exactly on the texts the table rejects, and then
      always "Invalid character in expression". */
  lemma {:induction false} TranslationTable(infix: string)
    ensures Translation(infix).Ok? <==> Legal(Start, infix, false)
    ensures Translation(infix).Err? ==> Translation(infix).error == InvalidCharacter
  {
    ScanTable(infix, Initial, false);
  }

  /** The OPERATOR state accepts no operator: two operators in a row throw. */
  lemma {:induction false} AdjacentOperatorsRejected(s: string, i: nat)
    requires i + 1 < |s| && IsOperator(s[i]) && IsOperator(s[i + 1])
    ensures Translation(s) == Err(InvalidCharacter)
  {
    TranslationTable(s);
    assert StateAt(Start, s, i + 1) == Operator;
    assert !Accepts(Operator, s[i + 1], Lookahead(s[i + 2..], false));
  }

  /** The NUMBER state rejects '(': there is no implicit multiplication. */
  lemma {:induction false} OpenAfterLiteralRejected(s: string, i: nat)
    requires i + 1 < |s| && (IsDigit(s[i]) || s[i] == '.') && s[i + 1] == '('
    ensures Translation(s) == Err(InvalidCharacter)
  {
    TranslationTable(s);
    assert StateAt(Start, s, i + 1) == Number;
    assert !Accepts(Number, s[i + 1], Lookahead(s[i + 2..], false));
  }

  /** The RPAREN state accepts only an operator or another ')'. */
  lemma {:induction false} AfterCloseRejected(s: string, i: nat)
    requires i + 1 < |s| && s[i] == ')' && !IsOperator(s[i + 1]) && s[i + 1] != ')'
    ensures Translation(s) == Err(InvalidCharacter)
  {
    TranslationTable(s);
    assert StateAt(Start, s, i + 1) == RParen;
    assert !Accepts(RParen, s[i + 1], Lookahead(s[i + 2..], false));
  }

  /** A character outside digits, '.', the operators and the parentheses is
      accepted by no state. */
  lemma {:induction false} ForeignCharacterRejected(s: string, i: nat)
    requires i < |s|
    requires !(IsDigit(s[i]) || s[i] == '.' || IsOperator(s[i]) || s[i] == '(' || s[i] == ')')
    ensures Translation(s) == Err(InvalidCharacter)
  {
    TranslationTable(s);
    assert !Accepts(StateAt(Start, s, i), s[i], Lookahead(s[i + 1..], false));
  }

  // ---------------------------------------------------------------------
  // The machine's storage between steps

  /** A literal as the NUMBER state collects it: digits and dots. */
  predicate LiteralText(t: string) {
    |t| > 0 && forall i | 0 <= i < |t| :: IsDigit(t[i]) || t[i] == '.'
  }

  /** An output token: one operator or parenthesis, or a literal. */
  predicate WellFormedToken(t: Token) {
    (|t| == 1 && (IsOperator(t[0]) || t[0] == '(')) || LiteralText(t)
  }

  /** Output so far: well-formed tokens, and never a '(' (only the final
      draining of the stack can write one). */
  predicate CleanOutput(out: seq<Token>) {
    forall i | 0 <= i < |out| :: WellFormedToken(out[i]) && out[i] != "("
  }

  /** What holds of the machine between any two characters. */
  ghost predicate Wellformed(m: Machine) {
    && StackSymbols(m.ops) && Ordered(m.ops)
    && (m.unary <==> m.state in {Start, Operator, LParen})
    && (m.state == Start ==> m.ops == [] && m.out == [])
    && (m.state == LParen ==> m.ops != [] && m.ops[|m.ops| - 1] == '(')
    && (m.state == Number ==> m.out != [] && LiteralText(m.out[|m.out| - 1]))
    && CleanOutput(m.out)
  }

  lemma {:induction false} EmitOperators(out: seq<Token>, popped: seq<char>)
    requires CleanOutput(out)
    requires forall i | 0 <= i < |popped| :: IsOperator(popped[i])
    ensures CleanOutput(out + Emitted(popped))
  {
    var e := Emitted(popped);
    var r := out + e;
    forall i | 0 <= i < |r| ensures WellFormedToken(r[i]) && r[i] != "(" {
      if i < |out| {
        assert r[i] == out[i];
      } else {
        var k := i - |out|;
        var p := popped[|popped| - 1 - k];
        assert r[i] == e[k] == [p];
        assert IsOperator(p) && [p][0] == p;
        assert "(" == ['('];
      }
    }
  }

  lemma {:induction false} StepWellformed(m: Machine, c: char, nextIsDigit: bool)
    requires Wellformed(m) && Step(m, c, nextIsDigit).Ok?
    ensures Wellformed(Step(m, c, nextIsDigit).value)
  {
    if m.state == Number && (IsDigit(c) || c == '.') {
      ExtendWellformed(m, c);
    } else if m.state in {Number, RParen} && IsOperator(c) {
      BinaryWellformed(m, c);
    } else if m.state in {Number, RParen} {
      CloseWellformed(m);
    } else if StartsLiteral(c, nextIsDigit) {
      LiteralWellformed(m, c);
    } else if IsOperator(c) {
      PrefixOperatorWellformed(m, c);
    } else {
      OpenWellformed(m);
    }
  }

  /** A digit or '.' extends the literal being read. */
  lemma {:induction false} ExtendWellformed(m: Machine, c: char)
    requires Wellformed(m) && m.state == Number && (IsDigit(c) || c == '.')
    ensures Wellformed(m.(out := Extend(m.out, c)))
  {
    var n := |m.out|;
    var out' := Extend(m.out, c);
    assert out' == m.out[..n - 1] + [m.out[n - 1] + [c]];
    assert LiteralText(m.out[n - 1] + [c]);
    forall i | 0 <= i < n ensures WellFormedToken(out'[i]) && out'[i] != "(" {
      if i < n - 1 {
        assert out'[i] == m.out[i];
      }
    }
  }

  /** A binary operator pops, writes what it popped and is pushed. */
  lemma {:induction false} BinaryWellformed(m: Machine, c: char)
    requires Wellformed(m) && m.state in {Number, RParen} && IsOperator(c)
    ensures var (ops, out) := AfterPopAtLeast(m.ops, m.out, Precedence(c));
            Wellformed(Machine(Operator, true, ops + [c], out))
  {
    var k := HeightAfterPops(m.ops, Precedence(c));
    EmitOperators(m.out, m.ops[k..]);
    PushAfterPopOrdered(m.ops, m.out, c);
  }

  /** ')' writes the operators above the nearest '(' and drops it. */
  lemma {:induction false} CloseWellformed(m: Machine)
    requires Wellformed(m) && m.state in {Number, RParen}
    ensures var (ops, out) := AfterPopToParen(m.ops, m.out);
            Wellformed(Machine(RParen, false, ops, out))
  {
    var j := NearestParen(m.ops);
    if j < 0 {
      EmitOperators(m.out, m.ops);
    } else {
      EmitOperators(m.out, m.ops[j + 1..]);
      assert forall i | 0 < i < j :: m.ops[..j][i] == m.ops[i];
    }
  }

  /** A literal starts where an operand is expected. */
  lemma {:induction false} LiteralWellformed(m: Machine, c: char)
    requires Wellformed(m) && m.state in {Start, Operator, LParen} && (IsDigit(c) || c == '.')
    ensures Wellformed(Machine(Number, false, m.ops, m.out + [[c]]))
  {
    assert LiteralText([c]);
  }

  /** An operator where an operand is expected (at the start or after '(')
      is pushed; a unary '-' first writes the literal 0. */
  lemma {:induction false} PrefixOperatorWellformed(m: Machine, c: char)
    requires Wellformed(m) && m.state in {Start, LParen} && IsOperator(c)
    ensures Wellformed(Machine(Operator, true, m.ops + [c], m.out + UnaryZero(c, m.unary)))
  {
    assert LiteralText("0");
    var ops := m.ops + [c];
    assert forall i | 0 < i < |ops| - 1 :: ops[i] == m.ops[i];
  }

  /** '(' where an operand is expected is pushed. */
  lemma {:induction false} OpenWellformed(m: Machine)
    requires Wellformed(m) && m.state in {Start, Operator, LParen}
    ensures Wellformed(Machine(LParen, true, m.ops + ['('], m.out))
  {
    var ops := m.ops + ['('];
    assert forall i | 0 < i < |ops| - 1 :: ops[i] == m.ops[i];
  }

  lemma {:induction false} ScanWellformed(s: string, m: Machine, follow: bool)
    requires Wellformed(m) && Scan(s, m, follow).Ok?
    ensures Wellformed(Scan(s, m, follow).value)
    decreases |s|
  {
    if s != [] {
      var la := if |s| > 1 then IsDigit(s[1]) else follow;
      StepWellformed(m, s[0], la);
      ScanWellformed(s[1..], Step(m, s[0], la).value, follow);
    }
  }

  /** Every postfix token is an operator, a '(' left on the stack, or a
      literal of digits and dots; in particular none starts with '-', so
      the evaluator's negative-number rule never applies to this
      translator's output. */
  lemma {:induction false} TranslationTokens(infix: string)
    requires Translation(infix).Ok?
    ensures forall i | 0 <= i < |Translation(infix).value| :: WellFormedToken(Translation(infix).value[i])
  {
    ScanWellformed(infix, Initial, false);
    var m := Scan(infix, Initial, false).value;
    var e := Emitted(m.ops);
    forall i | 0 <= i < |e| ensures WellFormedToken(e[i]) {
      assert e[i] == [m.ops[|m.ops| - 1 - i]];
    }
  }

  lemma {:induction false} RunNoBadLiteral(tokens: seq<Token>, values: seq<real>)
    requires forall i | 0 <= i < |tokens| :: WellFormedToken(tokens[i])
    ensures Postfix.Run(tokens, values, false) != Err(BadLiteral)
    decreases |tokens|
  {
    if tokens != [] {
      var t := tokens[0];
      assert WellFormedToken(t);
      if Postfix.IsNumberToken(t, false) {
        assert StartsNumber(t);
      }
      match Postfix.Step(values, t, false)
      case Err(x) =>
      case Ok(vs) => RunNoBadLiteral(tokens[1..], vs);
    }
  }

  /** std::stod never throws inside evaluate: every token the evaluator
      hands it starts with a digit. */
  lemma {:induction false} NeverBadLiteral(expression: string)
    ensures ValueOf(expression) != Err(BadLiteral)
  {
    var clean := Stripped(expression);
    if Balanced(clean) && Translation(clean).Ok? {
      var tokens := Translation(clean).value;
      TranslationTokens(clean);
      RunNoBadLiteral(tokens, []);
      assert ValueOf(expression) == Postfix.Value(tokens, false);
    } else {
      TranslationTable(clean);
    }
  }

  /** Between two parentheses at most one '+'/'-' and one '*'/'/' wait on the
      stack, the weaker one lower. */
  lemma {:induction false} PendingOperators(s: string, i: nat, j: nat)
    requires Scan(s, Initial, false).Ok?
    requires var ops := Scan(s, Initial, false).value.ops;
             i < j < |ops| && forall k | i < k <= j :: ops[k] != '('
    ensures var ops := Scan(s, Initial, false).value.ops;
            Precedence(ops[i]) < Precedence(ops[j])
  {
    ScanWellformed(s, Initial, false);
    OrderedSegment(Scan(s, Initial, false).value.ops, i, j);
  }

  // ---------------------------------------------------------------------
  // Unary minus

  /** Where an operand is expected at the start or after '(', "-" reads
      exactly like "0-". */
  lemma {:induction false} UnaryMinusIsZeroMinus(m: Machine, t: string, follow: bool)
    requires m.state in {Start, LParen} && m.unary
    requires m.ops == [] || m.ops[|m.ops| - 1] == '('
    ensures Scan("-" + t, m, follow) == Scan("0-" + t, m, follow)
  {
    var la := Lookahead(t, follow);
    var m1 := Machine(Operator, true, m.ops + ['-'], m.out + ["0"]);
    var m0 := Machine(Number, false, m.ops, m.out + ["0"]);
    ScanAppend("-", t, m, follow);
    ScanOne('-', m, la);
    assert Scan("-", m, la) == Ok(m1);
    ScanAppend("0-", t, m, follow);
    ScanAppend("0", "-", m, la);
    ScanOne('0', m, false);
    assert Scan("0", m, false) == Ok(m0);
    ScanOne('-', m0, la);
    var k := HeightAfterPops(m.ops, 1);
    assert k == |m.ops|;
    assert m.ops[..k] == m.ops && m.ops[k..] == [];
    assert m0.out + Emitted([]) == m0.out;
    assert Scan("-", m0, la) == Ok(m1);
    assert Scan("0-", m, la) == Ok(m1);
  }

  /** A leading '-' evaluates as "0 - ...". */
  lemma {:induction false} LeadingMinus(t: string)
    ensures Translation("-" + t) == Translation("0-" + t)
  {
    UnaryMinusIsZeroMinus(Initial, t, false);
  }

  /** A '-' right after '(' evaluates as "(0 - ...". */
  lemma {:induction false} MinusAfterOpenParen(a: string, t: string)
    ensures Translation(a + "(-" + t) == Translation(a + "(0-" + t)
  {
    var p := a + "(";
    assert a + "(-" + t == p + ("-" + t);
    assert a + "(0-" + t == p + ("0-" + t);
    ScanAppend(p, "-" + t, Initial, false);
    ScanAppend(p, "0-" + t, Initial, false);
    FollowOnlyAfterDot(p, Initial, false, true);
    ScanTable(p, Initial, false);
    if Scan(p, Initial, false).Ok? {
      ScanWellformed(p, Initial, false);
      UnaryMinusIsZeroMinus(Scan(p, Initial, false).value, t, false);
    }
  }

  // ---------------------------------------------------------------------
  // Operands

  lemma {:induction false} ScanLiteralTail(ds: string, m: Machine, follow: bool)
    requires m.state == Number && m.out != []
    requires forall i | 0 <= i < |ds| :: IsDigit(ds[i]) || ds[i] == '.'
    ensures Scan(ds, m, follow) == Ok(m.(out := m.out[..|m.out| - 1] + [m.out[|m.out| - 1] + ds]))
    decreases |ds|
  {
    var n := |m.out|;
    if ds == [] {
      assert m.out[n - 1] + ds == m.out[n - 1];
      assert m.out[..n - 1] + [m.out[n - 1]] == m.out;
    } else {
      var m' := m.(out := Extend(m.out, ds[0]));
      ExtendStep(m, ds[0], [ds[0]], ds[1..], follow);
      assert ds == [ds[0]] + ds[1..];
      ScanLiteralTail(ds[1..], m', follow);
      ExtendShape(m.out, ds);
    }
  }

  /** A digit or '.' read in the NUMBER state extends the last token. */
  lemma {:induction false} ExtendStep(m: Machine, c: char, a: string, rest: string, follow: bool)
    requires m.state == Number && (IsDigit(c) || c == '.') && a == [c]
    ensures Scan(a + rest, m, follow) == Scan(rest, m.(out := Extend(m.out, c)), follow)
  {
    ScanOne(c, m, Lookahead(rest, follow));
    ScanThen(a, rest, m, follow, m.(out := Extend(m.out, c)));
  }

  lemma {:induction false} ExtendShape(out: seq<Token>, ds: string)
    requires out != [] && ds != []
    ensures var o := Extend(out, ds[0]);
            o[..|o| - 1] + [o[|o| - 1] + ds[1..]] == out[..|out| - 1] + [out[|out| - 1] + ds]
  {
    var n := |out|;
    var o := Extend(out, ds[0]);
    assert o[..n - 1] == out[..n - 1];
    assert o[n - 1] == out[n - 1] + [ds[0]];
    assert [ds[0]] + ds[1..] == ds;
    assert o[n - 1] + ds[1..] == out[n - 1] + ds;
  }

  /** A literal's spelling read where an operand is expected becomes one
      token. */
  lemma {:induction false} ScanSpelling(w: nat, f: Digits, m: Machine, follow: bool)
    requires m.state in {Start, Operator, LParen}
    ensures Scan(Spelling(w, f), m, follow) == Ok(Machine(Number, false, m.ops, m.out + [Spelling(w, f)]))
  {
    var d := Spelling(w, f);
    var m0 := Machine(Number, false, m.ops, m.out + [[d[0]]]);
    assert Step(m, d[0], if |d| > 1 then IsDigit(d[1]) else follow) == Ok(m0);
    ScanLiteralTail(d[1..], m0, follow);
    assert [d[0]] + d[1..] == d;
    assert m0.out[..|m0.out| - 1] == m.out;
  }

  /** Reading an operator right after an operand with '(' on top of the
      stack pops nothing. */
  lemma {:induction false} OperatorOverParen(m: Machine, c: char, follow: bool)
    requires m.state in {Number, RParen} && IsOperator(c)
    requires m.ops != [] && m.ops[|m.ops| - 1] == '('
    ensures Scan([c], m, follow) == Ok(Machine(Operator, true, m.ops + [c], m.out))
  {
    ScanOne(c, m, follow);
    var k := HeightAfterPops(m.ops, Precedence(c));
    assert k == |m.ops|;
    assert m.ops[..k] == m.ops && m.ops[k..] == [];
    assert m.out + Emitted([]) == m.out;
  }

  /** Reading ')' right after an operand, with an operator on a '(' on top
      of the stack, emits the operator and discards the '('. */
  lemma {:induction false} CloseOverOperator(m: Machine, ops: seq<char>, c: char, follow: bool)
    requires m.state in {Number, RParen} && IsOperator(c) && m.ops == ops + ['(', c]
    ensures Scan(")", m, follow) == Ok(Machine(RParen, false, ops, m.out + [[c]]))
  {
    ScanOne(')', m, follow);
    PopToParenOverOperator(ops, c, m.out);
  }

  /** Reading "(" L c R ")" where an operand is expected, given what
      reading L and R does. */
  lemma {:induction false} ScanBin(m: Machine, L: string, c: char, R: string, follow: bool, mL: Machine, mR: Machine)
    requires m.state in {Start, Operator, LParen} && IsOperator(c)
    requires Scan(L, Machine(LParen, true, m.ops + ['('], m.out), false) == Ok(mL)
    requires mL.state in {Number, RParen} && mL.ops == m.ops + ['(']
    requires Scan(R, Machine(Operator, true, m.ops + ['(', c], mL.out), false) == Ok(mR)
    requires mR.state in {Number, RParen} && mR.ops == m.ops + ['(', c]
    ensures Scan("(" + L + [c] + R + ")", m, follow) == Ok(Machine(RParen, false, m.ops, mR.out + [[c]]))
  {
    var m3 := Machine(Operator, true, m.ops + ['(', c], mL.out);
    var s3 := R + ")";
    BinShape(L, c, R);
    ScanBinLeft(m, L, c, s3, follow, mL);
    ScanThen(R, ")", m3, follow, mR);
    CloseOverOperator(mR, m.ops, c, follow);
  }

  /** The first half of ScanBin: "(" L c, up to the right operand. */
  lemma {:induction false} ScanBinLeft(m: Machine, L: string, c: char, s3: string, follow: bool, mL: Machine)
    requires m.state in {Start, Operator, LParen} && IsOperator(c)
    requires Scan(L, Machine(LParen, true, m.ops + ['('], m.out), false) == Ok(mL)
    requires mL.state in {Number, RParen} && mL.ops == m.ops + ['(']
    ensures Scan("(" + (L + ([c] + s3)), m, follow) == Scan(s3, Machine(Operator, true, m.ops + ['(', c], mL.out), follow)
  {
    var m1 := Machine(LParen, true, m.ops + ['('], m.out);
    var s2 := [c] + s3;
    var s1 := L + s2;
    ScanOne('(', m, Lookahead(s1, follow));
    ScanThen("(", s1, m, follow, m1);
    ScanThen(L, s2, m1, follow, mL);
    OperatorOverParen(mL, c, Lookahead(s3, follow));
    assert mL.ops + [c] == m.ops + ['(', c];
    ScanThen([c], s3, mL, follow, Machine(Operator, true, m.ops + ['(', c], mL.out));
  }

  /** Reading the parenthesised spelling of a tree where an operand is
      expected appends the tree's postfix form and leaves the stack as it
      was. */
  lemma {:induction false} ScanParenthesised(e: Expr, m: Machine, follow: bool)
    requires m.state in {Start, Operator, LParen}
    ensures Scan(Parenthesised(e), m, follow) ==
              Ok(Machine(if e.Num? then Number else RParen, false, m.ops, m.out + PostfixOf(e)))
    decreases e
  {
    match e
    case Num(w, f) =>
      ScanSpelling(w, f, m, follow);
    case Bin(op, l, r) =>
      var c := Symbol(op);
      var m1 := Machine(LParen, true, m.ops + ['('], m.out);
      ScanParenthesised(l, m1, false);
      var mL := Machine(if l.Num? then Number else RParen, false, m1.ops, m.out + PostfixOf(l));
      var m3 := Machine(Operator, true, m.ops + ['(', c], mL.out);
      ScanParenthesised(r, m3, false);
      var mR := Machine(if r.Num? then Number else RParen, false, m3.ops, mL.out + PostfixOf(r));
      ScanBin(m, Parenthesised(l), c, Parenthesised(r), follow, mL, mR);
      BinPostfix(op, l, r, m.out);
  }

  lemma {:induction false} BinPostfix(op: BinOp, l: Expr, r: Expr, out: seq<Token>)
    ensures out + PostfixOf(l) + PostfixOf(r) + [[Symbol(op)]] == out + PostfixOf(Bin(op, l, r))
  {
  }

  /** The translation of a tree's parenthesised spelling is its postfix
      form. */
  lemma {:induction false} TranslationOfParenthesised(e: Expr)
    ensures Translation(Parenthesised(e)) == Ok(PostfixOf(e))
  {
    ScanParenthesised(e, Initial, false);
    assert [] + PostfixOf(e) == PostfixOf(e);
    assert PostfixOf(e) + Emitted([]) == PostfixOf(e);
  }

  /** The characters of a parenthesised spelling. */
  predicate InAlphabet(s: string) {
    forall i | 0 <= i < |s| :: IsDigit(s[i]) || s[i] == '.' || IsOperator(s[i]) || s[i] == '(' || s[i] == ')'
  }

  lemma {:induction false} ParenthesisedAlphabet(e: Expr)
    ensures InAlphabet(Parenthesised(e))
    decreases e
  {
    match e
    case Num(_, _) =>
    case Bin(op, l, r) =>
      ParenthesisedAlphabet(l);
      ParenthesisedAlphabet(r);
  }

  lemma {:induction false} NestsNoParens(s: string, rest: string, depth: nat)
    requires forall i | 0 <= i < |s| :: s[i] != '(' && s[i] != ')'
    ensures NestsFrom(s + rest, depth) == NestsFrom(rest, depth)
    decreases |s|
  {
    if s == [] {
      assert s + rest == rest;
    } else {
      assert (s + rest)[1..] == s[1..] + rest;
      NestsNoParens(s[1..], rest, depth);
    }
  }

  lemma {:induction false} NestsParenthesised(e: Expr, rest: string, depth: nat)
    ensures NestsFrom(Parenthesised(e) + rest, depth) == NestsFrom(rest, depth)
    decreases e
  {
    match e
    case Num(w, f) =>
      NestsNoParens(Spelling(w, f), rest, depth);
    case Bin(op, l, r) =>
      var c := Symbol(op);
      var L, R := Parenthesised(l), Parenthesised(r);
      var afterR := ")" + rest;
      var afterL := [c] + (R + afterR);
      assert Parenthesised(e) + rest == "(" + (L + afterL);
      assert ("(" + (L + afterL))[1..] == L + afterL;
      NestsParenthesised(l, afterL, depth + 1);
      assert afterL[1..] == R + afterR;
      NestsParenthesised(r, afterR, depth + 1);
      assert afterR[1..] == rest;
  }

  /** A parenthesised spelling passes the parenthesis check. */
  lemma {:induction false} ParenthesisedBalanced(e: Expr)
    ensures Balanced(Parenthesised(e))
  {
    var s := Parenthesised(e);
    BalancedNests(s);
    NestsParenthesised(e, [], 0);
    assert s + [] == s;
  }

  /** A parenthesised spelling holds no white space. */
  lemma {:induction false} ParenthesisedStripped(e: Expr)
    ensures Stripped(Parenthesised(e)) == Parenthesised(e)
  {
    ParenthesisedAlphabet(e);
    StrippedIdentity(Parenthesised(e));
  }

  /** evaluate computes the value of every tree from its fully
      parenthesised spelling: the spelling has no white space, is balanced,
      translates to the tree's postfix form, and that evaluates to the
      tree's value. */
  lemma {:induction false} ParenthesisedRoundTrip(e: Expr)
    ensures ValueOf(Parenthesised(e)) == Eval(e)
  {
    ParenthesisedStripped(e);
    ParenthesisedBalanced(e);
    TranslationOfParenthesised(e);
    Postfix.PostfixRoundTrip(e, false);
  }

  // ---------------------------------------------------------------------
  // Precedence between two operators

  /** An operator read after an operand with an empty stack. */
  lemma {:induction false} OperatorOnEmpty(m: Machine, c: char, follow: bool)
    requires m.state in {Number, RParen} && IsOperator(c) && m.ops == []
    ensures Scan([c], m, follow) == Ok(Machine(Operator, true, [c], m.out))
  {
    ScanOne(c, m, follow);
    PopNothing(m.out, Precedence(c));
    assert [] + [c] == [c];
  }

  /** An operator c2 read after an operand with one operator c1 pending:
      c1 is emitted first exactly when it binds at least as tightly. */
  lemma {:induction false} OperatorOverOne(m: Machine, c1: char, c2: char, follow: bool)
    requires m.state in {Number, RParen} && IsOperator(c1) && IsOperator(c2) && m.ops == [c1]
    ensures Scan([c2], m, follow) ==
              if Precedence(c1) >= Precedence(c2) then Ok(Machine(Operator, true, [c2], m.out + [[c1]]))
              else Ok(Machine(Operator, true, [c1, c2], m.out))
  {
    ScanOne(c2, m, follow);
    PopOverOne(c1, m.out, Precedence(c2));
    assert [] + [c2] == [c2] && [c1] + [c2] == [c1, c2];
  }

  /** The operand state a tree's spelling ends in. */
  function EndState(x: Expr): State {
    if x.Num? then Number else RParen
  }

  /** A tree's spelling, then anything. */
  lemma {:induction false} OperandThen(x: Expr, rest: string, m: Machine, follow: bool)
    requires m.state in {Start, Operator, LParen}
    ensures Scan(Parenthesised(x) + rest, m, follow) ==
              Scan(rest, Machine(EndState(x), false, m.ops, m.out + PostfixOf(x)), follow)
  {
    ScanParenthesised(x, m, Lookahead(rest, follow));
    ScanAppend(Parenthesised(x), rest, m, follow);
  }

  /** One operator between two operands. */
  lemma {:induction false} TranslationOfOne(x: Expr, op: BinOp, y: Expr)
    ensures Translation(Parenthesised(x) + [Symbol(op)] + Parenthesised(y)) == Ok(PostfixOf(Bin(op, x, y)))
  {
    var c := Symbol(op);
    var X, Y := Parenthesised(x), Parenthesised(y);
    var mx := Machine(if x.Num? then Number else RParen, false, [], PostfixOf(x));
    var m1 := Machine(Operator, true, [c], PostfixOf(x));
    var my := Machine(if y.Num? then Number else RParen, false, [c], PostfixOf(x) + PostfixOf(y));
    assert X + [c] + Y == X + ([c] + Y);
    assert Scan(X + ([c] + Y), Initial, false) == Scan([c] + Y, mx, false) by {
      ScanParenthesised(x, Initial, false);
      assert Initial.out + PostfixOf(x) == PostfixOf(x);
      ScanAppend(X, [c] + Y, Initial, false);
    }
    assert Scan([c] + Y, mx, false) == Scan(Y, m1, false) by {
      ScanAppend([c], Y, mx, false);
      OperatorOnEmpty(mx, c, Lookahead(Y, false));
    }
    assert Scan(Y, m1, false) == Ok(my) by {
      ScanParenthesised(y, m1, false);
    }
    assert Emitted([c]) == [[c]];
  }

  /** The machine after x op1 y op2 z: op1 is emitted when op2 arrives
      unless op2 binds strictly more tightly. */
  lemma {:induction false} ScanTwo(x: Expr, c1: char, y: Expr, c2: char, z: Expr)
    requires IsOperator(c1) && IsOperator(c2)
    ensures var tighter := Precedence(c2) > Precedence(c1);
            var px, py := PostfixOf(x), PostfixOf(y);
            Scan(Parenthesised(x) + ([c1] + (Parenthesised(y) + ([c2] + Parenthesised(z)))), Initial, false) ==
              Ok(Machine(EndState(z), false, if tighter then [c1, c2] else [c2],
                         (if tighter then px + py else px + py + [[c1]]) + PostfixOf(z)))
  {
    var Y, Z := Parenthesised(y), Parenthesised(z);
    var s3 := [c2] + Z;
    var s2 := Y + s3;
    var s1 := [c1] + s2;
    var px, py := PostfixOf(x), PostfixOf(y);
    var tighter := Precedence(c2) > Precedence(c1);
    var mx := Machine(EndState(x), false, [], px);
    var m1 := Machine(Operator, true, [c1], px);
    var my := Machine(EndState(y), false, [c1], px + py);
    var m2 := Machine(Operator, true, if tighter then [c1, c2] else [c2],
                      if tighter then px + py else px + py + [[c1]]);
    assert Scan(Parenthesised(x) + s1, Initial, false) == Scan(s1, mx, false) by {
      OperandThen(x, s1, Initial, false);
      assert Initial.out + px == px;
    }
    assert Scan(s1, mx, false) == Scan(s2, m1, false) by {
      ScanAppend([c1], s2, mx, false);
      OperatorOnEmpty(mx, c1, Lookahead(s2, false));
    }
    assert Scan(s2, m1, false) == Scan(s3, my, false) by {
      OperandThen(y, s3, m1, false);
    }
    assert Scan(s3, my, false) == Scan(Z, m2, false) by {
      ScanAppend([c2], Z, my, false);
      OperatorOverOne(my, c1, c2, Lookahead(Z, false));
    }
    ScanParenthesised(z, m2, false);
  }

  /** Two operators between three operands: the stack decides the grouping
      by precedence, left to right among equals. */
  lemma {:induction false} TranslationOfTwo(x: Expr, op1: BinOp, y: Expr, op2: BinOp, z: Expr)
    ensures Translation(Parenthesised(x) + [Symbol(op1)] + Parenthesised(y) + [Symbol(op2)] + Parenthesised(z)) ==
              Ok(PostfixOf(Grouped(x, op1, y, op2, z)))
  {
    var c1, c2 := Symbol(op1), Symbol(op2);
    var X, Y, Z := Parenthesised(x), Parenthesised(y), Parenthesised(z);
    var px, py, pz := PostfixOf(x), PostfixOf(y), PostfixOf(z);
    var tighter := Precedence(c2) > Precedence(c1);
    var ops := if tighter then [c1, c2] else [c2];
    var out := (if tighter then px + py else px + py + [[c1]]) + pz;
    var s := X + [c1] + Y + [c2] + Z;
    assert Scan(s, Initial, false) == Ok(Machine(EndState(z), false, ops, out)) by {
      Reassociate(X, [c1], Y, [c2], Z);
      ScanTwo(x, c1, y, c2, z);
    }
    assert Translation(s) == Ok(out + Emitted(ops));
    GroupedPostfix(x, op1, y, op2, z);
  }

  lemma {:induction false} Reassociate(a: string, b: string, c: string, d: string, e: string)
    ensures a + b + c + d + e == a + (b + (c + (d + e)))
  {
    assert a + b + c + d + e == (a + b + c) + (d + e);
    assert a + b + c == a + (b + c);
    assert (a + (b + c)) + (d + e) == a + ((b + c) + (d + e));
    assert (b + c) + (d + e) == b + (c + (d + e));
  }

  /** The spelling of x op1 y op2 z holds no white space. */
  lemma {:induction false} FlatStripped(x: Expr, c1: char, y: Expr, c2: char, z: Expr)
    requires IsOperator(c1) && IsOperator(c2)
    ensures var s := Parenthesised(x) + [c1] + Parenthesised(y) + [c2] + Parenthesised(z);
            Stripped(s) == s
  {
    var X, Y, Z := Parenthesised(x), Parenthesised(y), Parenthesised(z);
    ParenthesisedAlphabet(x);
    ParenthesisedAlphabet(y);
    ParenthesisedAlphabet(z);
    AlphabetAppend(X, [c1]);
    AlphabetAppend(X + [c1], Y);
    AlphabetAppend(X + [c1] + Y, [c2]);
    AlphabetAppend(X + [c1] + Y + [c2], Z);
    StrippedIdentity(X + [c1] + Y + [c2] + Z);
  }

  /** The spelling of x op1 y op2 z nests. */
  lemma {:induction false} FlatNests(x: Expr, c1: char, y: Expr, c2: char, z: Expr)
    requires IsOperator(c1) && IsOperator(c2)
    ensures NestsFrom(Parenthesised(x) + [c1] + Parenthesised(y) + [c2] + Parenthesised(z), 0)
  {
    var X, Y, Z := Parenthesised(x), Parenthesised(y), Parenthesised(z);
    var tail := [c2] + (Z + []);
    OperandNests(c2, z, [], 0);
    OperandNests(c1, y, tail, 0);
    NestsParenthesised(x, [c1] + (Y + tail), 0);
    FlatShape(X, c1, Y, c2, Z);
  }

  lemma {:induction false} FlatShape(X: string, c1: char, Y: string, c2: char, Z: string)
    ensures X + [c1] + Y + [c2] + Z == X + ([c1] + (Y + ([c2] + (Z + []))))
  {
    assert Z + [] == Z;
  }

  /** An operator followed by a parenthesised spelling leaves the depth
      alone. */
  lemma {:induction false} OperandNests(c: char, y: Expr, rest: string, depth: nat)
    requires IsOperator(c)
    ensures NestsFrom([c] + (Parenthesised(y) + rest), depth) == NestsFrom(rest, depth)
  {
    var Y := Parenthesised(y);
    assert ([c] + (Y + rest))[0] == c;
    assert ([c] + (Y + rest))[1..] == Y + rest;
    NestsParenthesised(y, rest, depth);
  }

  /** evaluate on a text that strips to `clean`, when `clean` nests and
      translates to the postfix form of a tree, is the tree's value. */
  lemma {:induction false} ValueOfClean(expression: string, clean: string, e: Expr)
    requires Stripped(expression) == clean
    requires NestsFrom(clean, 0)
    requires Translation(clean) == Ok(PostfixOf(e))
    ensures ValueOf(expression) == Eval(e)
  {
    BalancedNests(clean);
    Postfix.PostfixRoundTrip(e, false);
  }

  lemma {:induction false} AlphabetAppend(a: string, b: string)
    requires InAlphabet(a) && InAlphabet(b)
    ensures InAlphabet(a + b)
  {
  }

  /** '*' and '/' bind more tightly than '+' and '-', and equals group from
      the left: evaluate gives the value of the grouping Grouped picks. */
  lemma {:induction false} PrecedenceDecidesGrouping(x: Expr, op1: BinOp, y: Expr, op2: BinOp, z: Expr)
    ensures ValueOf(Parenthesised(x) + [Symbol(op1)] + Parenthesised(y) + [Symbol(op2)] + Parenthesised(z)) ==
              Eval(Grouped(x, op1, y, op2, z))
  {
    var s := Parenthesised(x) + [Symbol(op1)] + Parenthesised(y) + [Symbol(op2)] + Parenthesised(z);
    FlatStripped(x, Symbol(op1), y, Symbol(op2), z);
    FlatNests(x, Symbol(op1), y, Symbol(op2), z);
    TranslationOfTwo(x, op1, y, op2, z);
    ValueOfClean(s, s, Grouped(x, op1, y, op2, z));
  }

  /** The spelling of x op y holds no white space and nests. */
  lemma {:induction false} OneClean(x: Expr, c: char, y: Expr)
    requires IsOperator(c)
    ensures var s := Parenthesised(x) + [c] + Parenthesised(y);
            Stripped(s) == s && NestsFrom(s, 0)
  {
    OneStripped(x, c, y);
    OneNests(x, c, y);
  }

  lemma {:induction false} OneStripped(x: Expr, c: char, y: Expr)
    requires IsOperator(c)
    ensures var s := Parenthesised(x) + [c] + Parenthesised(y);
            Stripped(s) == s
  {
    var X, Y := Parenthesised(x), Parenthesised(y);
    ParenthesisedAlphabet(x);
    ParenthesisedAlphabet(y);
    AlphabetAppend(X, [c]);
    AlphabetAppend(X + [c], Y);
    StrippedIdentity(X + [c] + Y);
  }

  lemma {:induction false} OneNests(x: Expr, c: char, y: Expr)
    requires IsOperator(c)
    ensures NestsFrom(Parenthesised(x) + [c] + Parenthesised(y), 0)
  {
    var X, Y := Parenthesised(x), Parenthesised(y);
    OperandNests(c, y, [], 0);
    NestsParenthesised(x, [c] + (Y + []), 0);
    assert X + [c] + Y == X + ([c] + (Y + []));
  }

  /** A single operator between two operands: evaluate gives the value of
      the operation. */
  lemma {:induction false} OneOperatorValue(x: Expr, op: BinOp, y: Expr)
    ensures ValueOf(Parenthesised(x) + [Symbol(op)] + Parenthesised(y)) == Eval(Bin(op, x, y))
  {
    var s := Parenthesised(x) + [Symbol(op)] + Parenthesised(y);
    OneClean(x, Symbol(op), y);
    TranslationOfOne(x, op, y);
    ValueOfClean(s, s, Bin(op, x, y));
  }

  /** White space never changes what evaluate returns. */
  lemma {:induction false} SpacesIgnored(expression: string)
    ensures ValueOf(expression) == ValueOf(Stripped(expression))
  {
    StrippedIdempotent(expression);
  }
}
