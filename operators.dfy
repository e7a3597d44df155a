// The operator stack of the shunting-yard translation, shared by both
// translators: the three ways operators leave the stack for the output.
// The stack is a sequence whose last element is the top (std::stack<char>).

module Operators {
  import opened Common

  /** The output tokens written when the characters of `popped` leave the
      stack one by one, top (last element) first. */
  function Emitted(popped: seq<char>): (r: seq<Token>)
    ensures |r| == |popped|
    ensures forall i | 0 <= i < |r| :: r[i] == [popped[|popped| - 1 - i]]
  {
    if popped == [] then [] else [[popped[|popped| - 1]]] + Emitted(popped[..|popped| - 1])
  }

  lemma {:induction false} EmittedAppend(a: seq<char>, b: seq<char>)
    ensures Emitted(a + b) == Emitted(b) + Emitted(a)
  {
    var r, s := Emitted(a + b), Emitted(b) + Emitted(a);
    assert |r| == |s|;
    forall i | 0 <= i < |r| ensures r[i] == s[i] {
      if i < |b| {
        assert (a + b)[|a + b| - 1 - i] == b[|b| - 1 - i];
      } else {
        assert (a + b)[|a + b| - 1 - i] == a[|a| - 1 - (i - |b|)];
      }
    }
  }

  /** Popping the top of the first m characters emits that character next. */
  lemma {:induction false} PopOne(ops: seq<char>, m: nat)
    requires 0 < m <= |ops|
    ensures Emitted(ops[m - 1..]) == Emitted(ops[m..]) + [[ops[m - 1]]]
  {
    assert ops[m - 1..] == [ops[m - 1]] + ops[m..];
    EmittedAppend([ops[m - 1]], ops[m..]);
  }

  /** The height of the stack once every operator on top that binds at least
      as tightly as p has been popped. */
  function HeightAfterPops(ops: seq<char>, p: int): (k: nat)
    ensures k <= |ops|
    ensures forall i | k <= i < |ops| :: Precedence(ops[i]) >= p
    ensures k > 0 ==> Precedence(ops[k - 1]) < p
    decreases |ops|
  {
    if ops != [] && Precedence(ops[|ops| - 1]) >= p then HeightAfterPops(ops[..|ops| - 1], p)
    else |ops|
  }

  /** The position of the nearest '(' below the top, or -1 when there is none. */
  function NearestParen(ops: seq<char>): (j: int)
    ensures -1 <= j < |ops|
    ensures j >= 0 ==> ops[j] == '('
    ensures forall i | j < i < |ops| :: ops[i] != '('
    decreases |ops|
  {
    if ops == [] then -1
    else if ops[|ops| - 1] == '(' then |ops| - 1
    else NearestParen(ops[..|ops| - 1])
  }

  /** The stack after popping, and the output after emitting, every operator
      on top that binds at least as tightly as p. */
  function AfterPopAtLeast(ops: seq<char>, out: seq<Token>, p: int): (seq<char>, seq<Token>) {
    var k := HeightAfterPops(ops, p);
    (ops[..k], out + Emitted(ops[k..]))
  }

  /** The stack after popping, and the output after emitting, every operator
      above the nearest '(' and then that '(' itself, which is not emitted;
      with no '(' on the stack, all of it is emitted. */
  function AfterPopToParen(ops: seq<char>, out: seq<Token>): (seq<char>, seq<Token>) {
    var j := NearestParen(ops);
    if j < 0 then ([], out + Emitted(ops)) else (ops[..j], out + Emitted(ops[j + 1..]))
  }

  /** Popping from an empty stack changes nothing. */
  lemma {:induction false} PopNothing(out: seq<Token>, p: int)
    ensures AfterPopAtLeast([], out, p) == ([], out)
  {
    assert HeightAfterPops([], p) == 0;
    assert out + Emitted([]) == out;
  }

  /** With one operator on the stack, it leaves exactly when it binds at
      least as tightly as p. */
  lemma {:induction false} PopOverOne(c: char, out: seq<Token>, p: int)
    ensures AfterPopAtLeast([c], out, p) ==
              if Precedence(c) >= p then ([], out + [[c]]) else ([c], out)
  {
    assert [c][..0] == [];
    assert HeightAfterPops([c], p) == if Precedence(c) >= p then 0 else 1;
    assert [c][0..] == [c] && [c][..1] == [c] && [c][1..] == [];
    assert Emitted([c]) == [[c]];
    assert out + Emitted([]) == out;
  }

  /** ')' over an operator on a '(' emits that operator and removes both. */
  lemma {:induction false} PopToParenOverOperator(ops: seq<char>, c: char, out: seq<Token>)
    requires IsOperator(c)
    ensures AfterPopToParen(ops + ['(', c], out) == (ops, out + [[c]])
  {
    var s := ops + ['(', c];
    assert s[..|s| - 1] == ops + ['('];
    assert NearestParen(s) == |ops|;
    assert s[..|ops|] == ops && s[|ops| + 1..] == [c];
    assert Emitted([c]) == [[c]];
  }

  /** Pops while the top binds at least as tightly as p (the loops at
      translator.h:106-109 and 174-177 and at Queue.h:53-56). */
  method PopAtLeast(ops: seq<char>, out: seq<Token>, p: int) returns (ops': seq<char>, out': seq<Token>)
    ensures (ops', out') == AfterPopAtLeast(ops, out, p)
  {
    ops', out' := ops, out;
    while ops' != [] && Precedence(ops'[|ops'| - 1]) >= p
      invariant |ops'| <= |ops| && ops' == ops[..|ops'|]
      invariant out' == out + Emitted(ops[|ops'|..])
      invariant HeightAfterPops(ops', p) == HeightAfterPops(ops, p)
      decreases |ops'|
    {
      PopOne(ops, |ops'|);
      out' := out' + [[ops'[|ops'| - 1]]];
      ops' := ops'[..|ops'| - 1];
    }
  }

  /** Pops down to the nearest '(' and discards it (translator.h:116-122 and
      183-189, Queue.h:64-70). */
  method PopToParen(ops: seq<char>, out: seq<Token>) returns (ops': seq<char>, out': seq<Token>)
    ensures (ops', out') == AfterPopToParen(ops, out)
  {
    ops', out' := ops, out;
    while ops' != [] && ops'[|ops'| - 1] != '('
      invariant |ops'| <= |ops| && ops' == ops[..|ops'|]
      invariant out' == out + Emitted(ops[|ops'|..])
      invariant NearestParen(ops') == NearestParen(ops)
      decreases |ops'|
    {
      PopOne(ops, |ops'|);
      out' := out' + [[ops'[|ops'| - 1]]];
      ops' := ops'[..|ops'| - 1];
    }
    if ops' != [] && ops'[|ops'| - 1] == '(' {
      assert NearestParen(ops) == |ops'| - 1;
      ops' := ops'[..|ops'| - 1];
      assert ops' == ops[..|ops'|];
    } else {
      assert NearestParen(ops) == -1;
      assert ops[0..] == ops;
    }
  }

  /** Empties the stack into the output at the end of the input
      (translator.h:202-205, Queue.h:83-86). */
  method Drain(ops: seq<char>, out: seq<Token>) returns (out': seq<Token>)
    ensures out' == out + Emitted(ops)
  {
    var rest := ops;
    out' := out;
    while rest != []
      invariant out' + Emitted(rest) == out + Emitted(ops)
      decreases |rest|
    {
      out' := out' + [[rest[|rest| - 1]]];
      rest := rest[..|rest| - 1];
    }
  }

  /** The characters the translators ever push: the four operators and '('. */
  predicate StackSymbols(ops: seq<char>) {
    forall i | 0 <= i < |ops| :: IsOperator(ops[i]) || ops[i] == '('
  }

  /** Each operator on the stack sits on the bottom, on a '(' or on an
      operator that binds strictly less tightly. */
  predicate Ordered(ops: seq<char>) {
    forall i | 0 < i < |ops| :: ops[i] == '(' || Precedence(ops[i - 1]) < Precedence(ops[i])
  }

  /** Pushing an operator after the pops that precede it keeps the stack
      ordered: the pops leave a top that binds less tightly than it. */
  lemma {:induction false} PushAfterPopOrdered(ops: seq<char>, out: seq<Token>, c: char)
    requires Ordered(ops) && StackSymbols(ops) && IsOperator(c)
    ensures var ops' := AfterPopAtLeast(ops, out, Precedence(c)).0 + [c];
            Ordered(ops') && StackSymbols(ops')
  {
  }

  /** Between two parentheses the pending operators strictly increase in
      binding strength from bottom to top, so at most one of '+' and '-' lies
      below at most one of '*' and '/'. */
  lemma {:induction false} OrderedSegment(ops: seq<char>, i: nat, j: nat)
    requires Ordered(ops) && i < j < |ops|
    requires forall k | i < k <= j :: ops[k] != '('
    ensures Precedence(ops[i]) < Precedence(ops[j])
    decreases j - i
  {
    if i + 1 < j {
      OrderedSegment(ops, i, j - 1);
    }
  }
}
