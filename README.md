# LabTranslator calculator core in Dafny

LabTranslator is an infix calculator. `Translator::evaluate` takes one line
such as `"3 * ( 2 + 5 )"` and works in four stages:

1. It removes white space.
2. It refuses text whose parentheses do not nest.
3. A finite-state machine (START, NUMBER, OPERATOR, LPAREN, RPAREN) rewrites
   the text in postfix form with an operator stack.
4. A value stack evaluates the postfix form.

The repository has two versions of `Translator`:

- `translator/include/translator.h`, the state-machine version.
- `translator/include/Queue.h`, an older version. It skips white space as it
  reads and collects literals in a buffer. It reads a `-` as the sign of a
  literal at the start or right after an operator or `(`. It has no
  parenthesis check, and its evaluator also accepts tokens that begin with
  `.`.

`translator/include/stack.h` is a fixed-capacity `Stack<T>` over a buffer.

This project models all three and proves what they compute.

- **Values.** A `double` is a mathematical `real`. `std::stod` is
  `Literal.LiteralValue`: an optional `-`, then the longest prefix
  `digits ['.' digits]` that holds a digit, converted exactly. Each thrown
  exception is an `Err` of `Common.Error`, one constructor per cause.
  - `UnmatchedParentheses`, `InvalidCharacter`, `InsufficientOperands`,
    `DivisionByZero` and `MalformedExpression` ("Invalid expression" at the
    end).
  - `BadLiteral`: `std::stod` throwing `invalid_argument`.
- **Postfix text.** The postfix string is the sequence of its
  white-space-separated tokens (`seq<Token>`). That is exactly what
  `istringstream >> token` gives the evaluator back.
- **Loops.** Each stage that loops in the source is a `method` with the same
  loop. Its `ensures` ties it to a function that specifies it. Those stages
  are `RemoveSpaces`, `AreParenthesesBalanced`, `InfixToPostfix`, the
  operator-popping loops `PopAtLeast`, `PopToParen` and `Drain`, and
  `EvaluatePostfix`. The lemmas state what those functions guarantee.
- **Translation.** The translation is a left-to-right scan of one `Step` per
  character. For translator.h the scanned state is a `Machine`: the state,
  the unary-minus flag, the operator stack and the output. For Queue.h it is
  a `Config`: the operator stack, the output and the number buffer, plus the
  raw previous character.
- **Reference definitions.** Arithmetic expression trees (`Expressions.Expr`)
  give an independent reference. Each tree has a value (`Eval`), a postfix
  form (`PostfixOf`) and a fully parenthesised spelling (`Parenthesised`).
  The main theorems say:
  - Both translators compute `Eval(e)` from `Parenthesised(e)`.
  - In both versions, between operands, `*` and `/` bind tighter than `+`
    and `-`, and equal operators group from the left (proved for two
    operators).
  - In translator.h, a leading `-` reads as `0 -`.
  - White space never matters to translator.h.
  - Each rejection of translator.h's state table holds.
- **Where the versions differ.** Module `Divergence` proves seven families of
  inputs on which the two versions give different answers. The list is not
  exhaustive.
- **Tests.** Module `Scenarios` restates every `test_stack.cpp` assertion on
  the translator and proves it. The stack tests are in `BoundedStack`.

Modules, in dependency order:

| module | file | models |
|---|---|---|
| `Common` | common.dfy | errors, tokens, `isdigit`/`isspace`/`isOperator`/`precedence` |
| `Literal` | literal.dfy | `std::stod` on the tokens the translators write |
| `Expressions` | expressions.dfy | reference trees, their values, postfix forms and spellings |
| `Operators` | operators.dfy | the operator-stack loops both translators share |
| `Postfix` | postfix.dfy | `evaluatePostfix` of both versions (the leading-dot rule is a flag) |
| `Translator` | translator.dfy | translator.h: `removeSpaces`, `areParenthesesBalanced`, `infixToPostfix`, `evaluate` |
| `TranslatorFacts` | translator_facts.dfy | what translator.h's translation and evaluation guarantee |
| `Buffered` | buffered.dfy | Queue.h: `infixToPostfix`, `evaluate`, and what they guarantee |
| `Divergence` | divergence.dfy | inputs on which the two versions disagree |
| `Scenarios` | scenarios.dfy | the translator tests of test_stack.cpp |
| `BoundedStack` | bounded_stack.dfy | stack.h's `Stack<T>` as a class over an array |

## Model

| member | source | states |
|---|---|---|
| Common.Precedence | translator/include/translator.h:29-33 | the precedence is positive exactly for the four operators, and 2 exactly for `*` and `/` |
| Literal.LeadingDigits | translator/include/translator.h:216-217 | stod's scan: the length of the run of leading digits, all digits, stopped by a non-digit |
| Literal.UnsignedValue | translator/include/translator.h:216-217 | stod without a sign gives a number exactly when the text starts with a digit or with `.` and a digit, and the number is non-negative |
| Literal.LiteralValue | translator/include/translator.h:216-217 | stod with a leading `-` succeeds exactly when the rest starts a number and gives a non-positive value; without one, it succeeds exactly when the text starts a number and gives a non-negative value |
| Literal.Decimal | translator/include/translator.h:216-217 | the decimal spelling of n is non-empty, all digits, has no leading zero and has value n |
| Literal.DecimalRoundTrip | translator/include/translator.h:216-217 | stod reads back every natural number from its decimal spelling |
| Literal.Spelling | translator/include/translator.h:216-217 | a literal's spelling starts and ends with a digit and holds only digits and `.` |
| Literal.SpellingRoundTrip | translator/include/translator.h:216-217 | stod reads every literal spelling back at its value |
| Literal.PrefixExamples | translator/include/translator.h:216-217 | stod reads "1.2.3" as 1.2, "-.5" as -0.5 and "2." as 2, and throws on ".", "-" and "-." |
| Expressions.Apply | translator/include/translator.h:225-237 | an arithmetic step fails exactly on `/` with a zero right operand, and then with "Division by zero" |
| Operators.Emitted | translator/include/translator.h:202-205 | draining writes one single-character token per stacked symbol, top first |
| Operators.EmittedAppend | translator/include/translator.h:202-205 | draining a + b writes b's symbols before a's |
| Operators.HeightAfterPops | translator/include/translator.h:106-109 | the popping loop leaves a stack whose top binds less tightly than the incoming operator, having popped only symbols that bind at least as tightly |
| Operators.NearestParen | translator/include/translator.h:116-122 | the nearest `(` below the top, with no `(` above it |
| Operators.PopNothing | translator/include/translator.h:106-109 | popping an empty stack writes nothing |
| Operators.PopOverOne | translator/include/translator.h:106-109 | a single pending operator is written out exactly when it binds at least as tightly as the incoming one |
| Operators.PopToParenOverOperator | translator/include/translator.h:116-122 | `)` over an operator on a `(` writes that operator and removes both |
| Operators.PopAtLeast | translator/include/translator.h:106-109 | the popping loop for an operator computes AfterPopAtLeast |
| Operators.PopToParen | translator/include/translator.h:116-122 | the popping loop for `)` computes AfterPopToParen, discarding the `(` |
| Operators.Drain | translator/include/translator.h:202-205 | the final loop appends the stack's symbols top first |
| Operators.PushAfterPopOrdered | translator/include/translator.h:106-110 | pushing after the pops keeps the stack ordered by strictly increasing precedence between parentheses |
| Operators.OrderedSegment | translator/include/translator.h:106-110 | in an ordered stack, of two operators with no `(` between them the lower one binds strictly less tightly |
| Common.IsOperator | translator/include/translator.h:35-37 | an operator symbol is never a digit, white space, a dot or a parenthesis |
| Postfix.Step | translator/include/translator.h:215-238 | a number token is pushed, or the step fails with BadLiteral exactly when stod throws; an operator with fewer than two values fails with "Invalid expression"; otherwise an operator replaces the top two values by one and leaves those below; any other token is skipped |
| Postfix.EvaluatePostfix | translator/include/translator.h:210-246 | the evaluation loop with the final one-value check computes Value |
| Postfix.RunAppend | translator/include/translator.h:215-239 | evaluating a + b is evaluating a, then b from where a stopped |
| Postfix.RunPostfixOf | translator/include/translator.h:215-239 | a tree's postfix form pushes the tree's value, or fails with the error its evaluation meets |
| Postfix.ApplyStep | translator/include/translator.h:219-234 | an operator token on values a, b pushes a op b, or stops with Apply's error |
| Postfix.PostfixRoundTrip | translator/include/translator.h:210-246 | the evaluator computes every tree's value from its postfix form, under either leading-dot rule |
| Postfix.LeftoverOperand | translator/include/translator.h:241-243 | two operands with no operator between them end in "Invalid expression" |
| Postfix.RunHeight | translator/include/translator.h:215-239 | a successful run changes the height by the number of numbers minus the number of operators |
| Postfix.ValueArity | translator/include/translator.h:241-243 | a successful evaluation has exactly one more number than operators |
| Postfix.LeadingDotRulesAgree | translator/include/Queue.h:99 | the two evaluators agree on every token sequence with no token starting with `.` |
| Translator.Stripped | translator/include/translator.h:55-63 | the stripped text is no longer than the input and holds no white space |
| Translator.StrippedAppend | translator/include/translator.h:55-63 | stripping a + b is stripping a, then b, in order |
| Translator.StrippedIdentity | translator/include/translator.h:55-63 | text without white space is unchanged |
| Translator.StrippedIdempotent | translator/include/translator.h:55-63 | stripping twice is stripping once |
| Translator.RemoveSpaces | translator/include/translator.h:55-63 | the loop computes Stripped |
| Translator.AreParenthesesBalanced | translator/include/translator.h:39-53 | returns true exactly when no prefix closes more parentheses than it opens and the whole text closes as many as it opens |
| Translator.NestsSuffix | translator/include/translator.h:39-53 | the depth-counter check resumed after any prefix agrees with the counting definition |
| Translator.BalancedNests | translator/include/translator.h:39-53 | the counting definition agrees with a depth counter read from the front |
| Translator.Extend | translator/include/translator.h:101-103 | a digit or `.` in NUMBER extends the last token, adding no token |
| Translator.UnaryZero | translator/include/translator.h:82-84 | a `-` where an operand is expected writes the literal 0 first, and nothing else does |
| Translator.Accepts | translator/include/translator.h:74-199 | only digits, `.`, operators and parentheses are ever accepted; after an operator no operator (not even a sign) is; after a number or `)` no `(` is |
| Translator.After | translator/include/translator.h:74-199 | a digit or `.` leads to NUMBER, an operator to OPERATOR, `(` to LPAREN, and nothing else to those |
| Translator.Step | translator/include/translator.h:74-199 | a character is accepted exactly when its state's branches list it, then leads to the state of its kind; every other character throws "Invalid character" |
| Translator.InfixToPostfix | translator/include/translator.h:65-208 | the state-machine loop and the final drain compute Translation |
| Translator.Evaluate | translator/include/translator.h:10-17 | evaluate computes ValueOf: strip, check the parentheses, translate, evaluate |
| TranslatorFacts.ScanAppend | translator/include/translator.h:71-200 | reading a + b is reading a, then b, the lookahead at the seam being b's first character |
| TranslatorFacts.FollowOnlyAfterDot | translator/include/translator.h:76 | the character after the input matters only when the input's last character is `.` |
| TranslatorFacts.ScanTable | translator/include/translator.h:71-200 | reading succeeds exactly when every character is accepted in its state; failure is always "Invalid character"; success ends in the state of the last character's kind |
| TranslatorFacts.TranslationTable | translator/include/translator.h:65-208 | infixToPostfix throws exactly on the texts the table rejects, always with "Invalid character" |
| TranslatorFacts.AdjacentOperatorsRejected | translator/include/translator.h:131-145 | two operators in a row throw "Invalid character" |
| TranslatorFacts.OpenAfterLiteralRejected | translator/include/translator.h:100-128 | `(` right after a literal throws: there is no implicit multiplication |
| TranslatorFacts.AfterCloseRejected | translator/include/translator.h:171-194 | after `)` only an operator or another `)` is accepted |
| TranslatorFacts.ForeignCharacterRejected | translator/include/translator.h:95-96 | a character outside digits, `.`, operators and parentheses throws |
| TranslatorFacts.StepWellformed | translator/include/translator.h:74-199 | every accepted character keeps the machine invariant: an ordered stack of operators and `(`; the unary flag set exactly in START, OPERATOR and LPAREN; `(` on top in LPAREN; output of well-formed tokens without `(`; a literal last in NUMBER |
| TranslatorFacts.ExtendWellformed | translator/include/translator.h:101-103 | extending a literal keeps the invariant |
| TranslatorFacts.BinaryWellformed | translator/include/translator.h:104-113 | a binary operator keeps the invariant |
| TranslatorFacts.CloseWellformed | translator/include/translator.h:114-125 | `)` keeps the invariant |
| TranslatorFacts.LiteralWellformed | translator/include/translator.h:76-80 | starting a literal keeps the invariant |
| TranslatorFacts.PrefixOperatorWellformed | translator/include/translator.h:81-89 | an operator where an operand is expected, with its unary 0, keeps the invariant |
| TranslatorFacts.OpenWellformed | translator/include/translator.h:90-94 | `(` keeps the invariant |
| TranslatorFacts.ScanWellformed | translator/include/translator.h:71-200 | the invariant holds after any successful read |
| TranslatorFacts.TranslationTokens | translator/include/translator.h:65-208 | every postfix token is an operator, a `(`, or a literal of digits and dots |
| TranslatorFacts.RunNoBadLiteral | translator/include/translator.h:215-218 | on such tokens the evaluator never meets a literal stod refuses |
| TranslatorFacts.NeverBadLiteral | translator/include/translator.h:216-217 | stod never throws inside evaluate |
| TranslatorFacts.PendingOperators | translator/include/translator.h:106-110 | between two parentheses the pending operators strictly increase in precedence from bottom to top |
| TranslatorFacts.UnaryMinusIsZeroMinus | translator/include/translator.h:82-84 | at the start or after `(`, "-" is read exactly as "0-" |
| TranslatorFacts.LeadingMinus | translator/include/translator.h:82-84 | a leading `-` translates as "0-" |
| TranslatorFacts.MinusAfterOpenParen | translator/include/translator.h:154-156 | a `-` right after `(` translates as "(0-" |
| TranslatorFacts.ScanLiteralTail | translator/include/translator.h:100-103 | digits and dots in NUMBER extend the last token by exactly those characters |
| TranslatorFacts.ScanSpelling | translator/include/translator.h:76-80 | a literal's spelling read where an operand is expected becomes one token |
| TranslatorFacts.OperatorOverParen | translator/include/translator.h:104-113 | an operator after an operand with `(` on top pops nothing |
| TranslatorFacts.CloseOverOperator | translator/include/translator.h:114-122 | `)` over an operator on a `(` writes the operator and discards the `(` |
| TranslatorFacts.ScanParenthesised | translator/include/translator.h:71-200 | reading a tree's parenthesised spelling where an operand is expected appends its postfix form and leaves the stack as it was |
| TranslatorFacts.TranslationOfParenthesised | translator/include/translator.h:65-208 | the translation of a tree's parenthesised spelling is its postfix form |
| TranslatorFacts.NestsParenthesised | translator/include/translator.h:39-53 | a parenthesised spelling leaves the nesting depth unchanged |
| TranslatorFacts.ParenthesisedBalanced | translator/include/translator.h:39-53 | a parenthesised spelling passes the parenthesis check |
| TranslatorFacts.ParenthesisedStripped | translator/include/translator.h:55-63 | a parenthesised spelling holds no white space |
| TranslatorFacts.ParenthesisedRoundTrip | translator/include/translator.h:10-17 | evaluate computes every tree's value from its fully parenthesised spelling |
| TranslatorFacts.OperatorOnEmpty | translator/include/translator.h:104-113 | an operator after an operand on an empty stack is pushed, nothing written |
| TranslatorFacts.OperatorOverOne | translator/include/translator.h:104-113 | over one pending operator, that operator is written first exactly when it binds at least as tightly |
| TranslatorFacts.TranslationOfOne | translator/include/translator.h:65-208 | x op y translates to the postfix form of the operation |
| TranslatorFacts.ScanTwo | translator/include/translator.h:104-113 | after x c1 y c2 z, c1 has been written exactly unless c2 binds strictly tighter |
| TranslatorFacts.TranslationOfTwo | translator/include/translator.h:65-208 | x op1 y op2 z translates to the postfix form of the grouping precedence picks |
| Expressions.GroupedPostfix | translator/include/translator.h:202-205 | that postfix form is the output followed by the pending operators, top first |
| TranslatorFacts.FlatStripped | translator/include/translator.h:55-63 | x op1 y op2 z holds no white space |
| TranslatorFacts.FlatNests | translator/include/translator.h:39-53 | x op1 y op2 z nests |
| TranslatorFacts.ValueOfClean | translator/include/translator.h:10-17 | a text that strips to nesting text translating to a tree's postfix form evaluates to the tree's value |
| TranslatorFacts.PrecedenceDecidesGrouping | translator/include/translator.h:29-33 | for two operators (x op1 y op2 z): `*` and `/` bind tighter than `+` and `-`, equals group from the left, and evaluate gives the value of that grouping |
| TranslatorFacts.OneClean | translator/include/translator.h:10-14 | x op y holds no white space and nests |
| TranslatorFacts.OneOperatorValue | translator/include/translator.h:10-17 | x op y evaluates to the operation's value |
| TranslatorFacts.SpacesIgnored | translator/include/translator.h:11 | white space never changes what evaluate returns |
| Buffered.Flush | translator/include/Queue.h:42-45 | flushing keeps what was written and appends a non-empty buffer as one token |
| Buffered.UnaryContext | translator/include/Queue.h:49 | after a digit, a dot, `)` or white space a `-` is never a sign |
| Buffered.Step | translator/include/Queue.h:32-75 | only a character outside white space, digits, `.`, operators and parentheses throws, and then "Invalid character" |
| Buffered.InfixToPostfix | translator/include/Queue.h:26-89 | the loop, the final buffer flush and the drain compute Translation |
| Buffered.Evaluate | translator/include/Queue.h:10-13 | evaluate translates without any parenthesis check and evaluates with the leading-dot rule |
| Buffered.ScanAppend | translator/include/Queue.h:31-76 | reading a + b is reading a, then b, with a's last raw character as b's predecessor |
| Buffered.ScanRejects | translator/include/Queue.h:72-73 | reading fails exactly when some character is unknown, always with "Invalid character" |
| Buffered.TranslationRejects | translator/include/Queue.h:26-89 | infixToPostfix throws exactly on text holding an unknown character |
| Buffered.LiteralAccumulates | translator/include/Queue.h:38-39 | digits and dots go into the buffer and nowhere else |
| Buffered.StepWellformed | translator/include/Queue.h:32-75 | every step keeps the stack to operators and `(`, the buffer to an optional `-` then digits and dots, and the output to well-formed tokens |
| Buffered.FlushWellformed | translator/include/Queue.h:42-45 | flushing the buffer writes a well-formed token |
| Buffered.PopAtLeastWellformed | translator/include/Queue.h:53-57 | a binary operator writes only stack symbols |
| Buffered.PopToParenWellformed | translator/include/Queue.h:63-70 | `)` writes only stack symbols |
| Buffered.ScanWellformed | translator/include/Queue.h:31-76 | the invariant holds after any successful read |
| Buffered.TranslationTokens | translator/include/Queue.h:26-89 | every postfix token is an operator, a `(` or a literal; white space never becomes part of a token |
| Buffered.OperatorOverParen | translator/include/Queue.h:53-57 | a binary operator with `(` on top flushes the buffer and pops nothing |
| Buffered.CloseOverOperator | translator/include/Queue.h:63-70 | `)` over an operator on a `(` writes the operator and discards the `(` |
| Buffered.ScanSpelling | translator/include/Queue.h:38-39 | a literal's spelling is buffered whole |
| Buffered.SignedLiteral | translator/include/Queue.h:49-50 | wherever a sign is expected (at the start, or after an operator or `(`), `-` and a spelling flush the buffer and become one buffered negative literal, the stack unchanged |
| Buffered.SignAfterOpen | translator/include/Queue.h:49-50 | after `(`, `-` and a spelling push the `(` and buffer one negative literal |
| Buffered.ScanParenthesised | translator/include/Queue.h:31-76 | a tree's parenthesised spelling leaves the stack as it was and the tree's postfix form written or buffered |
| Buffered.BinaryOnEmpty | translator/include/Queue.h:53-57 | a binary operator on an empty stack flushes the buffer and is pushed |
| Buffered.BinaryOverOne | translator/include/Queue.h:53-57 | over one pending operator, a binary operator writes it exactly when it binds at least as tightly, then is pushed |
| Buffered.OperandThen | translator/include/Queue.h:31-76 | after a tree's spelling the stack is as it was, the tree's postfix form is written or buffered, and a following `-` is binary |
| Buffered.ScanTwo | translator/include/Queue.h:31-76 | after x op1 y op2 z, op1 has been written unless op2 binds strictly more tightly, in which case both wait on the stack |
| Buffered.TranslationOfTwo | translator/include/Queue.h:26-89 | x op1 y op2 z translates to the postfix form of the grouping precedence picks, left to right among equals |
| Buffered.PrecedenceDecidesGrouping | translator/include/Queue.h:10-13 | for two operators, Queue.h's evaluate gives the value of that grouping |
| Buffered.ParenthesisedRoundTrip | translator/include/Queue.h:10-13 | Queue.h's evaluate computes every tree's value from its parenthesised spelling |
| Divergence.BufferedOperandThenOperator | translator/include/Queue.h:47-58 | after a tree's spelling, any operator, even `-`, is binary and waits alone on the stack |
| Divergence.BufferedSignedLiteral | translator/include/Queue.h:49-50 | "-" and a spelling right after an operator become one buffered negative literal |
| Divergence.LeadingSign | translator/include/Queue.h:49-50 | "-n op y" at the start of the text: Queue.h evaluates (0 - n) op y, for every operator |
| Divergence.LeadingSignTranslation | translator/include/Queue.h:26-89 | Queue.h writes the literal "-n", then y's postfix form, then op |
| Divergence.LeadingSignScan | translator/include/Queue.h:31-76 | reading "-n op y" buffers "-n", then op flushes it and waits on the stack while y is read |
| Divergence.LeadingValueAt | translator/include/Queue.h:92-125 | a negative literal followed by y's postfix form and op evaluates as z op y for any tree z of the literal's value |
| Divergence.OpenFlushes | translator/include/Queue.h:42-61 | what follows a `(` does not depend on whether a literal was still buffered or already written |
| Divergence.SignBeforeParen | translator/include/Queue.h:49-50 | "-(y)" for a compound y: Queue.h throws "Invalid expression"; translator.h gives the value of 0 - y |
| Divergence.SignBeforeParenTranslation | translator/include/Queue.h:26-89 | Queue.h writes a lone "-" token, then y's postfix form |
| Divergence.SignThenOpen | translator/include/Queue.h:42-61 | a leading `-` followed by `(` ends up written as a token of its own |
| Divergence.SignBeforeParenTranslator | translator/include/translator.h:82-84 | translator.h reads "-(y)" as 0 - y |
| Divergence.NegatedTextTranslation | translator/include/translator.h:65-208 | translator.h translates "-(y)" to the postfix form of 0 - y |
| Divergence.NegatedTextClean | translator/include/translator.h:10-17 | "-(y)" holds no white space and nests |
| Divergence.ImpliedProduct | translator/include/Queue.h:119-121 | "x(y)" for a compound y: Queue.h throws "Invalid expression" (or the error x or y meets); translator.h throws "Invalid character" |
| Divergence.ImpliedProductTranslation | translator/include/Queue.h:26-89 | Queue.h writes x's postfix form, then y's, with no operator |
| Divergence.ImpliedProductTranslator | translator/include/translator.h:100-193 | translator.h's NUMBER and RPAREN states refuse a `(` |
| Divergence.NegatedSpelling | translator/include/Queue.h:99-100 | stod reads "-" and a spelling as the negated value |
| Divergence.TranslatorClean | translator/include/translator.h:10-17 | nesting text without white space goes unchanged to translation and evaluation |
| Divergence.TranslatorUnmatched | translator/include/translator.h:12-14 | text that does not nest throws "Unmatched parentheses" |
| Divergence.SignAfterOperator | translator/include/Queue.h:49-50 | "x op -n": Queue.h computes x op (0 - n); translator.h throws "Invalid character" |
| Divergence.SignedTranslation | translator/include/Queue.h:26-89 | Queue.h writes x, then the literal "-n", then op |
| Divergence.SignedValue | translator/include/Queue.h:92-125 | those tokens evaluate to x op (0 - n) |
| Divergence.SignAfterOperatorTranslator | translator/include/translator.h:131-145 | translator.h throws on a tree followed by an operator and a `-` |
| Divergence.SpaceBeforeSign | translator/include/Queue.h:49 | "x op -n" with a space before `-`: Queue.h reads `-` as binary and fails with "Invalid expression"; translator.h throws "Invalid character" |
| Divergence.BufferedSpacedMinus | translator/include/Queue.h:34-57 | after an operator and a space, `-` is binary, since the raw previous character is the space, and pops that operator |
| Divergence.SpacedTranslation | translator/include/Queue.h:26-89 | Queue.h writes x, op, n, `-` |
| Divergence.SpacedValue | translator/include/Queue.h:103-105 | those tokens fail at op, which finds only one value |
| Divergence.SpaceBeforeSignTranslator | translator/include/translator.h:11 | translator.h removes the space first and throws as without it |
| Divergence.SpacedStripped | translator/include/translator.h:55-63 | removing the space gives the unspaced text |
| Divergence.StrayClose | translator/include/Queue.h:63-70 | a stray `)` after a tree: Queue.h pops nothing and computes the tree's value; translator.h throws "Unmatched parentheses" |
| Divergence.StrayCloseScan | translator/include/Queue.h:63-70 | Queue.h's reading of the stray `)` leaves an empty stack and the tree's postfix form |
| Divergence.UnclosedOpen | translator/include/Queue.h:83-86 | an unclosed `(` before a tree: Queue.h writes it last and its evaluator skips it, giving the tree's value; translator.h throws "Unmatched parentheses" |
| Divergence.UnclosedOpenScan | translator/include/Queue.h:83-86 | Queue.h's translation is the tree's postfix form followed by "(" |
| Divergence.BufferedOpen | translator/include/Queue.h:60-61 | a leading `(` is pushed |
| Divergence.DotLiteral | translator/include/Queue.h:99-100 | stod reads `.` and fraction digits as a number below one |
| Divergence.LeadingDot | translator/include/Queue.h:99 | ".ds + y": both translators write the same tokens; Queue.h evaluates it to 0.ds + y, translator.h fails with "Invalid expression" |
| Divergence.DotTranslations | translator/include/translator.h:76 | the postfix form both translators give ".ds + y" |
| Divergence.DotScan | translator/include/translator.h:76-80 | translator.h reads `.` followed by digits as one literal |
| Divergence.DotValues | translator/include/translator.h:216 | translator.h's evaluator skips ".ds"; Queue.h's reads it as 0.ds |
| Divergence.DotClean | translator/include/translator.h:10-14 | ".ds + y" has no white space and nests |
| Scenarios.OneOperator | translator/include/translator.h:10-17 | a line that strips to x op y evaluates to the operation's value |
| Scenarios.TwoOperators | translator/include/translator.h:10-17 | a line that strips to x op1 y op2 z evaluates by precedence |
| Scenarios.LeadingMinusTwo | translator/include/translator.h:82-84 | a line that strips to "-" t evaluates as "0-" t |
| Scenarios.Unmatched | translator/include/translator.h:12-14 | a line whose stripped text does not nest throws "Unmatched parentheses" |
| Scenarios.IntegerSum | translator/test/test_stack.cpp:107 | "10 + 30" evaluates to 40 |
| Scenarios.SpacedLine | translator/test/test_stack.cpp:107 | the same line, spaces included |
| Scenarios.UnaryMinus | translator/test/test_stack.cpp:112 | "- 5 + 30" evaluates to 25 |
| Scenarios.NegativeIntegers | translator/test/test_stack.cpp:117 | "-10 - 20" evaluates to -30 |
| Scenarios.NegativeDecimals | translator/test/test_stack.cpp:118 | "-2.5 - 20.5" evaluates to -23 |
| Scenarios.IntegerProduct | translator/test/test_stack.cpp:123 | "4 * 25" evaluates to 100 |
| Scenarios.NegatedFactor | translator/test/test_stack.cpp:124 | "4 * ( - 25)" evaluates to -100 |
| Scenarios.DecimalProduct | translator/test/test_stack.cpp:125 | "2.0 * 3.0" evaluates to 6 |
| Scenarios.IntegerZeroFactor | translator/test/test_stack.cpp:130 | "5 * 0" evaluates to 0 |
| Scenarios.DecimalZeroFactor | translator/test/test_stack.cpp:131 | "7.5 * 0" evaluates to 0 |
| Scenarios.IntegerQuotient | translator/test/test_stack.cpp:136 | "36 / 6" evaluates to 6 |
| Scenarios.DecimalQuotient | translator/test/test_stack.cpp:137 | "15.5 / 5" evaluates to 3.1 |
| Scenarios.IntegerZeroDivisor | translator/test/test_stack.cpp:142 | "15 / 0" throws "Division by zero" |
| Scenarios.DecimalZeroDivisor | translator/test/test_stack.cpp:143 | "15.5 / 0" throws "Division by zero" |
| Scenarios.PlusThenTimes | translator/test/test_stack.cpp:148 | "3 + 3 * 3" evaluates to 12 |
| Scenarios.MinusThenTimes | translator/test/test_stack.cpp:153 | "4 - 2 * 3" evaluates to -2 |
| Scenarios.PlusThenDivide | translator/test/test_stack.cpp:158 | "6 + 6 / 2" evaluates to 9 |
| Scenarios.MinusThenDivide | translator/test/test_stack.cpp:163 | "8 - 4 / 2" evaluates to 6 |
| Scenarios.ParenthesisedSum | translator/test/test_stack.cpp:168 | "3 * ( 2 + 5 )" evaluates to 21 |
| Scenarios.ParenthesisedDivisor | translator/test/test_stack.cpp:169 | "45 / ( 5 + 5 )" evaluates to 4.5 |
| Scenarios.UnclosedTwice | translator/test/test_stack.cpp:174 | "3 + ( ( 12 / 4" throws "Unmatched parentheses" |
| Scenarios.UnclosedOnce | translator/test/test_stack.cpp:175 | "3 + ( ( 12 / 4 )" throws "Unmatched parentheses" |
| Scenarios.UnopenedTwice | translator/test/test_stack.cpp:176 | "3 + 12 / 4 ) )" throws "Unmatched parentheses" |
| Scenarios.UnopenedOnce | translator/test/test_stack.cpp:177 | "3 + ( 12 / 4 ) )" throws "Unmatched parentheses" |
| Scenarios.DotBeforeNumber | translator/test/test_stack.cpp:182 | ".75 + 2000" fails with "Invalid expression" in translator.h, while Queue.h gives 2000.75 |
| Scenarios.MixedOperands | translator/test/test_stack.cpp:187 | "2.5 + 40" evaluates to 42.5 |
| BoundedStack.Stack.constructor | translator/include/stack.h:15-21 | a positive n gives n slots, none live |
| BoundedStack.Stack.Pop | translator/include/stack.h:24-31 | pop returns the top element and removes it, keeping those below; on an empty stack it fails with "Stack is empty" and changes nothing |
| BoundedStack.Stack.Push | translator/include/stack.h:34-39 | push appends the value when a slot is free; on a full stack it fails with "Stack overflow" and changes nothing |
| BoundedStack.Stack.Top | translator/include/stack.h:42-47 | top fails exactly on an empty stack, otherwise returns the last element |
| BoundedStack.Stack.Size | translator/include/stack.h:49-51 | size is the number of live elements, between 0 and the capacity |
| BoundedStack.Stack.IsEmpty | translator/include/stack.h:53-55 | empty holds exactly when there is no live element |
| BoundedStack.Stack.Equals | translator/include/stack.h:58-68 | `==` holds exactly when the live elements agree; capacity and stale slots do not matter |
| BoundedStack.Stack.NotEquals | translator/include/stack.h:71-73 | `!=` holds exactly when the live elements differ |
| BoundedStack.Create | translator/include/stack.h:15-21 | the constructor fails with "Invalid length" exactly for n <= 0, else gives an empty stack of capacity n |
| BoundedStack.PushThenPop | translator/include/stack.h:24-39 | push(v) then pop() on a stack with room returns v and restores the contents |
| BoundedStack.CreateScenario | translator/test/test_stack.cpp:10-20 | capacities 0 and -5 are refused, 10 is accepted |
| BoundedStack.PushPopScenario | translator/test/test_stack.cpp:22-34 | after pushing 1, 3, 8 and popping 8, the stack equals one of capacity 2 holding 1, 3 |
| BoundedStack.FailureScenario | translator/test/test_stack.cpp:45-63 | pop and top on an empty stack fail, a fifth push on capacity 4 fails, a single element pops |
| BoundedStack.PopReturnsLastScenario | translator/test/test_stack.cpp:36-43 | after pushing 5, 6, 7, pop returns 7 |
| BoundedStack.TopScenario | translator/test/test_stack.cpp:65-76 | top returns the last pushed element, 30, and fails on an empty stack |
| BoundedStack.SizeScenario | translator/test/test_stack.cpp:78-88 | size is 2 after pushing 1 and 2, and 0 on a new stack |
| BoundedStack.EmptyScenario | translator/test/test_stack.cpp:90-99 | empty holds on a new stack and not after pushing 5 |

## Left out

- translator/samples/main.cpp is not part of this model. It is the console loop that reads lines, calls evaluate and prints results or exception messages: I/O.
- `double` arithmetic is exact `real` arithmetic. IEEE rounding, infinities and NaN are not modelled. The checks `b == 0` and `values.size()` are modelled exactly.
- Literal.LiteralValue: models std::stod only on the forms the translators can write: an optional `-`, digits and dots. Exponents, hexadecimal forms, "inf"/"nan", leading white space and `out_of_range` on overflow are not modelled.
- The postfix string is modelled as its list of tokens. The exact spacing `ostringstream` writes is not modelled; only where one token ends and the next begins is.
- translator.h's ERROR state (lines 197-198) is unreachable: no branch ever enters it. The evaluator's "Unknown operator" default (lines 235-236) is unreachable too, because only `+ - * /` reach that switch. The model has neither.
- `std::isdigit` and `std::isspace` are the "C" locale's ASCII versions. Other locales and negative `char` values are not modelled.
- Reading `infix[i + 1]` past the last character gives `'\0'` in C++. The model passes that lookahead as a flag that is false at the end of the input.
- Scenarios: each test line is stated for every input that strips to the test's text. Only "10 + 30" (Scenarios.SpacedLine) is also proved on the exact spaced line; Translator.StrippedAppend and TranslatorFacts.SpacesIgnored relate the two.
- Scenarios.DecimalProduct: the test only asks for a value at most 6.0; the model proves it is exactly 6.
- BoundedStack.Stack: `std::vector<T>` of fixed size is an `array<T>`. T needs a default value and equality, as `std::vector<T>(n)` and `operator==` require. Copying and assignment of stacks (C++ value semantics) are not modelled.
- BoundedStack.Stack.constructor: requires n > 0, because a Dafny constructor cannot fail. The throwing path for n <= 0 is BoundedStack.Create.
- Precedence and grouping are proved for one and two operators between arbitrary operand trees: TranslatorFacts.TranslationOfOne and TranslatorFacts.TranslationOfTwo for translator.h, Buffered.TranslationOfTwo for Queue.h. Longer operator chains rest on TranslatorFacts.PendingOperators and the stack-order lemmas, without a closed-form theorem.
