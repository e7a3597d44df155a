// Numeric literals: what std::stod makes of the tokens the evaluators hand it
// (translator/include/translator.h:217, translator/include/Queue.h:100), with
// double replaced by real, and the decimal spelling of a natural number.

module Literal {
  import opened Common

  function DigitValue(c: char): (d: nat)
    requires IsDigit(c)
    ensures d <= 9
  {
    (c as int) - ('0' as int)
  }

  function DigitChar(d: nat): (c: char)
    requires d <= 9
    ensures IsDigit(c) && DigitValue(c) == d
  {
    (('0' as int) + d) as char
  }

  predicate AllDigits(s: string) {
    forall i | 0 <= i < |s| :: IsDigit(s[i])
  }

  /** The length of the run of digits at the front of s. */
  function LeadingDigits(s: string): (k: nat)
    ensures k <= |s|
    ensures AllDigits(s[..k])
    ensures k < |s| ==> !IsDigit(s[k])
  {
    if s == [] || !IsDigit(s[0]) then 0
    else
      var k := 1 + LeadingDigits(s[1..]);
      assert s[..k] == [s[0]] + s[1..][..k - 1];
      k
  }

  /** The value of a string of decimal digits, most significant digit first. */
  function DigitsValue(s: string): nat
    requires AllDigits(s)
  {
    if s == [] then 0 else 10 * DigitsValue(s[..|s| - 1]) + DigitValue(s[|s| - 1])
  }

  function Pow10(n: nat): (p: nat)
    ensures p >= 1
  {
    if n == 0 then 1 else 10 * Pow10(n - 1)
  }

  /** The unsigned texts in which std::stod finds a number: a digit first, or a
      '.' followed by a digit. */
  predicate StartsNumber(s: string) {
    |s| > 0 && (IsDigit(s[0]) || (s[0] == '.' && |s| > 1 && IsDigit(s[1])))
  }

  /** std::stod on a text without a sign: the longest prefix of the form
      digits ['.' digits] that holds at least one digit, converted exactly;
      None where stod throws std::invalid_argument. */
  function UnsignedValue(s: string): (r: Option<real>)
    ensures r.Some? <==> StartsNumber(s)
    ensures r.Some? ==> r.value >= 0.0
  {
    var k := LeadingDigits(s);
    var whole := DigitsValue(s[..k]) as real;
    if k < |s| && s[k] == '.' then
      var f := LeadingDigits(s[k + 1..]);
      if k == 0 && f == 0 then None
      else Some(whole + (DigitsValue(s[k + 1..][..f]) as real) / (Pow10(f) as real))
    else if k == 0 then None
    else Some(whole)
  }

  /** std::stod on a token: an optional leading '-' negates the unsigned value
      that follows it. */
  function LiteralValue(t: string): (r: Option<real>)
    ensures |t| > 0 && t[0] == '-' ==>
              r.Some? == StartsNumber(t[1..]) && (r.Some? ==> r.value <= 0.0)
    ensures !(|t| > 0 && t[0] == '-') ==> r.Some? == StartsNumber(t) && (r.Some? ==> r.value >= 0.0)
  {
    if |t| > 0 && t[0] == '-' then
      match UnsignedValue(t[1..])
      case None => None
      case Some(v) => Some(-v)
    else UnsignedValue(t)
  }

  /** The decimal spelling of n, without leading zeros. */
  function Decimal(n: nat): (s: string)
    ensures |s| > 0 && AllDigits(s)
    ensures DigitsValue(s) == n
    ensures s[0] != '0' || n == 0
  {
    if n < 10 then [DigitChar(n)]
    else
      var s := Decimal(n / 10) + [DigitChar(n % 10)];
      assert s[..|s| - 1] == Decimal(n / 10);
      s
  }

  lemma {:induction false} AllDigitsLeading(s: string)
    requires AllDigits(s)
    ensures LeadingDigits(s) == |s|
  {
    if s != [] {
      AllDigitsLeading(s[1..]);
    }
  }

  /** stod reads back the decimal spelling of every natural number. */
  lemma {:induction false} DecimalRoundTrip(n: nat)
    ensures LiteralValue(Decimal(n)) == Some(n as real)
  {
    var s := Decimal(n);
    AllDigitsLeading(s);
    assert s[..|s|] == s;
  }

  /** A run of fraction digits. */
  type Digits = s: string | AllDigits(s) witness []

  /** The number written with integer part `whole` and fraction digits
      `fraction`. */
  function FixedValue(whole: nat, fraction: Digits): real {
    (whole as real) + (DigitsValue(fraction) as real) / (Pow10(|fraction|) as real)
  }

  /** Its spelling: the integer part in decimal and, when there are fraction
      digits, '.' and those digits. */
  function Spelling(whole: nat, fraction: Digits): (s: string)
    ensures |s| > 0 && IsDigit(s[0]) && IsDigit(s[|s| - 1])
    ensures forall i | 0 <= i < |s| :: IsDigit(s[i]) || s[i] == '.'
  {
    if fraction == [] then Decimal(whole) else Decimal(whole) + "." + fraction
  }

  lemma {:induction false} LeadingDigitsOf(w: string, rest: string)
    requires AllDigits(w)
    requires rest != [] && !IsDigit(rest[0])
    ensures LeadingDigits(w + rest) == |w|
    decreases |w|
  {
    if w == [] {
      assert w + rest == rest;
    } else {
      assert (w + rest)[1..] == w[1..] + rest;
      LeadingDigitsOf(w[1..], rest);
    }
  }

  /** stod reads back every spelling at its value. */
  lemma {:induction false} SpellingRoundTrip(whole: nat, fraction: Digits)
    ensures LiteralValue(Spelling(whole, fraction)) == Some(FixedValue(whole, fraction))
  {
    if fraction == [] {
      DecimalRoundTrip(whole);
    } else {
      var w := Decimal(whole);
      var s := Spelling(whole, fraction);
      assert s == w + ("." + fraction);
      LeadingDigitsOf(w, "." + fraction);
      assert s[..|w|] == w && s[|w|] == '.';
      assert s[|w| + 1..] == fraction;
      AllDigitsLeading(fraction);
      assert fraction[..|fraction|] == fraction;
    }
  }

  /** stod stops at the second '.', so "1.2.3" reads as 1.2; a lone '.' or '-'
      is not a number. */
  lemma {:induction false} PrefixExamples()
    ensures LiteralValue("1.2.3") == Some(1.2)
    ensures LiteralValue("-.5") == Some(-0.5)
    ensures LiteralValue("2.") == Some(2.0)
    ensures LiteralValue(".") == None && LiteralValue("-") == None && LiteralValue("-.") == None
  {
    assert LeadingDigits("1.2.3") == 1;
    assert "1.2.3"[2..] == "2.3";
    assert LeadingDigits("2.3") == 1;
    assert LeadingDigits(".5") == 0;
    assert ".5"[1..] == "5";
    assert LeadingDigits("5") == 1;
    assert LeadingDigits("2.") == 1;
  }
}
