/**
 Decimal literals: the kernel's literal parser, its scientific-style printer, and the exact rendering
 at eighteen fractional digits by the kernel and by the Python oracle.
 */
module Decimals {
  import opened Wrappers
  import opened Digits

  /** sign, coefficient digits and power of ten, exactly as written. */
  datatype Decimal = Decimal(negative: bool, digits: string, exponent: int)

  datatype Literal = Finite(value: Decimal) | NotFinite

  const EXPONENT_LIMIT: int := 1_000_000_000_000_000

  /** Coefficients carry no leading zero, except zero itself. */
  predicate WellFormed(d: Decimal) {
    d.digits != "" && (forall i :: 0 <= i < |d.digits| ==> IsDigit(d.digits[i])) && (d.digits[0] == '0' ==> d.digits == "0")
  }

  // ---------- reading ----------

  /** Index of the first character equal to a or b, or the length. */
  function IndexOf(text: string, a: char, b: char): (i: nat)
    ensures i <= |text|
    ensures i < |text| ==> text[i] == a || text[i] == b
    ensures forall k :: 0 <= k < i ==> text[k] != a && text[k] != b
  {
    if text == "" || text[0] == a || text[0] == b then 0 else 1 + IndexOf(text[1..], a, b)
  }

  predicate DigitText(text: string) {
    forall i :: 0 <= i < |text| ==> IsDigit(text[i])
  }

  function TrimStart(text: string): (t: string)
    requires DigitText(text)
    ensures DigitText(t) && NatOf(t) == NatOf(text)
    ensures t != "" ==> t[0] != '0'
    ensures t == "" <==> NatOf(text) == 0
  {
    if text == "" then ""
    else if text[0] == '0' then
      LeadingZero(text);
      TrimStart(text[1..])
    else
      PositiveLead(text);
      text
  }

  lemma LeadingZero(text: string)
    requires text != "" && DigitText(text) && text[0] == '0'
    ensures NatOf(text[1..]) == NatOf(text)
  {
    NatOfConcat(text[..1], text[1..]);
    assert text == text[..1] + text[1..];
    assert text[..1][..0] == "";
  }

  lemma PositiveLead(text: string)
    requires text != "" && DigitText(text) && text[0] != '0'
    ensures NatOf(text) > 0
  {
    if |text| == 1 {
      assert text[..0] == "";
    }
    NatTextOfNatOf(text);
  }

  function Lower(c: char): char {
    if 'A' <= c <= 'Z' then c - 'A' + 'a' else c
  }

  function LowerText(text: string): string {
    seq(|text|, i requires 0 <= i < |text| => Lower(text[i]))
  }

  predicate Signed(text: string) {
    text != "" && (text[0] == '+' || text[0] == '-')
  }

  function Unsigned(text: string): string {
    if Signed(text) then text[1..] else text
  }

  predicate Minus(text: string) {
    text != "" && text[0] == '-'
  }

  /** Infinities and NaNs with an optional digit payload. */
  predicate Special(lower: string) {
    || lower == "inf" || lower == "infinity"
    || ("snan" <= lower && DigitText(lower[4..]))
    || ("nan" <= lower && DigitText(lower[3..]))
  }

  predicate SpecialLead(lower: string) {
    "snan" <= lower || "nan" <= lower
  }

  /** An exponent text, refused when empty, not digits or past the limit. */
  function ExponentOf(text: string): Option<int> {
    var digits := Unsigned(text);
    if digits == "" || !DigitText(digits) || NatOf(digits) > EXPONENT_LIMIT then None
    else
      var value: int := NatOf(digits);
      Some(if Minus(text) then -value else value)
  }

  /** Coefficient and exponent of a mantissa with the given further power of ten. */
  function MantissaOf(negative: bool, mantissa: string, power: int): Option<Decimal> {
    var dot := IndexOf(mantissa, '.', '.');
    var fraction := if dot < |mantissa| then mantissa[dot + 1..] else "";
    if mantissa[..dot] + fraction == "" || !DigitText(mantissa[..dot] + fraction) then None
    else
      var significant := TrimStart(mantissa[..dot] + fraction);
      Some(if significant == "" then Decimal(negative, "0", 0) else Decimal(negative, significant, power - |fraction|))
  }

  function ParseLiteral(text: string): Option<Literal> {
    var body := Unsigned(text);
    var lower := LowerText(body);
    if Special(lower) then Some(NotFinite)
    else if SpecialLead(lower) then None
    else
      var e := IndexOf(body, 'e', 'E');
      var power := if e < |body| then ExponentOf(body[e + 1..]) else Some(0);
      if power.None? then None
      else
        var d := MantissaOf(Minus(text), body[..e], power.value);
        if d.None? then None else Some(Finite(d.value))
  }

  /** The kernel's digit loop for exponents, giving up as soon as the limit is passed. */
  method ParseExponentDigits(digits: string) returns (r: Option<nat>)
    requires DigitText(digits)
    ensures r == if NatOf(digits) > EXPONENT_LIMIT then None else Some(NatOf(digits))
  {
    var parsed: nat := 0;
    for i := 0 to |digits|
      invariant parsed == NatOf(digits[..i]) <= EXPONENT_LIMIT
    {
      assert digits[..i + 1][..i] == digits[..i];
      parsed := parsed * 10 + DigitValue(digits[i]);
      if parsed > EXPONENT_LIMIT {
        PrefixBound(digits, i + 1);
        return None;
      }
    }
    assert digits[..|digits|] == digits;
    r := Some(parsed);
  }

  lemma PrefixBound(digits: string, i: nat)
    requires DigitText(digits) && i <= |digits|
    ensures NatOf(digits[..i]) <= NatOf(digits)
  {
    NatOfConcat(digits[..i], digits[i..]);
    assert digits == digits[..i] + digits[i..];
    ProductAtLeast(NatOf(digits[..i]), Pow10(|digits[i..]|));
  }

  lemma ProductAtLeast(x: nat, y: nat)
    requires y >= 1
    ensures x * y >= x
  {
  }

  // ---------- printing ----------

  /** The printer used for finite decimals: plain near the point, scientific otherwise. */
  function Display(d: Decimal): string
    requires d.digits != ""
  {
    var adjusted := d.exponent + |d.digits| - 1;
    var sign := if d.negative then "-" else "";
    if d.exponent <= 0 && adjusted >= -6 then
      var whole := |d.digits| + d.exponent;
      sign + if d.exponent == 0 then d.digits
             else if whole > 0 then d.digits[..whole] + "." + d.digits[whole..]
             else "0." + Zeroes(-whole) + d.digits
    else
      sign + [d.digits[0]] + (if |d.digits| > 1 then "." + d.digits[1..] else "")
        + "E" + (if adjusted >= 0 then "+" else "-") + NatText(if adjusted >= 0 then adjusted else -adjusted)
  }

  // ---------- printing then reading ----------

  lemma {:induction false} TrimZeroes(k: nat, digits: string)
    requires DigitText(digits) && digits != "" && digits[0] != '0'
    ensures TrimStart(Zeroes(k) + digits) == digits
  {
    if k == 0 {
      assert Zeroes(0) + digits == digits;
    } else {
      TrimZeroes(k - 1, digits);
      assert (Zeroes(k) + digits)[1..] == Zeroes(k - 1) + digits;
    }
  }

  lemma PointPlace(whole: string, fraction: string)
    requires DigitText(whole)
    ensures var mantissa := whole + "." + fraction;
      && IndexOf(mantissa, '.', '.') == |whole| < |mantissa|
      && mantissa[..|whole|] == whole && mantissa[|whole| + 1..] == fraction
  {
    var mantissa := whole + "." + fraction;
    assert mantissa[|whole|] == '.';
    assert forall k :: 0 <= k < |whole| ==> mantissa[k] == whole[k];
  }

  /** A mantissa with its point in a known place. */
  lemma PointedMantissa(negative: bool, whole: string, fraction: string, power: int, digits: string)
    requires DigitText(whole) && DigitText(fraction) && whole + fraction != ""
    requires digits != "" && TrimStart(whole + fraction) == digits
    ensures MantissaOf(negative, whole + "." + fraction, power) == Some(Decimal(negative, digits, power - |fraction|))
  {
    hide IndexOf, TrimStart;
    PointPlace(whole, fraction);
  }

  lemma PlainMantissa(negative: bool, digits: string, power: int)
    requires DigitText(digits) && digits != "" && digits[0] != '0'
    ensures MantissaOf(negative, digits, power) == Some(Decimal(negative, digits, power))
  {
    assert digits[..|digits|] + "" == digits;
  }

  /** A body that starts with a digit is no infinity and no NaN. */
  lemma DigitLead(body: string)
    requires body != "" && IsDigit(body[0])
    ensures !Special(LowerText(body)) && !SpecialLead(LowerText(body))
    ensures !Signed(body)
  {
    assert LowerText(body)[0] == body[0];
  }

  lemma SignedBody(negative: bool, body: string)
    requires body != "" && IsDigit(body[0])
    ensures var text := (if negative then "-" else "") + body;
      Unsigned(text) == body && Minus(text) == negative
  {
  }

  /** Reading a text without an exponent part. */
  lemma ReadPlain(negative: bool, body: string)
    requires body != "" && IsDigit(body[0])
    requires forall i :: 0 <= i < |body| ==> body[i] != 'e' && body[i] != 'E'
    ensures var d := MantissaOf(negative, body, 0);
      ParseLiteral((if negative then "-" else "") + body) == if d.None? then None else Some(Finite(d.value))
  {
    hide Special, SpecialLead, MantissaOf, LowerText, ExponentOf;
    DigitLead(body);
    SignedBody(negative, body);
    assert body[..|body|] == body;
  }

  lemma ReadScientific(negative: bool, mantissa: string, exponent: string)
    requires mantissa != "" && IsDigit(mantissa[0])
    requires forall i :: 0 <= i < |mantissa| ==> mantissa[i] != 'e' && mantissa[i] != 'E'
    requires ExponentOf(exponent).Some?
    ensures var d := MantissaOf(negative, mantissa, ExponentOf(exponent).value);
      ParseLiteral((if negative then "-" else "") + mantissa + "E" + exponent) == if d.None? then None else Some(Finite(d.value))
  {
    hide Special, SpecialLead, MantissaOf, LowerText, ExponentOf, IndexOf;
    var body := mantissa + "E" + exponent;
    assert (if negative then "-" else "") + mantissa + "E" + exponent == (if negative then "-" else "") + body;
    ExponentPlace(mantissa, exponent);
    DigitLead(body);
    SignedBody(negative, body);
  }

  lemma ExponentPlace(mantissa: string, exponent: string)
    requires mantissa != ""
    requires forall i :: 0 <= i < |mantissa| ==> mantissa[i] != 'e' && mantissa[i] != 'E'
    ensures var body := mantissa + "E" + exponent;
      && body[0] == mantissa[0]
      && IndexOf(body, 'e', 'E') == |mantissa| < |body|
      && body[..|mantissa|] == mantissa && body[|mantissa| + 1..] == exponent
  {
    var body := mantissa + "E" + exponent;
    assert body[|mantissa|] == 'E';
    assert forall k :: 0 <= k < |mantissa| ==> body[k] == mantissa[k];
  }

  function Adjusted(d: Decimal): int {
    d.exponent + |d.digits| - 1
  }

  function ExponentText(adjusted: int): string {
    (if adjusted >= 0 then "+" else "-") + NatText(if adjusted >= 0 then adjusted else -adjusted)
  }

  lemma ExponentTextReads(adjusted: int)
    requires -EXPONENT_LIMIT <= adjusted <= EXPONENT_LIMIT
    ensures ExponentOf(ExponentText(adjusted)) == Some(adjusted)
  {
    var n: nat := if adjusted >= 0 then adjusted else -adjusted;
    NatOfNatText(n);
    assert ExponentText(adjusted)[1..] == NatText(n);
  }

  /** Reading whole.fraction without an exponent part. */
  lemma ReadPointed(negative: bool, whole: string, fraction: string, digits: string)
    requires DigitText(whole) && DigitText(fraction) && whole != ""
    requires digits != "" && TrimStart(whole + fraction) == digits
    ensures ParseLiteral((if negative then "-" else "") + (whole + "." + fraction))
         == Some(Finite(Decimal(negative, digits, -|fraction|)))
  {
    hide ParseLiteral, MantissaOf, TrimStart;
    PointedMantissa(negative, whole, fraction, 0, digits);
    var body := whole + "." + fraction;
    assert body[0] == whole[0];
    assert forall i :: 0 <= i < |body| ==> body[i] == '.' || IsDigit(body[i]);
    ReadPlain(negative, body);
  }

  lemma SplitDisplayReads(d: Decimal, whole: nat)
    requires WellFormed(d) && d.digits != "0"
    requires d.exponent < 0 && Adjusted(d) >= -6 && whole == |d.digits| + d.exponent > 0
    ensures ParseLiteral(Display(d)) == Some(Finite(d))
  {
    hide ParseLiteral, TrimStart, Display;
    TrimOwn(d.digits);
    assert d.digits[..whole] + d.digits[whole..] == d.digits;
    ReadPointed(d.negative, d.digits[..whole], d.digits[whole..], d.digits);
    SplitDisplay(d, whole);
  }

  lemma TrimOwn(digits: string)
    requires DigitText(digits) && digits != "" && digits[0] != '0'
    ensures TrimStart(digits) == digits
  {
  }

  lemma SplitDisplay(d: Decimal, whole: nat)
    requires d.digits != "" && d.exponent < 0 && Adjusted(d) >= -6 && whole == |d.digits| + d.exponent > 0
    ensures Display(d) == (if d.negative then "-" else "") + (d.digits[..whole] + "." + d.digits[whole..])
  {
  }

  lemma SmallDisplayReads(d: Decimal, zeroes: nat)
    requires WellFormed(d) && d.digits != "0"
    requires d.exponent < 0 && Adjusted(d) >= -6 && zeroes == -(|d.digits| + d.exponent)
    ensures ParseLiteral(Display(d)) == Some(Finite(d))
  {
    hide ParseLiteral, TrimStart, Display;
    var fraction := Zeroes(zeroes) + d.digits;
    TrimZeroes(1 + zeroes, d.digits);
    assert Zeroes(1 + zeroes) == "0" + Zeroes(zeroes);
    assert "0" + fraction == Zeroes(1 + zeroes) + d.digits;
    ReadPointed(d.negative, "0", fraction, d.digits);
    SmallDisplay(d, zeroes);
  }

  lemma SmallDisplay(d: Decimal, zeroes: nat)
    requires d.digits != "" && d.exponent < 0 && Adjusted(d) >= -6 && zeroes == -(|d.digits| + d.exponent)
    ensures Display(d) == (if d.negative then "-" else "") + ("0" + "." + (Zeroes(zeroes) + d.digits))
  {
  }

  lemma WholeDisplayReads(d: Decimal)
    requires WellFormed(d) && d.digits != "0" && d.exponent == 0
    ensures ParseLiteral(Display(d)) == Some(Finite(d))
  {
    hide ParseLiteral, MantissaOf, TrimStart;
    PlainMantissa(d.negative, d.digits, 0);
    ReadPlain(d.negative, d.digits);
  }

  lemma PlainDisplayReads(d: Decimal)
    requires WellFormed(d) && d.digits != "0"
    requires d.exponent <= 0 && Adjusted(d) >= -6
    ensures ParseLiteral(Display(d)) == Some(Finite(d))
  {
    hide ParseLiteral, Display;
    if d.exponent == 0 {
      WholeDisplayReads(d);
    } else if |d.digits| + d.exponent > 0 {
      SplitDisplayReads(d, |d.digits| + d.exponent);
    } else {
      SmallDisplayReads(d, -(|d.digits| + d.exponent));
    }
  }

  /** The mantissa printed before an exponent part. */
  function LeadMantissa(digits: string): string
    requires digits != ""
  {
    [digits[0]] + if |digits| > 1 then "." + digits[1..] else ""
  }

  lemma LeadMantissaReads(negative: bool, digits: string, power: int)
    requires DigitText(digits) && digits != "" && digits[0] != '0'
    ensures MantissaOf(negative, LeadMantissa(digits), power) == Some(Decimal(negative, digits, power - |digits| + 1))
    ensures forall i :: 0 <= i < |LeadMantissa(digits)| ==> LeadMantissa(digits)[i] != 'e' && LeadMantissa(digits)[i] != 'E'
  {
    hide MantissaOf, TrimStart;
    if |digits| == 1 {
      assert LeadMantissa(digits) == digits;
      PlainMantissa(negative, digits, power);
    } else {
      TrimZeroes(0, digits);
      assert Zeroes(0) + digits == digits;
      assert [digits[0]] + digits[1..] == digits;
      PointedMantissa(negative, [digits[0]], digits[1..], power, digits);
      assert LeadMantissa(digits) == [digits[0]] + "." + digits[1..];
    }
  }

  lemma ScientificDisplay(d: Decimal)
    requires d.digits != "" && !(d.exponent <= 0 && Adjusted(d) >= -6)
    ensures Display(d) == (if d.negative then "-" else "") + LeadMantissa(d.digits) + "E" + ExponentText(Adjusted(d))
  {
  }

  lemma ScientificDisplayReads(d: Decimal)
    requires WellFormed(d) && d.digits != "0"
    requires !(d.exponent <= 0 && Adjusted(d) >= -6)
    requires -EXPONENT_LIMIT <= Adjusted(d) <= EXPONENT_LIMIT
    ensures ParseLiteral(Display(d)) == Some(Finite(d))
  {
    hide ParseLiteral, MantissaOf, ExponentOf, Display, ExponentText;
    ExponentTextReads(Adjusted(d));
    LeadMantissaReads(d.negative, d.digits, Adjusted(d));
    ReadScientific(d.negative, LeadMantissa(d.digits), ExponentText(Adjusted(d)));
    ScientificDisplay(d);
  }

  /** Printing a nonzero decimal and reading it back restores sign, coefficient and exponent. */
  lemma DisplayRoundTrip(d: Decimal)
    requires WellFormed(d) && d.digits != "0"
    requires -EXPONENT_LIMIT <= Adjusted(d) <= EXPONENT_LIMIT
    ensures ParseLiteral(Display(d)) == Some(Finite(d))
  {
    hide ParseLiteral, Display;
    if d.exponent <= 0 && Adjusted(d) >= -6 {
      PlainDisplayReads(d);
    } else {
      ScientificDisplayReads(d);
    }
  }
}
