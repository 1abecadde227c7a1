/**
 Exact rendering of decimals at eighteen fractional digits.  The Python oracle works on the value, the
 kernel on the digit string; a value that needs more digits is refused, never rounded.
 */
module Q18 {
  import opened Wrappers
  import opened Arith
  import opened Digits
  import opened Decimals

  const PLACES: int := 18

  function Magnitude(m: int): nat {
    if m < 0 then -m else m
  }

  function SignedBy(negative: bool, n: nat): int {
    var value: int := n;
    if negative then -value else value
  }

  /** Digits padded on the left with zeros to at least nineteen. */
  function PadTo19(digits: string): (text: string)
    ensures |text| >= PLACES + 1
    ensures DigitText(digits) ==> DigitText(text)
  {
    if |digits| < PLACES + 1 then Zeroes(PLACES + 1 - |digits|) + digits else digits
  }

  /** The point goes before the last eighteen digits. */
  function PointBefore18(text: string): string
    requires |text| >= PLACES + 1
  {
    text[..|text| - PLACES] + "." + text[|text| - PLACES..]
  }

  /** m units of 10^-18 as text: sign, whole part, point, exactly eighteen digits. */
  function RenderQuanta(m: int): string {
    (if m < 0 then "-" else "") + PointBefore18(PadTo19(NatText(Magnitude(m))))
  }

  /** The value in units of 10^-18, when it is a whole number of them. */
  function Quanta(d: Decimal): Option<int>
    requires WellFormed(d)
  {
    var shift := d.exponent + PLACES;
    if shift >= 0 then Some(SignedBy(d.negative, NatOf(d.digits) * Pow10(shift)))
    else if NatOf(d.digits) % Pow10(-shift) == 0 then Some(SignedBy(d.negative, NatOf(d.digits) / Pow10(-shift)))
    else None
  }

  /** The oracle: scale by 10^18, refuse a remainder, print. */
  function OracleRender(d: Decimal): Option<string>
    requires WellFormed(d)
  {
    var quanta :- Quanta(d);
    Some(RenderQuanta(quanta))
  }

  function TrimEnd(text: string): (t: string)
    ensures t <= text
    ensures forall i :: |t| <= i < |text| ==> text[i] == '0'
    ensures t != "" ==> t[|t| - 1] != '0'
  {
    if text == "" || text[|text| - 1] != '0' then text else TrimEnd(text[..|text| - 1])
  }

  lemma AppendZeroes(text: string, k: nat)
    requires DigitText(text)
    ensures DigitText(text + Zeroes(k)) && NatOf(text + Zeroes(k)) == NatOf(text) * Pow10(k)
  {
    NatOfConcat(text, Zeroes(k));
    NatOfZeroes(k);
  }

  lemma TrimEndValue(text: string)
    requires DigitText(text)
    ensures DigitText(TrimEnd(text)) && NatOf(text) == NatOf(TrimEnd(text)) * Pow10(|text| - |TrimEnd(text)|)
  {
    var t := TrimEnd(text);
    assert text == t + Zeroes(|text| - |t|);
    AppendZeroes(t, |text| - |t|);
  }

  lemma LastDigit(text: string)
    requires DigitText(text) && text != ""
    ensures NatOf(text) % 10 == DigitValue(text[|text| - 1])
  {
  }

  lemma {:induction false} DivisibleByTen(x: nat, k: nat)
    requires k > 0 && x % Pow10(k) == 0
    ensures x % 10 == 0
  {
    var q := x / Pow10(k);
    assert x == Pow10(k) * q;
    assert x == 10 * (Pow10(k - 1) * q);
  }

  /** With trailing zeros moved into the exponent, the value is whole exactly when no negative power is left. */
  lemma QuantaOfTrimmed(d: Decimal)
    requires WellFormed(d) && d.digits != "0"
    ensures var t := TrimEnd(d.digits);
      var shift := d.exponent + (|d.digits| - |t|) + PLACES;
      && t != "" && DigitText(t) && t[0] == d.digits[0]
      && Quanta(d) == if shift >= 0 then Some(SignedBy(d.negative, NatOf(t) * Pow10(shift))) else None
  {
    hide TrimEnd, Pow10, NatOf;
    var t := TrimEnd(d.digits);
    TrimEndValue(d.digits);
    NatTextOfNatOf(d.digits);
    assert t != "" by { EmptyIsZero(t); }
    var tz, e := |d.digits| - |t|, d.exponent + PLACES;
    if e >= 0 {
      ShiftUp(NatOf(t), tz, e);
    } else if e + tz >= 0 {
      ShiftPartly(NatOf(d.digits), NatOf(t), tz, -e);
    } else {
      NotWhole(NatOf(d.digits), t, tz, -e);
    }
  }

  lemma EmptyIsZero(t: string)
    requires DigitText(t)
    ensures t == "" ==> NatOf(t) == 0 && forall k: nat :: NatOf(t) * Pow10(k) == 0
  {
  }

  lemma ShiftUp(x: nat, tz: nat, e: nat)
    ensures (x * Pow10(tz)) * Pow10(e) == x * Pow10(tz + e)
  {
    Pow10Adds(tz, e);
    MulAssociates(x, Pow10(tz), Pow10(e));
  }

  lemma ShiftPartly(n: nat, x: nat, tz: nat, k: nat)
    requires k <= tz && n == x * Pow10(tz)
    ensures n % Pow10(k) == 0 && n / Pow10(k) == x * Pow10(tz - k)
  {
    hide Pow10;
    ShiftUp(x, tz - k, k);
    ExactQuotient(n, Pow10(k), x * Pow10(tz - k));
  }

  lemma NotWhole(n: nat, t: string, tz: nat, k: nat)
    requires DigitText(t) && t != "" && t[|t| - 1] != '0' && k > tz
    requires n == NatOf(t) * Pow10(tz)
    ensures n % Pow10(k) != 0
  {
    hide Pow10, NatOf;
    if n % Pow10(k) == 0 {
      var q := n / Pow10(k);
      ShiftUp(q, k - tz, tz);
      assert n == q * Pow10(k);
      CancelFactor(NatOf(t), q * Pow10(k - tz), Pow10(tz));
      ExactQuotient(NatOf(t), Pow10(k - tz), q);
      DivisibleByTen(NatOf(t), k - tz);
      LastDigit(t);
    }
  }

  /** One zero at a time in front, until there are nineteen digits. */
  method PadLeft(digits: string) returns (magnitude: string)
    ensures magnitude == PadTo19(digits)
  {
    magnitude := digits;
    ghost var padding := 0;
    assert Zeroes(0) + digits == digits;
    while |magnitude| < PLACES + 1
      invariant magnitude == Zeroes(padding) + digits
      invariant padding > 0 ==> |magnitude| <= PLACES + 1
      decreases PLACES + 1 - |magnitude|
    {
      magnitude := "0" + magnitude;
      padding := padding + 1;
      assert Zeroes(padding) == "0" + Zeroes(padding - 1);
    }
  }

  /** The kernel's renderer works on the digit string alone, and agrees with the oracle on every decimal. */
  method RenderFinite(negative: bool, digits: string, exponent: int) returns (r: Option<string>)
    requires WellFormed(Decimal(negative, digits, exponent))
    ensures r == OracleRender(Decimal(negative, digits, exponent))
  {
    hide Pow10, NatOf, NatText, TrimEnd, PadTo19, PointBefore18, Quanta;
    if digits == "0" {
      ZeroRenders(Decimal(negative, digits, exponent));
      return Some("0.000000000000000000");
    }
    QuantaOfTrimmed(Decimal(negative, digits, exponent));
    var significant := TrimEnd(digits);
    var shifted := exponent + (|digits| - |significant|);
    if shifted < -PLACES {
      return None;
    }
    var magnitude := significant + Zeroes(shifted + PLACES);
    AppendZeroes(significant, shifted + PLACES);
    SignificantText(significant, magnitude);
    magnitude := PadLeft(magnitude);
    r := Some((if negative then "-" else "") + PointBefore18(magnitude));
  }

  /** A digit string without a leading zero is the printed form of its value, which is positive. */
  lemma SignificantText(significant: string, magnitude: string)
    requires significant != "" && significant[0] != '0' && DigitText(magnitude) && significant <= magnitude
    ensures NatOf(magnitude) > 0 && NatText(NatOf(magnitude)) == magnitude
  {
    assert magnitude[0] == significant[0];
    NatTextOfNatOf(magnitude);
  }

  lemma ZeroRenders(d: Decimal)
    requires WellFormed(d) && d.digits == "0"
    ensures OracleRender(d) == Some("0.000000000000000000")
  {
    hide Pow10, RenderQuanta;
    assert NatOf("0") == 0 by { assert "0"[..0] == ""; }
    if d.exponent + PLACES < 0 {
      ExactQuotient(0, Pow10(-(d.exponent + PLACES)), 0);
    }
    assert Quanta(d) == Some(0);
    ZeroText();
  }

  lemma ZeroText()
    ensures RenderQuanta(0) == "0.000000000000000000"
  {
    hide NatText;
    assert NatText(0) == "0";
    var text := PadTo19("0");
    assert text[..1] == "0";
    assert text[1..] == "000000000000000000" by {
      assert |text[1..]| == 18 && forall i :: 0 <= i < 18 ==> text[1..][i] == '0';
    }
    assert PointBefore18(text) == "0" + "." + "000000000000000000";
  }

  // ---------- reading a rendered text back ----------

  lemma PaddedReads(n: nat)
    ensures NatOf(PadTo19(NatText(n))) == n
    ensures TrimStart(PadTo19(NatText(n))) == if n == 0 then "" else NatText(n)
  {
    hide NatText, NatOf, Pow10;
    var digits := NatText(n);
    NatOfNatText(n);
    var k := if |digits| < PLACES + 1 then PLACES + 1 - |digits| else 0;
    assert Zeroes(0) + digits == digits;
    assert PadTo19(digits) == Zeroes(k) + digits;
    NatOfConcat(Zeroes(k), digits);
    NatOfZeroes(k);
    if n != 0 {
      TrimZeroes(k, digits);
    }
  }

  /** A rendered text reads back as a decimal worth exactly the rendered quanta. */
  lemma RenderReads(m: int)
    ensures ParseLiteral(RenderQuanta(m)).Some? && ParseLiteral(RenderQuanta(m)).value.Finite?
    ensures var d := ParseLiteral(RenderQuanta(m)).value.value; WellFormed(d) && Quanta(d) == Some(m)
  {
    hide ParseLiteral, PadTo19, TrimStart, NatText, NatOf;
    var n := Magnitude(m);
    var text := PadTo19(NatText(n));
    var whole, fraction := text[..|text| - PLACES], text[|text| - PLACES..];
    assert whole + fraction == text;
    PaddedReads(n);
    if n == 0 {
      ReadZero(m < 0, whole, fraction);
      ZeroQuanta(m < 0);
    } else {
      ReadPointed(m < 0, whole, fraction, NatText(n));
      TextQuanta(m);
    }
  }

  lemma ZeroQuanta(negative: bool)
    ensures WellFormed(Decimal(negative, "0", 0)) && Quanta(Decimal(negative, "0", 0)) == Some(0)
  {
    hide Pow10;
    assert NatOf("0") == 0 by { assert "0"[..0] == ""; }
  }

  lemma TextQuanta(m: int)
    requires m != 0
    ensures var d := Decimal(m < 0, NatText(Magnitude(m)), -PLACES); WellFormed(d) && Quanta(d) == Some(m)
  {
    hide NatText, NatOf;
    NatOfNatText(Magnitude(m));
  }

  lemma ReadZero(negative: bool, whole: string, fraction: string)
    requires DigitText(whole) && DigitText(fraction) && whole != "" && TrimStart(whole + fraction) == ""
    ensures ParseLiteral((if negative then "-" else "") + (whole + "." + fraction)) == Some(Finite(Decimal(negative, "0", 0)))
  {
    hide ParseLiteral, TrimStart, IndexOf;
    var body := whole + "." + fraction;
    PointPlace(whole, fraction);
    assert MantissaOf(negative, body, 0) == Some(Decimal(negative, "0", 0));
    assert body[0] == whole[0];
    assert forall i :: 0 <= i < |body| ==> body[i] == '.' || IsDigit(body[i]);
    ReadPlain(negative, body);
  }

  lemma RenderInjective(m: int, m': int)
    requires RenderQuanta(m) == RenderQuanta(m')
    ensures m == m'
  {
    hide RenderQuanta, ParseLiteral, Quanta;
    RenderReads(m);
    RenderReads(m');
  }

  /** The whole text path of the kernel on a finite literal: parse, then render. */
  lemma RenderRoundTrip(d: Decimal)
    requires WellFormed(d) && OracleRender(d).Some?
    ensures var again := ParseLiteral(OracleRender(d).value);
      again.Some? && again.value.Finite? && WellFormed(again.value.value) && Quanta(again.value.value) == Quanta(d)
  {
    hide RenderQuanta, ParseLiteral;
    RenderReads(Quanta(d).value);
  }
}
