/**
 The numeric text policy: plain decimals, scientific notation expanded as text, and the
 decimal128(38,18) budget.  Accepted text is exact, fits the budget, and renders identically in both
 renderers.
 */
module NumericPolicy {
  import opened Wrappers
  import opened Arith
  import opened Digits
  import opened Decimals
  import opened Q18

  const MAX_INTEGER_PLACES: nat := 20
  const MAX_FRACTIONAL_PLACES: nat := 18
  const MAX_TOTAL_DIGITS: nat := 38

  datatype Error = Malformed | TooManyFractionalDigits | TooManyIntegerPlaces | TooManyDigits

  function WholePart(text: string): string {
    text[..IndexOf(text, '.', '.')]
  }

  function FractionPart(text: string): string {
    var dot := IndexOf(text, '.', '.');
    if dot < |text| then text[dot + 1..] else ""
  }

  /** (0|[1-9][0-9]*)(\.[0-9]+)? */
  predicate PlainNumber(text: string) {
    var whole, fraction := WholePart(text), FractionPart(text);
    && whole != "" && DigitText(whole) && (whole[0] == '0' ==> |whole| == 1)
    && DigitText(fraction) && ('.' in text ==> fraction != "")
  }

  function IntOf(text: string): int
    requires DigitText(Unsigned(text))
  {
    var value: int := NatOf(Unsigned(text));
    if Minus(text) then -value else value
  }

  /** Mantissa and exponent texts, when the text is in scientific notation. */
  function SplitScientific(text: string): Option<(string, string)> {
    var e := IndexOf(text, 'e', 'E');
    if e == |text| then None
    else
      var mantissa, exponent := text[..e], text[e + 1..];
      if PlainNumber(Unsigned(mantissa)) && Unsigned(exponent) != "" && DigitText(Unsigned(exponent))
      then Some((mantissa, exponent)) else None
  }

  /** The point moved to its place inside, before or after the digits. */
  function PlacePoint(digits: string, point: int): string {
    if point >= |digits| then digits + Zeroes(point - |digits|)
    else if point <= 0 then "0." + Zeroes(-point) + digits
    else digits[..point] + "." + digits[point..]
  }

  function ExpandScientific(text: string): Option<string> {
    var parts :- SplitScientific(text);
    var body := Unsigned(parts.0);
    var whole, fraction := WholePart(body), FractionPart(body);
    var expanded := PlacePoint(whole + fraction, |whole| + IntOf(parts.1));
    Some((if Minus(parts.0) then "-" else "") + expanded)
  }

  /** A plain number as a decimal: its digits as one coefficient, scaled by its fractional places. */
  function DecimalOf(text: string): (d: Decimal)
    requires PlainNumber(text)
    ensures WellFormed(d)
  {
    var significant := TrimStart(WholePart(text) + FractionPart(text));
    Decimal(false, if significant == "" then "0" else significant, -|FractionPart(text)|)
  }

  function ParseNumeric(text: string): Result<Decimal, Error> {
    var expanded := ExpandScientific(text);
    var plain := if expanded.Some? then expanded.value else text;
    if !PlainNumber(plain) then Err(Malformed)
    else
      var whole, fraction := WholePart(plain), FractionPart(plain);
      if |TrimEnd(fraction)| > MAX_FRACTIONAL_PLACES then Err(TooManyFractionalDigits)
      else if |TrimStart(whole)| > MAX_INTEGER_PLACES then Err(TooManyIntegerPlaces)
      else if |TrimStart(whole)| + |fraction| > MAX_TOTAL_DIGITS then Err(TooManyDigits)
      else Ok(DecimalOf(plain))
  }

  // ---------- the budget ----------

  /** What survives the checks, about the text actually read. */
  ghost predicate WithinBudget(plain: string) {
    && PlainNumber(plain)
    && |TrimEnd(FractionPart(plain))| <= MAX_FRACTIONAL_PLACES
    && |TrimStart(WholePart(plain))| <= MAX_INTEGER_PLACES
    && |FractionPart(plain)| <= MAX_TOTAL_DIGITS
  }

  lemma AcceptedWithinBudget(text: string)
    requires ParseNumeric(text).Ok?
    ensures var expanded := ExpandScientific(text);
      var plain := if expanded.Some? then expanded.value else text;
      WithinBudget(plain) && ParseNumeric(text).value == DecimalOf(plain)
  {
    hide PlainNumber, ExpandScientific;
  }

  lemma CoefficientValue(plain: string)
    requires PlainNumber(plain)
    ensures NatOf(DecimalOf(plain).digits) == NatOf(WholePart(plain) + FractionPart(plain))
  {
    assert NatOf("0") == 0 by { assert "0"[..0] == ""; }
  }

  /** whole.fraction, in units of 10^-18, splits into the two parts' shares. */
  lemma QuantaOfParts(plain: string)
    requires WithinBudget(plain)
    ensures var t := TrimEnd(FractionPart(plain));
      Quanta(DecimalOf(plain)) ==
        Some(NatOf(WholePart(plain)) * Pow10(18) + NatOf(t) * Pow10(18 - |t|))
  {
    hide Pow10, NatOf, TrimStart, TrimEnd, IndexOf;
    var whole, fraction := WholePart(plain), FractionPart(plain);
    var t := TrimEnd(fraction);
    CoefficientValue(plain);
    NatOfConcat(whole, fraction);
    TrimEndValue(fraction);
    var n := NatOf(whole + fraction);
    if |fraction| <= 18 {
      RaiseParts(NatOf(whole), NatOf(t), |fraction|, |fraction| - |t|, 18 - |fraction|);
    } else {
      LowerParts(NatOf(whole), NatOf(t), |fraction|, |fraction| - |t|, |fraction| - 18);
    }
  }

  /** (w * 10^f + t * 10^z) * 10^k, with each power merged. */
  lemma RaiseParts(w: nat, t: nat, f: nat, z: nat, k: nat)
    ensures (w * Pow10(f) + t * Pow10(z)) * Pow10(k) == w * Pow10(f + k) + t * Pow10(z + k)
  {
    hide Pow10;
    ShiftUp(w, f, k);
    ShiftUp(t, z, k);
    SumTimes(w * Pow10(f), t * Pow10(z), Pow10(k));
  }

  lemma LowerParts(w: nat, t: nat, f: nat, z: nat, k: nat)
    requires k <= f && k <= z
    ensures var n := w * Pow10(f) + t * Pow10(z);
      n % Pow10(k) == 0 && n / Pow10(k) == w * Pow10(f - k) + t * Pow10(z - k)
  {
    hide Pow10;
    var n := w * Pow10(f) + t * Pow10(z);
    RaiseParts(w, t, f - k, z - k, k);
    ExactQuotient(n, Pow10(k), w * Pow10(f - k) + t * Pow10(z - k));
  }

  /** Every accepted number is a whole, nonnegative number of quanta that fits 38 digits. */
  lemma AcceptedFits(text: string)
    requires ParseNumeric(text).Ok?
    ensures Quanta(ParseNumeric(text).value).Some?
    ensures 0 <= Quanta(ParseNumeric(text).value).value < Pow10(38)
  {
    hide Pow10, NatOf, PlainNumber, TrimStart, TrimEnd, ExpandScientific, WholePart, FractionPart;
    var expanded := ExpandScientific(text);
    var plain := if expanded.Some? then expanded.value else text;
    AcceptedWithinBudget(text);
    QuantaOfParts(plain);
    PartsFit(plain);
  }

  lemma PartsFit(plain: string)
    requires WithinBudget(plain)
    ensures var t := TrimEnd(FractionPart(plain));
      NatOf(WholePart(plain)) * Pow10(18) + NatOf(t) * Pow10(18 - |t|) < Pow10(38)
  {
    hide Pow10, NatOf, TrimStart, TrimEnd, IndexOf;
    var t, whole := TrimEnd(FractionPart(plain)), WholePart(plain);
    NatOfBound(TrimStart(whole));
    Pow10Grows(|TrimStart(whole)|, 20);
    assert NatOf(whole) + 1 <= Pow10(20);
    NatOfBound(t);
    Pow10Adds(|t|, 18 - |t|);
    ScaleLess(NatOf(t), Pow10(|t|), Pow10(18 - |t|));
    Pow10Adds(20, 18);
    MulAtMost(NatOf(whole) + 1, Pow10(20), Pow10(18));
    SumTimes(NatOf(whole), 1, Pow10(18));
  }

  lemma ScaleLess(a: nat, b: nat, c: nat)
    requires a < b && c >= 1
    ensures a * c < b * c
  {
  }

  // ---------- expansion changes no value ----------

  /** n * 10^e == n' * 10^e', with no negative power. */
  ghost predicate SameValue(n: nat, e: int, n': nat, e': int) {
    if e >= e' then n * Pow10(e - e') == n' else n == n' * Pow10(e' - e)
  }

  /** Splitting a text whose only point is in a known place. */
  lemma PartsOfPointed(whole: string, fraction: string)
    requires DigitText(whole)
    ensures WholePart(whole + "." + fraction) == whole && FractionPart(whole + "." + fraction) == fraction
  {
    PointPlace(whole, fraction);
  }

  lemma PartsOfWhole(digits: string)
    requires DigitText(digits)
    ensures WholePart(digits) == digits && FractionPart(digits) == ""
  {
    assert digits[..|digits|] == digits;
  }

  /** Moving the point only changes the exponent. */
  lemma PlacedValue(digits: string, point: int)
    requires DigitText(digits) && digits != ""
    ensures var plain := PlacePoint(digits, point);
      && DigitText(WholePart(plain)) && DigitText(FractionPart(plain))
      && SameValue(NatOf(WholePart(plain) + FractionPart(plain)), -|FractionPart(plain)|, NatOf(digits), point - |digits|)
  {
    hide NatOf, IndexOf, WholePart, FractionPart;
    if point >= |digits| {
      AppendZeroes(digits, point - |digits|);
      var plain := digits + Zeroes(point - |digits|);
      PartsOfWhole(plain);
      assert plain + "" == plain;
      PowerOfNothing(NatOf(digits), point - |digits|);
    } else if point <= 0 {
      SmallPlaced(digits, -point);
    } else {
      PartsOfPointed(digits[..point], digits[point..]);
      assert digits[..point] + digits[point..] == digits;
      assert Pow10(0) == 1;
    }
  }

  lemma PowerOfNothing(n: nat, k: nat)
    ensures SameValue(n * Pow10(k), 0, n, k)
  {
    assert Pow10(0) == 1;
  }

  lemma SmallPlaced(digits: string, zeroes: nat)
    requires DigitText(digits) && digits != ""
    ensures var plain := "0." + Zeroes(zeroes) + digits;
      && WholePart(plain) == "0" && FractionPart(plain) == Zeroes(zeroes) + digits
      && NatOf("0" + FractionPart(plain)) == NatOf(digits)
      && SameValue(NatOf("0" + FractionPart(plain)), -|FractionPart(plain)|, NatOf(digits), 0 - zeroes - |digits|)
  {
    hide NatOf, IndexOf, WholePart, FractionPart;
    var fraction := Zeroes(zeroes) + digits;
    assert "0." + Zeroes(zeroes) + digits == "0" + "." + fraction;
    PartsOfPointed("0", fraction);
    assert "0" + fraction == Zeroes(zeroes + 1) + digits;
    NatOfConcat(Zeroes(zeroes + 1), digits);
    NatOfZeroes(zeroes + 1);
    assert Pow10(0) == 1;
  }

  /** The mantissa's digits and the power of ten a scientific text writes down. */
  function ScientificParts(text: string): (parts: (string, int))
    requires SplitScientific(text).Some?
    ensures DigitText(parts.0) && parts.0 != ""
  {
    var (mantissa, exponent) := SplitScientific(text).value;
    var whole, fraction := WholePart(Unsigned(mantissa)), FractionPart(Unsigned(mantissa));
    (whole + fraction, IntOf(exponent) - |fraction|)
  }

  lemma ExpandedText(text: string)
    requires SplitScientific(text).Some?
    ensures var (digits, power) := ScientificParts(text);
      ExpandScientific(text) ==
        Some((if Minus(SplitScientific(text).value.0) then "-" else "") + PlacePoint(digits, power + |digits|))
  {
    hide SplitScientific, NatOf, IndexOf, PlacePoint;
  }

  /** Accepted scientific text is worth exactly its mantissa digits times ten to its power, and is not negative. */
  lemma ScientificIsExact(text: string)
    requires ParseNumeric(text).Ok? && SplitScientific(text).Some?
    ensures !Minus(SplitScientific(text).value.0)
    ensures var (digits, power) := ScientificParts(text);
      SameValue(NatOf(ParseNumeric(text).value.digits), ParseNumeric(text).value.exponent, NatOf(digits), power)
  {
    hide NatOf, IndexOf, TrimStart, TrimEnd, SameValue, PlacePoint, SplitScientific, ScientificParts, WholePart, FractionPart,
      ExpandScientific, ParseNumeric, PlainNumber;
    var (digits, power) := ScientificParts(text);
    AcceptedWithinBudget(text);
    ExpandedText(text);
    var placed := PlacePoint(digits, power + |digits|);
    if Minus(SplitScientific(text).value.0) {
      SignedIsNotPlain(placed);
    }
    assert "" + placed == placed;
    PlacedValue(digits, power + |digits|);
    CoefficientValue(placed);
  }

  lemma SignedIsNotPlain(body: string)
    ensures !PlainNumber("-" + body)
  {
    var text := "-" + body;
    assert text[0] == '-';
    assert IndexOf(text, '.', '.') > 0;
    assert WholePart(text)[0] == '-';
  }

  // ---------- both renderers, and back ----------

  /** The kernel's text path for a finite literal. */
  function KernelText(text: string): Option<string> {
    var literal := ParseLiteral(text);
    if literal.Some? && literal.value.Finite? && WellFormed(literal.value.value) then OracleRender(literal.value.value) else None
  }

  lemma ZeroMantissa(power: int)
    ensures MantissaOf(false, "0", power) == Some(Decimal(false, "0", 0))
  {
    hide NatOf;
    assert "0" == Zeroes(1);
    NatOfZeroes(1);
    assert "0"[..1] + "" == "0";
  }

  lemma ZeroDisplay(d: Decimal)
    requires WellFormed(d) && d.digits == "0" && !d.negative && -38 <= d.exponent <= 0
    ensures ParseLiteral(Display(d)) == Some(Finite(Decimal(false, "0", 0)))
  {
    hide ParseLiteral, IndexOf, MantissaOf, ExponentOf, NatOf, NatText, Display, ExponentText, TrimStart;
    if d.exponent == 0 {
      ZeroMantissa(0);
      ReadPlain(false, "0");
      WholeDisplay(d);
    } else if d.exponent >= -6 {
      var fraction := Zeroes(-d.exponent - 1) + "0";
      assert "0" + fraction == Zeroes(1 - d.exponent);
      NatOfZeroes(1 - d.exponent);
      ReadZero(false, "0", fraction);
      SmallDisplay(d, -d.exponent - 1);
    } else {
      ExponentTextReads(d.exponent);
      ZeroMantissa(d.exponent);
      ReadScientific(false, "0", ExponentText(d.exponent));
      ScientificDisplay(d);
      assert LeadMantissa("0") == "0";
    }
  }

  lemma WholeDisplay(d: Decimal)
    requires d.digits != "" && d.exponent == 0 && !d.negative
    ensures Display(d) == "" + d.digits
  {
  }

  /** An accepted number keeps its renderings when it goes through the printer to the kernel. */
  lemma KernelAgrees(d: Decimal)
    requires WellFormed(d) && !d.negative && -38 <= d.exponent <= 0 && |d.digits| <= 100
    ensures KernelText(Display(d)) == OracleRender(d)
  {
    hide ParseLiteral, Display, OracleRender;
    if d.digits == "0" {
      ZeroDisplay(d);
      ZeroRenders(d);
      ZeroRenders(Decimal(false, "0", 0));
    } else {
      DisplayRoundTrip(d);
    }
  }

  lemma AcceptedShape(text: string)
    requires ParseNumeric(text).Ok?
    ensures var d := ParseNumeric(text).value;
      !d.negative && -38 <= d.exponent <= 0 && |d.digits| <= 100
  {
    hide PlainNumber, ExpandScientific, NatOf, TrimEnd, IndexOf;
    var expanded := ExpandScientific(text);
    var plain := if expanded.Some? then expanded.value else text;
    AcceptedWithinBudget(text);
    WholeLength(plain);
    TrimShortens(WholePart(plain) + FractionPart(plain));
  }

  lemma {:induction false} TrimShortens(digits: string)
    requires DigitText(digits)
    ensures |TrimStart(digits)| <= |digits|
  {
    if digits != "" && digits[0] == '0' {
      TrimShortens(digits[1..]);
    }
  }

  lemma WholeLength(plain: string)
    requires WithinBudget(plain)
    ensures |WholePart(plain)| <= 20
    ensures DigitText(WholePart(plain)) && DigitText(FractionPart(plain))
  {
    hide IndexOf, TrimEnd;
    if WholePart(plain)[0] != '0' {
      TrimOwn(WholePart(plain));
    }
  }

  /**
   Every accepted text, scientific forms included: the value fits the budget, the kernel given the
   printed value and the oracle given the value render the same text, and that text reads back as the
   same number of quanta.
   */
  lemma AcceptedTextRenders(text: string)
    requires ParseNumeric(text).Ok?
    ensures var d := ParseNumeric(text).value;
      && OracleRender(d).Some? && KernelText(Display(d)) == OracleRender(d)
      && 0 <= Quanta(d).value < Pow10(38)
      && var again := ParseLiteral(OracleRender(d).value);
         again.Some? && again.value.Finite? && WellFormed(again.value.value) && Quanta(again.value.value) == Quanta(d)
  {
    hide ParseNumeric, Pow10, RenderQuanta, ParseLiteral, KernelText, Display, Quanta;
    var d := ParseNumeric(text).value;
    AcceptedFits(text);
    AcceptedShape(text);
    AcceptedIsWellFormed(text);
    KernelAgrees(d);
    RenderRoundTrip(d);
  }

  lemma AcceptedIsWellFormed(text: string)
    requires ParseNumeric(text).Ok?
    ensures WellFormed(ParseNumeric(text).value)
  {
    hide PlainNumber, ExpandScientific, NatOf, TrimEnd, IndexOf;
  }

  // ---------- which texts are accepted ----------

  /** The whole digits, and the point and the fraction when there is one. */
  function Written(whole: string, fraction: string): string {
    if fraction == "" then whole else whole + "." + fraction
  }

  /** No leading zero, at most 20 integer places, nothing but zeros past 18 places, at most 38 digits in all. */
  ghost predicate InBudget(whole: string, fraction: string) {
    && whole != "" && (whole[0] == '0' ==> whole == "0")
    && (whole == "0" || |whole| <= 20)
    && (forall i :: 18 <= i < |fraction| ==> fraction[i] == '0')
    && (if whole == "0" then 0 else |whole|) + |fraction| <= 38
  }

  lemma WrittenParts(whole: string, fraction: string)
    requires DigitText(whole) && DigitText(fraction)
    ensures WholePart(Written(whole, fraction)) == whole && FractionPart(Written(whole, fraction)) == fraction
    ensures '.' in Written(whole, fraction) ==> fraction != ""
    ensures 'e' !in Written(whole, fraction) && 'E' !in Written(whole, fraction)
    ensures whole != "" ==> Written(whole, fraction) != "" && Written(whole, fraction)[0] == whole[0]
  {
    hide WholePart, FractionPart, IndexOf;
    if fraction == "" {
      PartsOfWhole(whole);
    } else {
      PartsOfPointed(whole, fraction);
    }
  }

  lemma ShortFraction(fraction: string)
    ensures |TrimEnd(fraction)| <= 18 <==> forall i :: 18 <= i < |fraction| ==> fraction[i] == '0'
  {
    var t := TrimEnd(fraction);
    if |t| > 18 {
      assert fraction[|t| - 1] == t[|t| - 1];
    }
  }

  lemma WholePlaces(whole: string)
    requires DigitText(whole) && whole != "" && (whole[0] == '0' ==> whole == "0")
    ensures |TrimStart(whole)| == if whole == "0" then 0 else |whole|
  {
    if whole == "0" {
      assert whole[1..] == "";
    } else {
      TrimOwn(whole);
    }
  }

  lemma PlainWhole(whole: string, fraction: string)
    requires DigitText(whole) && DigitText(fraction)
    ensures PlainNumber(Written(whole, fraction)) <==> whole != "" && (whole[0] == '0' ==> whole == "0")
  {
    hide WholePart, FractionPart, Written;
    WrittenParts(whole, fraction);
    if whole != "" && |whole| == 1 && whole[0] == '0' {
      assert whole == "0";
    }
  }

  /** The policy's decision about the text it finally reads. */
  predicate Policy(plain: string) {
    && PlainNumber(plain)
    && |TrimEnd(FractionPart(plain))| <= MAX_FRACTIONAL_PLACES
    && |TrimStart(WholePart(plain))| <= MAX_INTEGER_PLACES
    && |TrimStart(WholePart(plain))| + |FractionPart(plain)| <= MAX_TOTAL_DIGITS
  }

  lemma PolicyDecides(text: string)
    ensures var expanded := ExpandScientific(text);
      var plain := if expanded.Some? then expanded.value else text;
      (ParseNumeric(text).Ok? <==> Policy(plain)) && (ParseNumeric(text).Ok? ==> ParseNumeric(text).value == DecimalOf(plain))
  {
    hide PlainNumber, ExpandScientific, TrimStart, TrimEnd;
  }

  lemma PolicyOnWritten(whole: string, fraction: string)
    requires DigitText(whole) && DigitText(fraction)
    ensures Policy(Written(whole, fraction)) <==> InBudget(whole, fraction)
  {
    hide PlainNumber, TrimStart, TrimEnd, WholePart, FractionPart, Written;
    WrittenParts(whole, fraction);
    PlainWhole(whole, fraction);
    ShortFraction(fraction);
    if whole != "" && (whole[0] == '0' ==> whole == "0") {
      WholePlaces(whole);
    }
  }

  lemma NoExponentMark(text: string)
    requires 'e' !in text && 'E' !in text
    ensures SplitScientific(text).None? && ExpandScientific(text).None?
  {
    assert forall k :: 0 <= k < |text| ==> text[k] in text;
  }

  /**
   A text without an exponent is accepted exactly when its whole part has no needless zero and at most 20
   places, its fraction ends within 18 places but for zeros, and both together take at most 38 digits.
   */
  lemma PlainAccepted(whole: string, fraction: string)
    requires DigitText(whole) && DigitText(fraction) && whole != ""
    ensures ParseNumeric(if fraction == "" then whole else whole + "." + fraction).Ok? <==>
      && (whole[0] == '0' ==> whole == "0")
      && (whole == "0" || |whole| <= 20)
      && (forall i :: 18 <= i < |fraction| ==> fraction[i] == '0')
      && (if whole == "0" then 0 else |whole|) + |fraction| <= 38
  {
    hide ParseNumeric, Policy, ExpandScientific, SplitScientific;
    WrittenParts(whole, fraction);
    NoExponentMark(Written(whole, fraction));
    PolicyDecides(Written(whole, fraction));
    PolicyOnWritten(whole, fraction);
  }

  /** An accepted text without an exponent is worth its digits divided by ten for every fractional place. */
  lemma PlainIsExact(whole: string, fraction: string)
    requires DigitText(whole) && DigitText(fraction) && whole != ""
    requires ParseNumeric(if fraction == "" then whole else whole + "." + fraction).Ok?
    ensures var d := ParseNumeric(if fraction == "" then whole else whole + "." + fraction).value;
      !d.negative && NatOf(d.digits) == NatOf(whole + fraction) && d.exponent == -|fraction|
  {
    hide ParseNumeric, Policy, ExpandScientific, SplitScientific, PlainNumber, NatOf, TrimStart, WholePart, FractionPart;
    WrittenParts(whole, fraction);
    NoExponentMark(Written(whole, fraction));
    PolicyDecides(Written(whole, fraction));
    PolicyIsPlain(Written(whole, fraction));
    CoefficientValue(Written(whole, fraction));
  }

  lemma PolicyIsPlain(plain: string)
    requires Policy(plain)
    ensures PlainNumber(plain)
  {
  }

  /** A rendered value that fits 38 digits is accepted again, as the same number of quanta. */
  lemma RenderedIsAccepted(m: nat)
    requires m < Pow10(38)
    ensures ParseNumeric(RenderQuanta(m)).Ok?
    ensures WellFormed(ParseNumeric(RenderQuanta(m)).value) && Quanta(ParseNumeric(RenderQuanta(m)).value) == Some(m)
  {
    hide ParseNumeric, NatOf, NatText, PadTo19, Pow10;
    var text := PadTo19(NatText(m));
    var whole, fraction := text[..|text| - PLACES], text[|text| - PLACES..];
    assert whole + fraction == text;
    assert RenderQuanta(m) == "" + (whole + "." + fraction) == whole + "." + fraction;
    PaddedShape(m);
    PlainAccepted(whole, fraction);
    PlainIsExact(whole, fraction);
    PaddedReads(m);
    AcceptedIsWellFormed(RenderQuanta(m));
    assert Pow10(0) == 1 by { NoPlaces(); }
  }

  lemma NoPlaces()
    ensures Pow10(0) == 1
  {
  }

  /** At most twenty places before the last eighteen, and no needless zero in front. */
  lemma PaddedShape(m: nat)
    requires m < Pow10(38)
    ensures var text := PadTo19(NatText(m)); var whole := text[..|text| - PLACES];
      && DigitText(text) && |text| <= 38 && (whole[0] == '0' ==> whole == "0")
  {
    hide Pow10, NatOf;
    var digits := NatText(m);
    TextLength(m, 38);
    var text := PadTo19(digits);
    if |digits| < PLACES + 1 {
      assert |text| == PLACES + 1;
      assert |text[..1]| == 1;
    } else {
      assert text[..|text| - PLACES][0] == digits[0];
    }
  }

  /** Numbers below 10^k have at most k digits. */
  lemma {:induction false} TextLength(n: nat, k: nat)
    requires k > 0 && n < Pow10(k)
    ensures |NatText(n)| <= k
    ensures Pow10(k - 1) <= n ==> |NatText(n)| == k
  {
    if n < 10 {
      if k > 1 {
        TenAtLeast(k - 1);
      }
    } else {
      TextLength(n / 10, k - 1);
    }
  }

  lemma TenAtLeast(k: nat)
    requires k > 0
    ensures Pow10(k) >= 10
  {
  }

  // ---------- scientific texts ----------

  /** The digits on either side of the point once it has moved to place `point`. */
  function Shifted(digits: string, point: int): (parts: (string, string)) {
    if point >= |digits| then (digits + Zeroes(point - |digits|), "")
    else if point <= 0 then ("0", Zeroes(-point) + digits)
    else (digits[..point], digits[point..])
  }

  lemma PlacedIsWritten(digits: string, point: int)
    requires DigitText(digits) && digits != ""
    ensures PlacePoint(digits, point) == Written(Shifted(digits, point).0, Shifted(digits, point).1)
    ensures DigitText(Shifted(digits, point).0) && DigitText(Shifted(digits, point).1)
  {
    if point <= 0 {
      assert "0." + Zeroes(-point) + digits == "0" + "." + (Zeroes(-point) + digits);
    }
  }

  /** [+-]? (0|[1-9][0-9]*)(\.[0-9]+)? [eE] [+-]?[0-9]+ */
  ghost predicate ScientificForm(sign: string, whole: string, fraction: string, mark: char, exponent: string) {
    && (sign == "" || sign == "+" || sign == "-")
    && DigitText(whole) && DigitText(fraction) && whole != "" && (whole[0] == '0' ==> whole == "0")
    && (mark == 'e' || mark == 'E')
    && Unsigned(exponent) != "" && DigitText(Unsigned(exponent))
  }

  lemma MarkPlace(mantissa: string, mark: char, exponent: string)
    requires 'e' !in mantissa && 'E' !in mantissa && (mark == 'e' || mark == 'E')
    ensures var text := mantissa + [mark] + exponent;
      IndexOf(text, 'e', 'E') == |mantissa| && text[..|mantissa|] == mantissa && text[|mantissa| + 1..] == exponent
  {
    var text := mantissa + [mark] + exponent;
    assert text[|mantissa|] == mark;
    assert forall k :: 0 <= k < |mantissa| ==> text[k] == mantissa[k] && mantissa[k] in mantissa;
  }

  lemma SignedWritten(sign: string, body: string)
    requires sign == "" || sign == "+" || sign == "-"
    requires body != "" && IsDigit(body[0]) && 'e' !in body && 'E' !in body
    ensures Unsigned(sign + body) == body && Minus(sign + body) == (sign == "-")
    ensures 'e' !in sign + body && 'E' !in sign + body
  {
  }

  lemma ScientificSplits(sign: string, whole: string, fraction: string, mark: char, exponent: string)
    requires ScientificForm(sign, whole, fraction, mark, exponent)
    ensures var text := sign + Written(whole, fraction) + [mark] + exponent;
      && SplitScientific(text) == Some((sign + Written(whole, fraction), exponent))
      && ExpandScientific(text) ==
         Some((if sign == "-" then "-" else "") + PlacePoint(whole + fraction, |whole| + IntOf(exponent)))
  {
    hide IndexOf, PlainNumber, Written, WholePart, FractionPart, NatOf, PlacePoint;
    var body := Written(whole, fraction);
    WrittenParts(whole, fraction);
    PlainWhole(whole, fraction);
    SignedWritten(sign, body);
    MarkPlace(sign + body, mark, exponent);
  }

  /**
   A scientific text is accepted exactly when it has no minus sign and the digits, with the point moved by
   the exponent, are in the budget of plain texts.
   */
  lemma ScientificAccepted(sign: string, whole: string, fraction: string, mark: char, exponent: string)
    requires ScientificForm(sign, whole, fraction, mark, exponent)
    ensures var text := sign + (if fraction == "" then whole else whole + "." + fraction) + [mark] + exponent;
      var moved := Shifted(whole + fraction, |whole| + IntOf(exponent));
      ParseNumeric(text).Ok? <==> sign != "-" && InBudget(moved.0, moved.1)
  {
    hide ParseNumeric, Policy, ExpandScientific, SplitScientific, PlacePoint, InBudget, Shifted, NatOf, ScientificForm;
    var text := sign + Written(whole, fraction) + [mark] + exponent;
    var digits, point := FormDigits(sign, whole, fraction, mark, exponent);
    ScientificSplits(sign, whole, fraction, mark, exponent);
    PolicyDecides(text);
    PlacedIsWritten(digits, point);
    if sign == "-" {
      SignedIsRefused(PlacePoint(digits, point));
    } else {
      PolicyOnWritten(Shifted(digits, point).0, Shifted(digits, point).1);
      assert "" + PlacePoint(digits, point) == PlacePoint(digits, point);
    }
  }

  lemma FormDigits(sign: string, whole: string, fraction: string, mark: char, exponent: string) returns (digits: string, point: int)
    requires ScientificForm(sign, whole, fraction, mark, exponent)
    ensures DigitText(Unsigned(exponent))
    ensures digits == whole + fraction && point == |whole| + IntOf(exponent)
    ensures DigitText(digits) && digits != ""
  {
    digits, point := whole + fraction, |whole| + IntOf(exponent);
  }

  lemma SignedIsRefused(body: string)
    ensures !Policy("-" + body)
  {
    hide PlainNumber;
    SignedIsNotPlain(body);
  }

  /** A text that is accepted is a plain or a scientific number. */
  lemma NothingElseAccepted(text: string)
    requires ParseNumeric(text).Ok?
    ensures
      || (exists whole, fraction :: PlainForm(text, whole, fraction))
      || (exists sign, whole, fraction, mark, exponent :: ScientificText(text, sign, whole, fraction, mark, exponent))
  {
    hide ParseNumeric, PlainNumber, IndexOf, TrimStart, TrimEnd, SplitScientific, PlainForm, ScientificText;
    PolicyDecides(text);
    if SplitScientific(text).Some? {
      var sign, whole, fraction, mark, exponent := ScientificPieces(text);
    } else {
      PlainPieces(text);
    }
  }

  ghost predicate PlainForm(text: string, whole: string, fraction: string) {
    DigitText(whole) && DigitText(fraction) && whole != "" && text == Written(whole, fraction)
  }

  ghost predicate ScientificText(text: string, sign: string, whole: string, fraction: string, mark: char, exponent: string) {
    ScientificForm(sign, whole, fraction, mark, exponent) && text == sign + Written(whole, fraction) + [mark] + exponent
  }

  lemma PlainPieces(text: string)
    requires PlainNumber(text)
    ensures PlainForm(text, WholePart(text), FractionPart(text))
    ensures WholePart(text)[0] == '0' ==> WholePart(text) == "0"
  {
    var dot := IndexOf(text, '.', '.');
    if dot < |text| {
      assert text[dot] in text;
      assert text == text[..dot] + "." + text[dot + 1..];
    } else {
      assert text[..dot] == text;
    }
  }

  lemma ScientificPieces(text: string)
    returns (sign: string, whole: string, fraction: string, mark: char, exponent: string)
    requires SplitScientific(text).Some?
    ensures ScientificText(text, sign, whole, fraction, mark, exponent)
  {
    hide PlainNumber, IndexOf, WholePart, FractionPart, Written;
    var e := IndexOf(text, 'e', 'E');
    var body := Unsigned(text[..e]);
    PlainPieces(body);
    sign := SignOf(text[..e]);
    whole, fraction, mark, exponent := WholePart(body), FractionPart(body), text[e], text[e + 1..];
    Reassembled(text, e, sign, body);
  }

  lemma SignOf(mantissa: string) returns (sign: string)
    ensures sign == "" || sign == "+" || sign == "-"
    ensures mantissa == sign + Unsigned(mantissa)
  {
    sign := if Signed(mantissa) then mantissa[..1] else "";
  }

  lemma Reassembled(text: string, e: nat, sign: string, body: string)
    requires e < |text| && text[..e] == sign + body
    ensures text == sign + body + [text[e]] + text[e + 1..]
  {
  }
}
