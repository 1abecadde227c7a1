/** Decimal text of natural numbers, both ways. */
module Digits {

  predicate IsDigit(c: char) {
    '0' <= c <= '9'
  }

  ghost predicate AllDigits(text: string) {
    forall i :: 0 <= i < |text| ==> IsDigit(text[i])
  }

  function DigitChar(d: nat): (c: char)
    requires d < 10
    ensures IsDigit(c) && DigitValue(c) == d
  {
    '0' + d as char
  }

  function DigitValue(c: char): (d: nat)
    requires IsDigit(c)
    ensures d < 10
  {
    (c - '0') as nat
  }

  /** The shortest decimal text. */
  function NatText(n: nat): (text: string)
    ensures |text| > 0 && AllDigits(text)
    ensures text[0] == '0' ==> n == 0
    ensures n == 0 ==> text == "0"
  {
    if n < 10 then [DigitChar(n)] else NatText(n / 10) + [DigitChar(n % 10)]
  }

  /** The value of a digit string; leading zeros are allowed. */
  function NatOf(text: string): nat
    requires AllDigits(text)
  {
    if text == "" then 0 else 10 * NatOf(text[..|text| - 1]) + DigitValue(text[|text| - 1])
  }

  function Pow10(k: nat): (p: nat)
    ensures p >= 1
  {
    if k == 0 then 1 else 10 * Pow10(k - 1)
  }

  lemma {:induction false} NatOfNatText(n: nat)
    ensures NatOf(NatText(n)) == n
  {
    if n < 10 {
      assert NatText(n)[..0] == "";
    } else {
      NatOfNatText(n / 10);
      assert NatText(n)[..|NatText(n)| - 1] == NatText(n / 10);
    }
  }

  lemma NatTextInjective(m: nat, n: nat)
    requires NatText(m) == NatText(n)
    ensures m == n
  {
    NatOfNatText(m);
    NatOfNatText(n);
  }

  /** Digits without a leading zero are the shortest text of their value. */
  lemma {:induction false} NatTextOfNatOf(text: string)
    requires text != "" && AllDigits(text) && (text[0] == '0' ==> |text| == 1)
    ensures NatText(NatOf(text)) == text
    ensures NatOf(text) == 0 <==> text == "0"
  {
    if |text| == 1 {
      assert text[..0] == "";
      assert text == [text[0]];
    } else {
      var front := text[..|text| - 1];
      NatTextOfNatOf(front);
      assert NatOf(front) > 0 by {
        if |front| == 1 { assert front[0] == text[0]; }
      }
      assert text == front + [text[|text| - 1]];
    }
  }

  lemma {:induction false} NatOfConcat(a: string, b: string)
    requires AllDigits(a) && AllDigits(b)
    ensures AllDigits(a + b) && NatOf(a + b) == NatOf(a) * Pow10(|b|) + NatOf(b)
  {
    if b == "" {
      assert a + b == a;
    } else {
      var front, last := b[..|b| - 1], b[|b| - 1];
      NatOfConcat(a, front);
      assert (a + b)[..|a + b| - 1] == a + front;
      AppendDigit(NatOf(a), Pow10(|front|), NatOf(front), DigitValue(last));
    }
  }

  lemma AppendDigit(high: nat, power: nat, low: nat, digit: nat)
    ensures 10 * (high * power + low) + digit == high * (10 * power) + (10 * low + digit)
  {
  }

  lemma {:induction false} NatOfBound(text: string)
    requires AllDigits(text)
    ensures NatOf(text) < Pow10(|text|)
  {
    if text != "" {
      NatOfBound(text[..|text| - 1]);
    }
  }

  function Zeroes(k: nat): (text: string)
    ensures |text| == k && AllDigits(text)
    ensures forall i :: 0 <= i < k ==> text[i] == '0'
  {
    seq(k, _ => '0')
  }

  lemma {:induction false} NatOfZeroes(k: nat)
    ensures NatOf(Zeroes(k)) == 0
  {
    if k != 0 {
      NatOfZeroes(k - 1);
      assert Zeroes(k)[..k - 1] == Zeroes(k - 1);
    }
  }

  lemma {:induction false} Pow10Adds(j: nat, k: nat)
    ensures Pow10(j + k) == Pow10(j) * Pow10(k)
  {
    if j != 0 {
      Pow10Adds(j - 1, k);
      assert 10 * (Pow10(j - 1) * Pow10(k)) == (10 * Pow10(j - 1)) * Pow10(k);
    }
  }

  lemma {:induction false} Pow10Grows(j: nat, k: nat)
    requires j <= k
    ensures Pow10(j) <= Pow10(k)
    ensures j < k ==> Pow10(j) < Pow10(k)
  {
    if j < k {
      Pow10Grows(j, k - 1);
    }
  }

  /** Decimal text of any integer. */
  function IntText(n: int): (text: string)
    ensures text != "" && (text[0] == '-' <==> n < 0)
    ensures AllDigits(if n < 0 then text[1..] else text)
  {
    if n < 0 then "-" + NatText(-n) else NatText(n)
  }

  lemma IntTextInjective(m: int, n: int)
    requires IntText(m) == IntText(n)
    ensures m == n
  {
    if m < 0 {
      assert IntText(m)[1..] == NatText(-m) && IntText(n)[1..] == NatText(-n);
      NatTextInjective(-m, -n);
    } else {
      NatTextInjective(m, n);
    }
  }
}
