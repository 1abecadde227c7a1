/**
 The SplitMix64 stream and its unbiased bounded draws.

 Words are integers below 2^64 and every wrap-around is written out, as in the program.  Bitwise
 exclusive-or and right shift are defined on unbounded naturals by their binary digits.
 */
module SplitMix {
  import opened Wrappers
  import opened Arith
  import opened FiniteSets

  const WORD := 0x1_0000_0000_0000_0000
  const GOLDEN_GAMMA := 0x9E37_79B9_7F4A_7C15
  const MIX_MULTIPLIER_1 := 0xBF58_476D_1CE4_E5B9
  const MIX_MULTIPLIER_2 := 0x94D0_49BB_1331_11EB

  // Multiplicative inverses of the three odd constants modulo 2^64.
  const GAMMA_INVERSE := 0xF1DE_83E1_9937_733D
  const MULTIPLIER_1_INVERSE := 0x96DE_1B17_3F11_9089
  const MULTIPLIER_2_INVERSE := 0x3196_42B2_D24D_8EC3

  type Word = x: int | 0 <= x < WORD

  // ---------- bits of naturals ----------

  function Xor(a: nat, b: nat): nat {
    if a == 0 && b == 0 then 0
    else 2 * Xor(a / 2, b / 2) + (a % 2 + b % 2) % 2
  }

  function Shr(a: nat, k: nat): nat
    decreases k
  {
    if k == 0 then a else Shr(a / 2, k - 1)
  }

  function Pow2(k: nat): nat {
    if k == 0 then 1 else 2 * Pow2(k - 1)
  }

  lemma {:induction false} XorCommutes(a: nat, b: nat)
    ensures Xor(a, b) == Xor(b, a)
  {
    if a != 0 || b != 0 {
      XorCommutes(a / 2, b / 2);
    }
  }

  lemma {:induction false} XorAssociates(a: nat, b: nat, c: nat)
    ensures Xor(Xor(a, b), c) == Xor(a, Xor(b, c))
    decreases a + b + c
  {
    var left, right := Xor(Xor(a, b), c), Xor(a, Xor(b, c));
    if a != 0 || b != 0 || c != 0 {
      XorAssociates(a / 2, b / 2, c / 2);
    }
    XorHalves(a, b, c);
    assert left == 2 * (left / 2) + left % 2 && right == 2 * (right / 2) + right % 2;
  }

  lemma XorHalves(a: nat, b: nat, c: nat)
    ensures Xor(Xor(a, b), c) / 2 == Xor(Xor(a / 2, b / 2), c / 2)
    ensures Xor(a, Xor(b, c)) / 2 == Xor(a / 2, Xor(b / 2, c / 2))
    ensures Xor(Xor(a, b), c) % 2 == (a % 2 + b % 2 + c % 2) % 2 == Xor(a, Xor(b, c)) % 2
  {
    hide Xor;
    XorHalf(a, b);
    XorHalf(b, c);
    XorHalf(Xor(a, b), c);
    XorHalf(a, Xor(b, c));
  }

  lemma {:induction false} XorZero(a: nat)
    ensures Xor(a, 0) == a && Xor(0, a) == a
  {
    if a != 0 {
      XorZero(a / 2);
    }
  }

  lemma {:induction false} XorSelf(a: nat)
    ensures Xor(a, a) == 0
  {
    if a != 0 {
      XorSelf(a / 2);
    }
  }

  lemma XorHalf(a: nat, b: nat)
    ensures Xor(a, b) / 2 == Xor(a / 2, b / 2)
    ensures Xor(a, b) % 2 == (a % 2 + b % 2) % 2
  {
  }

  lemma {:induction false} ShrXor(a: nat, b: nat, k: nat)
    ensures Shr(Xor(a, b), k) == Xor(Shr(a, k), Shr(b, k))
    decreases k
  {
    if k != 0 {
      XorHalf(a, b);
      ShrXor(a / 2, b / 2, k - 1);
    }
  }

  lemma {:induction false} ShrShr(a: nat, j: nat, k: nat)
    ensures Shr(Shr(a, j), k) == Shr(a, j + k)
    decreases j
  {
    if j != 0 {
      ShrShr(a / 2, j - 1, k);
    }
  }

  lemma {:induction false} ShrVanishes(a: nat, k: nat)
    requires a < Pow2(k)
    ensures Shr(a, k) == 0
    decreases k
  {
    if k != 0 {
      ShrVanishes(a / 2, k - 1);
    }
  }

  lemma {:induction false} XorBound(a: nat, b: nat, k: nat)
    requires a < Pow2(k) && b < Pow2(k)
    ensures Xor(a, b) < Pow2(k)
    decreases k
  {
    if k != 0 && (a != 0 || b != 0) {
      XorBound(a / 2, b / 2, k - 1);
    }
  }

  lemma {:induction false} ShrBound(a: nat, k: nat)
    ensures Shr(a, k) <= a
    decreases k
  {
    if k != 0 {
      ShrBound(a / 2, k - 1);
    }
  }

  lemma {:induction false} Pow2Adds(j: nat, k: nat)
    ensures Pow2(j + k) == Pow2(j) * Pow2(k)
  {
    if j != 0 {
      Pow2Adds(j - 1, k);
    }
  }

  lemma WordIsPow2()
    ensures Pow2(64) == WORD
  {
    assert Pow2(4) == 16;
    Pow2Adds(4, 4);
    Pow2Adds(8, 8);
    Pow2Adds(16, 16);
    Pow2Adds(32, 32);
  }

  // ---------- the finalizer is a bijection on words ----------

  /** x ^ (x >> s): one xor-shift step of the finalizer. */
  function XorShift(x: Word, s: nat): (y: Word) {
    WordIsPow2();
    ShrBound(x, s);
    XorBound(x, Shr(x, s), 64);
    Xor(x, Shr(x, s))
  }

  /** Undoes XorShift when the shift is at least a third of the word. */
  function UnXorShift(y: Word, s: nat): (x: Word) {
    WordIsPow2();
    ShrBound(y, s);
    ShrBound(y, 2 * s);
    XorBound(y, Shr(y, s), 64);
    XorBound(Xor(y, Shr(y, s)), Shr(y, 2 * s), 64);
    Xor(Xor(y, Shr(y, s)), Shr(y, 2 * s))
  }

  lemma ShrPastWord(x: Word, k: nat)
    requires 64 <= k
    ensures Shr(x, k) == 0
  {
    WordIsPow2();
    ShrVanishes(x, 64);
    ShrShr(x, 64, k - 64);
    ShrBound(0, k - 64);
  }

  /** (a ^ b ^ c) ^ (b ^ c ^ 0) is a. */
  lemma XorTelescopes(a: nat, b: nat, c: nat)
    ensures Xor(Xor(Xor(a, b), c), Xor(Xor(b, c), 0)) == a
  {
    XorZero(Xor(b, c));
    XorAssociates(a, b, c);
    XorAssociates(a, Xor(b, c), Xor(b, c));
    XorSelf(Xor(b, c));
    XorZero(a);
  }

  lemma XorShiftInverts(x: Word, s: nat)
    requires 22 <= s < 64
    ensures XorShift(UnXorShift(x, s), s) == x
    ensures UnXorShift(XorShift(x, s), s) == x
  {
    var b, c := Shr(x, s), Shr(x, 2 * s);
    ShrShr(x, s, s);
    ShrShr(x, 2 * s, s);
    ShrShr(x, s, 2 * s);
    ShrPastWord(x, 3 * s);
    ShrXor(Xor(x, b), c, s);
    ShrXor(x, b, s);
    XorTelescopes(x, b, c);
    // The other order: y = x ^ b, y >> s = b ^ c, y >> 2s = c ^ 0.
    ShrXor(x, b, 2 * s);
    calc {
      UnXorShift(XorShift(x, s), s);
      Xor(Xor(Xor(x, b), Xor(b, c)), Xor(c, 0));
      { XorZero(c); XorAssociates(Xor(x, b), b, c); }
      Xor(Xor(Xor(Xor(x, b), b), c), c);
      { XorAssociates(x, b, b); XorSelf(b); XorZero(x); }
      Xor(Xor(x, c), c);
      { XorAssociates(x, c, c); XorSelf(c); XorZero(x); }
      x;
    }
  }

  function MulWord(x: Word, m: nat): Word {
    x * m % WORD
  }

  lemma MulWordInverts(x: Word, m: nat, inverse: nat)
    requires m * inverse % WORD == 1
    ensures MulWord(MulWord(x, m), inverse) == x
  {
    ModMul(x * m, inverse, WORD);
    assert x * m * inverse == m * inverse * x;
    ModMul(m * inverse, x, WORD);
  }

  /** The output finalizer applied to the advanced state. */
  function Mix(x: Word): Word {
    XorShift(MulWord(XorShift(MulWord(XorShift(x, 30), MIX_MULTIPLIER_1), 27), MIX_MULTIPLIER_2), 31)
  }

  function Unmix(y: Word): Word {
    UnXorShift(MulWord(UnXorShift(MulWord(UnXorShift(y, 31), MULTIPLIER_2_INVERSE), 27), MULTIPLIER_1_INVERSE), 30)
  }

  lemma MixIsBijective(x: Word)
    ensures Unmix(Mix(x)) == x
    ensures Mix(Unmix(x)) == x
  {
    hide XorShift, UnXorShift, MulWord;
    var a := XorShift(x, 30);
    var b := MulWord(a, MIX_MULTIPLIER_1);
    var c := XorShift(b, 27);
    var d := MulWord(c, MIX_MULTIPLIER_2);
    XorShiftInverts(d, 31);
    MulWordInverts(c, MIX_MULTIPLIER_2, MULTIPLIER_2_INVERSE);
    XorShiftInverts(b, 27);
    MulWordInverts(a, MIX_MULTIPLIER_1, MULTIPLIER_1_INVERSE);
    XorShiftInverts(x, 30);

    var e := UnXorShift(x, 31);
    var f := MulWord(e, MULTIPLIER_2_INVERSE);
    var g := UnXorShift(f, 27);
    var h := MulWord(g, MULTIPLIER_1_INVERSE);
    XorShiftInverts(h, 30);
    MulWordInverts(g, MULTIPLIER_1_INVERSE, MIX_MULTIPLIER_1);
    XorShiftInverts(f, 27);
    MulWordInverts(e, MULTIPLIER_2_INVERSE, MIX_MULTIPLIER_2);
    XorShiftInverts(x, 31);
  }

  // ---------- the stream visits every word once per period ----------

  /** The generator state after k further draws. */
  function StateAfter(state: Word, k: nat): Word {
    (state + k * GOLDEN_GAMMA) % WORD
  }

  /** The k-th draw, counting from zero, made from the given state. */
  function Draw(state: Word, k: nat): Word {
    Mix(StateAfter(state, k + 1))
  }

  lemma HalveThenDivide(a: nat, p: nat)
    requires p > 0
    ensures a / 2 / p == a / (2 * p)
  {
    var q, r := a / 2 / p, a / 2 % p;
    assert a / 2 == q * p + r;
    assert a == q * (2 * p) + (2 * r + a % 2) by { assert q * (2 * p) == 2 * (q * p); }
    DivModUnique(a, q, 2 * r + a % 2, 2 * p);
  }

  /** Shifting right by k divides by 2^k. */
  lemma {:induction false} ShrDivides(a: nat, k: nat)
    ensures Pow2(k) > 0 && Shr(a, k) == a / Pow2(k)
    decreases k
  {
    if k != 0 {
      ShrDivides(a / 2, k - 1);
      HalveThenDivide(a, Pow2(k - 1));
    }
  }

  /** Exclusive-or, binary digit by binary digit. */
  lemma XorByDigit(a: nat, b: nat, k: nat)
    ensures Pow2(k) > 0
    ensures Xor(a, b) / Pow2(k) % 2 == (a / Pow2(k) % 2 + b / Pow2(k) % 2) % 2
  {
    hide Xor, Shr, Pow2;
    ShrDivides(Xor(a, b), k);
    ShrDivides(a, k);
    ShrDivides(b, k);
    ShrXor(a, b, k);
    XorHalf(Shr(a, k), Shr(b, k));
  }

  lemma ShiftPowers()
    ensures Pow2(27) == 0x800_0000 && Pow2(30) == 0x4000_0000 && Pow2(31) == 0x8000_0000
  {
    assert Pow2(3) == 8 && Pow2(1) == 2;
    Pow2Adds(3, 3);
    Pow2Adds(6, 6);
    Pow2Adds(12, 12);
    Pow2Adds(24, 3);
    Pow2Adds(27, 3);
    Pow2Adds(30, 1);
  }

  /** The generator as published: one addition, two multiplications and three xor-shifts of a 64-bit word. */
  lemma DrawSpelledOut(state: Word)
    ensures
      var a := (state + 0x9E37_79B9_7F4A_7C15) % 0x1_0000_0000_0000_0000;
      var b := Xor(a, a / 0x4000_0000) * 0xBF58_476D_1CE4_E5B9 % 0x1_0000_0000_0000_0000;
      var c := Xor(b, b / 0x800_0000) * 0x94D0_49BB_1331_11EB % 0x1_0000_0000_0000_0000;
      Draw(state, 0) == Xor(c, c / 0x8000_0000)
  {
    hide Xor, Shr, Pow2;
    ShiftPowers();
    var a := StateAfter(state, 1);
    ShrDivides(a, 30);
    var b := MulWord(XorShift(a, 30), MIX_MULTIPLIER_1);
    ShrDivides(b, 27);
    var c := MulWord(XorShift(b, 27), MIX_MULTIPLIER_2);
    ShrDivides(c, 31);
  }

  lemma StateAdvances(state: Word, k: nat)
    ensures StateAfter(state, 0) == state
    ensures StateAfter(state, k + 1) == (StateAfter(state, k) + GOLDEN_GAMMA) % WORD
  {
    var x := state + k * GOLDEN_GAMMA;
    assert state + (k + 1) * GOLDEN_GAMMA == x + GOLDEN_GAMMA;
    ModAddMultiple(x % WORD + GOLDEN_GAMMA, x / WORD, WORD);
  }

  lemma StateComposes(state: Word, j: nat, k: nat)
    ensures StateAfter(StateAfter(state, j), k) == StateAfter(state, j + k)
    ensures Draw(StateAfter(state, j), k) == Draw(state, j + k)
  {
    hide Mix, StateAfter;
    StateComposesState(state, j, k);
    StateComposesState(state, j, k + 1);
  }

  /** One more draw after k draws. */
  lemma NextDraw(state: Word, k: nat)
    ensures Draw(StateAfter(state, k), 0) == Draw(state, k)
    ensures StateAfter(StateAfter(state, k), 1) == StateAfter(state, k + 1)
  {
    hide Draw, StateAfter;
    StateComposes(state, k, 0);
    StateComposesState(state, k, 1);
  }

  lemma StateComposesState(state: Word, j: nat, k: nat)
    ensures StateAfter(StateAfter(state, j), k) == StateAfter(state, j + k)
  {
    var x := state + j * GOLDEN_GAMMA;
    assert state + (j + k) * GOLDEN_GAMMA == x + k * GOLDEN_GAMMA;
    ModAddMultiple(x % WORD + k * GOLDEN_GAMMA, x / WORD, WORD);
  }

  /** The only position below 2^64 at which the stream from `state` shows the word v. */
  function PositionOf(state: Word, v: Word): Word {
    ((Unmix(v) - state) * GAMMA_INVERSE - 1) % WORD
  }

  /** The whole stream of 2^64 draws shows every word exactly once, from every state. */
  lemma FullPeriod(state: Word, v: Word, k: Word)
    ensures Draw(state, k) == v <==> k == PositionOf(state, v)
  {
    hide Mix, Unmix, StateAfter;
    var p: int := PositionOf(state, v);
    var u := Unmix(v);
    MixIsBijective(v);
    MixIsBijective(StateAfter(state, k + 1));
    // The position found is right.
    StepsToReach(state, u);
    // And it is the only one.
    if StateAfter(state, k + 1) == u {
      assert StateAfter(state, p + 1) == u;
      GammaCancels(k + 1, p + 1, state);
    }
  }

  lemma StepsToReach(state: Word, u: Word)
    ensures StateAfter(state, ((u - state) * GAMMA_INVERSE - 1) % WORD + 1) == u
  {
    var t := (u - state) * GAMMA_INVERSE - 1;
    var p := t % WORD;
    assert t == (t / WORD) * WORD + p;
    var c := GAMMA_INVERSE * GOLDEN_GAMMA / WORD;
    assert GAMMA_INVERSE * GOLDEN_GAMMA == c * WORD + 1;
    calc {
      state + (p + 1) * GOLDEN_GAMMA;
      state + ((u - state) * GAMMA_INVERSE - (t / WORD) * WORD) * GOLDEN_GAMMA;
      { MulDistributes((u - state) * GAMMA_INVERSE, (t / WORD) * WORD, GOLDEN_GAMMA); }
      state + (u - state) * GAMMA_INVERSE * GOLDEN_GAMMA - (t / WORD) * WORD * GOLDEN_GAMMA;
      { MulAssociates(u - state, GAMMA_INVERSE, GOLDEN_GAMMA); }
      state + (u - state) * (c * WORD + 1) - (t / WORD) * WORD * GOLDEN_GAMMA;
      { assert (u - state) * (c * WORD + 1) == ((u - state) * c) * WORD + (u - state) by {
          Expand(u - state, c, WORD);
        } }
      u + ((u - state) * c) * WORD - ((t / WORD) * GOLDEN_GAMMA) * WORD;
      { MulDistributes((u - state) * c, (t / WORD) * GOLDEN_GAMMA, WORD); }
      u + ((u - state) * c - (t / WORD) * GOLDEN_GAMMA) * WORD;
    }
    ModAddMultiple(u, (u - state) * c - (t / WORD) * GOLDEN_GAMMA, WORD);
  }

  lemma Expand(a: int, b: int, m: int)
    ensures a * (b * m + 1) == (a * b) * m + a
  {
    MulAssociates(a, b, m);
  }

  lemma SameRemainder(x: int, y: int, m: int)
    requires m > 0 && x % m == y % m
    ensures x - y == (x / m - y / m) * m
  {
    MulDistributes(x / m, y / m, m);
  }

  /** A multiple of m stays one when an invertible factor is taken off. */
  lemma TakeOffFactor(d: int, g: int, inverse: int, c: int, k: int, m: int)
    requires d * g == k * m && g * inverse == c * m + 1
    ensures d == (k * inverse - d * c) * m
  {
    MulAssociates(d, g, inverse);
    Expand(d, c, m);
    MulDistributes(k * inverse, d * c, m);
    assert (k * m) * inverse == (k * inverse) * m;
  }

  /** Steps of an invertible size come back only after a whole period. */
  lemma StepsAreDistinct(state: int, j: int, k: int, g: int, inverse: int, c: int, m: int)
    requires 0 < j <= m && 0 < k <= m && g * inverse == c * m + 1
    requires (state + j * g) % m == (state + k * g) % m
    ensures j == k
  {
    var q := (state + j * g) / m - (state + k * g) / m;
    SameRemainder(state + j * g, state + k * g, m);
    MulDistributes(j, k, g);
    TakeOffFactor(j - k, g, inverse, c, q, m);
    SmallMultipleIsZero(q * inverse - (j - k) * c, m);
  }

  lemma GammaIsInvertible() returns (c: int)
    ensures GOLDEN_GAMMA * GAMMA_INVERSE == c * WORD + 1
  {
    c := GOLDEN_GAMMA * GAMMA_INVERSE / WORD;
  }

  lemma AfterSteps(state: Word, k: nat, g: int, m: int)
    requires g == GOLDEN_GAMMA && m == WORD
    ensures StateAfter(state, k) == (state + k * g) % m
  {
  }

  lemma GammaCancels(j: nat, k: nat, state: Word)
    requires 0 < j <= WORD && 0 < k <= WORD
    requires StateAfter(state, j) == StateAfter(state, k)
    ensures j == k
  {
    hide StateAfter;
    var g, m := GOLDEN_GAMMA, WORD;
    var c := GammaIsInvertible();
    AfterSteps(state, j, g, m);
    AfterSteps(state, k, g, m);
    StepsAreDistinct(state, j, k, g, GAMMA_INVERSE, c, m);
  }

  // ---------- unbiased bounded draws ----------

  function Limit(bound: int): (limit: nat)
    requires 0 < bound <= WORD
    ensures 0 < limit <= WORD
  {
    WORD - WORD % bound
  }

  lemma LimitIsMultiple(bound: int)
    requires 0 < bound <= WORD
    ensures Limit(bound) == (WORD / bound) * bound
  {
  }

  /** How many words lie past the limit. */
  ghost function MaxRefused(bound: int): nat
    requires 0 < bound <= WORD
  {
    WORD % bound
  }

  /** Draws from..to-1 made from `state` are all refused. */
  ghost predicate Refused(state: Word, from: nat, to: nat, bound: int)
    requires 0 < bound <= WORD
  {
    forall k :: from <= k < to ==> Draw(state, k) >= Limit(bound)
  }

  /** At most 2^64 mod bound draws in a row can be refused: they are distinct words past the limit. */
  lemma RefusedRunIsShort(state: Word, n: nat, bound: int)
    requires 0 < bound <= WORD
    requires n <= WORD && Refused(state, 0, n, bound)
    ensures n <= WORD % bound
  {
    hide Draw;
    var words := DrawnWords(state, n);
    DrawnWordsAreDistinct(state, n);
    DrawnWordsAre(state, n);
    assert words <= Range(Limit(bound), WORD);
    SubsetSize(words, Range(Limit(bound), WORD));
  }

  /** The words shown by the first n draws. */
  ghost function DrawnWords(state: Word, n: nat): set<int> {
    if n == 0 then {} else DrawnWords(state, n - 1) + {Draw(state, n - 1)}
  }

  lemma {:induction false} DrawnWordsAreDistinct(state: Word, n: nat)
    requires n <= WORD
    ensures |DrawnWords(state, n)| == n
  {
    hide Draw;
    if n != 0 {
      DrawnWordsAreDistinct(state, n - 1);
      LastDrawIsNew(state, n - 1);
      DrawnWordsAre(state, n - 1);
    }
  }

  lemma {:induction false} DrawnWordsAre(state: Word, n: nat)
    ensures forall w :: w in DrawnWords(state, n) ==> DrawnBefore(state, n, w)
  {
    hide Draw;
    if n != 0 {
      DrawnWordsAre(state, n - 1);
      forall w | w in DrawnWords(state, n)
        ensures DrawnBefore(state, n, w)
      {
        if w in DrawnWords(state, n - 1) {
          var k :| 0 <= k < n - 1 && Draw(state, k) == w;
        } else {
          assert w == Draw(state, n - 1);
        }
      }
    }
  }

  ghost predicate DrawnBefore(state: Word, n: nat, w: int) {
    exists k :: 0 <= k < n && Draw(state, k) == w
  }

  lemma LastDrawIsNew(state: Word, n: nat)
    requires n < WORD
    ensures forall k :: 0 <= k < n ==> Draw(state, k) != Draw(state, n)
  {
    hide Draw, PositionOf;
    forall k | 0 <= k < n
      ensures Draw(state, k) != Draw(state, n)
    {
      FullPeriod(state, Draw(state, n), k);
      FullPeriod(state, Draw(state, n), n);
    }
  }

  /** The integers of a half-open interval. */
  ghost function Range(lo: int, hi: int): (s: set<int>)
    requires lo <= hi
    ensures |s| == hi - lo
    ensures forall k :: k in s <==> lo <= k < hi
    decreases hi - lo
  {
    if lo == hi then {} else Range(lo, hi - 1) + {hi - 1}
  }

  lemma {:induction false} PositionsCard(state: Word, words: set<Word>)
    ensures |set v | v in words :: PositionOf(state, v)| == |words|
  {
    hide Draw, PositionOf;
    var image := set v | v in words :: PositionOf(state, v);
    if words == {} {
      assert image == {};
    } else {
      var w: Word :| w in words;
      var rest := words - {w};
      PositionsCard(state, rest);
      var image' := set v | v in rest :: PositionOf(state, v);
      assert image == image' + {PositionOf(state, w)};
      if PositionOf(state, w) in image' {
        var v: Word :| v in rest && PositionOf(state, v) == PositionOf(state, w);
        FullPeriod(state, v, PositionOf(state, v));
        FullPeriod(state, w, PositionOf(state, w));
        assert false;
      }
    }
  }

  /** Over one whole period, each residue below the bound is accepted exactly floor(2^64 / bound) times. */
  lemma AcceptedDrawsAreUniform(state: Word, bound: int, residue: nat)
    requires 0 < bound <= WORD && residue < bound
    ensures |set k: Word | Draw(state, k) < Limit(bound) && Draw(state, k) % bound == residue|
         == WORD / bound
  {
    hide Draw, PositionOf;
    var positions := set k: Word | Draw(state, k) < Limit(bound) && Draw(state, k) % bound == residue;
    LimitIsMultiple(bound);
    var words := Residues(bound, residue, WORD / bound);
    var image := set v | v in words :: PositionOf(state, v);
    PositionsCard(state, words);
    forall k | k in positions
      ensures k in image
    {
      FullPeriod(state, Draw(state, k), k);
      assert Draw(state, k) in words;
    }
    forall v | v in words
      ensures PositionOf(state, v) in positions
    {
      FullPeriod(state, v, PositionOf(state, v));
    }
    assert positions == image;
  }

  /** The q words below q * bound that leave the given residue. */
  ghost function Residues(bound: int, residue: nat, q: nat): (s: set<Word>)
    requires 0 <= residue < bound && q * bound <= WORD
    ensures |s| == q
    ensures forall v: Word :: v in s <==> v < q * bound && v % bound == residue
  {
    if q == 0 then {}
    else
      assert q * bound == (q - 1) * bound + bound;
      DivModUnique((q - 1) * bound + residue, q - 1, residue, bound);
      NextResidue(bound, residue, q);
      Residues(bound, residue, q - 1) + {(q - 1) * bound + residue}
  }

  lemma NextResidue(bound: int, residue: nat, q: nat)
    requires 0 <= residue < bound && 0 < q
    ensures forall v: int :: (q - 1) * bound <= v < q * bound && v % bound == residue ==> v == (q - 1) * bound + residue
  {
    forall v: int | (q - 1) * bound <= v < q * bound
      ensures v % bound == v - (q - 1) * bound
    {
      assert q * bound == (q - 1) * bound + bound;
      DivModUnique(v, q - 1, v - (q - 1) * bound, bound);
    }
  }

  /** One more refusal still leaves room for an accepted draw. */
  lemma RefusedNext(state: Word, n: nat, bound: int)
    requires 0 < bound <= WORD && n <= MaxRefused(bound)
    requires Refused(state, 0, n, bound) && Draw(state, n) >= Limit(bound)
    ensures n + 1 <= MaxRefused(bound) && Refused(state, 0, n + 1, bound)
  {
    hide Draw, Limit;
    RefusedRunIsShort(state, n + 1, bound);
  }

  /** Position of the first draw that is not refused, at most 2^64 mod bound draws away. */
  ghost function AcceptedIndex(state: Word, bound: int, from: nat): (k: nat)
    requires 0 < bound <= WORD && from <= WORD % bound && Refused(state, 0, from, bound)
    ensures k <= WORD % bound && Refused(state, 0, k, bound) && Draw(state, k) < Limit(bound)
    decreases WORD % bound - from
  {
    if Draw(state, from) < Limit(bound) then from
    else
      RefusedNext(state, from, bound);
      AcceptedIndex(state, bound, from + 1)
  }

  /** The value of the next bounded draw, and the state it leaves. */
  ghost function BelowValue(state: Word, bound: int): (v: nat)
    requires 0 < bound <= WORD
    ensures v < bound
  {
    Draw(state, AcceptedIndex(state, bound, 0)) % bound
  }

  ghost function BelowState(state: Word, bound: int): Word
    requires 0 < bound <= WORD
  {
    StateAfter(state, AcceptedIndex(state, bound, 0) + 1)
  }

  lemma FirstAcceptedIsUnique(state: Word, bound: int, k: nat)
    requires 0 < bound <= WORD && Refused(state, 0, k, bound) && Draw(state, k) < Limit(bound)
    ensures k == AcceptedIndex(state, bound, 0)
  {
    hide Draw, Limit;
    var j := AcceptedIndex(state, bound, 0);
    assert !(k < j) && !(j < k);
  }

  /** The last of `draws` draws is the first that is not refused, and gives the value and the state left. */
  ghost predicate FirstAccepted(state: Word, bound: int, draws: nat, value: nat, after: Word)
    requires 0 < bound <= WORD
  {
    && 1 <= draws <= WORD % bound + 1
    && Refused(state, 0, draws - 1, bound) && Draw(state, draws - 1) < Limit(bound)
    && value == Draw(state, draws - 1) % bound < bound
    && after == StateAfter(state, draws)
  }

  datatype Error = BadBound

  /** The generator object: one word of state advanced in place by every draw. */
  class SplitMix64 {
    var state: Word

    constructor (seed: int)
      ensures state == seed % WORD
    {
      state := seed % WORD;
    }

    method NextU64() returns (value: Word)
      modifies this
      ensures value == Draw(old(state), 0)
      ensures state == StateAfter(old(state), 1)
    {
      state := (state + GOLDEN_GAMMA) % WORD;
      value := state;
      value := XorShift(value, 30) * MIX_MULTIPLIER_1 % WORD;
      value := XorShift(value, 27) * MIX_MULTIPLIER_2 % WORD;
      value := XorShift(value, 31);
    }

    /**
     Draws until a word falls below the limit.  The loop has no bound of its own; it ends because
     refused words are distinct, so at most (2^64 mod bound) + 1 draws are made.
     */
    method Below(bound: int) returns (r: Result<nat, Error>, ghost draws: nat)
      modifies this
      ensures r.Ok? <==> 0 < bound <= WORD
      ensures r.Err? ==> state == old(state)
      ensures r.Ok? ==> FirstAccepted(old(state), bound, draws, r.value, state)
      ensures r.Ok? ==> r.value == BelowValue(old(state), bound) && state == BelowState(old(state), bound)
    {
      draws := 0;
      if bound <= 0 || bound > WORD {
        return Err(BadBound), 0;
      }
      hide Draw, StateAfter, Refused, BelowValue, BelowState, Limit, FirstAccepted, MaxRefused;
      var limit := Limit(bound);
      StateAdvances(state, 0);
      NothingRefused(state, bound);
      while true
        invariant draws <= MaxRefused(bound)
        invariant Refused(old(state), 0, draws, bound)
        invariant state == StateAfter(old(state), draws)
        decreases MaxRefused(bound) - draws
      {
        NextDraw(old(state), draws);
        var value := NextU64();
        draws := draws + 1;
        if value < limit {
          AcceptedDraw(old(state), bound, draws - 1);
          return Ok(value % bound), draws;
        }
        RefusedNext(old(state), draws - 1, bound);
      }
    }
  }

  lemma NothingRefused(state: Word, bound: int)
    requires 0 < bound <= WORD
    ensures Refused(state, 0, 0, bound)
  {
  }

  lemma AcceptedDraw(state: Word, bound: int, k: nat)
    requires 0 < bound <= WORD && k <= MaxRefused(bound) && Refused(state, 0, k, bound) && Draw(state, k) < Limit(bound)
    ensures Draw(state, k) % bound == BelowValue(state, bound) && StateAfter(state, k + 1) == BelowState(state, bound)
    ensures FirstAccepted(state, bound, k + 1, Draw(state, k) % bound, StateAfter(state, k + 1))
  {
    hide Draw, Limit, StateAfter;
    FirstAcceptedIsUnique(state, bound, k);
  }
}
